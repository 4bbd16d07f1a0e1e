/** The renaming loop of main() (main.py:318-346): every live descriptor
    gets its base name, made unique by a per-name counter, written into it. */
module Renaming {
  import opened Common
  import opened Library
  import opened Descriptor
  import opened Naming
  import opened Rewrite
  import opened Probe
  import PyText

  /** `wrapper.is_valid()` on an item's descriptor. */
  function ItemValid(lib: Lib): LiveItem -> bool
  {
    (x: LiveItem) => IsValid(Wrap(lib, x.config))
  }

  /** The live items whose descriptor is valid, in order. */
  function ValidItems(lib: Lib, live: seq<LiveItem>): seq<LiveItem>
  {
    Filter(ItemValid(lib), live)
  }

  /** The base names of the items, in order. */
  function Bases(lib: Lib, items: seq<LiveItem>): (r: seq<string>)
    ensures |r| == |items|
  {
    seq(|items|, i requires 0 <= i < |items| => BaseName(lib, Wrap(lib, items[i].config), items[i].latency))
  }

  /** What the loop produces: the valid items, in order, each with its
      descriptor renamed to its unique final name and its latency kept. */
  function RenamedSpec(lib: Lib, live: seq<LiveItem>): (r: seq<LiveItem>)
    ensures |r| == |ValidItems(lib, live)|
  {
    var v := ValidItems(lib, live);
    Relabel(lib, v, FinalNames(Bases(lib, v)))
  }

  /** Each item renamed to the name at its position. */
  function Relabel(lib: Lib, v: seq<LiveItem>, names: seq<string>): (r: seq<LiveItem>)
    requires |names| == |v|
    ensures |r| == |v|
  {
    seq(|v|, i requires 0 <= i < |v| => LiveItem(RenameConfig(lib, v[i].config, names[i]), v[i].latency))
  }

  lemma RelabelAppend(lib: Lib, v: seq<LiveItem>, names: seq<string>, item: LiveItem, name: string)
    requires |names| == |v|
    ensures Relabel(lib, v + [item], names + [name])
         == Relabel(lib, v, names) + [LiveItem(RenameConfig(lib, item.config, name), item.latency)]
  {
  }

  /** The counter holds, for every base name met so far, how often it was met. */
  ghost predicate CounterMatches(counter: map<string, nat>, bases: seq<string>)
  {
    counter.Keys == (set b | b in bases) && forall b :: b in counter ==> counter[b] == Count(bases, b)
  }

  /** The renaming loop (main.py:318-346), with `name_counter` as a map. */
  method RenameAll(lib: Lib, live: seq<LiveItem>) returns (renamed: seq<LiveItem>)
    ensures renamed == RenamedSpec(lib, live)
  {
    renamed := [];
    var counter: map<string, nat> := map[];
    ghost var v: seq<LiveItem> := [];
    ghost var bases: seq<string> := [];
    assert live[..0] == [];
    for n := 0 to |live|
      invariant v == ValidItems(lib, live[..n]) && bases == Bases(lib, v)
      invariant CounterMatches(counter, bases)
      invariant renamed == Relabel(lib, v, FinalNames(bases))
    {
      var item := live[n];
      var w := Wrap(lib, item.config);
      if IsValid(w) {
        var base := BaseName(lib, w, item.latency);
        var finalName;
        counter, finalName := NextName(counter, base, bases);
        RenameStep(lib, live, n, v, bases, renamed, finalName);
        renamed := renamed + [LiveItem(RenameConfig(lib, item.config, finalName), item.latency)];
        v, bases := v + [item], bases + [base];
      } else {
        SkipStep(lib, live, n, v);
      }
    }
    assert live[..|live|] == live;
  }

  /** One use of `name_counter` (main.py:327-335): a name met before has its
      count bumped and the count appended; a new name starts at 1 and stays
      bare. The result is the final name of the appended base name. */
  method NextName(counter: map<string, nat>, base: string, ghost bases: seq<string>)
    returns (next: map<string, nat>, name: string)
    requires CounterMatches(counter, bases)
    ensures CounterMatches(next, bases + [base])
    ensures name == FinalNames(bases + [base])[|bases|]
  {
    CounterStep(counter, bases, base);
    FinalNameStep(bases, base);
    CountAppend(bases, base, base);
    if base in counter {
      next := counter[base := counter[base] + 1];
      name := base + "_" + PyText.Decimal(next[base]);
    } else {
      next := counter[base := 1];
      name := base;
    }
  }

  /** A valid item extends the valid items, their base names and the
      renamed list by one. */
  lemma RenameStep(lib: Lib, live: seq<LiveItem>, n: nat, v: seq<LiveItem>, bases: seq<string>,
                   renamed: seq<LiveItem>, name: string)
    requires n < |live| && v == ValidItems(lib, live[..n]) && bases == Bases(lib, v)
    requires renamed == Relabel(lib, v, FinalNames(bases))
    requires IsValid(Wrap(lib, live[n].config))
    requires name == FinalNames(bases + [BaseName(lib, Wrap(lib, live[n].config), live[n].latency)])[|bases|]
    ensures ValidItems(lib, live[..n + 1]) == v + [live[n]]
    ensures Bases(lib, v + [live[n]]) == bases + [BaseName(lib, Wrap(lib, live[n].config), live[n].latency)]
    ensures renamed + [LiveItem(RenameConfig(lib, live[n].config, name), live[n].latency)]
         == Relabel(lib, v + [live[n]], FinalNames(bases + [BaseName(lib, Wrap(lib, live[n].config), live[n].latency)]))
  {
    var item := live[n];
    var base := BaseName(lib, Wrap(lib, item.config), item.latency);
    FilterStep(ItemValid(lib), live, n);
    assert ItemValid(lib)(item);
    BasesStep(lib, v, item);
    FinalNamesAppend(bases, base);
    RelabelAppend(lib, v, FinalNames(bases), item, name);
  }

  /** An invalid item is skipped. */
  lemma SkipStep(lib: Lib, live: seq<LiveItem>, n: nat, v: seq<LiveItem>)
    requires n < |live| && v == ValidItems(lib, live[..n])
    requires !IsValid(Wrap(lib, live[n].config))
    ensures ValidItems(lib, live[..n + 1]) == v
  {
    FilterStep(ItemValid(lib), live, n);
    assert !ItemValid(lib)(live[n]);
  }

  /** Appending an item appends its base name. */
  lemma BasesStep(lib: Lib, v: seq<LiveItem>, item: LiveItem)
    ensures Bases(lib, v + [item]) == Bases(lib, v) + [BaseName(lib, Wrap(lib, item.config), item.latency)]
  {
  }

  /** The final names of a prefix do not depend on what follows. */
  lemma FinalNamesAppend(bases: seq<string>, b: string)
    ensures FinalNames(bases + [b]) == FinalNames(bases) + [FinalNames(bases + [b])[|bases|]]
  {
    var bs := bases + [b];
    forall k | 0 <= k < |bases| ensures FinalName(bs, k) == FinalName(bases, k) {
      assert bs[..k + 1] == bases[..k + 1];
    }
  }

  /** Count after appending one name. */
  lemma CountAppend(bases: seq<string>, base: string, b: string)
    ensures Count(bases + [base], b) == Count(bases, b) + (if b == base then 1 else 0)
  {
    assert (bases + [base])[..|bases|] == bases;
  }

  /** One step of `name_counter`: the counter of the new name is bumped or
      set to 1, and it then matches the longer list. */
  lemma CounterStep(counter: map<string, nat>, bases: seq<string>, base: string)
    requires CounterMatches(counter, bases)
    ensures var c := counter[base := if base in counter then counter[base] + 1 else 1];
      CounterMatches(c, bases + [base]) && c[base] == Count(bases + [base], base)
  {
    var c := counter[base := if base in counter then counter[base] + 1 else 1];
    var bs := bases + [base];
    CountZero(bases, base);
    CountAppend(bases, base, base);
    forall b | b in c ensures c[b] == Count(bs, b) {
      CountAppend(bases, base, b);
    }
    assert c.Keys == (set b | b in bs);
  }

  /** The final name of an appended base name: bare on its first occurrence,
      otherwise suffixed with its new count. */
  lemma FinalNameStep(bases: seq<string>, base: string)
    ensures FinalNames(bases + [base])[|bases|]
         == if base in bases then base + "_" + PyText.Decimal(Count(bases, base) + 1) else base
  {
    var bs := bases + [base];
    assert bs[..|bases| + 1] == bs;
    CountAppend(bases, base, base);
    CountZero(bases, base);
    if base !in bases {
      assert forall j :: 0 <= j < |bases| ==> bs[j] != base by {
        forall j | 0 <= j < |bases| ensures bs[j] != base { assert bs[j] == bases[j]; }
      }
    }
  }

  /** All names the loop writes are pairwise distinct. */
  lemma RenamedNamesDistinct(lib: Lib, live: seq<LiveItem>)
    ensures var names := FinalNames(Bases(lib, ValidItems(lib, live)));
      forall i, j :: 0 <= i < j < |names| ==> names[i] != names[j]
  {
    var v := ValidItems(lib, live);
    var bases := Bases(lib, v);
    forall k | 0 <= k < |bases| ensures EndsInNonDigit(bases[k]) {
      assert ItemValid(lib)(v[k]);
      BaseNameEndsInLatency(lib, Wrap(lib, v[k].config), v[k].latency);
    }
    FinalNamesDistinct(bases);
  }

  /** A renamed vmess descriptor carries its unique name in `ps`, given that
      `json.loads` reads back what `json.dumps` wrote. */
  lemma RenamedVmessCarriesName(lib: Lib, live: seq<LiveItem>, i: nat)
    requires i < |ValidItems(lib, live)|
    requires var c := ValidItems(lib, live)[i].config;
      DetectType(c) == Some(Vmess) && ConfigParse(lib, c).Some? && ConfigParse(lib, c).value != map[]
    requires var c := ValidItems(lib, live)[i].config;
      var v := Values.JObj(RenamedPayload(ConfigParse(lib, c).value, FinalNames(Bases(lib, ValidItems(lib, live)))[i]));
      lib.jsonLoads(lib.utf8Encode(lib.jsonDumps(v))) == Some(v)
    ensures var r := RenamedSpec(lib, live)[i].config;
      (ConfigParse(lib, r).Some? && "ps" in ConfigParse(lib, r).value
       && ConfigParse(lib, r).value["ps"] == Values.JStr(FinalNames(Bases(lib, ValidItems(lib, live)))[i]))
    ensures RenamedSpec(lib, live)[i].latency == ValidItems(lib, live)[i].latency
  {
    var v := ValidItems(lib, live);
    var name := FinalNames(Bases(lib, v))[i];
    assert RenamedSpec(lib, live)[i] == LiveItem(RenameConfig(lib, v[i].config, name), v[i].latency);
    VmessRenameRoundTrip(lib, v[i].config, name);
  }
}
