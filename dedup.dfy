/** The deduplication pass of main() (main.py:303-313): one probe candidate
    per endpoint text `"<server>:<port>"`, the first descriptor for it
    winning. */
module Dedup {
  import opened Common
  import opened Values
  import opened Library
  import opened Descriptor
  import PyText

  /** `{'host': server, 'port': port, 'config': config}`. */
  datatype Candidate = Candidate(host: Json, port: int, config: string)

  /** Python's `str(v)` as an f-string shows it; floats and containers go to
      the library's printer. */
  function Show(lib: Lib, v: Json): string
  {
    match v
    case JNull => "None"
    case JBool(b) => if b then "True" else "False"
    case JNum(n) => PyText.IntText(n)
    case JFloat(f) => lib.floatText(f)
    case JStr(t) => t
    case JArr(_) => lib.containerText(v)
    case JObj(_) => lib.containerText(v)
  }

  /** `f"{server}:{port}"`. */
  function EndpointKey(lib: Lib, host: Json, port: int): string
  {
    Show(lib, host) + ":" + PyText.IntText(port)
  }

  /** Two text hosts with positive ports give the same endpoint text only
      when host and port are the same: the port's digits hold no `:`, so the
      last `:` splits the key. */
  lemma EndpointKeyInjective(lib: Lib, h1: string, p1: int, h2: string, p2: int)
    requires p1 > 0 && p2 > 0
    ensures EndpointKey(lib, JStr(h1), p1) == EndpointKey(lib, JStr(h2), p2) <==> h1 == h2 && p1 == p2
  {
    if EndpointKey(lib, JStr(h1), p1) == EndpointKey(lib, JStr(h2), p2) {
      var d1, d2 := PyText.Decimal(p1), PyText.Decimal(p2);
      assert ':' !in d1 && ':' !in d2;
      PyText.SplitAtLastSeparator(h1, d1, h2, d2, ':');
      PyText.DecimalInjective(p1, p2);
    }
  }

  /** What the pass sees of one descriptor (main.py:305-308): the probe
      candidate when the descriptor is valid, its server true and its port
      positive, and nothing otherwise. */
  function Entry(lib: Lib, c: string): (r: Option<Candidate>)
    ensures r.Some? <==> IsValid(Wrap(lib, c)) && Truthy(Server(Wrap(lib, c))) && Port(lib, Wrap(lib, c)) > 0
    ensures r.Some? ==> r.value == Candidate(Server(Wrap(lib, c)), Port(lib, Wrap(lib, c)), c)
  {
    var w := Wrap(lib, c);
    if IsValid(w) && Truthy(Server(w)) && Port(lib, w) > 0 then Some(Candidate(Server(w), Port(lib, w), c)) else None
  }

  function Entries(lib: Lib, cs: seq<string>): (r: seq<Option<Candidate>>)
    ensures |r| == |cs| && forall i :: 0 <= i < |cs| ==> r[i] == Entry(lib, cs[i])
  {
    seq(|cs|, i requires 0 <= i < |cs| => Entry(lib, cs[i]))
  }

  /** The endpoint text of a candidate. The pass below is stated for any
      key function, so that its proofs do not unfold the text. */
  function KeyOf(lib: Lib): Candidate -> string
  {
    (k: Candidate) => EndpointKey(lib, k.host, k.port)
  }

  /** The endpoint texts of the candidates among `es`. */
  function KeysOf(key: Candidate -> string, es: seq<Option<Candidate>>): set<string>
  {
    set i | 0 <= i < |es| && es[i].Some? :: key(es[i].value)
  }

  /** `es[j]` is a candidate and no earlier candidate has its endpoint text. */
  predicate FirstOccurrence(key: Candidate -> string, es: seq<Option<Candidate>>, j: nat)
    requires j < |es|
  {
    es[j].Some? && forall i :: 0 <= i < j && es[i].Some? ==> key(es[i].value) != key(es[j].value)
  }

  /** The candidates the pass keeps, in input order: one for each first
      occurrence of an endpoint text. */
  function Kept(key: Candidate -> string, es: seq<Option<Candidate>>): (r: seq<Candidate>)
    ensures |r| <= |es|
  {
    if es == [] then []
    else
      var n := |es| - 1;
      Kept(key, es[..n]) + (if FirstOccurrence(key, es, n) then [es[n].value] else [])
  }

  function DedupSpec(lib: Lib, cs: seq<string>): seq<Candidate>
  {
    Kept(KeyOf(lib), Entries(lib, cs))
  }

  /** The deduplication loop (main.py:303-313), with `seen_host_ports` as a
      set of endpoint texts. */
  method Deduplicate(lib: Lib, configs: seq<string>) returns (unique: seq<Candidate>)
    ensures unique == DedupSpec(lib, configs)
  {
    unique := [];
    var seen: set<string> := {};
    ghost var es := Entries(lib, configs);
    for n := 0 to |configs|
      invariant unique == Kept(KeyOf(lib), es[..n])
      invariant seen == KeysOf(KeyOf(lib), es[..n])
    {
      var config := configs[n];
      var w := Wrap(lib, config);
      ghost var pre, next := es[..n], es[..n + 1];
      assert next[..n] == pre && next[n] == Entry(lib, config);
      if IsValid(w) {
        var server, port := Server(w), Port(lib, w);
        if Truthy(server) && port > 0 {
          var key := EndpointKey(lib, server, port);
          if key !in seen {
            KeepStep(KeyOf(lib), next, Candidate(server, port, config));
            seen := seen + {key};
            unique := unique + [Candidate(server, port, config)];
          } else {
            DropStep(KeyOf(lib), next);
          }
        } else {
          DropStep(KeyOf(lib), next);
        }
      } else {
        DropStep(KeyOf(lib), next);
      }
    }
    assert es[..|configs|] == es;
  }

  /** A candidate with an endpoint text not seen before is kept, and its
      text is seen from then on. */
  lemma KeepStep(key: Candidate -> string, next: seq<Option<Candidate>>, k: Candidate)
    requires next != [] && next[|next| - 1] == Some(k)
    requires key(k) !in KeysOf(key, next[..|next| - 1])
    ensures Kept(key, next) == Kept(key, next[..|next| - 1]) + [k]
    ensures KeysOf(key, next) == KeysOf(key, next[..|next| - 1]) + {key(k)}
  {
    var n := |next| - 1;
    forall i | 0 <= i < n && next[i].Some? ensures key(next[i].value) != key(k) {
      assert next[..n][i] == next[i];
    }
    assert FirstOccurrence(key, next, n);
    KeysStep(key, next);
  }

  /** An entry that is no candidate, or whose endpoint text was seen
      before, is dropped and adds no text. */
  lemma DropStep(key: Candidate -> string, next: seq<Option<Candidate>>)
    requires next != []
    requires next[|next| - 1].Some? ==> key(next[|next| - 1].value) in KeysOf(key, next[..|next| - 1])
    ensures Kept(key, next) == Kept(key, next[..|next| - 1])
    ensures KeysOf(key, next) == KeysOf(key, next[..|next| - 1])
  {
    var n := |next| - 1;
    if next[n].Some? {
      var i :| 0 <= i < n && next[..n][i].Some? && key(next[..n][i].value) == key(next[n].value);
      assert next[..n][i] == next[i];
    }
    KeysStep(key, next);
  }

  /** Adding one entry adds its endpoint text, if it is a candidate. */
  lemma KeysStep(key: Candidate -> string, next: seq<Option<Candidate>>)
    requires next != []
    ensures var n := |next| - 1;
      KeysOf(key, next) == KeysOf(key, next[..n]) + (if next[n].Some? then {key(next[n].value)} else {})
  {
    var n := |next| - 1;
    var pre := next[..n];
    forall t | t in KeysOf(key, next)
      ensures t in KeysOf(key, pre) || (next[n].Some? && t == key(next[n].value)) {
      var i :| 0 <= i < |next| && next[i].Some? && key(next[i].value) == t;
      if i < n { assert pre[i] == next[i]; }
    }
    forall t | t in KeysOf(key, pre) ensures t in KeysOf(key, next) {
      var i :| 0 <= i < n && pre[i].Some? && key(pre[i].value) == t;
      assert next[i] == pre[i];
    }
  }

  /** Every kept candidate comes from the input. */
  lemma {:induction false} KeptFromInput(key: Candidate -> string, es: seq<Option<Candidate>>)
    ensures forall i :: 0 <= i < |Kept(key, es)| ==> Some(Kept(key, es)[i]) in es
  {
    if es != [] {
      var n := |es| - 1;
      KeptFromInput(key, es[..n]);
      var u0, u := Kept(key, es[..n]), Kept(key, es);
      forall i | 0 <= i < |u| ensures Some(u[i]) in es {
        if i < |u0| {
          assert u[i] == u0[i] && Some(u0[i]) in es[..n];
        } else {
          assert u[i] == es[n].value;
        }
      }
    }
  }

  /** The input positions of the first occurrences, in input order. */
  function FirstPositions(key: Candidate -> string, es: seq<Option<Candidate>>): seq<nat>
  {
    if es == [] then []
    else
      var n := |es| - 1;
      FirstPositions(key, es[..n]) + (if FirstOccurrence(key, es, n) then [n] else [])
  }

  /** Being a first occurrence is decided by the prefix up to it. */
  lemma FirstOccurrencePrefix(key: Candidate -> string, es: seq<Option<Candidate>>, n: nat, j: nat)
    requires j < n <= |es|
    ensures FirstOccurrence(key, es[..n], j) <==> FirstOccurrence(key, es, j)
  {
    assert forall i :: 0 <= i <= j ==> es[..n][i] == es[i];
  }

  /** The pass keeps exactly the first occurrences, each at most once, in the
      order they come in the input. */
  lemma {:induction false} KeptInOrder(key: Candidate -> string, es: seq<Option<Candidate>>)
    ensures var r, u := FirstPositions(key, es), Kept(key, es);
      && |r| == |u|
      && (forall i :: 0 <= i < |r| ==> r[i] < |es| && FirstOccurrence(key, es, r[i]) && es[r[i]] == Some(u[i]))
      && (forall i, j :: 0 <= i < j < |r| ==> r[i] < r[j])
      && (forall j :: 0 <= j < |es| && FirstOccurrence(key, es, j) ==> j in r)
  {
    if es != [] {
      var n := |es| - 1;
      KeptInOrder(key, es[..n]);
      var r0, u0 := FirstPositions(key, es[..n]), Kept(key, es[..n]);
      var r, u := FirstPositions(key, es), Kept(key, es);
      assert r == r0 + (if FirstOccurrence(key, es, n) then [n] else []);
      assert u == u0 + (if FirstOccurrence(key, es, n) then [es[n].value] else []);
      forall i | 0 <= i < |r|
        ensures r[i] < |es| && FirstOccurrence(key, es, r[i]) && es[r[i]] == Some(u[i])
      {
        if i < |r0| {
          assert r[i] == r0[i] && u[i] == u0[i];
          FirstOccurrencePrefix(key, es, n, r0[i]);
          assert es[..n][r0[i]] == es[r0[i]];
        }
      }
      forall j | 0 <= j < |es| && FirstOccurrence(key, es, j) ensures j in r {
        if j < n {
          FirstOccurrencePrefix(key, es, n, j);
          assert j in r0;
        }
      }
    }
  }

  /** The deduplicated list keeps, in input order, exactly the descriptors
      whose endpoint text no earlier qualifying descriptor had. */
  lemma DedupFirstInOrder(lib: Lib, cs: seq<string>)
    ensures var es, r, u := Entries(lib, cs), FirstPositions(KeyOf(lib), Entries(lib, cs)), DedupSpec(lib, cs);
      && |r| == |u|
      && (forall i :: 0 <= i < |r| ==> r[i] < |cs| && FirstOccurrence(KeyOf(lib), es, r[i]) && u[i].config == cs[r[i]])
      && (forall i, j :: 0 <= i < j < |r| ==> r[i] < r[j])
      && (forall j :: 0 <= j < |cs| && FirstOccurrence(KeyOf(lib), es, j) ==> j in r)
  {
    var es := Entries(lib, cs);
    KeptInOrder(KeyOf(lib), es);
    var r, u := FirstPositions(KeyOf(lib), es), DedupSpec(lib, cs);
    forall i | 0 <= i < |r| ensures u[i].config == cs[r[i]] {
      assert es[r[i]] == Entry(lib, cs[r[i]]);
    }
  }

  /** Every candidate the pass keeps is what the pass sees of one of the
      input descriptors, so (by `Entry`) a valid descriptor with a true server
      and a positive port. */
  lemma DedupKeepsQualifying(lib: Lib, cs: seq<string>)
    ensures forall i :: 0 <= i < |DedupSpec(lib, cs)| ==> Some(DedupSpec(lib, cs)[i]) in Entries(lib, cs)
  {
    var es := Entries(lib, cs);
    KeptFromInput(KeyOf(lib), es);
  }

  /** A candidate the pass sees comes from a valid descriptor of the input;
      its host is that descriptor's server, which is true, and its port the
      descriptor's port, which is positive. */
  lemma EntryFromInput(lib: Lib, cs: seq<string>, k: Candidate)
    requires Some(k) in Entries(lib, cs)
    ensures k.config in cs && IsValid(Wrap(lib, k.config)) && Truthy(k.host) && k.port > 0
    ensures k.host == Server(Wrap(lib, k.config)) && k.port == Port(lib, Wrap(lib, k.config))
  {
    var es := Entries(lib, cs);
    var j :| 0 <= j < |es| && es[j] == Some(k);
    assert Entry(lib, cs[j]) == Some(k);
  }

  /** The endpoint texts of a list of candidates. */
  function Keys(key: Candidate -> string, u: seq<Candidate>): (r: seq<string>)
    ensures |r| == |u| && forall i :: 0 <= i < |u| ==> r[i] == key(u[i])
  {
    seq(|u|, i requires 0 <= i < |u| => key(u[i]))
  }

  /** The kept candidates have pairwise different endpoint texts. */
  lemma {:induction false} KeptKeysDistinct(key: Candidate -> string, es: seq<Option<Candidate>>)
    ensures Distinct(Keys(key, Kept(key, es)))
  {
    if es != [] {
      var n := |es| - 1;
      KeptKeysDistinct(key, es[..n]);
      if FirstOccurrence(key, es, n) {
        KeptFromInput(key, es[..n]);
        var u0 := Kept(key, es[..n]);
        var ks0, ks := Keys(key, u0), Keys(key, Kept(key, es));
        assert ks == ks0 + [key(es[n].value)];
        forall i | 0 <= i < |u0| ensures ks0[i] != key(es[n].value) {
          assert Some(u0[i]) in es[..n];
          var a :| 0 <= a < n && es[..n][a] == Some(u0[i]);
          assert es[a] == Some(u0[i]);
        }
        DistinctSnoc(ks0, key(es[n].value));
      } else {
        assert Kept(key, es) == Kept(key, es[..n]);
      }
    }
  }

  /** The endpoint texts of the kept candidates are exactly those of all
      candidates: every endpoint is probed once. */
  lemma {:induction false} KeptCoversKeys(key: Candidate -> string, es: seq<Option<Candidate>>)
    ensures (set k | k in Keys(key, Kept(key, es))) == KeysOf(key, es)
  {
    if es != [] {
      var n := |es| - 1;
      var pre := es[..n];
      KeptCoversKeys(key, pre);
      KeysStep(key, es);
      var ks0, ks := Keys(key, Kept(key, pre)), Keys(key, Kept(key, es));
      if FirstOccurrence(key, es, n) {
        assert ks == ks0 + [key(es[n].value)];
      } else {
        assert ks == ks0;
        if es[n].Some? {
          var i :| 0 <= i < n && es[i].Some? && key(es[i].value) == key(es[n].value);
          assert pre[i] == es[i];
        }
      }
    }
  }

  /** The pass keeps one candidate per distinct endpoint text of the
      qualifying descriptors, no two with the same endpoint text. */
  lemma DedupSpecProperties(lib: Lib, cs: seq<string>)
    ensures var ks := Keys(KeyOf(lib), DedupSpec(lib, cs));
      && Distinct(ks)
      && (set k | k in ks) == KeysOf(KeyOf(lib), Entries(lib, cs))
      && |DedupSpec(lib, cs)| == |KeysOf(KeyOf(lib), Entries(lib, cs))|
  {
    var ks := Keys(KeyOf(lib), DedupSpec(lib, cs));
    KeptKeysDistinct(KeyOf(lib), Entries(lib, cs));
    KeptCoversKeys(KeyOf(lib), Entries(lib, cs));
    DistinctCard(ks);
  }

  /** `ks` has no element twice. */
  predicate Distinct<T(==)>(ks: seq<T>)
  {
    forall i, j :: 0 <= i < j < |ks| ==> ks[i] != ks[j]
  }

  /** Appending an element that is not in a list without repeats gives a
      list without repeats. */
  lemma DistinctSnoc<T>(ks: seq<T>, x: T)
    requires Distinct(ks)
    requires forall i :: 0 <= i < |ks| ==> ks[i] != x
    ensures Distinct(ks + [x])
  {
    var r := ks + [x];
    forall i, j | 0 <= i < j < |r| ensures r[i] != r[j] {
      if j < |ks| { assert r[i] == ks[i] && r[j] == ks[j]; }
    }
  }

  /** A list without repeats has as many distinct elements as it is long. */
  lemma {:induction false} DistinctCard<T>(ks: seq<T>)
    requires Distinct(ks)
    ensures |set k | k in ks| == |ks|
  {
    if ks != [] {
      var n := |ks| - 1;
      var v := ks[..n];
      DistinctCard(v);
      assert (set k | k in ks) == (set k | k in v) + {ks[n]} by {
        assert ks == v + [ks[n]];
      }
    }
  }
}
