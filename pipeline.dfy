/** One run of main() from the descriptor list to the output lists
    (main.py:303-397). */
module Pipeline {
  import opened Common
  import opened Library
  import opened Descriptor
  import opened Naming
  import opened Dedup
  import opened Probe
  import opened Renaming
  import opened Ranking
  import Findings

  /** What a run writes: the per-category files, the mixed and high-speed
      lists and the summary counts (the time stamp is left out). */
  datatype Report = Report(
    files: seq<(Scheme, seq<LiveItem>)>,
    mixed: seq<LiveItem>,
    highSpeed: seq<LiveItem>,
    totalScanned: nat,
    totalLive: nat,
    breakdown: map<Scheme, nat>)

  /** The probe results in the order the workers finished: any reordering of
      the answers of the deduplicated candidates. */
  ghost predicate ProbeOutcome(lib: Lib, connect: (string, int) -> Option<nat>, configs: seq<string>, live: seq<LiveItem>)
  {
    multiset(live) == multiset(ProbeSuccesses(connect, DedupSpec(lib, configs)))
  }

  /** main.py:303-397 on the descriptor list `configs`, given the live list
      the probe produced. */
  method RunBatch(lib: Lib, connect: (string, int) -> Option<nat>, configs: seq<string>, live: seq<LiveItem>)
    returns (report: Report)
    requires ProbeOutcome(lib, connect, configs, live)
    ensures var renamed := RenamedSpec(lib, live); var groups := GroupsOf(renamed);
      && report.files == FilesOf(groups, Present(groups))
      && report.mixed == SortByLatency(renamed)
      && report.highSpeed == SortByLatency(TopOf(groups, Present(groups)))
      && report.totalScanned == |configs|
      && report.totalLive == |renamed|
      && report.breakdown.Keys == groups.Keys && forall c :: c in report.breakdown ==> report.breakdown[c] == |groups[c]|
  {
    var renamed := RenameAll(lib, live);
    var groups := GroupByType(renamed);
    GroupsOfUnique(renamed, groups);
    var files, top, breakdown := RankCategories(groups);
    report := Report(files, SortByLatency(renamed), SortByLatency(top), |configs|, |renamed|, breakdown);
  }

  /** Every live item's descriptor is valid: it was a candidate, and only
      valid descriptors become candidates. */
  lemma LiveItemsValid(lib: Lib, connect: (string, int) -> Option<nat>, configs: seq<string>, live: seq<LiveItem>)
    requires ProbeOutcome(lib, connect, configs, live)
    ensures forall i :: 0 <= i < |live| ==> IsValid(Wrap(lib, live[i].config))
  {
    forall i | 0 <= i < |live| ensures IsValid(Wrap(lib, live[i].config)) {
      LiveItemAnswered(lib, connect, configs, live, live[i]);
    }
  }

  /** A live item answered as a candidate: its descriptor is valid and its
      server is non-empty text, since only a text host can be connected to. */
  lemma LiveItemAnswered(lib: Lib, connect: (string, int) -> Option<nat>, configs: seq<string>, live: seq<LiveItem>, x: LiveItem)
    requires ProbeOutcome(lib, connect, configs, live) && x in live
    ensures IsValid(Wrap(lib, x.config))
    ensures Server(Wrap(lib, x.config)).JStr? && Server(Wrap(lib, x.config)).s != []
  {
    var cands := DedupSpec(lib, configs);
    DedupKeepsQualifying(lib, configs);
    assert x in multiset(ProbeSuccesses(connect, cands));
    ProbeSuccessesAnswered(connect, cands, x);
    var j :| 0 <= j < |cands| && cands[j].config == x.config && Latency(connect, cands[j]) == Some(x.latency);
    EntryFromInput(lib, configs, cands[j]);
  }

  /** Naming a live descriptor never reaches the case where the country
      lookup as written raises: its server is always text, so the corrected
      lookup is the one the code performs. */
  lemma LiveCountryAgrees(lib: Lib, connect: (string, int) -> Option<nat>, configs: seq<string>, live: seq<LiveItem>)
    requires ProbeOutcome(lib, connect, configs, live)
    ensures forall i :: 0 <= i < |live| ==> var h := Server(Wrap(lib, live[i].config));
      Findings.CountryCodeAsWritten(lib, h) == Returned(CountryCode(lib, h))
  {
    forall i | 0 <= i < |live|
      ensures var h := Server(Wrap(lib, live[i].config));
        Findings.CountryCodeAsWritten(lib, h) == Returned(CountryCode(lib, h))
    {
      LiveItemAnswered(lib, connect, configs, live, live[i]);
    }
  }

  /** Every live descriptor is kept and renamed, and there are no more of
      them than descriptors scanned. */
  lemma RunKeepsAll(lib: Lib, connect: (string, int) -> Option<nat>, configs: seq<string>, live: seq<LiveItem>)
    requires ProbeOutcome(lib, connect, configs, live)
    ensures ValidItems(lib, live) == live
    ensures |RenamedSpec(lib, live)| == |live| <= |configs|
  {
    LiveItemsValid(lib, connect, configs, live);
    forall i | 0 <= i < |live| ensures ItemValid(lib)(live[i]) { }
    FilterKeepsAll(ItemValid(lib), live);
    var cands := DedupSpec(lib, configs);
    assert |live| == |ProbeSuccesses(connect, cands)| by {
      assert |multiset(live)| == |multiset(ProbeSuccesses(connect, cands))|;
    }
  }

  /** The high-speed list: sorted, at most `TOP_N` per category, and made of
      categorised items. */
  lemma HighSpeedProperties(items: seq<LiveItem>)
    ensures var groups := GroupsOf(items); var high := SortByLatency(TopOf(groups, Present(groups)));
      && SortedByLatency(high) && |high| == TopCount(groups, Present(groups)) <= TopN * |Present(groups)|
      && forall x :: x in high ==> x in items && DetectType(x.config).Some?
  {
    var groups := GroupsOf(items);
    GroupsOfGrouped(items);
    var top := TopOf(groups, Present(groups));
    TopFromItems(items, groups);
    TopLength(groups, Present(groups));
    SortSorted(top);
    SortPermutes(top);
    forall x | x in SortByLatency(top) ensures x in items && DetectType(x.config).Some? {
      assert x in multiset(top);
    }
  }

  /** What a run promises: every live descriptor is kept and renamed, all
      names are distinct, the mixed list is all of them sorted by latency,
      and the high-speed list is the per-category fast lists merged and
      sorted. */
  lemma RunProperties(lib: Lib, connect: (string, int) -> Option<nat>, configs: seq<string>, live: seq<LiveItem>)
    requires ProbeOutcome(lib, connect, configs, live)
    ensures |RenamedSpec(lib, live)| == |live| <= |configs|
    ensures var names := FinalNames(Bases(lib, live)); forall i, j :: 0 <= i < j < |names| ==> names[i] != names[j]
    ensures var renamed := RenamedSpec(lib, live); var mixed := SortByLatency(renamed);
      SortedByLatency(mixed) && multiset(mixed) == multiset(renamed)
    ensures var renamed := RenamedSpec(lib, live);
      var groups := GroupsOf(renamed);
      var high := SortByLatency(TopOf(groups, Present(groups)));
      && SortedByLatency(high) && |high| == TopCount(groups, Present(groups)) <= TopN * |Present(groups)|
      && forall x :: x in high ==> x in renamed && DetectType(x.config).Some?
  {
    RunKeepsAll(lib, connect, configs, live);
    RenamedNamesDistinct(lib, live);
    SortSorted(RenamedSpec(lib, live));
    SortPermutes(RenamedSpec(lib, live));
    HighSpeedProperties(RenamedSpec(lib, live));
  }
}
