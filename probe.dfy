/** The connectivity probe (main.py:241-279) as an oracle: which candidates
    answer, and with what latency in whole milliseconds. */
module Probe {
  import opened Common
  import opened Values
  import opened Dedup

  /** `{'config': config_str, 'latency': latency}`. */
  datatype LiveItem = LiveItem(config: string, latency: nat)

  /** `check_connectivity(host, port, timeout)` (main.py:241-249): the
      `connect` oracle gives the truncated milliseconds a TCP connection took,
      or None where the source gets -1. A host that is not text cannot be
      connected to: the socket layer rejects it and the probe reports -1. */
  function Latency(connect: (string, int) -> Option<nat>, k: Candidate): (r: Option<nat>)
    ensures r.Some? ==> k.host.JStr? && r == connect(k.host.s, k.port)
    ensures k.host.JStr? ==> r == connect(k.host.s, k.port)
    ensures !k.host.JStr? ==> r.None?
  {
    if k.host.JStr? then connect(k.host.s, k.port) else None
  }

  /** The results the workers append (main.py:251-264), listed in candidate
      order; the source appends them in completion order, which only a
      reordering of this list can be. */
  function ProbeSuccesses(connect: (string, int) -> Option<nat>, cands: seq<Candidate>): (r: seq<LiveItem>)
    ensures |r| <= |cands|
  {
    if cands == [] then []
    else
      var n := |cands| - 1;
      ProbeSuccesses(connect, cands[..n])
      + (match Latency(connect, cands[n]) case Some(l) => [LiveItem(cands[n].config, l)] case None => [])
  }

  /** A live item is exactly a candidate that answered, with its latency. */
  lemma {:induction false} ProbeSuccessesAnswered(connect: (string, int) -> Option<nat>, cands: seq<Candidate>, x: LiveItem)
    ensures x in ProbeSuccesses(connect, cands) <==>
      exists i :: 0 <= i < |cands| && cands[i].config == x.config && Latency(connect, cands[i]) == Some(x.latency)
  {
    if cands != [] {
      var n := |cands| - 1;
      var pre := cands[..n];
      var tail := match Latency(connect, cands[n]) case Some(l) => [LiveItem(cands[n].config, l)] case None => [];
      assert ProbeSuccesses(connect, cands) == ProbeSuccesses(connect, pre) + tail;
      assert x in tail <==> cands[n].config == x.config && Latency(connect, cands[n]) == Some(x.latency);
      ProbeSuccessesAnswered(connect, pre, x);
      if x in ProbeSuccesses(connect, pre) {
        var i :| 0 <= i < n && pre[i].config == x.config && Latency(connect, pre[i]) == Some(x.latency);
        assert cands[i] == pre[i];
      } else if x !in tail {
        forall i | 0 <= i < |cands|
          ensures !(cands[i].config == x.config && Latency(connect, cands[i]) == Some(x.latency))
        {
          if i < n { assert cands[i] == pre[i]; }
        }
      }
    }
  }
}
