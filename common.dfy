/** Vocabulary shared by every module: optional values, bytes, and the
    outcome of Python code that may raise an exception no caller catches. */
module Common {

  datatype Option<T> = None | Some(value: T)

  /** One element of a Python `bytes` value. */
  newtype byte = x: int | 0 <= x < 256

  /** The outcome of a Python expression that can raise: `Raised` stands for an
      exception that propagates out of `main()` and ends the run. */
  datatype Outcome<T> = Returned(value: T) | Raised

  /** The items of `s` that satisfy `p`, in order: a list comprehension
      `[x for x in s if p(x)]`. */
  function Filter<T>(p: T -> bool, s: seq<T>): (r: seq<T>)
    ensures |r| <= |s|
    ensures forall i :: 0 <= i < |r| ==> p(r[i]) && r[i] in s
  {
    if s == [] then []
    else
      var n := |s| - 1;
      Filter(p, s[..n]) + (if p(s[n]) then [s[n]] else [])
  }

  lemma FilterStep<T>(p: T -> bool, s: seq<T>, n: nat)
    requires n < |s|
    ensures Filter(p, s[..n + 1]) == Filter(p, s[..n]) + (if p(s[n]) then [s[n]] else [])
  {
    assert s[..n + 1][..n] == s[..n];
  }

  /** Filtering keeps a list whose items all satisfy `p`. */
  lemma {:induction false} FilterKeepsAll<T>(p: T -> bool, s: seq<T>)
    requires forall i :: 0 <= i < |s| ==> p(s[i])
    ensures Filter(p, s) == s
  {
    if s != [] {
      var n := |s| - 1;
      FilterKeepsAll(p, s[..n]);
    }
  }


  /** Filtering takes items out and never adds any. */
  lemma {:induction false} FilterSubMultiset<T>(p: T -> bool, s: seq<T>)
    ensures multiset(Filter(p, s)) <= multiset(s)
  {
    if s != [] {
      var n := |s| - 1;
      FilterSubMultiset(p, s[..n]);
      assert s == s[..n] + [s[n]];
    }
  }

  /** Filtering keeps the relative order of what it keeps: a relation that
      holds from every item of `s` to every later one holds between the kept
      items too. */
  lemma {:induction false} FilterOrdered<T>(p: T -> bool, s: seq<T>, before: (T, T) -> bool)
    requires forall i, j :: 0 <= i < j < |s| ==> before(s[i], s[j])
    ensures forall i, j :: 0 <= i < j < |Filter(p, s)| ==> before(Filter(p, s)[i], Filter(p, s)[j])
  {
    if s != [] {
      var n := |s| - 1;
      FilterOrdered(p, s[..n], before);
      var r0, r := Filter(p, s[..n]), Filter(p, s);
      assert r == r0 + (if p(s[n]) then [s[n]] else []);
      forall i, j | 0 <= i < j < |r| ensures before(r[i], r[j]) {
        if j < |r0| {
          assert r[i] == r0[i] && r[j] == r0[j];
          assert before(r0[i], r0[j]);
        } else {
          assert r[i] == r0[i] && r[j] == s[n];
          var k :| 0 <= k < n && s[..n][k] == r0[i];
          assert s[k] == r0[i];
          assert before(s[k], s[n]);
        }
      }
    }
  }

  /** Every item that satisfies `p` is kept. */
  lemma {:induction false} FilterContains<T>(p: T -> bool, s: seq<T>, x: T)
    requires x in s && p(x)
    ensures x in Filter(p, s)
  {
    var n := |s| - 1;
    if s[n] != x {
      assert x in s[..n] by { assert s == s[..n] + [s[n]]; }
      FilterContains(p, s[..n], x);
    }
  }
}
