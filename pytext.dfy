/** The few behaviours of Python's `str` that the batch logic relies on:
    `strip`, `rstrip`, ASCII `upper`, decimal formatting of integers,
    `sep.join(filter(None, parts))` and splitting at the first separator. */
module PyText {

  /** `str.isspace` for one character: the characters `str.strip()` removes. */
  predicate IsSpace(c: char)
  {
    var n := c as int;
    (9 <= n <= 13) || (28 <= n <= 32) || n == 0x85 || n == 0xA0 || n == 0x1680
    || (0x2000 <= n <= 0x200A) || n == 0x2028 || n == 0x2029 || n == 0x202F
    || n == 0x205F || n == 0x3000
  }

  predicate IsDigit(c: char)
  {
    '0' <= c <= '9'
  }

  /** `s.lstrip()`: drops the leading white space. */
  function LStrip(s: string): (r: string)
    ensures |r| <= |s| && r == s[|s| - |r|..]
    ensures forall i :: 0 <= i < |s| - |r| ==> IsSpace(s[i])
    ensures r == [] || !IsSpace(r[0])
    decreases |s|
  {
    if |s| > 0 && IsSpace(s[0]) then LStrip(s[1..]) else s
  }

  /** `s.rstrip()`: drops the trailing white space. */
  function RStrip(s: string): (r: string)
    ensures |r| <= |s| && r == s[..|r|]
    ensures forall i :: |r| <= i < |s| ==> IsSpace(s[i])
    ensures r == [] || !IsSpace(r[|r| - 1])
    decreases |s|
  {
    if |s| > 0 && IsSpace(s[|s| - 1]) then RStrip(s[..|s| - 1]) else s
  }

  /** `s.strip()`: the slice of `s` after its `Lead(s)` leading white-space
      characters, with only white space after it, that neither starts nor ends
      with white space. A string that neither starts nor ends with white space
      is returned as it is. */
  function Strip(s: string): (r: string)
    ensures |r| <= |s|
    ensures r == [] || (!IsSpace(r[0]) && !IsSpace(r[|r| - 1]))
    ensures (s == [] || (!IsSpace(s[0]) && !IsSpace(s[|s| - 1]))) ==> r == s
    ensures Lead(s) + |r| <= |s| && r == s[Lead(s)..Lead(s) + |r|]
    ensures forall k :: Lead(s) + |r| <= k < |s| ==> IsSpace(s[k])
  {
    var l := LStrip(s);
    var m := RStrip(l);
    assert l == s[Lead(s)..];
    SuffixOfSuffix(s, Lead(s), |m|, IsSpace);
    m
  }

  /** What holds of the tail of a suffix holds of the same tail of the whole. */
  lemma SuffixOfSuffix<T>(s: seq<T>, i: nat, j: nat, p: T -> bool)
    requires i + j <= |s|
    requires forall k :: j <= k < |s| - i ==> p(s[i..][k])
    ensures forall k :: i + j <= k < |s| ==> p(s[k])
  {
    forall k | i + j <= k < |s| ensures p(s[k]) {
      assert s[k] == s[i..][k - i];
    }
  }

  /** How many white-space characters `s` starts with. */
  function Lead(s: string): (n: nat)
    ensures n <= |s|
    ensures forall k :: 0 <= k < n ==> IsSpace(s[k])
    ensures n == |s| || !IsSpace(s[n])
  {
    |s| - |LStrip(s)|
  }

  /** `s.rstrip(c)` for a single character `c`. */
  function RStripChar(s: string, c: char): (r: string)
    ensures |r| <= |s| && r == s[..|r|]
    ensures forall i :: |r| <= i < |s| ==> s[i] == c
    ensures r == [] || r[|r| - 1] != c
    decreases |s|
  {
    if |s| > 0 && s[|s| - 1] == c then RStripChar(s[..|s| - 1], c) else s
  }

  /** Stripping `c` from a string made of `x` followed only by copies of `c`
      gives back `x` when `x` does not itself end in `c`. */
  lemma {:induction false} RStripCharSuffix(x: string, pad: string, c: char)
    requires forall i :: 0 <= i < |pad| ==> pad[i] == c
    requires x == [] || x[|x| - 1] != c
    ensures RStripChar(x + pad, c) == x
    decreases |pad|
  {
    if pad == [] {
      assert x + pad == x;
    } else {
      var shorter := pad[..|pad| - 1];
      assert (x + pad)[..|x + pad| - 1] == x + shorter;
      RStripCharSuffix(x, shorter, c);
    }
  }

  /** ASCII `str.upper()` for one character. */
  function UpperChar(c: char): char
  {
    if 'a' <= c <= 'z' then (c as int - 32) as char else c
  }

  /** `s.upper()` on the ASCII letters of `s`. */
  function Upper(s: string): (r: string)
    ensures |r| == |s|
    ensures forall i :: 0 <= i < |s| ==> r[i] == UpperChar(s[i])
  {
    seq(|s|, i requires 0 <= i < |s| => UpperChar(s[i]))
  }

  function DigitChar(d: int): char
    requires 0 <= d < 10
  {
    ('0' as int + d) as char
  }

  /** `str(n)` for a natural number `n`: its decimal digits, most significant first. */
  function Decimal(n: nat): (r: string)
    ensures |r| > 0
    ensures forall i :: 0 <= i < |r| ==> IsDigit(r[i])
    ensures n >= 10 ==> |r| >= 2
  {
    if n < 10 then [DigitChar(n)] else Decimal(n / 10) + [DigitChar(n % 10)]
  }

  /** Two natural numbers with the same decimal text are equal. */
  lemma {:induction false} DecimalInjective(a: nat, b: nat)
    requires Decimal(a) == Decimal(b)
    ensures a == b
    decreases a
  {
    if a >= 10 && b >= 10 {
      var da, db := Decimal(a), Decimal(b);
      assert da[|da| - 1] == DigitChar(a % 10);
      assert db[|db| - 1] == DigitChar(b % 10);
      assert da[..|da| - 1] == Decimal(a / 10);
      assert db[..|db| - 1] == Decimal(b / 10);
      DecimalInjective(a / 10, b / 10);
    } else if a < 10 && b < 10 {
      assert Decimal(a)[0] == DigitChar(a);
    }
  }

  /** `str(i)` / `f"{i}"` for any integer. */
  function IntText(i: int): (r: string)
    ensures |r| > 0 && (i >= 0 ==> r == Decimal(i))
  {
    if i >= 0 then Decimal(i) else "-" + Decimal(-i)
  }

  /** `filter(None, parts)`: the parts that are not the empty string, in order. */
  function NonEmpty(parts: seq<string>): (r: seq<string>)
    ensures |r| <= |parts|
    ensures forall i :: 0 <= i < |r| ==> r[i] != [] && r[i] in parts
    ensures forall p :: p in parts && p != [] ==> p in r
  {
    if parts == [] then []
    else NonEmpty(parts[..|parts| - 1]) + (if parts[|parts| - 1] == [] then [] else [parts[|parts| - 1]])
  }

  /** Filtering distributes over concatenation, so it keeps the order and
      the multiplicity of the parts it keeps. */
  lemma {:induction false} NonEmptyAppend(a: seq<string>, b: seq<string>)
    ensures NonEmpty(a + b) == NonEmpty(a) + NonEmpty(b)
    decreases |b|
  {
    if b == [] {
      assert a + b == a;
    } else {
      var n := |b| - 1;
      assert (a + b)[..|a + b| - 1] == a + b[..n];
      NonEmptyAppend(a, b[..n]);
    }
  }

  /** A single part is kept exactly when it is not empty. */
  lemma NonEmptySingle(p: string)
    ensures NonEmpty([p]) == if p == [] then [] else [p]
  {
    assert [p][..0] == [];
  }

  /** Filtering keeps a list whose parts are all non-empty unchanged. */
  lemma {:induction false} NonEmptyKeepsAll(parts: seq<string>)
    requires forall i :: 0 <= i < |parts| ==> parts[i] != []
    ensures NonEmpty(parts) == parts
  {
    if parts != [] {
      NonEmptyKeepsAll(parts[..|parts| - 1]);
    }
  }

  /** `sep.join(parts)`. */
  function Join(parts: seq<string>, sep: char): string
  {
    if parts == [] then []
    else if |parts| == 1 then parts[0]
    else Join(parts[..|parts| - 1], sep) + [sep] + parts[|parts| - 1]
  }

  /** A join ends with its last part. */
  lemma JoinEndsWithLast(parts: seq<string>, sep: char)
    requires parts != []
    ensures var j := Join(parts, sep); var last := parts[|parts| - 1];
      |last| <= |j| && j[|j| - |last|..] == last
  {
  }

  /** A join of several parts starts with the first part and a separator. */
  lemma {:induction false} JoinStartsWithFirst(parts: seq<string>, sep: char)
    requires |parts| >= 2
    ensures var j := Join(parts, sep);
      |parts[0]| < |j| && j[..|parts[0]|] == parts[0] && j[|parts[0]|] == sep
  {
    var n := |parts| - 1;
    if n >= 2 {
      JoinStartsWithFirst(parts[..n], sep);
    }
  }

  /** Joining the non-empty parts of `[u] + rest`, where `u` is not empty and
      `rest` holds a non-empty part, gives a text that starts with `u` and a
      separator. */
  lemma JoinKeptStartsWith(u: string, rest: seq<string>, l: string, sep: char)
    requires u != [] && l != [] && l in rest
    ensures var j := Join(NonEmpty([u] + rest), sep);
      |u| < |j| && j[..|u|] == u && j[|u|] == sep
  {
    NonEmptyAppend([u], rest);
    NonEmptySingle(u);
    var kept := NonEmpty([u] + rest);
    assert kept == [u] + NonEmpty(rest) && NonEmpty(rest) != [];
    JoinStartsWithFirst(kept, sep);
  }

  /** Position of the first `c` in `s`, or `|s|` when there is none. */
  function IndexOf(s: string, c: char): (r: nat)
    ensures r <= |s|
    ensures r < |s| ==> s[r] == c
    ensures forall i :: 0 <= i < r ==> s[i] != c
  {
    if s == [] then 0 else if s[0] == c then 0 else 1 + IndexOf(s[1..], c)
  }

  /** `s.split(c)[0]`: everything before the first `c`. */
  function BeforeFirst(s: string, c: char): (r: string)
    ensures c !in r
    ensures |r| <= |s| && r == s[..|r|]
    ensures |r| < |s| ==> s[|r|] == c
  {
    s[..IndexOf(s, c)]
  }

  /** How many elements at the end of `s` differ from `sep`. */
  function TrailingRun<T(==)>(s: seq<T>, sep: T): (n: nat)
    ensures n <= |s|
  {
    if s == [] || s[|s| - 1] == sep then 0 else 1 + TrailingRun(s[..|s| - 1], sep)
  }

  lemma {:induction false} TrailingRunAfterSeparator<T>(x: seq<T>, sep: T, d: seq<T>)
    requires sep !in d
    ensures TrailingRun(x + [sep] + d, sep) == |d|
    decreases |d|
  {
    if d != [] {
      var s := x + [sep] + d;
      assert s[..|s| - 1] == x + [sep] + d[..|d| - 1];
      TrailingRunAfterSeparator(x, sep, d[..|d| - 1]);
    }
  }

  /** When `x + [sep] + d1 == y + [sep] + d2` and neither `d1` nor `d2` holds
      `sep`, the two splits are the same: the separator is the last one. */
  lemma SplitAtLastSeparator<T>(x: seq<T>, d1: seq<T>, y: seq<T>, d2: seq<T>, sep: T)
    requires sep !in d1 && sep !in d2
    requires x + [sep] + d1 == y + [sep] + d2
    ensures x == y && d1 == d2
  {
    var l, r := x + [sep] + d1, y + [sep] + d2;
    TrailingRunAfterSeparator(x, sep, d1);
    TrailingRunAfterSeparator(y, sep, d2);
    assert x == l[..|x|] && y == r[..|y|];
    assert d1 == l[|x| + 1..] && d2 == r[|y| + 1..];
  }
}
