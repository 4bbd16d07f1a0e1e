/** `safe_base64_encode` and `safe_base64_decode` (main.py:44-52) over the
    URL-safe base64 alphabet, with the decoder of CPython's `binascii`
    (non-strict mode) written out as a state machine. */
module Base64 {
  import opened Common
  import PyText

  /** The character `urlsafe_b64encode` writes for the 6-bit value `v`. */
  function CharOf(v: int): char
    requires 0 <= v < 64
  {
    if v < 26 then ('A' as int + v) as char
    else if v < 52 then ('a' as int + (v - 26)) as char
    else if v < 62 then ('0' as int + (v - 52)) as char
    else if v == 62 then '-' else '_'
  }

  /** The 6-bit value the decoder gives a character once `urlsafe_b64decode`
      has translated `-` to `+` and `_` to `/`; 64 marks a character the
      non-strict decoder skips. */
  function SextetOf(c: char): (v: int)
    ensures 0 <= v <= 64
  {
    if 'A' <= c <= 'Z' then c as int - 'A' as int
    else if 'a' <= c <= 'z' then c as int - 'a' as int + 26
    else if '0' <= c <= '9' then c as int - '0' as int + 52
    else if c == '-' || c == '+' then 62
    else if c == '_' || c == '/' then 63
    else 64
  }

  lemma SextetOfCharOf(v: int)
    requires 0 <= v < 64
    ensures SextetOf(CharOf(v)) == v
    ensures CharOf(v) != '=' && !PyText.IsSpace(CharOf(v)) && CharOf(v) as int < 128
    ensures UrlsafeChar(CharOf(v))
  {
  }

  /** A character of the URL-safe alphabet: letters, digits, `-` and `_`
      (never `+` or `/`). */
  predicate UrlsafeChar(c: char)
  {
    'A' <= c <= 'Z' || 'a' <= c <= 'z' || '0' <= c <= '9' || c == '-' || c == '_'
  }

  /** A character of the encoder's alphabet. */
  predicate IsCode(c: char)
  {
    SextetOf(c) < 64
  }

  /** Three bytes as four characters. */
  function Quad(x: byte, y: byte, z: byte): string
  {
    [CharOf(x as int / 4), CharOf(x as int % 4 * 16 + y as int / 16),
     CharOf(y as int % 16 * 4 + z as int / 64), CharOf(z as int % 64)]
  }

  /** The characters `urlsafe_b64encode` writes before its `=` padding. */
  function Body(b: seq<byte>): string
    decreases |b|
  {
    if |b| >= 3 then Quad(b[0], b[1], b[2]) + Body(b[3..])
    else if |b| == 2 then
      [CharOf(b[0] as int / 4), CharOf(b[0] as int % 4 * 16 + b[1] as int / 16), CharOf(b[1] as int % 16 * 4)]
    else if |b| == 1 then
      [CharOf(b[0] as int / 4), CharOf(b[0] as int % 4 * 16)]
    else []
  }

  /** The `=` characters that complete the last group of four. */
  function Padding(n: nat): string
  {
    if n % 3 == 1 then "==" else if n % 3 == 2 then "=" else ""
  }

  /** `base64.urlsafe_b64encode(b)`, as text. */
  function UrlsafeEncode(b: seq<byte>): string
  {
    Body(b) + Padding(|b|)
  }

  /** Every alphabet character is a data character for the decoder, ASCII,
      and neither `=` nor white space. */
  lemma UrlsafeCharFacts(c: char)
    requires UrlsafeChar(c)
    ensures IsCode(c) && c != '=' && !PyText.IsSpace(c) && c as int < 128
  {
  }

  lemma BodyShape(b: seq<byte>)
    ensures |Body(b)| == (4 * |b| + 2) / 3
    ensures forall i :: 0 <= i < |Body(b)| ==> IsCode(Body(b)[i]) && Body(b)[i] != '='
    ensures forall i :: 0 <= i < |Body(b)| ==> !PyText.IsSpace(Body(b)[i]) && Body(b)[i] as int < 128
    ensures forall i :: 0 <= i < |Body(b)| ==> UrlsafeChar(Body(b)[i])
  {
    BodyAlphabet(b);
    forall i | 0 <= i < |Body(b)|
      ensures IsCode(Body(b)[i]) && Body(b)[i] != '=' && !PyText.IsSpace(Body(b)[i]) && Body(b)[i] as int < 128
    {
      UrlsafeCharFacts(Body(b)[i]);
    }
  }

  /** The body has ceil(4 |b| / 3) characters, all of the URL-safe alphabet. */
  lemma {:induction false} BodyAlphabet(b: seq<byte>)
    ensures |Body(b)| == (4 * |b| + 2) / 3
    ensures forall i :: 0 <= i < |Body(b)| ==> UrlsafeChar(Body(b)[i])
    decreases |b|
  {
    if |b| >= 3 {
      BodyAlphabet(b[3..]);
      var x, y, z := b[0] as int, b[1] as int, b[2] as int;
      SextetOfCharOf(x / 4);
      SextetOfCharOf(x % 4 * 16 + y / 16);
      SextetOfCharOf(y % 16 * 4 + z / 64);
      SextetOfCharOf(z % 64);
    } else if |b| == 2 {
      var x, y := b[0] as int, b[1] as int;
      SextetOfCharOf(x / 4);
      SextetOfCharOf(x % 4 * 16 + y / 16);
      SextetOfCharOf(y % 16 * 4);
    } else if |b| == 1 {
      SextetOfCharOf(b[0] as int / 4);
      SextetOfCharOf(b[0] as int % 4 * 16);
    }
  }

  /** `safe_base64_encode` (main.py:51-52): the URL-safe encoding with its
      trailing `=` removed. Its length is ceil(4 |b| / 3) and it is made of
      URL-safe alphabet characters only, so it holds no `+`, `/` or `=`. */
  function SafeEncode(b: seq<byte>): (r: string)
    ensures r == [] || r[|r| - 1] != '='
    ensures |r| == (4 * |b| + 2) / 3
    ensures forall i :: 0 <= i < |r| ==> IsCode(r[i]) && UrlsafeChar(r[i])
  {
    EncodeIsBody(b);
    BodyShape(b);
    PyText.RStripChar(UrlsafeEncode(b), '=')
  }

  /** Removing the `=` from `urlsafe_b64encode` leaves exactly the body. */
  lemma EncodeIsBody(b: seq<byte>)
    ensures PyText.RStripChar(UrlsafeEncode(b), '=') == Body(b)
  {
    BodyShape(b);
    PyText.RStripCharSuffix(Body(b), Padding(|b|), '=');
  }

  /** The state of the decoder between two characters: `pos` is the position
      in the current group of four, `left` the bits not yet written out, and
      `pads` the `=` seen since the last data character. */
  datatype DecoderState = DecoderState(pos: int, left: int, pads: nat)

  const Start := DecoderState(0, 0, 0)

  predicate Sane(st: DecoderState)
  {
    0 <= st.pos < 4 && 0 <= st.left
    && st.left < (if st.pos == 1 then 64 else if st.pos == 2 then 16 else if st.pos == 3 then 4 else 1)
  }

  /** What `binascii.a2b_base64` returns: bytes, or `binascii.Error` when the
      data characters end in the middle of a group. */
  datatype A2BResult = Bytes(bytes: seq<byte>) | Incomplete

  /** `binascii.a2b_base64` in non-strict mode: characters outside the
      alphabet are skipped; a `=` ends the input once it completes a group
      that holds at least two data characters, and is otherwise ignored. */
  function A2B(s: string, st: DecoderState, out: seq<byte>): A2BResult
    requires Sane(st)
    decreases |s|
  {
    if s == [] then
      (if st.pos == 0 then Bytes(out) else Incomplete)
    else if s[0] == '=' then
      if st.pos >= 2 && st.pos + st.pads + 1 >= 4 then Bytes(out)
      else A2B(s[1..], if st.pos >= 2 then st.(pads := st.pads + 1) else st, out)
    else
      var v := SextetOf(s[0]);
      if v == 64 then A2B(s[1..], st, out)
      else if st.pos == 0 then A2B(s[1..], DecoderState(1, v, 0), out)
      else if st.pos == 1 then A2B(s[1..], DecoderState(2, v % 16, 0), out + [(st.left * 4 + v / 16) as byte])
      else if st.pos == 2 then A2B(s[1..], DecoderState(3, v % 4, 0), out + [(st.left * 16 + v / 4) as byte])
      else A2B(s[1..], Start, out + [(st.left * 64 + v) as byte])
  }

  /** `s + '=' * (4 - len(s) % 4)` (main.py:47): between one and four `=`
      are appended, enough to reach a multiple of four. */
  function PadTo4(s: string): (r: string)
    ensures |s| + 1 <= |r| <= |s| + 4 && |r| % 4 == 0
    ensures r[..|s|] == s
    ensures forall i :: |s| <= i < |r| ==> r[i] == '='
  {
    s + seq(4 - |s| % 4, _ => '=')
  }

  predicate IsAscii(s: string)
  {
    forall i :: 0 <= i < |s| ==> s[i] as int < 128
  }

  /** `safe_base64_decode` (main.py:44-49). `None` stands for the ValueError
      that `urlsafe_b64decode` raises on non-ASCII text, which the function
      does not catch; a `binascii.Error` becomes the empty byte string. */
  function SafeDecode(s: string): (r: Option<seq<byte>>)
    ensures r.None? <==> !IsAscii(PyText.Strip(s))
    ensures IsAscii(PyText.Strip(s)) && A2B(PadTo4(PyText.Strip(s)), Start, []).Incomplete? ==> r == Some([])
  {
    var t := PyText.Strip(s);
    if !IsAscii(t) then None
    else
      match A2B(PadTo4(t), Start, [])
      case Bytes(b) => Some(b)
      case Incomplete => Some([])
  }

  /** The decoder reading a data character in each position of a group. */
  lemma FirstSextet(s: string, a: int, out: seq<byte>)
    requires s != [] && 0 <= a < 64 && s[0] == CharOf(a)
    ensures A2B(s, Start, out) == A2B(s[1..], DecoderState(1, a, 0), out)
  {
    SextetOfCharOf(a);
  }

  lemma SecondSextet(s: string, l: int, b: int, out: seq<byte>, x: byte)
    requires s != [] && 0 <= l < 64 && 0 <= b < 64 && s[0] == CharOf(b) && x as int == l * 4 + b / 16
    ensures A2B(s, DecoderState(1, l, 0), out) == A2B(s[1..], DecoderState(2, b % 16, 0), out + [x])
  {
    SextetOfCharOf(b);
  }

  lemma ThirdSextet(s: string, l: int, c: int, out: seq<byte>, y: byte)
    requires s != [] && 0 <= l < 16 && 0 <= c < 64 && s[0] == CharOf(c) && y as int == l * 16 + c / 4
    ensures A2B(s, DecoderState(2, l, 0), out) == A2B(s[1..], DecoderState(3, c % 4, 0), out + [y])
  {
    SextetOfCharOf(c);
  }

  lemma FourthSextet(s: string, l: int, d: int, out: seq<byte>, z: byte)
    requires s != [] && 0 <= l < 4 && 0 <= d < 64 && s[0] == CharOf(d) && z as int == l * 64 + d
    ensures A2B(s, DecoderState(3, l, 0), out) == A2B(s[1..], Start, out + [z])
  {
    SextetOfCharOf(d);
  }

  /** The six-bit pieces `Quad` cuts three bytes into put them back together. */
  lemma QuadArithmetic(x: int, y: int, z: int)
    requires 0 <= x < 256 && 0 <= y < 256 && 0 <= z < 256
    ensures var b, c := x % 4 * 16 + y / 16, y % 16 * 4 + z / 64;
      && x / 4 * 4 + b / 16 == x && b % 16 * 16 + c / 4 == y && c % 4 * 64 + z % 64 == z
  {
  }

  /** Four characters written by `Quad` decode to the three bytes they came from. */
  lemma QuadDecodes(x: byte, y: byte, z: byte, rest: string, acc: seq<byte>)
    ensures A2B(Quad(x, y, z) + rest, Start, acc) == A2B(rest, Start, acc + [x, y, z])
  {
    var a, b, c, d := x as int / 4, x as int % 4 * 16 + y as int / 16, y as int % 16 * 4 + z as int / 64, z as int % 64;
    QuadArithmetic(x as int, y as int, z as int);
    var s0 := Quad(x, y, z) + rest;
    var s1, s2, s3 := s0[1..], s0[2..], s0[3..];
    assert s0[0] == CharOf(a) && s1[0] == CharOf(b) && s2[0] == CharOf(c) && s3[0] == CharOf(d);
    assert s2 == s1[1..] && s3 == s2[1..] && rest == s3[1..];
    FirstSextet(s0, a, acc);
    SecondSextet(s1, a, b, acc, x);
    ThirdSextet(s2, b % 16, c, acc + [x], y);
    FourthSextet(s3, c % 4, d, acc + [x] + [y], z);
    assert acc + [x] + [y] + [z] == acc + [x, y, z];
  }

  /** Two trailing bytes: three characters and one `=`. */
  lemma TwoBytesDecode(b: seq<byte>, acc: seq<byte>)
    requires |b| == 2
    ensures A2B(PadTo4(Body(b)), Start, acc) == Bytes(acc + b)
  {
    var x, y := b[0] as int, b[1] as int;
    var p, q, r := x / 4, x % 4 * 16 + y / 16, y % 16 * 4;
    QuadArithmetic(x, y, 0);
    var s := PadTo4(Body(b));
    assert s == [CharOf(p), CharOf(q), CharOf(r), '='];
    assert s[1..][1..] == s[2..] && s[2..][1..] == s[3..] && s[3..] == ['='];
    FirstSextet(s, p, acc);
    SecondSextet(s[1..], p, q, acc, b[0]);
    ThirdSextet(s[2..], q % 16, r, acc + [b[0]], b[1]);
    assert acc + [b[0]] + [b[1]] == acc + b;
  }

  /** One trailing byte: two characters and two `=`. */
  lemma OneByteDecodes(b: seq<byte>, acc: seq<byte>)
    requires |b| == 1
    ensures A2B(PadTo4(Body(b)), Start, acc) == Bytes(acc + b)
  {
    var x := b[0] as int;
    var p, q := x / 4, x % 4 * 16;
    QuadArithmetic(x, 0, 0);
    var s := PadTo4(Body(b));
    assert s == [CharOf(p), CharOf(q), '=', '='];
    assert s[1..][1..] == s[2..] && s[2..][1..] == s[3..] && s[2..] == ['=', '='];
    FirstSextet(s, p, acc);
    SecondSextet(s[1..], p, q, acc, b[0]);
    assert A2B(s[2..], DecoderState(2, q % 16, 0), acc + [b[0]])
        == A2B(s[3..], DecoderState(2, q % 16, 1), acc + [b[0]]);
    assert acc + [b[0]] == acc + b;
  }

  /** The padded body of an encoding decodes back to its bytes. */
  lemma {:induction false} BodyDecodes(b: seq<byte>, acc: seq<byte>)
    ensures A2B(PadTo4(Body(b)), Start, acc) == Bytes(acc + b)
    decreases |b|
  {
    if |b| >= 3 {
      var q, tail := Quad(b[0], b[1], b[2]), Body(b[3..]);
      assert Body(b) == q + tail;
      PadTo4Group(q, tail);
      QuadDecodes(b[0], b[1], b[2], PadTo4(tail), acc);
      BodyDecodes(b[3..], acc + [b[0], b[1], b[2]]);
      assert acc + [b[0], b[1], b[2]] + b[3..] == acc + b;
    } else if |b| == 2 {
      TwoBytesDecode(b, acc);
    } else if |b| == 1 {
      OneByteDecodes(b, acc);
    } else {
      EmptyDecodes(acc);
    }
  }

  /** Padding a text that starts with a whole group pads only the rest. */
  lemma PadTo4Group(q: string, tail: string)
    requires |q| == 4
    ensures PadTo4(q + tail) == q + PadTo4(tail)
  {
    assert (|q| + |tail|) % 4 == |tail| % 4;
  }

  /** Nothing encodes to nothing, padded to `====`, which decodes to no bytes. */
  lemma EmptyDecodes(acc: seq<byte>)
    ensures A2B(PadTo4(Body([])), Start, acc) == Bytes(acc)
  {
    var s := PadTo4(Body([]));
    assert s == "====";
    assert s[1..] == "===" && s[1..][1..] == "==" && s[1..][1..][1..] == "=";
    assert A2B(s, Start, acc) == A2B("===", Start, acc) == A2B("==", Start, acc);
    assert A2B("==", Start, acc) == A2B("=", Start, acc) == A2B("", Start, acc);
  }

  /** Decoding what `safe_base64_encode` wrote gives back the original bytes. */
  lemma RoundTrip(b: seq<byte>)
    ensures SafeDecode(SafeEncode(b)) == Some(b)
  {
    var e := SafeEncode(b);
    EncodeIsBody(b);
    assert e == Body(b);
    BodyIsClean(b);
    BodyDecodes(b, []);
    assert [] + b == b;
    assert A2B(PadTo4(PyText.Strip(e)), Start, []) == Bytes(b);
  }

  /** The body is ASCII and `strip` leaves it as it is. */
  lemma BodyIsClean(b: seq<byte>)
    ensures PyText.Strip(Body(b)) == Body(b)
    ensures IsAscii(Body(b))
  {
    BodyShape(b);
    var e := Body(b);
    assert e == [] || (!PyText.IsSpace(e[0]) && !PyText.IsSpace(e[|e| - 1]));
  }
}
