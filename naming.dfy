/** Display names: `generate_base_name` (main.py:206-218) and the
    per-label counter of the renaming loop (main.py:323-339). */
module Naming {
  import opened Common
  import opened Values
  import opened Library
  import opened Descriptor
  import PyText

  /** The security token of main.py:213-214: the upper-cased value when it is
      `tls` or `reality`, and nothing otherwise. */
  function SecurityToken(security: Json): (r: string)
    ensures r != [] <==> security == JStr("tls") || security == JStr("reality")
    ensures security == JStr("tls") ==> r == "TLS"
    ensures security == JStr("reality") ==> r == "REALITY"
  {
    if security == JStr("tls") || security == JStr("reality") then PyText.Upper(security.s) else ""
  }

  /** The transport token of main.py:215-216: the upper-cased transport when it
      is non-empty text other than `tcp` (with the correction recorded as a
      finding: a value that is not text gives no token). */
  function TransportToken(transport: Json): (r: string)
    ensures r != [] <==> transport.JStr? && transport.s != [] && transport.s != "tcp"
    ensures r != [] ==> |r| == |transport.s| && forall i :: 0 <= i < |r| ==> r[i] == PyText.UpperChar(transport.s[i])
  {
    if transport.JStr? && transport.s != [] && transport.s != "tcp" then PyText.Upper(transport.s) else ""
  }

  /** Only vless, vmess and trojan names carry security and transport tokens. */
  predicate HasDetails(w: Wrapper)
  {
    w.kind == Some(Vless) || w.kind == Some(Vmess) || w.kind == Some(Trojan)
  }

  /** `get_param('security', decoded.get('tls'))`. */
  function Security(w: Wrapper): Json
    requires IsValid(w)
  {
    Param(w, "security", Get(w.decoded.value, "tls", JNull))
  }

  /** `get_param('type', decoded.get('net'))`. */
  function Transport(w: Wrapper): Json
    requires IsValid(w)
  {
    Param(w, "type", Get(w.decoded.value, "net", JNull))
  }

  /** The `details` list of main.py:211-216: at most a security token and then
      a transport token, only for vless, vmess and trojan. */
  function Details(w: Wrapper): (r: seq<string>)
    requires IsValid(w)
    ensures |r| <= 2 && forall i :: 0 <= i < |r| ==> r[i] != []
    ensures r != [] ==> HasDetails(w)
    ensures |r| == (if HasDetails(w) then (if SecurityToken(Security(w)) != [] then 1 else 0)
                                         + (if TransportToken(Transport(w)) != [] then 1 else 0) else 0)
    ensures HasDetails(w) && SecurityToken(Security(w)) != [] ==> r != [] && r[0] == SecurityToken(Security(w))
    ensures HasDetails(w) && TransportToken(Transport(w)) != [] ==> r != [] && r[|r| - 1] == TransportToken(Transport(w))
  {
    if !HasDetails(w) then []
    else
      var sec, tr := SecurityToken(Security(w)), TransportToken(Transport(w));
      (if sec != [] then [sec] else []) + (if tr != [] then [tr] else [])
  }

  /** `f"{latency}ms"`. */
  function LatencyText(latency: nat): string
  {
    PyText.Decimal(latency) + "ms"
  }

  /** `generate_base_name` (main.py:206-218). */
  function BaseName(lib: Lib, w: Wrapper, latency: nat): string
  {
    if !IsValid(w) then "InvalidConfig"
    else
      var parts := [PyText.Upper(TypeName(w)), CountryCode(lib, Server(w))] + Details(w) + [LatencyText(latency)];
      PyText.Join(PyText.NonEmpty(parts), '_')
  }

  /** The base name of a valid descriptor ends in `"<latency>ms"`, so its last
      character is not a digit. */
  lemma BaseNameEndsInLatency(lib: Lib, w: Wrapper, latency: nat)
    requires IsValid(w)
    ensures var b := BaseName(lib, w, latency); var l := LatencyText(latency);
      |l| <= |b| && b[|b| - |l|..] == l && b[|b| - 1] == 's'
  {
    var parts := [PyText.Upper(TypeName(w)), CountryCode(lib, Server(w))] + Details(w) + [LatencyText(latency)];
    assert parts[..|parts| - 1] == [PyText.Upper(TypeName(w)), CountryCode(lib, Server(w))] + Details(w);
    PyText.JoinEndsWithLast(PyText.NonEmpty(parts), '_');
  }

  /** The base name of a valid descriptor starts with its upper-cased
      protocol and a `_`: the protocol and the latency are never empty, so
      there are at least two parts. */
  lemma BaseNameStartsWithProtocol(lib: Lib, w: Wrapper, latency: nat)
    requires IsValid(w)
    ensures var b := BaseName(lib, w, latency); var u := PyText.Upper(TypeName(w));
      |u| < |b| && b[..|u|] == u && b[|u|] == '_'
  {
    var u, l := PyText.Upper(TypeName(w)), LatencyText(latency);
    var rest := [CountryCode(lib, Server(w))] + Details(w) + [l];
    assert [u, CountryCode(lib, Server(w))] + Details(w) + [l] == [u] + rest;
    assert |TypeName(w)| > 0;
    PyText.JoinKeptStartsWith(u, rest, l, '_');
  }

  /** The name of a vless descriptor with `security=tls` and `type=ws`
      (the scenario of two vless descriptors for 1.2.3.4:443 with
      `?security=tls&type=ws`): `VLESS_<country>_TLS_WS_<n>ms`. */
  lemma VlessTlsWsName(lib: Lib, w: Wrapper, latency: nat)
    requires IsValid(w) && w.kind == Some(Vless)
    requires Security(w) == JStr("tls") && Transport(w) == JStr("ws")
    requires CountryCode(lib, Server(w)) != []
    ensures BaseName(lib, w, latency)
         == "VLESS" + "_" + CountryCode(lib, Server(w)) + "_" + "TLS" + "_" + "WS" + "_" + LatencyText(latency)
  {
    var c, l := CountryCode(lib, Server(w)), LatencyText(latency);
    BaseNameParts(lib, w, latency);
    TlsWsDetails(w);
    UpperVless();
    FiveParts(PyText.Upper(TypeName(w)), c, Details(w), l);
    JoinFive("VLESS", c, "TLS", "WS", l);
  }

  lemma FiveParts(u: string, c: string, d: seq<string>, l: string)
    requires u == "VLESS" && d == ["TLS", "WS"]
    ensures [u, c] + d + [l] == ["VLESS", c, "TLS", "WS", l]
  {
  }

  lemma BaseNameParts(lib: Lib, w: Wrapper, latency: nat)
    requires IsValid(w)
    ensures BaseName(lib, w, latency) == PyText.Join(PyText.NonEmpty(
      [PyText.Upper(TypeName(w)), CountryCode(lib, Server(w))] + Details(w) + [LatencyText(latency)]), '_')
  {
  }

  lemma TlsWsDetails(w: Wrapper)
    requires IsValid(w) && w.kind == Some(Vless)
    requires Security(w) == JStr("tls") && Transport(w) == JStr("ws")
    ensures Details(w) == ["TLS", "WS"]
  {
    WsToken();
  }

  lemma UpperVless()
    ensures PyText.Upper("vless") == "VLESS"
  {
    var u := PyText.Upper("vless");
    assert u[0] == 'V' && u[1] == 'L' && u[2] == 'E' && u[3] == 'S' && u[4] == 'S';
  }

  lemma WsToken()
    ensures TransportToken(JStr("ws")) == "WS"
  {
    var u := TransportToken(JStr("ws"));
    assert "ws" != "tcp" by { assert |"ws"| != |"tcp"|; }
    assert |u| == 2 && u[0] == 'W' && u[1] == 'S';
  }

  lemma JoinFive(a: string, b: string, c: string, d: string, e: string)
    requires a != [] && b != [] && c != [] && d != [] && e != []
    ensures PyText.Join(PyText.NonEmpty([a, b, c, d, e]), '_') == a + "_" + b + "_" + c + "_" + d + "_" + e
  {
    var parts := [a, b, c, d, e];
    PyText.NonEmptyKeepsAll(parts);
    assert parts[..4] == [a, b, c, d];
    assert [a, b, c, d][..3] == [a, b, c];
    assert [a, b, c][..2] == [a, b];
    assert [a, b][..1] == [a];
    assert PyText.Join([a, b], '_') == a + "_" + b;
    assert PyText.Join([a, b, c], '_') == a + "_" + b + "_" + c;
    assert PyText.Join([a, b, c, d], '_') == a + "_" + b + "_" + c + "_" + d;
  }

  /** How many times `x` occurs in `s`. */
  function Count(s: seq<string>, x: string): (n: nat)
    ensures n <= |s|
  {
    if s == [] then 0 else Count(s[..|s| - 1], x) + (if s[|s| - 1] == x then 1 else 0)
  }

  lemma {:induction false} CountZero(s: seq<string>, x: string)
    ensures Count(s, x) == 0 <==> x !in s
  {
    if s != [] {
      CountZero(s[..|s| - 1], x);
      assert s == s[..|s| - 1] + [s[|s| - 1]];
    }
  }

  lemma {:induction false} CountMonotone(s: seq<string>, a: nat, b: nat, x: string)
    requires a <= b <= |s|
    ensures Count(s[..a], x) <= Count(s[..b], x)
    decreases b - a
  {
    if a < b {
      assert s[..b][..b - 1] == s[..b - 1];
      CountMonotone(s, a, b - 1, x);
    }
  }

  /** The name the counter of main.py:334-339 gives the label at position `k`:
      the first occurrence of a label keeps it bare, the n-th occurrence
      (n >= 2) becomes `label_n`, so the second one is `label_2`. */
  function FinalName(bases: seq<string>, k: nat): (r: string)
    requires k < |bases|
    ensures r == bases[k] <==> forall j :: 0 <= j < k ==> bases[j] != bases[k]
    ensures r != bases[k] ==> r == bases[k] + "_" + PyText.Decimal(Count(bases[..k + 1], bases[k]))
                              && Count(bases[..k + 1], bases[k]) >= 2
  {
    var c := Count(bases[..k + 1], bases[k]);
    assert bases[..k + 1][..k] == bases[..k];
    CountZero(bases[..k], bases[k]);
    if c == 1 then bases[k] else bases[k] + "_" + PyText.Decimal(c)
  }

  function FinalNames(bases: seq<string>): (r: seq<string>)
    ensures |r| == |bases|
  {
    seq(|bases|, k requires 0 <= k < |bases| => FinalName(bases, k))
  }

  /** A label that ends in a character other than a digit. */
  predicate EndsInNonDigit(b: string)
  {
    b != [] && !PyText.IsDigit(b[|b| - 1])
  }

  lemma FinalNamesPairDistinct(bases: seq<string>, i: nat, j: nat)
    requires i < j < |bases|
    requires EndsInNonDigit(bases[i]) && EndsInNonDigit(bases[j])
    ensures FinalName(bases, i) != FinalName(bases, j)
  {
    var bi, bj := bases[i], bases[j];
    var ci, cj := Count(bases[..i + 1], bi), Count(bases[..j + 1], bj);
    var ni, nj := FinalName(bases, i), FinalName(bases, j);
    var di, dj := PyText.Decimal(ci), PyText.Decimal(cj);
    if bi == bj {
      assert bases[..j + 1][..j] == bases[..j];
      CountMonotone(bases, i + 1, j, bi);
      if ni != bi && nj != bj {
        if ni == nj {
          assert di == nj[|bi| + 1..];
          PyText.DecimalInjective(ci, cj);
        }
      }
    } else if ni != bi && nj != bj {
      if ni == nj {
        assert '_' !in di && '_' !in dj;
        PyText.SplitAtLastSeparator(bi, di, bj, dj, '_');
      }
    } else if ni != bi {
      assert ni[|ni| - 1] == di[|di| - 1];
    } else if nj != bj {
      assert nj[|nj| - 1] == dj[|dj| - 1];
    }
  }

  /** When every base label ends in a non-digit (as every base name of a valid
      descriptor does, ending in `ms`), the final names are pairwise distinct
      across the whole batch. */
  lemma FinalNamesDistinct(bases: seq<string>)
    requires forall k :: 0 <= k < |bases| ==> EndsInNonDigit(bases[k])
    ensures forall i, j :: 0 <= i < j < |bases| ==> FinalNames(bases)[i] != FinalNames(bases)[j]
  {
    forall i, j | 0 <= i < j < |bases| ensures FinalNames(bases)[i] != FinalNames(bases)[j] {
      FinalNamesPairDistinct(bases, i, j);
    }
  }

  /** Three descriptors with one base label are named `L`, `L_2`, `L_3`. */
  lemma SecondRepeatIsTwo(l: string)
    ensures FinalNames([l, l, l]) == [l, l + "_2", l + "_3"]
  {
    var bases := [l, l, l];
    assert bases[..1] == [l] && bases[..2] == [l, l] && bases[..3] == bases;
    assert [l, l][..1] == [l] && bases[..2][..1] == [l];
    assert Count(bases[..1], l) == 1;
    assert Count(bases[..2], l) == 2;
    assert Count(bases[..3], l) == 3;
    assert PyText.Decimal(2) == "2" && PyText.Decimal(3) == "3";
    assert FinalName(bases, 0) == l;
    assert FinalName(bases, 1) == l + "_2";
    assert FinalName(bases, 2) == l + "_3";
  }
}
