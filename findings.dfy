/** The code as written where it raises an exception nothing catches, beside
    the corrected definitions the rest of the model uses. */
module Findings {
  import opened Common
  import opened Values
  import opened Library
  import opened Descriptor
  import opened Naming
  import opened Dedup
  import PyText
  import Base64
  import Rewrite

  // ------------------------------------------ a vmess payload that is not an object

  /** `config_parse` as written (main.py:152-177): a vmess payload becomes
      whatever JSON value it loads to. */
  function ConfigParseAsWritten(lib: Lib, s: string): Option<Json>
  {
    var k := DetectType(s);
    if k == Some(Vmess) then
      assert |s| >= 8;
      match Base64.SafeDecode(s[8..])
      case None => None
      case Some(b) => lib.jsonLoads(b)
    else if k.Some? && IsUriScheme(k.value) then
      match UriDictionary(lib, k.value, s)
      case Some(m) => Some(JObj(m))
      case None => None
    else None
  }

  /** `get_server` as written (main.py:195-197): `.get` on a true value that
      is not a dictionary raises AttributeError. */
  function ServerAsWritten(decoded: Option<Json>): Outcome<Json>
  {
    match decoded
    case None => Returned(JStr(""))
    case Some(v) =>
      if !Truthy(v) then Returned(JStr(""))
      else if v.JObj? then Returned(Or(Or(Get(v.fields, "add", JNull), Get(v.fields, "hostname", JNull)), JStr("")))
      else Raised
  }

  /** `get_port` as written (main.py:198-201): AttributeError is not among the
      exceptions it turns into 0, and neither is OverflowError. */
  function PortAsWritten(lib: Lib, decoded: Option<Json>): Outcome<int>
  {
    match decoded
    case None => Returned(0)
    case Some(v) =>
      if !Truthy(v) then Returned(0)
      else if v.JObj? then PortNumberAsWritten(lib, Get(v.fields, "port", JNum(0)))
      else Raised
  }

  /** `int(v)` under `except (ValueError, TypeError)` as written: `int` of an
      infinite float raises OverflowError, which escapes. */
  function PortNumberAsWritten(lib: Lib, v: Json): Outcome<int>
  {
    if v.JFloat? && v.f.Infinite? then Raised else Returned(PortNumber(lib, v))
  }

  /** Where `int()` as written returns, it gives the corrected port number;
      it raises exactly on an infinite float. */
  lemma PortNumberAgrees(lib: Lib, v: Json)
    ensures PortNumberAsWritten(lib, v).Returned? ==> PortNumberAsWritten(lib, v).value == PortNumber(lib, v)
    ensures PortNumberAsWritten(lib, v) == Raised <==> v.JFloat? && v.f.Infinite?
  {
  }

  /** One step of the deduplication loop as written (main.py:304-308). */
  function EntryAsWritten(lib: Lib, c: string): Outcome<Option<Candidate>>
  {
    EntryOfParse(lib, ConfigParseAsWritten(lib, c), c)
  }

  /** The step on the parse `decoded` of descriptor `c`. */
  function EntryOfParse(lib: Lib, decoded: Option<Json>, c: string): Outcome<Option<Candidate>>
  {
    if decoded.None? then Returned(None)
    else
      match ServerAsWritten(decoded)
      case Raised => Raised
      case Returned(server) =>
        match PortAsWritten(lib, decoded)
        case Raised => Raised
        case Returned(port) =>
          Returned(if Truthy(server) && port > 0 then Some(Candidate(server, port, c)) else None)
  }

  /** `vmess://WzFd` carries the payload `[1]`: the loop as written raises on
      it, so the whole run stops; the corrected parse rejects it and the loop
      moves on. */
  lemma ListPayloadRaises(lib: Lib, c: string)
    requires c == "vmess://WzFd"
    requires lib.jsonLoads([91, 49, 93]) == Some(JArr([JNum(1)]))
    ensures EntryAsWritten(lib, c) == Raised
    ensures ConfigParse(lib, c) == None && Entry(lib, c) == None
  {
    ListLinkDetected(c);
    ListPayloadDecodes();
    VmessPayloadParse(lib, c, [91, 49, 93], JArr([JNum(1)]));
  }

  lemma ListLinkDetected(c: string)
    requires c == "vmess://WzFd"
    ensures DetectType(c) == Some(Vmess) && c[8..] == "WzFd"
  {
    assert c == "vmess://" + c[8..];
    assert forall i :: 0 <= i < |c[8..]| ==> Base64.IsCode(c[8..][i]);
    Rewrite.VmessTextDetected(c[8..]);
  }

  /** `WzFd` decodes to the three bytes of `[1]`. */
  lemma ListPayloadDecodes()
    ensures Base64.SafeDecode("WzFd") == Some([91, 49, 93])
  {
    EncodeListPayload();
    Base64.RoundTrip([91, 49, 93]);
  }

  /** The urlsafe encoding of the three bytes of `[1]`. */
  lemma EncodeListPayload()
    ensures Base64.SafeEncode([91, 49, 93]) == "WzFd"
  {
    var b: seq<byte> := [91, 49, 93];
    assert Base64.Body(b[3..]) == [];
    assert Base64.Quad(b[0], b[1], b[2]) == "WzFd";
    assert Base64.Body(b) == "WzFd";
    assert Base64.UrlsafeEncode(b) == "WzFd";
    assert PyText.RStripChar("WzFd", '=') == "WzFd";
  }

  /** A vmess link whose payload loads to a true value that is not an object:
      the loop as written raises, the corrected one skips the link. */
  lemma VmessPayloadParse(lib: Lib, c: string, b: seq<byte>, v: Json)
    requires DetectType(c) == Some(Vmess)
    requires Base64.SafeDecode(c[8..]) == Some(b)
    requires lib.jsonLoads(b) == Some(v)
    requires Truthy(v) && !v.JObj?
    ensures EntryAsWritten(lib, c) == Raised
    ensures ConfigParse(lib, c) == None && Entry(lib, c) == None
  {
    VmessLoads(lib, c, b, v);
    NonObjectRaises(lib, v, c);
    Descriptor.VmessParse(lib, c);
    assert Wrap(lib, c).decoded == None;
  }

  /** The parse as written of that link is the loaded value. */
  lemma VmessLoads(lib: Lib, c: string, b: seq<byte>, v: Json)
    requires DetectType(c) == Some(Vmess)
    requires Base64.SafeDecode(c[8..]) == Some(b)
    requires lib.jsonLoads(b) == Some(v)
    ensures ConfigParseAsWritten(lib, c) == Some(v)
  {
  }

  /** The step as written raises on a true parse that is not an object. */
  lemma NonObjectRaises(lib: Lib, v: Json, c: string)
    requires Truthy(v) && !v.JObj?
    ensures EntryOfParse(lib, Some(v), c) == Raised
  {
  }

  /** Where the loop as written does not raise, it computes what the
      corrected one does. */
  lemma EntryAgrees(lib: Lib, c: string)
    ensures EntryAsWritten(lib, c).Returned? ==> EntryAsWritten(lib, c).value == Entry(lib, c)
  {
    ParseAgrees(lib, c);
    WrapperAgrees(lib, Wrap(lib, c), ConfigParseAsWritten(lib, c));
  }

  /** The step as written on a parse, against the corrected step on the
      wrapper whose dictionary is that parse when it is an object. */
  lemma WrapperAgrees(lib: Lib, w: Wrapper, d: Option<Json>)
    requires w.decoded == if d.Some? && d.value.JObj? then Some(d.value.fields) else None
    ensures EntryOfParse(lib, d, w.config).Returned? ==>
      EntryOfParse(lib, d, w.config).value
      == if IsValid(w) && Truthy(Server(w)) && Port(lib, w) > 0 then Some(Candidate(Server(w), Port(lib, w), w.config)) else None
  {
    if d.Some? && d.value.JObj? {
      assert ServerAsWritten(d) == Returned(Server(w));
      assert PortAsWritten(lib, d).Returned? ==> PortAsWritten(lib, d) == Returned(Port(lib, w));
    }
  }

  /** The corrected parse keeps exactly the parses as written that are
      objects. */
  lemma ParseAgrees(lib: Lib, c: string)
    ensures ConfigParse(lib, c)
         == if ConfigParseAsWritten(lib, c).Some? && ConfigParseAsWritten(lib, c).value.JObj?
            then Some(ConfigParseAsWritten(lib, c).value.fields) else None
  {
    var k := DetectType(c);
    if k == Some(Vmess) {
      assert |c| >= 8;
    } else if k.Some? && IsUriScheme(k.value) {
      assert ConfigParse(lib, c) == UriDictionary(lib, k.value, c);
    }
  }

  // ------------------------------------------------- an infinite port number

  /** A vmess payload `{"add": "1.2.3.4", "port": Infinity}` (or a port such
      as `1e400`, which `json.loads` reads as infinity): `int()` raises
      OverflowError, which `get_port` does not catch, so the loop as written
      stops the whole run; the corrected port is 0 and the loop skips the
      descriptor. */
  lemma InfinitePortRaises(lib: Lib, s: string)
    requires DetectType(s) == Some(Vmess)
    requires Base64.SafeDecode(s[8..]).Some?
    requires lib.jsonLoads(Base64.SafeDecode(s[8..]).value)
          == Some(JObj(map["add" := JStr("1.2.3.4"), "port" := JFloat(Infinite(false))]))
    ensures EntryAsWritten(lib, s) == Raised
    ensures Port(lib, Wrap(lib, s)) == 0 && Entry(lib, s) == None
  {
    var m := map["add" := JStr("1.2.3.4"), "port" := JFloat(Infinite(false))];
    assert ConfigParseAsWritten(lib, s) == Some(JObj(m));
    InfinitePortSteps(lib, m);
    VmessParse(lib, s);
    assert Wrap(lib, s).decoded == Some(m);
  }

  lemma InfinitePortSteps(lib: Lib, m: map<string, Json>)
    requires m == map["add" := JStr("1.2.3.4"), "port" := JFloat(Infinite(false))]
    ensures ServerAsWritten(Some(JObj(m))) == Returned(JStr("1.2.3.4"))
    ensures PortAsWritten(lib, Some(JObj(m))) == Raised
    ensures PortNumber(lib, Get(m, "port", JNum(0))) == 0
  {
    assert Get(m, "add", JNull) == JStr("1.2.3.4");
    assert Get(m, "port", JNum(0)) == JFloat(Infinite(false));
  }

  // ----------------------------------------- naming fields that are not text

  /** `get_param` as written (main.py:202-204): `.get` on a `params` value
      that is not a dictionary raises AttributeError. */
  function ParamAsWritten(w: Wrapper, key: string, default: Json): Outcome<Json>
  {
    if w.decoded.None? || w.decoded.value == map[] then Returned(default)
    else
      var p := Get(w.decoded.value, "params", JObj(map[]));
      if p.JObj? then Returned(Get(p.fields, key, default)) else Raised
  }

  /** Where `get_param` as written returns, it returns the corrected value;
      it raises exactly when the dictionary is non-empty and its `params`
      entry is not a dictionary. */
  lemma ParamAgrees(w: Wrapper, key: string, default: Json)
    ensures ParamAsWritten(w, key, default).Returned? ==> ParamAsWritten(w, key, default).value == Param(w, key, default)
    ensures ParamAsWritten(w, key, default) == Raised
        <==> w.decoded.Some? && w.decoded.value != map[] && "params" in w.decoded.value && !w.decoded.value["params"].JObj?
  {
  }

  /** `transport.upper()` (main.py:216) raises AttributeError on a true value
      that is not text. */
  function TransportTokenAsWritten(transport: Json): Outcome<string>
  {
    if Truthy(transport) && transport != JStr("tcp") then
      if transport.JStr? then Returned(PyText.Upper(transport.s)) else Raised
    else Returned("")
  }

  /** `get_country_code` as written (main.py:127-137): a true host that is
      not text makes `socket.inet_aton` raise TypeError, which `resolve_ip`
      does not catch. */
  function CountryCodeAsWritten(lib: Lib, host: Json): Outcome<string>
  {
    if !Truthy(host) then Returned("UNK")
    else if host.JStr? then Returned(lib.country(host.s))
    else Raised
  }

  /** `generate_base_name` as written (main.py:206-218): the country code
      first, then the protocol details. */
  function BaseNameAsWritten(lib: Lib, w: Wrapper, latency: nat): Outcome<string>
  {
    if !IsValid(w) then Returned("InvalidConfig")
    else
      match CountryCodeAsWritten(lib, Server(w))
      case Raised => Raised
      case Returned(country) =>
        match DetailsAsWritten(w)
        case Raised => Raised
        case Returned(d) =>
          Returned(PyText.Join(PyText.NonEmpty([PyText.Upper(TypeName(w)), country] + d + [LatencyText(latency)]), '_'))
  }

  /** The security and transport parts as written (main.py:211-217). */
  function DetailsAsWritten(w: Wrapper): Outcome<seq<string>>
    requires IsValid(w)
  {
    var m := w.decoded.value;
    if !HasDetails(w) then Returned([])
    else
      match ParamAsWritten(w, "security", Get(m, "tls", JNull))
      case Raised => Raised
      case Returned(sec) =>
        match ParamAsWritten(w, "type", Get(m, "net", JNull))
        case Raised => Raised
        case Returned(tr) =>
          match TransportTokenAsWritten(tr)
          case Raised => Raised
          case Returned(t) =>
            var st := SecurityToken(sec);
            Returned((if st != [] then [st] else []) + (if t != [] then [t] else []))
  }

  /** A vmess payload `{"add": "1.2.3.4", "port": 443, "net": 1}` passes the
      deduplication loop, but naming it as written raises; the corrected
      name skips the transport. */
  lemma NumericTransportRaises(lib: Lib, s: string, latency: nat)
    requires DetectType(s) == Some(Vmess)
    requires Base64.SafeDecode(s[8..]).Some?
    requires lib.jsonLoads(Base64.SafeDecode(s[8..]).value)
          == Some(JObj(map["add" := JStr("1.2.3.4"), "port" := JNum(443), "net" := JNum(1)]))
    ensures Entry(lib, s).Some?
    ensures BaseNameAsWritten(lib, Wrap(lib, s), latency) == Raised
    ensures lib.country("1.2.3.4") != [] ==>
      BaseName(lib, Wrap(lib, s), latency) == "VMESS" + "_" + lib.country("1.2.3.4") + "_" + LatencyText(latency)
  {
    var w := Wrap(lib, s);
    NumericTransportWrap(lib, s);
    NumericTransportNaming(lib, w, latency);
  }

  lemma NumericTransportWrap(lib: Lib, s: string)
    requires DetectType(s) == Some(Vmess)
    requires Base64.SafeDecode(s[8..]).Some?
    requires lib.jsonLoads(Base64.SafeDecode(s[8..]).value)
          == Some(JObj(map["add" := JStr("1.2.3.4"), "port" := JNum(443), "net" := JNum(1)]))
    ensures Wrap(lib, s) == Wrapper(s, Some(Vmess), Some(map["add" := JStr("1.2.3.4"), "port" := JNum(443), "net" := JNum(1)]))
  {
    VmessParse(lib, s);
  }

  lemma NumericTransportNaming(lib: Lib, w: Wrapper, latency: nat)
    requires w.kind == Some(Vmess)
    requires w.decoded == Some(map["add" := JStr("1.2.3.4"), "port" := JNum(443), "net" := JNum(1)])
    ensures IsValid(w) && Truthy(Server(w)) && Port(lib, w) == 443
    ensures BaseNameAsWritten(lib, w, latency) == Raised
    ensures lib.country("1.2.3.4") != [] ==>
      BaseName(lib, w, latency) == "VMESS" + "_" + lib.country("1.2.3.4") + "_" + LatencyText(latency)
  {
    NumericTransportFields(lib, w);
    NumericTransportDetails(w);
    NoDetailsName(lib, w, latency);
  }

  lemma NumericTransportFields(lib: Lib, w: Wrapper)
    requires w.decoded == Some(map["add" := JStr("1.2.3.4"), "port" := JNum(443), "net" := JNum(1)])
    ensures IsValid(w) && Server(w) == JStr("1.2.3.4") && Port(lib, w) == 443 && Transport(w) == JNum(1)
  {
    var m := w.decoded.value;
    assert Get(m, "add", JNull) == JStr("1.2.3.4");
    assert Get(m, "net", JNull) == JNum(1);
  }

  lemma NumericTransportDetails(w: Wrapper)
    requires w.kind == Some(Vmess) && IsValid(w) && Transport(w) == JNum(1)
    requires w.decoded.value == map["add" := JStr("1.2.3.4"), "port" := JNum(443), "net" := JNum(1)]
    ensures DetailsAsWritten(w) == Raised && Details(w) == []
  {
    var m := w.decoded.value;
    assert TransportTokenAsWritten(JNum(1)) == Raised;
    assert ParamAsWritten(w, "type", Get(m, "net", JNull)) == Returned(Transport(w));
  }

  /** The name of a valid vmess descriptor without details. */
  lemma NoDetailsName(lib: Lib, w: Wrapper, latency: nat)
    requires w.kind == Some(Vmess) && IsValid(w) && Details(w) == []
    requires Server(w) == JStr("1.2.3.4")
    ensures lib.country("1.2.3.4") != [] ==>
      BaseName(lib, w, latency) == "VMESS" + "_" + lib.country("1.2.3.4") + "_" + LatencyText(latency)
  {
    var c := lib.country("1.2.3.4");
    if c != [] {
      assert CountryCode(lib, Server(w)) == c;
      UpperVmess();
      ThreeParts("VMESS", c, LatencyText(latency));
      assert [PyText.Upper(TypeName(w)), c] + Details(w) + [LatencyText(latency)] == ["VMESS", c, LatencyText(latency)];
    }
  }

  lemma UpperVmess()
    ensures PyText.Upper("vmess") == "VMESS"
  {
    var u := PyText.Upper("vmess");
    assert u[0] == 'V' && u[1] == 'M' && u[2] == 'E' && u[3] == 'S' && u[4] == 'S';
  }

  lemma ThreeParts(a: string, b: string, c: string)
    requires a != [] && b != [] && c != []
    ensures PyText.Join(PyText.NonEmpty([a, b, c]), '_') == a + "_" + b + "_" + c
  {
    PyText.NonEmptyKeepsAll([a, b, c]);
    assert [a, b, c][..2] == [a, b];
    assert [a, b][..1] == [a];
    assert PyText.Join([a, b], '_') == a + "_" + b;
  }

  /** A vmess payload whose `params` is `null` raises as written as well;
      the corrected lookup treats it as an empty dictionary. */
  lemma NullParamsRaises(w: Wrapper, key: string, default: Json)
    requires w.decoded.Some? && "params" in w.decoded.value && w.decoded.value["params"] == JNull
    ensures ParamAsWritten(w, key, default) == Raised
    ensures Param(w, key, default) == default
  {
  }

  /** Where naming as written does not raise, it gives the corrected name. */
  lemma BaseNameAgrees(lib: Lib, w: Wrapper, latency: nat)
    ensures BaseNameAsWritten(lib, w, latency).Returned? ==>
      BaseNameAsWritten(lib, w, latency).value == BaseName(lib, w, latency)
  {
    if IsValid(w) {
      DetailsAgree(w);
      CountryAgrees(lib, Server(w));
    }
  }

  lemma CountryAgrees(lib: Lib, host: Json)
    ensures CountryCodeAsWritten(lib, host).Returned? ==> CountryCodeAsWritten(lib, host).value == CountryCode(lib, host)
  {
  }

  lemma DetailsAgree(w: Wrapper)
    requires IsValid(w)
    ensures DetailsAsWritten(w).Returned? ==> DetailsAsWritten(w).value == Details(w)
  {
    if HasDetails(w) && DetailsAsWritten(w).Returned? {
      var m := w.decoded.value;
      assert ParamAsWritten(w, "security", Get(m, "tls", JNull)) == Returned(Security(w));
      assert ParamAsWritten(w, "type", Get(m, "net", JNull)) == Returned(Transport(w));
      assert TransportTokenAsWritten(Transport(w)) == Returned(TransportToken(Transport(w)));
    }
  }
}
