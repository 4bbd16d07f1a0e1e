/** Scheme dispatch, descriptor parsing and the `ConfigWrapper` accessors
    (main.py:127-204): `detect_type`, `config_parse`, `is_valid`,
    `get_server`, `get_port`, `get_param` and the empty-host rule of
    `get_country_code`. */
module Descriptor {
  import opened Common
  import opened Values
  import opened Library
  import PyText
  import Base64

  /** The tags `detect_type` returns. */
  datatype Scheme = Vmess | Vless | Trojan | Ss | Tuic | Hy2 | Hysteria

  /** The tag as the text `detect_type` returns. */
  function Tag(k: Scheme): string
  {
    match k
    case Vmess => "vmess"
    case Vless => "vless"
    case Trojan => "trojan"
    case Ss => "ss"
    case Tuic => "tuic"
    case Hy2 => "hy2"
    case Hysteria => "hysteria"
  }

  /** `t` starts with one of the prefixes that name scheme `k`. */
  predicate HasSchemePrefix(t: string, k: Scheme)
  {
    match k
    case Vmess => "vmess://" <= t
    case Vless => "vless://" <= t
    case Trojan => "trojan://" <= t
    case Ss => "ss://" <= t
    case Tuic => "tuic://" <= t
    case Hy2 => "hy2://" <= t || "hysteria2://" <= t
    case Hysteria => "hysteria://" <= t
  }

  /** The prefix tests of `detect_type`, in its order, on stripped text. */
  function FirstMatch(t: string): (r: Option<Scheme>)
    ensures r.Some? ==> HasSchemePrefix(t, r.value)
  {
    if "vmess://" <= t then Some(Vmess)
    else if "vless://" <= t then Some(Vless)
    else if "trojan://" <= t then Some(Trojan)
    else if "ss://" <= t then Some(Ss)
    else if "tuic://" <= t then Some(Tuic)
    else if "hy2://" <= t || "hysteria2://" <= t then Some(Hy2)
    else if "hysteria://" <= t then Some(Hysteria)
    else None
  }

  /** `detect_type` (main.py:141-150). */
  function DetectType(s: string): Option<Scheme>
  {
    FirstMatch(PyText.Strip(s))
  }

  /** A scheme prefix is found by the first matching test: no text starts
      with the prefixes of two different schemes. */
  lemma PrefixDetermines(t: string, k: Scheme)
    requires HasSchemePrefix(t, k)
    ensures FirstMatch(t) == Some(k)
  {
    match k
    case Vmess =>
    case Vless => assert t[1] == 'l';
    case Trojan => assert t[0] == 't';
    case Ss => assert t[0] == 's';
    case Tuic => assert t[0] == 't' && t[1] == 'u';
    case Hy2 => assert t[0] == 'h' && t[1] == 'y';
      if "hy2://" <= t { assert t[2] == '2'; } else { assert t[8] == '2'; }
    case Hysteria => assert t[0] == 'h' && t[2] == 's' && t[8] == ':';
  }

  /** `detect_type` strips its input and names exactly the scheme whose
      prefix the stripped text starts with; it returns None when no scheme
      prefix matches. */
  lemma DetectTypeByPrefix(s: string, k: Scheme)
    ensures DetectType(s) == Some(k) <==> HasSchemePrefix(PyText.Strip(s), k)
    ensures DetectType(s) == None <==> forall k' :: !HasSchemePrefix(PyText.Strip(s), k')
  {
    var t := PyText.Strip(s);
    if HasSchemePrefix(t, k) {
      PrefixDetermines(t, k);
    }
    forall k' | HasSchemePrefix(t, k') ensures DetectType(s).Some? {
      PrefixDetermines(t, k');
    }
  }

  /** The schemes `config_parse` reads as a URI. */
  predicate IsUriScheme(k: Scheme)
  {
    k == Vless || k == Trojan || k == Tuic || k == Hy2 || k == Ss
  }

  /** The userinfo of a shadowsocks URI after the base64 attempt of
      main.py:163-168: the decoded bytes replace the raw text only when they
      are non-empty and hold a `:`. */
  function SsUserInfo(lib: Lib, raw: string): string
  {
    match Base64.SafeDecode(raw)
    case Some(b) => if b != [] && 58 in b then lib.utf8DecodeIgnore(b) else raw
    case None => raw
  }

  /** A userinfo written as the unpadded URL-safe base64 of bytes that hold a
      `:` is read as the UTF-8 text of those bytes. */
  lemma SsUserInfoEncoded(lib: Lib, b: seq<byte>)
    requires 58 in b
    ensures SsUserInfo(lib, Base64.SafeEncode(b)) == lib.utf8DecodeIgnore(b)
  {
    Base64.RoundTrip(b);
  }

  /** Method and password of a shadowsocks userinfo (main.py:169-170): the text
      is split at its first `:`, so the password may hold further colons; no
      `:` at all is a parse failure. */
  function SplitCredentials(info: string): (r: Option<(string, string)>)
    ensures r.None? <==> ':' !in info
    ensures r.Some? ==> info == r.value.0 + ":" + r.value.1 && ':' !in r.value.0
  {
    var i := PyText.IndexOf(info, ':');
    if i == |info| then None
    else
      assert info == info[..i] + ":" + info[i + 1..];
      Some((info[..i], info[i + 1..]))
  }

  /** A Python value that may be None. */
  function TextOrNone(o: Option<string>): Json
  {
    match o
    case Some(t) => JStr(t)
    case None => JNull
  }

  function PortValue(p: PortField): Json
    requires !p.BadPort?
  {
    if p.PortNum? then JNum(p.n) else JNull
  }

  /** The dictionary main.py:159-175 builds from a URI descriptor. */
  function UriDictionary(lib: Lib, k: Scheme, s: string): (r: Option<map<string, Json>>)
    requires IsUriScheme(k)
    ensures r.Some? ==> lib.urlparse(s).Some? && !lib.port(lib.urlparse(s).value.netloc).BadPort?
    ensures r.Some? ==> var netloc := lib.urlparse(s).value.netloc;
      && "hostname" in r.value && r.value["hostname"] == TextOrNone(lib.hostname(netloc))
      && "port" in r.value && r.value["port"] == PortValue(lib.port(netloc))
      && "hash" in r.value && r.value["hash"] == JStr(lib.urlparse(s).value.fragment)
      && "add" !in r.value
    ensures k != Ss ==> (r.Some? <==> lib.urlparse(s).Some? && !lib.port(lib.urlparse(s).value.netloc).BadPort?)
    ensures k != Ss && r.Some? ==> var u := lib.urlparse(s).value; var q := lib.queryParams(u.query);
      && "protocol" in r.value && r.value["protocol"] == JStr(Tag(k))
      && "username" in r.value && r.value["username"] == TextOrNone(lib.username(u.netloc))
      && "params" in r.value && r.value["params"].JObj? && r.value["params"].fields.Keys == q.Keys
      && (forall key :: key in q ==> r.value["params"].fields[key] == JStr(q[key]))
  {
    match lib.urlparse(s)
    case None => None
    case Some(u) =>
      if k == Ss then
        match SplitCredentials(SsUserInfo(lib, lib.unquote(PyText.BeforeFirst(u.netloc, '@'))))
        case None => None
        case Some(cred) =>
          if lib.port(u.netloc).BadPort? then None
          else Some(SsFields(lib, u, cred))
      else if lib.port(u.netloc).BadPort? then None
      else Some(UriFields(lib, k, u))
  }

  /** The shadowsocks dictionary (main.py:171). */
  function SsFields(lib: Lib, u: Url, cred: (string, string)): (r: map<string, Json>)
    requires !lib.port(u.netloc).BadPort?
    ensures "hostname" in r && r["hostname"] == TextOrNone(lib.hostname(u.netloc))
    ensures "port" in r && r["port"] == PortValue(lib.port(u.netloc))
    ensures "hash" in r && r["hash"] == JStr(u.fragment) && "add" !in r
    ensures "method" in r && r["method"] == JStr(cred.0) && "password" in r && r["password"] == JStr(cred.1)
  {
    map["hostname" := TextOrNone(lib.hostname(u.netloc)), "port" := PortValue(lib.port(u.netloc)),
        "method" := JStr(cred.0), "password" := JStr(cred.1), "hash" := JStr(u.fragment)]
  }

  /** The dictionary of the other URI schemes (main.py:173-175). */
  function UriFields(lib: Lib, k: Scheme, u: Url): (r: map<string, Json>)
    requires !lib.port(u.netloc).BadPort?
    ensures "hostname" in r && r["hostname"] == TextOrNone(lib.hostname(u.netloc))
    ensures "port" in r && r["port"] == PortValue(lib.port(u.netloc))
    ensures "hash" in r && r["hash"] == JStr(u.fragment) && "add" !in r
    ensures "protocol" in r && r["protocol"] == JStr(Tag(k))
    ensures "username" in r && r["username"] == TextOrNone(lib.username(u.netloc))
    ensures var q := lib.queryParams(u.query);
      "params" in r && r["params"].JObj? && r["params"].fields.Keys == q.Keys
      && (forall key :: key in q ==> r["params"].fields[key] == JStr(q[key]))
  {
    var params := lib.queryParams(u.query);
    map["protocol" := JStr(Tag(k)), "username" := TextOrNone(lib.username(u.netloc)),
        "hostname" := TextOrNone(lib.hostname(u.netloc)), "port" := PortValue(lib.port(u.netloc)),
        "params" := JObj(map key | key in params :: JStr(params[key])), "hash" := JStr(u.fragment)]
  }

  /** `config_parse` (main.py:152-177), with the correction recorded as a
      finding: a vmess payload that decodes to a JSON value other than an
      object is a parse failure. Only the six tags vmess, vless, trojan, tuic,
      hy2 and ss can parse; `hysteria://` never does. */
  function ConfigParse(lib: Lib, s: string): Option<map<string, Json>>
  {
    var k := DetectType(s);
    if k == Some(Vmess) then
      assert |s| >= 8;
      VmessDictionary(lib, s[8..])
    else if k.Some? && IsUriScheme(k.value) then UriDictionary(lib, k.value, s)
    else None
  }

  /** The vmess branch of `config_parse` (main.py:154-156) on the text after
      `vmess://`: base64, then `json.loads`; a payload that is not a JSON
      object does not parse. */
  function VmessDictionary(lib: Lib, payload: string): (r: Option<map<string, Json>>)
    ensures r.Some? <==> Base64.SafeDecode(payload).Some? && lib.jsonLoads(Base64.SafeDecode(payload).value).Some?
                         && lib.jsonLoads(Base64.SafeDecode(payload).value).value.JObj?
    ensures r.Some? ==> Some(JObj(r.value)) == lib.jsonLoads(Base64.SafeDecode(payload).value)
  {
    match Base64.SafeDecode(payload)
    case None => None
    case Some(b) =>
      match lib.jsonLoads(b)
      case Some(JObj(m)) => Some(m)
      case _ => None
  }

  /** Only the six tags can parse: an unrecognised descriptor and a
      `hysteria://` one never do. */
  lemma ConfigParseKinds(lib: Lib, s: string)
    ensures ConfigParse(lib, s).Some? ==> DetectType(s).Some? && DetectType(s).value != Hysteria
  {
    var k := DetectType(s);
    if k.None? || k == Some(Hysteria) {
      assert ConfigParse(lib, s) == None;
    }
  }

  /** A vmess descriptor parses exactly when its payload decodes and loads to
      a JSON object, and the dictionary is that object. */
  lemma VmessParse(lib: Lib, s: string)
    requires DetectType(s) == Some(Vmess)
    ensures |s| >= 8
    ensures ConfigParse(lib, s).Some? <==> (Base64.SafeDecode(s[8..]).Some? && lib.jsonLoads(Base64.SafeDecode(s[8..]).value).Some?
                     && lib.jsonLoads(Base64.SafeDecode(s[8..]).value).value.JObj?)
    ensures ConfigParse(lib, s).Some? ==> Some(JObj(ConfigParse(lib, s).value)) == lib.jsonLoads(Base64.SafeDecode(s[8..]).value)
  {
    assert |s| >= 8;
    assert ConfigParse(lib, s) == VmessDictionary(lib, s[8..]);
  }

  /** A shadowsocks descriptor the URI parser reads parses exactly when its
      chosen userinfo holds a `:` and its port can be read; then `method` is
      the text before the first `:` and `password` all the text after it. */
  lemma SsCredentials(lib: Lib, s: string)
    requires DetectType(s) == Some(Ss) && lib.urlparse(s).Some?
    ensures var u := lib.urlparse(s).value;
      var info := SsUserInfo(lib, lib.unquote(PyText.BeforeFirst(u.netloc, '@')));
      && (ConfigParse(lib, s).Some? <==> ':' in info && !lib.port(u.netloc).BadPort?)
      && (ConfigParse(lib, s).Some? ==>
            var m := ConfigParse(lib, s).value;
            && "method" in m && "password" in m && m["method"].JStr? && m["password"].JStr?
            && info == m["method"].s + ":" + m["password"].s && ':' !in m["method"].s)
  {
    assert ConfigParse(lib, s) == UriDictionary(lib, Ss, s);
    SsDictionary(lib, Ss, s);
  }

  lemma SsDictionary(lib: Lib, k: Scheme, s: string)
    requires k == Ss && lib.urlparse(s).Some?
    ensures var u := lib.urlparse(s).value;
      var info := SsUserInfo(lib, lib.unquote(PyText.BeforeFirst(u.netloc, '@')));
      && (UriDictionary(lib, k, s).Some? <==> ':' in info && !lib.port(u.netloc).BadPort?)
      && (UriDictionary(lib, k, s).Some? ==>
            var m := UriDictionary(lib, k, s).value;
            && "method" in m && "password" in m && m["method"].JStr? && m["password"].JStr?
            && info == m["method"].s + ":" + m["password"].s && ':' !in m["method"].s)
  {
    var u := lib.urlparse(s).value;
    var info := SsUserInfo(lib, lib.unquote(PyText.BeforeFirst(u.netloc, '@')));
    var cred := SplitCredentials(info);
    if cred.Some? && !lib.port(u.netloc).BadPort? {
      assert UriDictionary(lib, k, s) == Some(SsFields(lib, u, cred.value));
    } else {
      assert UriDictionary(lib, k, s) == None;
    }
  }

  /** `ConfigWrapper(config_string)` (main.py:188-192): the text, its scheme
      (`'unknown'` when there is none) and its parsed dictionary. */
  datatype Wrapper = Wrapper(config: string, kind: Option<Scheme>, decoded: Option<map<string, Json>>)

  function Wrap(lib: Lib, s: string): Wrapper
  {
    Wrapper(s, DetectType(s), ConfigParse(lib, s))
  }

  /** `is_valid` (main.py:194). */
  predicate IsValid(w: Wrapper)
  {
    w.decoded.Some?
  }

  /** `self.type`, as text. */
  function TypeName(w: Wrapper): string
  {
    if w.kind.Some? then Tag(w.kind.value) else "unknown"
  }

  /** `get_server` (main.py:195-197): `add` when it is true, else `hostname`
      when it is true, else `''`; without a dictionary it is `''`. The
      result is either true or the empty text. */
  function Server(w: Wrapper): (r: Json)
    ensures Truthy(r) || r == JStr("")
    ensures w.decoded.None? ==> r == JStr("")
    ensures w.decoded.Some? && Truthy(Get(w.decoded.value, "add", JNull)) ==> r == w.decoded.value["add"]
    ensures w.decoded.Some? && !Truthy(Get(w.decoded.value, "add", JNull)) && Truthy(Get(w.decoded.value, "hostname", JNull))
            ==> r == w.decoded.value["hostname"]
    ensures w.decoded.Some? && !Truthy(Get(w.decoded.value, "add", JNull)) && !Truthy(Get(w.decoded.value, "hostname", JNull))
            ==> r == JStr("")
  {
    if w.decoded.None? || w.decoded.value == map[] then JStr("")
    else
      var m := w.decoded.value;
      Or(Or(Get(m, "add", JNull), Get(m, "hostname", JNull)), JStr(""))
  }

  /** Python's `int(v)` with ValueError and TypeError turned into 0, as
      `get_port` does (main.py:200-201), and with the correction recorded as
      a finding: an infinite float, whose OverflowError the code does not
      catch, is 0 as well. */
  function PortNumber(lib: Lib, v: Json): (r: int)
    ensures v.JNum? ==> r == v.n
    ensures v.JBool? ==> r == if v.b then 1 else 0
    ensures v.JStr? ==> r == if lib.intOfText(v.s).Some? then lib.intOfText(v.s).value else 0
    ensures v.JFloat? && v.f.Finite? ==> r == Truncate(v.f.x)
    ensures v.JNull? || v.JArr? || v.JObj? || (v.JFloat? && !v.f.Finite?) ==> r == 0
  {
    match v
    case JNull => 0
    case JBool(b) => if b then 1 else 0
    case JNum(n) => n
    case JFloat(f) => if f.Finite? then Truncate(f.x) else 0
    case JStr(t) => if lib.intOfText(t).Some? then lib.intOfText(t).value else 0
    case JArr(_) => 0
    case JObj(_) => 0
  }

  /** `int(x)` for a finite float: the integer part, rounded toward zero. */
  function Truncate(x: real): (r: int)
    ensures 0.0 <= x ==> r as real <= x < r as real + 1.0
    ensures x < 0.0 ==> r as real - 1.0 < x <= r as real
  {
    if x >= 0.0 then x.Floor else -((-x).Floor)
  }

  /** `get_port` (main.py:198-201): the `port` entry read as an integer,
      0 when the dictionary is missing or has no `port`. */
  function Port(lib: Lib, w: Wrapper): (r: int)
    ensures w.decoded.None? ==> r == 0
    ensures w.decoded.Some? && "port" !in w.decoded.value ==> r == 0
    ensures w.decoded.Some? && "port" in w.decoded.value ==> r == PortNumber(lib, w.decoded.value["port"])
  {
    if w.decoded.None? || w.decoded.value == map[] then 0
    else PortNumber(lib, Get(w.decoded.value, "port", JNum(0)))
  }

  /** `get_param` (main.py:202-204), with the correction recorded as a
      finding: a `params` entry that is not a dictionary counts as empty. */
  function Param(w: Wrapper, key: string, default: Json): (r: Json)
    ensures (w.decoded.Some? && "params" in w.decoded.value && w.decoded.value["params"].JObj?
             && key in w.decoded.value["params"].fields) ==> r == w.decoded.value["params"].fields[key]
    ensures (w.decoded.None? || "params" !in w.decoded.value || !w.decoded.value["params"].JObj?
             || key !in w.decoded.value["params"].fields) ==> r == default
  {
    if w.decoded.None? || w.decoded.value == map[] then default
    else
      var p := Get(w.decoded.value, "params", JObj(map[]));
      if p.JObj? then Get(p.fields, key, default) else default
  }

  /** `get_country_code` (main.py:127-137) in front of the resolver: an empty
      host is `"UNK"`; a host that is not text (the finding about field types)
      is `"UNK"` too; any other host goes to the resolver. */
  function CountryCode(lib: Lib, host: Json): (r: string)
    ensures !Truthy(host) ==> r == "UNK"
    ensures host.JStr? && host.s != [] ==> r == lib.country(host.s)
  {
    if !Truthy(host) then "UNK"
    else if host.JStr? then lib.country(host.s)
    else "UNK"
  }

  /** For a URI descriptor the server is the host name the URI parser reports,
      and the port is its port, or 0 when the URI has none. */
  lemma UriServerAndPort(lib: Lib, s: string)
    requires DetectType(s).Some? && IsUriScheme(DetectType(s).value) && ConfigParse(lib, s).Some?
    ensures var netloc := lib.urlparse(s).value.netloc;
      && Server(Wrap(lib, s)) == (if lib.hostname(netloc).Some? && lib.hostname(netloc).value != [] then JStr(lib.hostname(netloc).value) else JStr(""))
      && Port(lib, Wrap(lib, s)) == (if lib.port(netloc).PortNum? then lib.port(netloc).n else 0)
  {
    var netloc := lib.urlparse(s).value.netloc;
    assert ConfigParse(lib, s) == UriDictionary(lib, DetectType(s).value, s);
    DictionaryServerAndPort(lib, Wrap(lib, s), lib.hostname(netloc), lib.port(netloc));
  }

  /** For a vmess descriptor the server is the payload's `add`, else its
      `hostname`, and the port is its `port` entry read as an integer, or 0
      when there is none. */
  lemma VmessServerAndPort(lib: Lib, s: string)
    requires DetectType(s) == Some(Vmess) && ConfigParse(lib, s).Some?
    ensures var m := ConfigParse(lib, s).value;
      && Server(Wrap(lib, s)) == Or(Or(Get(m, "add", JNull), Get(m, "hostname", JNull)), JStr(""))
      && Port(lib, Wrap(lib, s)) == (if "port" in m then PortNumber(lib, m["port"]) else 0)
  {
    var w := Wrap(lib, s);
    assert w.decoded == ConfigParse(lib, s);
    PayloadServerAndPort(lib, w);
  }

  lemma PayloadServerAndPort(lib: Lib, w: Wrapper)
    requires w.decoded.Some?
    ensures var m := w.decoded.value;
      && Server(w) == Or(Or(Get(m, "add", JNull), Get(m, "hostname", JNull)), JStr(""))
      && Port(lib, w) == (if "port" in m then PortNumber(lib, m["port"]) else 0)
  {
  }

  lemma DictionaryServerAndPort(lib: Lib, w: Wrapper, h: Option<string>, p: PortField)
    requires w.decoded.Some? && !p.BadPort?
    requires var m := w.decoded.value;
      "add" !in m && "hostname" in m && m["hostname"] == TextOrNone(h) && "port" in m && m["port"] == PortValue(p)
    ensures Server(w) == (if h.Some? && h.value != [] then JStr(h.value) else JStr(""))
    ensures Port(lib, w) == (if p.PortNum? then p.n else 0)
  {
  }
}
