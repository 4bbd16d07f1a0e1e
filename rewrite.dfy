/** `rename_config` (main.py:220-237): writing a display name into a
    descriptor. */
module Rewrite {
  import opened Common
  import opened Values
  import opened Library
  import opened Descriptor
  import PyText
  import Base64

  /** The vmess payload with `ps` set to `name`, as it is dumped again. */
  function RenamedPayload(m: map<string, Json>, name: string): map<string, Json>
  {
    m["ps" := JStr(name)]
  }

  /** `rename_config` (main.py:220-237). A vmess descriptor whose payload
      parses to a non-empty object gets `ps` set to the name and is encoded
      again; the URI schemes get the quoted name as their fragment; every
      other descriptor, and every one whose parse fails, is returned as it
      is. */
  function RenameConfig(lib: Lib, s: string, name: string): string
  {
    RenameAs(lib, DetectType(s), s, name)
  }

  /** `rename_config` once the tag `k` of `s` is known. */
  function RenameAs(lib: Lib, k: Option<Scheme>, s: string, name: string): string
  {
    if k == Some(Vmess) then
      match ConfigParse(lib, s)
      case Some(m) =>
        if m != map[] then "vmess://" + Base64.SafeEncode(lib.utf8Encode(lib.jsonDumps(JObj(RenamedPayload(m, name)))))
        else s
      case None => s
    else if k.Some? && IsUriScheme(k.value) then
      match lib.urlparse(s)
      case Some(u) => lib.urlunparse(u.(fragment := lib.quote(name)))
      case None => s
    else s
  }

  /** `rename_config` returns an unknown or `hysteria://` descriptor as it is. */
  lemma RenameKeepsUnparsed(lib: Lib, s: string, name: string)
    requires DetectType(s).None? || DetectType(s) == Some(Hysteria)
    ensures RenameConfig(lib, s, name) == s
  {
    KindKeeps(lib, DetectType(s), s, name);
  }

  lemma KindKeeps(lib: Lib, k: Option<Scheme>, s: string, name: string)
    requires k.None? || k == Some(Hysteria)
    ensures RenameAs(lib, k, s, name) == s
  {
  }

  /** It returns a vmess descriptor whose payload does not parse to a
      non-empty object as it is. */
  lemma RenameKeepsBadVmess(lib: Lib, s: string, name: string)
    requires DetectType(s) == Some(Vmess) && (ConfigParse(lib, s).None? || ConfigParse(lib, s).value == map[])
    ensures RenameConfig(lib, s, name) == s
  {
    if ConfigParse(lib, s).Some? {
      assert RenameConfig(lib, s, name) == s;
    }
  }

  /** It returns a URI descriptor the parser rejects as it is. */
  lemma RenameKeepsBadUri(lib: Lib, s: string, name: string)
    requires DetectType(s).Some? && IsUriScheme(DetectType(s).value) && lib.urlparse(s).None?
    ensures RenameConfig(lib, s, name) == s
  {
  }

  /** A vmess descriptor that parses becomes `vmess://` and the encoded
      renamed payload. */
  lemma RenameVmessLink(lib: Lib, s: string, name: string)
    requires DetectType(s) == Some(Vmess) && ConfigParse(lib, s).Some? && ConfigParse(lib, s).value != map[]
    ensures RenameConfig(lib, s, name)
         == "vmess://" + Base64.SafeEncode(lib.utf8Encode(lib.jsonDumps(JObj(RenamedPayload(ConfigParse(lib, s).value, name)))))
  {
  }

  /** The encoded text of a vmess payload is never padded, never white
      space and never empty-prefixed: `vmess://` followed by it is seen as a
      vmess descriptor again. */
  lemma VmessTextDetected(e: string)
    requires forall i :: 0 <= i < |e| ==> Base64.IsCode(e[i])
    ensures DetectType("vmess://" + e) == Some(Vmess)
  {
    var t := "vmess://" + e;
    assert !PyText.IsSpace(t[0]);
    assert !PyText.IsSpace(t[|t| - 1]) by {
      if e != [] { assert t[|t| - 1] == e[|e| - 1]; }
    }
    assert PyText.Strip(t) == t;
    PrefixDetermines(t, Vmess);
  }

  /** A renamed vmess descriptor parses back to its old payload with `ps` set
      to the new name, given only that `json.loads` reads back what
      `json.dumps` wrote and UTF-8 encoded. The base64 step needs no
      hypothesis: it is the proved round trip of the codec. */
  lemma VmessRenameRoundTrip(lib: Lib, s: string, name: string)
    requires DetectType(s) == Some(Vmess) && ConfigParse(lib, s).Some? && ConfigParse(lib, s).value != map[]
    requires var v := JObj(RenamedPayload(ConfigParse(lib, s).value, name));
      lib.jsonLoads(lib.utf8Encode(lib.jsonDumps(v))) == Some(v)
    ensures DetectType(RenameConfig(lib, s, name)) == Some(Vmess)
    ensures ConfigParse(lib, RenameConfig(lib, s, name)) == Some(RenamedPayload(ConfigParse(lib, s).value, name))
    ensures var m := ConfigParse(lib, RenameConfig(lib, s, name)).value; "ps" in m && m["ps"] == JStr(name)
  {
    var m := ConfigParse(lib, s).value;
    var b := lib.utf8Encode(lib.jsonDumps(JObj(RenamedPayload(m, name))));
    var e := Base64.SafeEncode(b);
    var r := RenameConfig(lib, s, name);
    RenameVmessLink(lib, s, name);
    VmessTextDetected(e);
    assert r[8..] == e;
    Base64.RoundTrip(b);
    VmessParse(lib, r);
  }

  /** Renaming a URI descriptor touches only its fragment: when the URI
      parser reads the rewritten text back as the old URI with the quoted name
      as fragment, the text parses to the old dictionary with `hash` set to
      the quoted name. */
  lemma UriRenameKeepsFields(lib: Lib, s: string, name: string)
    requires DetectType(s).Some? && IsUriScheme(DetectType(s).value)
    requires lib.urlparse(s).Some? && ConfigParse(lib, s).Some?
    requires var r := RenameConfig(lib, s, name);
      lib.urlparse(r) == Some(lib.urlparse(s).value.(fragment := lib.quote(name))) && DetectType(r) == DetectType(s)
    ensures ConfigParse(lib, RenameConfig(lib, s, name)) == Some(ConfigParse(lib, s).value["hash" := JStr(lib.quote(name))])
  {
    var k := DetectType(s).value;
    var r := RenameConfig(lib, s, name);
    assert ConfigParse(lib, s) == UriDictionary(lib, k, s);
    assert ConfigParse(lib, r) == UriDictionary(lib, k, r);
    FragmentOnly(lib, k, s, r, lib.quote(name));
  }

  /** The URI dictionary reads the fragment only into `hash`. */
  lemma FragmentOnly(lib: Lib, k: Scheme, s: string, r: string, f: string)
    requires IsUriScheme(k) && lib.urlparse(s).Some? && UriDictionary(lib, k, s).Some?
    requires lib.urlparse(r) == Some(lib.urlparse(s).value.(fragment := f))
    ensures UriDictionary(lib, k, r) == Some(UriDictionary(lib, k, s).value["hash" := JStr(f)])
  {
    var u := lib.urlparse(s).value;
    if k == Ss {
      var cred := SplitCredentials(SsUserInfo(lib, lib.unquote(PyText.BeforeFirst(u.netloc, '@')))).value;
      SsFragment(lib, u, cred, f);
    } else {
      UriFragment(lib, k, u, f);
    }
  }

  lemma SsFragment(lib: Lib, u: Url, cred: (string, string), f: string)
    requires !lib.port(u.netloc).BadPort?
    ensures SsFields(lib, u.(fragment := f), cred) == SsFields(lib, u, cred)["hash" := JStr(f)]
  {
    var d, d' := SsFields(lib, u, cred), SsFields(lib, u.(fragment := f), cred);
    assert d'.Keys == d.Keys;
    forall key | key in d.Keys ensures d'[key] == d["hash" := JStr(f)][key] {
    }
  }

  lemma UriFragment(lib: Lib, k: Scheme, u: Url, f: string)
    requires !lib.port(u.netloc).BadPort?
    ensures UriFields(lib, k, u.(fragment := f)) == UriFields(lib, k, u)["hash" := JStr(f)]
  {
    var d, d' := UriFields(lib, k, u), UriFields(lib, k, u.(fragment := f));
    assert d'.Keys == d.Keys;
    forall key | key in d.Keys ensures d'[key] == d["hash" := JStr(f)][key] {
    }
  }
}
