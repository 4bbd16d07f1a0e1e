/** The library code the batch logic calls but does not define, as
    uninterpreted total functions: `urllib.parse`, `json`, UTF-8 codecs,
    `int()` on text, `str()` of containers and floats, and the country resolver
    behind `get_country_code`. A `Lib` value fixes one behaviour for all of
    them; every property in this project holds for every `Lib`, or for every
    `Lib` that meets the hypotheses a lemma states. */
module Library {
  import opened Common
  import opened Values

  /** The six fields of `urllib.parse.urlparse`'s result, in tuple order. */
  datatype Url = Url(scheme: string, netloc: string, path: string, params: string, query: string, fragment: string)

  /** `ParseResult.port`: absent, a number, or the ValueError that reading it raises. */
  datatype PortField = NoPort | PortNum(n: int) | BadPort

  datatype Lib = Lib(
    /** `urlparse(s)`; `None` when it raises ValueError. */
    urlparse: string -> Option<Url>,
    /** `ParseResult.hostname`, `.port` and `.username`, which depend on the netloc alone. */
    hostname: string -> Option<string>,
    port: string -> PortField,
    username: string -> Option<string>,
    /** `{k: v[0] for k, v in parse_qs(query).items()}`. */
    queryParams: string -> map<string, string>,
    unquote: string -> string,
    quote: string -> string,
    urlunparse: Url -> string,
    /** `json.loads(b)`; `None` when it raises. */
    jsonLoads: seq<byte> -> Option<Json>,
    /** `json.dumps(v, separators=(',', ':'))`. */
    jsonDumps: Json -> string,
    /** `s.encode('utf-8')` and `b.decode('utf-8', 'ignore')`. */
    utf8Encode: string -> seq<byte>,
    utf8DecodeIgnore: seq<byte> -> string,
    /** `int(s)` for text; `None` when it raises ValueError. */
    intOfText: string -> Option<int>,
    /** `str(v)` for a list or a dictionary. */
    containerText: Json -> string,
    /** `str(f)` for a float. */
    floatText: Float -> string,
    /** The resolver `get_country_code` consults for a non-empty host name:
        DNS, the Cloudflare ranges and the GeoIP database. */
    country: string -> string
  )
}
