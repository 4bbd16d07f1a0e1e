# Simorgh proxy tester: a verified model of its batch core

The program fetches a subscription of proxy descriptors and keeps the ones
that answer. Each descriptor is one line: a `vmess://`, `vless://`, `trojan://`,
`ss://`, `tuic://`, `hy2://`/`hysteria2://` or `hysteria://` link. The program
does not talk to any proxy: it only opens a TCP connection to each one and
writes the live ones out by category under new names.

This project models the core between fetching and writing, all in `main.py`:

- the base64 helpers; the scheme dispatch (`detect_type`); the descriptor
  parse (`config_parse`); the `ConfigWrapper` getters;
- the label builder (`generate_base_name`) and the rewriter (`rename_config`);
- three blocks inside `main()`: the endpoint deduplication loop, the loop
  that makes names unique with a counter, and the categorise/sort/top-15
  blocks.

The probe is an oracle. The URI parser, the JSON codec, percent-quoting,
UTF-8 and the country resolver are the fields of `Library.Lib`, which are
total functions about which nothing is assumed.

The modules, in dependency order:

- `Common`: filtering sequences.
- `PyText`: the few `str` operations the code uses.
- `Values`: the Python values a parse yields.
- `Library`: the oracles.
- `Base64`: a concrete URL-safe codec, including the non-strict decoder that
  `base64.urlsafe_b64decode` runs without `validate`.
- `Descriptor`: dispatch, parse and getters.
- `Naming`: base labels and unique names.
- `Rewrite`: `rename_config`.
- `Dedup`: the deduplication loop, as a method, with the list it computes.
- `Probe`: the probe results.
- `Renaming`: the rename loop, as a method.
- `Ranking`: grouping, sorting, the per-category files, top-15 and counts.
- `Pipeline`: one whole run.
- `Findings`: the code as written where it raises.

Each loop of `main()` is a method. Its ensures tie its result to a function
of its input, and the properties the code promises are proved about that
function.

Details of the code that the model keeps:

- The first descriptor with a given base label keeps it bare, the second
  gets the suffix `_2`, the third `_3`, and so on (main.py:334-339); no
  name ends in `_1`.
- `hysteria://` links are detected (main.py:149), but `config_parse` never
  parses them (main.py:157, 177). So they are never valid, and
  `rename_config` returns them unchanged.
- The vmess payload is `input_str[8:]` of the unstripped text (main.py:155),
  while `detect_type` strips first (main.py:142).
- `hash` is the raw fragment (main.py:171, 174).

## Model

| member | source | states |
|---|---|---|
| Base64.SafeEncode | main.py:51-52 | the output never ends in `=`, has length ceil(4n/3), and holds only letters, digits, `-` and `_`: never `+`, `/` or `=` |
| Base64.EncodeIsBody | main.py:52 | `urlsafe_b64encode(b).rstrip(b'=')` (`UrlsafeEncode`, then `RStripChar`) is exactly the unpadded body |
| Base64.BodyAlphabet | main.py:52 | the body of `n` bytes has ceil(4n/3) characters, all from the URL-safe alphabet |
| Base64.UrlsafeCharFacts | main.py:47-52 | an alphabet character is a data character for the decoder, ASCII, and neither `=` nor white space |
| Base64.BodyShape | main.py:52 | the unpadded encoder body has length ceil(4n/3) and holds only alphabet characters, none of them `=`, white space or non-ASCII |
| Base64.PadTo4 | main.py:47 | `s + '=' * (4 - len(s) % 4)` adds 1 to 4 `=` characters, keeps `s` as its prefix, and reaches a multiple of four |
| Base64.SafeDecode | main.py:44-49 | fails exactly when the stripped text is not ASCII, the ValueError that is not caught; a leftover incomplete group, the caught binascii error, gives empty bytes |
| Base64.QuadDecodes | main.py:47 | the decoder `A2B` (non-strict `binascii.a2b_base64`) reads the four characters of any three-byte group back to those bytes |
| Base64.BodyDecodes | main.py:47-52 | the padded encoder body of any byte string decodes back to it |
| Base64.PadTo4Group | main.py:47 | padding commutes with a leading complete group |
| Base64.RoundTrip | main.py:44-52 | `safe_base64_decode(safe_base64_encode(b)) == b` for every byte string |
| Base64.BodyIsClean | main.py:45-47 | `strip` leaves the body unchanged and the body is ASCII, so the decoder sees it as written |
| PyText.Strip | main.py:142 | the result is the slice of the text after its `Lead` leading white space, only white space follows it, neither of its ends is white space, and text without white space at its ends is unchanged |
| PyText.Lead | main.py:142 | the number of leading white-space characters: all of them white space, and the next one not |
| PyText.RStripChar | main.py:52 | removes exactly the trailing run of the character |
| PyText.RStripCharSuffix | main.py:52 | stripping `=` from text that ends otherwise, plus a run of `=`, gives back the text |
| PyText.Decimal | main.py:336 | a non-empty string of digits |
| PyText.DecimalInjective | main.py:336 | distinct counters give distinct decimal texts |
| PyText.NonEmpty | main.py:218 | `filter(None, ...)` keeps only non-empty parts of the list, and every non-empty part |
| PyText.NonEmptyAppend | main.py:218 | filtering distributes over concatenation, so the kept parts stay in order with their repeats |
| PyText.NonEmptySingle | main.py:218 | a single part is kept exactly when it is not empty |
| PyText.JoinEndsWithLast | main.py:218 | a `_`-join ends with its last part |
| PyText.JoinStartsWithFirst | main.py:218 | a join of two or more parts starts with the first part and the separator |
| PyText.JoinKeptStartsWith | main.py:218 | joining the non-empty parts of a non-empty first part and a list holding a non-empty part starts with that first part and the separator |
| PyText.BeforeFirst | main.py:162 | `split('@')[0]`: the longest prefix without `@` |
| PyText.SplitAtLastSeparator | main.py:336 | `base + "_" + digits` determines base and digits when neither part holds the separator after it |
| Common.Filter | main.py:327-329 | keeps only items satisfying the test, each from the input |
| Common.FilterKeepsAll | main.py:329 | a filter that every item passes changes nothing |
| Common.FilterSubMultiset | main.py:329 | a filter takes a sub-multiset |
| Common.FilterOrdered | main.py:354 | a filter keeps any order that holds between the items of its input |
| Common.FilterContains | main.py:352-353 | every item of the input that passes the test is kept |
| Descriptor.FirstMatch | main.py:143-150 | a returned tag's prefix is present |
| Descriptor.PrefixDetermines | main.py:143-149 | no text starts with the prefixes of two tags, so the test that matches decides the tag |
| Descriptor.DetectTypeByPrefix | main.py:141-150 | `detect_type` (`DetectType`) gives `k` exactly when the stripped text starts with one of `k`'s prefixes, and None exactly when it starts with none |
| Descriptor.SplitCredentials | main.py:169-170 | None exactly when there is no `:`; otherwise `method + ":" + password` is the text and `method` holds no `:` |
| Descriptor.SsCredentials | main.py:161-171 | `config_parse` (`ConfigParse`) of a shadowsocks link the URI parser reads succeeds exactly when the chosen userinfo (`SsUserInfo`) holds `:` and the port is readable; `method` is all before the first `:` and `password` all after it |
| Descriptor.SsUserInfoEncoded | main.py:163-168 | a userinfo that is the base64 of bytes holding `:` is replaced by the UTF-8 text of those bytes |
| Descriptor.UriDictionary | main.py:157-176 | a vless, trojan, tuic or hy2 link parses exactly when the URI parser reads it and its port is readable; the dictionary holds `hostname`, `port`, the fragment as `hash` and no `add`, plus `protocol`, `username` and `params`, an object mapping each query key to its first value as text |
| Descriptor.ConfigParseKinds | main.py:152-177 | `config_parse` succeeds only for vmess, vless, trojan, tuic, hy2 and ss descriptors; unknown and `hysteria://` links never parse |
| Descriptor.Server | main.py:195-197 | `''` without a dictionary; `add` when it is true; else `hostname` when it is true; else `''` |
| Descriptor.Port | main.py:198-201 | 0 without a dictionary or without a `port` entry; otherwise the `port` entry read by `int()` |
| Descriptor.PortNumber | main.py:200-201 | `int(v)` with ValueError and TypeError as 0: an integer is itself, a bool 1 or 0, a finite float truncated, text as `int()` reads it or 0; `None`, NaN, containers and (corrected) an infinite float give 0 |
| Descriptor.Truncate | main.py:200 | `int()` of a finite float rounds toward zero |
| Descriptor.VmessServerAndPort | main.py:195-201 | for a vmess descriptor the server is the payload's `add`, else its `hostname`, else `''`, and the port is its `port` entry read by `int()`, or 0 |
| Descriptor.CountryCode | main.py:127-130 | an empty or absent host is `UNK`; a text host is what the resolver says |
| Descriptor.UriServerAndPort | main.py:195-201 | for a URI descriptor, the server of the wrapper (`Wrap`) is the parsed hostname or `''` and the port the parsed port or 0 |
| Naming.SecurityToken | main.py:213-214 | non-empty exactly for `tls` or `reality`, then `TLS` or `REALITY` |
| Naming.TransportToken | main.py:215-216 | non-empty exactly for a non-empty transport other than `tcp`, then the transport upper-cased |
| Naming.Details | main.py:211-216 | at most two non-empty parts, only for vless/vmess/trojan: the security token first, the transport token last |
| Naming.BaseNameEndsInLatency | main.py:210-218 | every base label (`BaseName`) of a valid descriptor ends with `<latency>ms` (`LatencyText`), so in `s` |
| Naming.BaseNameStartsWithProtocol | main.py:208-218 | every base label of a valid descriptor starts with the upper-cased protocol (`TypeName`) and `_` |
| Naming.VlessTlsWsName | main.py:206-218 | a vless link with TLS over ws is named `VLESS_<country>_TLS_WS_<n>ms` |
| Naming.TlsWsDetails | main.py:211-216 | vless, `tls` and `ws` give the details `[TLS, WS]` |
| Naming.CountZero | main.py:334 | a label has count zero exactly when it has not been seen |
| Naming.FinalName | main.py:334-339 | a label is emitted bare exactly on its first occurrence; its k-th occurrence, k >= 2, is `label_k` |
| Naming.FinalNamesPairDistinct | main.py:323-339 | two occurrences of labels ending in a non-digit get different final names |
| Naming.FinalNamesDistinct | main.py:323-339 | all final names are pairwise distinct when every base label ends in a non-digit |
| Naming.SecondRepeatIsTwo | main.py:334-339 | three equal labels become `l`, `l_2`, `l_3` |
| Rewrite.RenameKeepsUnparsed | main.py:220-237 | `rename_config` (`RenameConfig`, through `RenameAs` on the detected tag) returns an unknown or `hysteria://` link unchanged |
| Rewrite.RenameKeepsBadVmess | main.py:223-230 | a vmess link whose payload does not parse to a non-empty object is returned unchanged |
| Rewrite.RenameKeepsBadUri | main.py:231-236 | a URI link the parser rejects is returned unchanged |
| Rewrite.VmessTextDetected | main.py:229 | `vmess://` followed by encoder output is detected as vmess again |
| Rewrite.VmessRenameRoundTrip | main.py:223-229 | when the JSON codec reads back what it wrote, the renamed link parses to the old payload with `ps` set to the name and nothing else changed |
| Rewrite.UriRenameKeepsFields | main.py:231-235 | when the URI parser reads back what it wrote, a renamed URI link parses to the old dictionary with only `hash` replaced by the quoted name |
| Rewrite.FragmentOnly | main.py:233-234 | the fragment is read into `hash` and nowhere else |
| Dedup.EndpointKeyInjective | main.py:310 | `f"{server}:{port}"` (`EndpointKey`, with `Show` for `str()`) is the same for two text servers and positive ports exactly when both are equal |
| Dedup.Deduplicate | main.py:303-313 | the loop with the seen set computes the first-occurrence list of the candidates |
| Dedup.KeepStep | main.py:311-313 | a new endpoint is appended to the list and added to the seen set |
| Dedup.DropStep | main.py:307-313 | a non-candidate or a seen endpoint changes neither the list nor the seen set |
| Dedup.KeptInOrder | main.py:303-313 | the list holds exactly the first occurrences of each endpoint, once each, in input order |
| Dedup.DedupFirstInOrder | main.py:303-313 | the deduplicated descriptors are exactly the descriptors whose endpoint no earlier candidate had, in input order |
| Dedup.KeptKeysDistinct | main.py:310-312 | the endpoints of the kept candidates are pairwise distinct |
| Dedup.KeptCoversKeys | main.py:310-313 | every endpoint of a candidate is kept |
| Dedup.DedupKeepsQualifying | main.py:307-313 | every kept candidate is one of the input's candidates |
| Dedup.EntryFromInput | main.py:305-309 | a candidate the loop sees (`Entry`) comes from an input descriptor that is valid (`IsValid`); its host is that descriptor's server, which is true, and its port the descriptor's port, which is positive |
| Dedup.DedupSpecProperties | main.py:303-313 | distinct endpoints, every candidate endpoint present, and a length equal to the number of distinct qualifying endpoints |
| Dedup.DistinctCard | main.py:303-313 | a list of distinct endpoints has as many elements as its set |
| Probe.Latency | main.py:241-249 | a text host gets exactly what the connection oracle gives for it and the port; a host that is not text never answers |
| Probe.ProbeSuccesses | main.py:251-258 | no more results than candidates |
| Probe.ProbeSuccessesAnswered | main.py:256-258 | a live item is exactly a candidate that answered, with its latency |
| Renaming.NextName | main.py:334-339 | one step of `name_counter` keeps it equal to the occurrence counts and yields the final name of the new label |
| Renaming.CounterStep | main.py:334-338 | incrementing or initialising the counter yields the new label's occurrence count |
| Renaming.FinalNameStep | main.py:334-339 | the new label's name is bare when unseen, else `label_<count + 1>` |
| Renaming.RenameAll | main.py:318-346 | the loop emits one renamed item per valid live item, in order, with its latency and its final name |
| Renaming.RenameStep | main.py:328-343 | a valid item appends its base label and its renamed descriptor |
| Renaming.SkipStep | main.py:329 | an invalid item is skipped |
| Renaming.RenamedNamesDistinct | main.py:323-343 | the names given to the renamed items are pairwise distinct |
| Renaming.RenamedVmessCarriesName | main.py:336-343 | when the JSON codec reads back what it wrote, each renamed vmess item (`Relabel`) parses with `ps` equal to its final name, and its latency is unchanged |
| Renaming.RenamedSpec | main.py:327-343 | exactly one output per valid input |
| Ranking.Insert | main.py:365 | one insertion step adds exactly the item |
| Ranking.InsertSorted | main.py:365 | inserting into a sorted list keeps it sorted |
| Ranking.SortSorted | main.py:365 | `sorted(..., key=latency)` (`SortByLatency`), also at main.py:378 and 386, is ascending by latency |
| Ranking.SortPermutes | main.py:365 | and a permutation of its input |
| Ranking.SortStable | main.py:365 | and stable: the items of each latency keep their input order |
| Ranking.GroupByType | main.py:350-353 | each category holds exactly the renamed items whose descriptor has that tag, in order; untagged items land nowhere |
| Ranking.GroupStep | main.py:352-353 | one `setdefault(...).append` step keeps the grouping |
| Ranking.GroupsOfUnique | main.py:350-353 | the grouping is unique |
| Ranking.CategoryOrderSorted | main.py:354 | the category order is the order of the tag texts |
| Ranking.CategoryOrderCovers | main.py:354 | every tag is in the order |
| Ranking.CategoryOrderDistinct | main.py:354 | once each |
| Ranking.TextLessTransitive | main.py:354 | text order is transitive |
| Ranking.Present | main.py:354 | `sorted(categorized_configs.keys())` lists exactly the categories present, each once, in ascending order of their tag texts |
| Ranking.Selected | main.py:354 | the categories passing a test, taken in an order that lists every category once by tag text, are exactly those categories, in that order |
| Ranking.Take | main.py:366 | `proxies[:15]` is the first min(15, n) items |
| Ranking.RankCategories | main.py:361-367 | the loop over the sorted categories builds the per-category files (`FilesOf`), the top list (`TopOf`) and the breakdown, whose keys are the categories and whose counts are the group sizes |
| Ranking.RankIn | main.py:364-367 | the same loop over any list of categories: each iteration adds the sorted group, its first 15, and its size |
| Ranking.BreakdownStep | main.py:367 | and records the group size |
| Ranking.TakeFastest | main.py:365-366 | the first 15 of a sorted group are sorted, part of it, and no slower than the rest |
| Ranking.SortedPrefix | main.py:366 | a prefix of a sorted list is sorted, part of it, and no slower than the rest |
| Ranking.FilesSorted | main.py:364-369 | every category file is a stable ascending permutation of its group |
| Ranking.TopFromGroups | main.py:364-366 | the top list holds at most 15 items per listed category in total, each a member of one of the groups |
| Ranking.TopLength | main.py:364-366 | the top list has exactly the sum over categories of min(15, group size) items |
| Ranking.TopFromItems | main.py:350-366 | every top item is a renamed item with a tag |
| Ranking.Base64FileDecodes | main.py:369-371 | every base64 output file (also the mixed and high-speed ones at main.py:380 and 388) decodes back to the UTF-8 text of its plain file, and never ends in `=` |
| Pipeline.RunBatch | main.py:303-395 | a run's files, mixed list, high-speed list and summary counts are the model's functions of the live list |
| Pipeline.LiveItemsValid | main.py:305-316 | every live descriptor is valid |
| Pipeline.LiveItemAnswered | main.py:305-316 | a live item's descriptor is valid and its server is non-empty text, since only a text host answers the probe |
| Pipeline.LiveCountryAgrees | main.py:206-209 | for every live item the country lookup as written returns, with the corrected value |
| Pipeline.RunKeepsAll | main.py:316-343 | so every live descriptor is renamed, and there are no more live items than descriptors scanned |
| Pipeline.HighSpeedProperties | main.py:364-391 | the high-speed list is sorted, has length sum of min(15, size) over categories, and holds only tagged renamed items |
| Pipeline.RunProperties | main.py:303-395 | one of each live item, distinct names, the mixed list a sorted permutation of the renamed items, and the high-speed list as above |
| Findings.ListPayloadRaises | main.py:305-308 | as written, `vmess://WzFd` (payload `[1]`) raises in the deduplication loop; the corrected parse rejects it |
| Findings.VmessPayloadParse | main.py:195-197 | the same for any true vmess payload that is not an object |
| Findings.VmessLoads | main.py:155-156 | as written, a vmess payload's parse is whatever value its decoded bytes load to |
| Findings.NonObjectRaises | main.py:195-197 | the loop step as written raises on any true parse that is not an object |
| Findings.ListPayloadDecodes | main.py:44-49 | `WzFd` decodes to the bytes of `[1]` |
| Findings.EncodeListPayload | main.py:51-52 | and is the encoding of them |
| Findings.ListLinkDetected | main.py:143 | `vmess://WzFd` is a vmess link with payload `WzFd` |
| Findings.EntryAgrees | main.py:305-313 | where the loop as written (`EntryAsWritten`) does not raise, it computes what the corrected one does |
| Findings.WrapperAgrees | main.py:195-201 | the getters as written (`ServerAsWritten`, `PortAsWritten`) and the corrected ones agree on object parses |
| Findings.ParseAgrees | main.py:152-177 | the corrected parse is the parse as written (`ConfigParseAsWritten`) restricted to objects |
| Findings.NumericTransportRaises | main.py:215-216 | as written, a valid vmess payload with `"net": 1` raises in naming; the corrected name is `VMESS_<country>_<n>ms` |
| Findings.NumericTransportNaming | main.py:206-218 | the same on the wrapper |
| Findings.NumericTransportWrap | main.py:188-192 | what `ConfigWrapper` (`Wrap`) holds for that payload |
| Findings.NumericTransportFields | main.py:195-204 | its server is `1.2.3.4`, its port 443 and its transport the number 1 |
| Findings.NumericTransportDetails | main.py:211-216 | its details raise as written and are empty when corrected |
| Findings.NoDetailsName | main.py:217-218 | a vmess label without details |
| Findings.NullParamsRaises | main.py:204 | as written, `"params": null` makes `get_param` raise; the corrected getter returns the default |
| Findings.ParamAgrees | main.py:202-204 | `get_param` as written (`ParamAsWritten`) returns the corrected value whenever it returns, and raises exactly when the dictionary is non-empty and `params` is not a dictionary |
| Findings.InfinitePortRaises | main.py:198-201 | as written, a vmess payload with `"port": Infinity` raises OverflowError in the deduplication loop; the corrected port is 0 and the descriptor is skipped |
| Findings.InfinitePortSteps | main.py:195-201 | for that payload the server as written returns `1.2.3.4`, the port as written raises, and the corrected port is 0 |
| Findings.PortNumberAgrees | main.py:200-201 | `int()` as written (`PortNumberAsWritten`) gives the corrected number whenever it returns, and raises exactly on an infinite float |
| Findings.BaseNameAgrees | main.py:206-218 | where naming as written (`BaseNameAsWritten`) does not raise, it yields the corrected label |
| Findings.DetailsAgree | main.py:211-216 | likewise for the details (`DetailsAsWritten`, `TransportTokenAsWritten`) |
| Findings.CountryAgrees | main.py:127-130 | likewise for the country code (`CountryCodeAsWritten`) |

## Left out

- Fetching the subscription (main.py:287-301) is not part of this model. The
  run starts from the list of descriptor lines. The inputs this drops are
  the HTTP download, decoding it and splitting it into stripped non-empty
  lines.
- `download_geoip_db`, `load_cloudflare_ranges`, `resolve_ip`,
  `is_cloudflare` and the GeoIP lookup are left out: they are network I/O,
  DNS and a foreign database. `Descriptor.CountryCode` keeps only the
  empty-host rule (main.py:128). Every other host goes to the uninterpreted
  resolver `Library.Lib.country`.
- Descriptor.CountryCode: does not model the `CF` and `UNK` results of the
  resolver, because they depend on DNS and the GeoIP database. A true host
  that is not text reaches `socket.inet_aton` (main.py:118-121), whose
  TypeError nothing catches. That path is `Findings.CountryCodeAsWritten`.
  No live item takes it, since only a text host answers the probe
  (`Pipeline.LiveCountryAgrees`).
- The async probe is left out, because it is concurrency and wall-clock
  timing. This covers `check_connectivity`, `worker` and
  `check_ports_parallel` (main.py:241-275). It becomes an oracle from host
  and port to an optional latency in whole milliseconds, and the finishing
  order of the workers is any reordering of the results.
- Probe.Latency: does not model the float timing or its `int()` truncation,
  because the oracle gives the truncated milliseconds. A host that is not
  text gets no answer, as the socket layer rejects it.
- `print_progress` and every console message are left out, because they
  only write to stdout.
- Every file and directory write, `json.dump` of the summary and
  `datetime.now()` are left out, because they are I/O and the clock.
  `Pipeline.Report` is what would be written, without the time stamp.
- The internals of `urllib.parse` (`urlparse`, `parse_qs`, `unquote`,
  `quote`, `urlunparse`), of `json.loads`/`json.dumps` (with or without the
  compact separators) and of UTF-8 are left out. They are the fields of
  `Library.Lib`. A call the source wraps in `try` that could raise is an
  oracle returning None. The round trips of these libraries are stated as a
  lemma's requires wherever a property needs one.
- PyText.Upper: upper-cases ASCII letters only. The protocol names and the
  security tokens are ASCII, but the transport comes from the descriptor, so
  a non-ASCII transport such as `ß` (which Python upper-cases to `SS`) keeps
  its non-ASCII letters in the model.
- Naming.TransportToken: upper-cases through `PyText.Upper`, so it shares
  the ASCII-only upper-casing above.
- Base64.SafeDecode: the decoder follows the non-strict `binascii.a2b_base64`
  of CPython 3.11 and later. It skips characters outside the alphabet.
  A `=` ends the input once it completes a group holding at least two data
  characters; any other `=` is ignored. Older versions treat some of these
  `=` cases differently.
- Base64.SafeDecode: a ValueError on text that is not ASCII propagates
  out of `safe_base64_decode`. It is modelled as None, which each caller in
  the core catches as a failure (main.py:155-156, 164-168).
- Floats are reals in the model (`Values.Float`), with no binary rounding.
  `1e400` is the infinite float that `json.loads` yields for it. How a float
  prints, on the way into an endpoint key, is the oracle
  `Library.Lib.floatText`.
- The key order and the formatting of `json.dumps` (main.py:228) are inside
  the oracle `Library.Lib.jsonDumps`. `Values.Json` objects are maps, so the
  model has no key order.
- Strings are sequences of Unicode scalar values, so a lone surrogate
  cannot occur. `json.loads` yields one for a `\udXXX` escape, for example
  in a vmess `net` or in `params.type`. Such a transport reaches the label
  (main.py:215-216), and `urllib.parse.quote` at main.py:222 then raises
  UnicodeEncodeError outside any `try`, which ends the rename loop. Neither
  the surrogate nor that exception is modelled, so `Pipeline.RunBatch`
  always yields a report.
- Apart from the UnicodeEncodeError above, the exceptions that nothing
  catches appear only in `Findings`. The rest of the model uses the
  corrected definitions listed under Findings below.

## Findings

| source | as written | input that shows it | evidently intended | confidence | as-written member | corrected member |
|---|---|---|---|---|---|---|
| main.py:195-197 | `json.loads` of a vmess payload can return a list or a number; `get_server` then calls `.get` on it and the AttributeError escapes the deduplication loop, ending the whole run | the line `vmess://WzFd`, whose payload is `[1]` | a payload that is not a JSON object makes the descriptor invalid and the loop skips it | not executed | Findings.ListPayloadRaises | Descriptor.VmessParse |
| main.py:215-216 | a true transport that is not text, from `"net": 1` in a vmess payload, reaches `transport.upper()` and the AttributeError escapes the rename loop | a vmess line whose payload is `{"add": "1.2.3.4", "port": 443, "net": 1}` | a transport that is not text adds no detail to the label | not executed | Findings.NumericTransportRaises | Naming.TransportToken |
| main.py:204 | `get_param` calls `.get` on whatever `params` holds, so a vmess payload with `"params": null` raises AttributeError while naming | a vmess line whose payload holds `"add": "h", "port": 1, "params": null` | a `params` value that is not a dictionary is treated as empty | not executed | Findings.NullParamsRaises | Descriptor.Param |
| main.py:198-201 | `int()` of a port that `json.loads` read as `Infinity` or `1e400` raises OverflowError, which the `except (ValueError, TypeError)` does not catch, so it escapes the deduplication loop | a vmess line whose payload is `{"add": "1.2.3.4", "port": Infinity}` | a port that is not a finite number reads as 0, like any other unreadable port, and the descriptor is skipped | not executed | Findings.InfinitePortRaises | Descriptor.PortNumber |
