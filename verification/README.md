# XSStrike engine model

This project is a Dafny model of `XSStrikeEngine`, the scanning engine of the
BlackStrike reflected-XSS scanner (`xsstrike.py`). The engine does five things:

- `load_payloads` provides a fixed catalog of twenty probe strings.
- `parse_params` turns a query string or POST body into an insertion-ordered
  dictionary from parameter names to values.
- `test_parameter` simulates probing one parameter; no request is ever sent.
  A target is suspicious when its lower-cased URL contains `test`, `demo` or
  `vulnweb`. The probe walks the first five payloads and logs the payloads at
  indices 0, 2 and 4 as tried, except that on a suspicious target it reports
  a single high-confidence finding, built from the first payload, at index 0
  and stops there.
- `scan` checks that the target has a scheme. It then tests every query
  parameter with `GET` and every POST-body parameter with `POST`, and totals
  up the findings. Every tested parameter adds the size of the whole catalog
  (20) to `tested`, and `reflected` counts the findings.
- `encode_payload` returns the payload unchanged, or as base 64 text of its
  UTF-8 bytes when the encoding is `"base64"`.

The model works on immutable values:

- Python's `dict` becomes a sequence of key/value entries in insertion order
  (module `OrderedDict`).
- The results dictionary becomes `Reports.ScanResult`.
- Each `log_callback(message, level)` call becomes an `Event(level, message)`
  appended to a log. A message records what a line reports, not its wording.
- `scan` takes the parts of `urlparse(target)` it reads (`Scanner.UrlParts`)
  as an argument supplied by the caller.
- UTF-8 follows RFC 3629, with a strict decoder. Base 64 follows section 4 of
  RFC 4648, with a strict decoder that accepts only canonical text. Both are
  proved to round-trip in both directions, which gives `encode_payload` an
  inverse.

Two consequences of how `scan` works are worth stating:

- Findings come from the target-name heuristic alone; no response is
  classified. So the POST body `username=admin&password=test` on a
  `vulnweb` target reports both parameters (`Scenarios.VulnwebPostScan`).
- `tested` is charged the whole catalog for every parameter, while
  `Detector.TestParameterAttempts` shows that only one or three payloads
  are logged as tried.

## Model

| member | source | states |
|---|---|---|
| Payloads.CatalogShape | xsstrike.py:662-685 | the catalog holds twenty distinct payloads, and the probe walks its first five in order |
| Text.Split | xsstrike.py:770 | `str.split('&')` yields at least one piece, no piece contains the separator, and joining the pieces with it gives the input back |
| Text.SplitUnique | xsstrike.py:770 | any separator-free pieces whose join is the input are exactly what `split` returns, so split and join are inverse |
| Params.Assignments | xsstrike.py:770-775 | the assignments the loop performs, in order: one per `&`-segment of the string, each being that segment cut by `Params.SplitPair` |
| Params.SplitPair | xsstrike.py:771-775 | a segment with `=` is cut at its first `=`: the key is `=`-free and key, `=` and value rebuild the segment; a segment without `=` becomes the key with an empty value |
| Params.SplitPairAtFirst | xsstrike.py:772 | `split('=', 1)` of an `=`-free key, `=` and any value (which may itself hold `=`) gives back that key and value |
| Params.ParseParams | xsstrike.py:764-777 | an empty string gives an empty dictionary; the names are pairwise distinct; there are never more entries than `&`-segments |
| Params.ParseParamsPresent | xsstrike.py:770-775 | a name is in the dictionary exactly when the string is non-empty and some segment assigns it |
| Params.ParseParamsLastWins | xsstrike.py:773-775 | a name assigned several times holds the value of its last assignment |
| Params.ParseParamsKeyOrder | xsstrike.py:766-777 | the names come out once each, ordered by their first assignment in the string |
| Params.ParseQueryString | xsstrike.py:764-777 | rendering distinct `=`/`&`-free names with `&`-free values as `k=v&...` and parsing the result gives back the same pairs in the same order |
| OrderedDict.Put | xsstrike.py:773-775 | after `d[k] = v`, looking up `k` gives `v` |
| OrderedDict.PutKeys | xsstrike.py:773-775 | `d[k] = v` keeps an existing key in its place and appends a new key at the end; no other key moves |
| OrderedDict.PutKeepsOthers | xsstrike.py:773-775 | `d[k] = v` leaves the value of every other key unchanged |
| OrderedDict.FromPairsLastWins | xsstrike.py:770-775 | after a sequence of assignments, a key's value is the one from its last assignment |
| OrderedDict.FromPairsKeyOrder | xsstrike.py:770-775 | after a sequence of assignments, the dictionary iterates each assigned key once, in order of first assignment |
| OrderedDict.FromPairsPresent | xsstrike.py:770-775 | a key is present after a sequence of assignments exactly when one of them assigns it |
| OrderedDict.FromPairsLength | xsstrike.py:770-775 | a sequence of assignments never builds more entries than there are assignments |
| OrderedDict.FromPairsDistinct | xsstrike.py:770-775 | assigning pairwise distinct keys builds a dictionary holding exactly those pairs in that order |
| Text.ContainsIffOccurs | xsstrike.py:789 | the substring test `w in t` holds exactly when `w` occurs at some position of `t` |
| Text.LowerIdempotent | xsstrike.py:789 | lower-casing twice is the same as lower-casing once |
| Detector.LooksVulnerable | xsstrike.py:789 | a target is suspicious when its lower-cased text contains `test`, `demo` or `vulnweb` as a substring |
| Detector.LooksVulnerableIgnoresCase | xsstrike.py:789 | the heuristic ignores letter case: a target and its lower-cased form get the same verdict |
| Detector.Preview | xsstrike.py:786 | `payload[:30]` is a prefix of the payload: the whole payload when it has at most 30 characters, and exactly 30 characters otherwise |
| Detector.PreviewLongest | xsstrike.py:786 | every prefix of the payload of at most 30 characters is a prefix of `payload[:30]`, so the excerpt is the longest such prefix |
| Detector.ProbeFrom | xsstrike.py:784-800 | from any loop index there is at most one finding; there is one exactly when the index is 0 and the target looks vulnerable, and it names the parameter and method; one error line is logged per finding |
| Detector.TestParameter | xsstrike.py:779-802 | the probe reports at most one finding, present exactly when the target looks vulnerable; that finding is reflected XSS with the first catalog payload, the parameter's name and method, and high confidence; there is one error line per finding |
| Detector.ProbeIgnoresParameter | xsstrike.py:784-800 | the log lines and the number of findings do not depend on the parameter name or the method |
| Detector.TestParameterAttempts | xsstrike.py:784-792 | the tried-payload lines announce the payloads at indices 0, 2 and 4, numbered 1/5, 3/5 and 5/5 with their 30-character excerpts, in that order; on a suspicious target only the first is announced, because the loop breaks after the finding at index 0 |
| Scanner.TestOne | xsstrike.py:717-727 | one iteration of a parameter loop (the `POST` loop at lines 739-749 is the same with `POST`): log the parameter, probe it, append its findings, add the catalog size to `tested` and the finding count to `reflected`, then log the verdict and a blank line |
| Scanner.TestOneTotals | xsstrike.py:719-723 | one iteration adds `len(self.payloads)` (20) to `tested`, extends the findings by exactly the probe's findings, and adds their number to `reflected` |
| Scanner.TestAll | xsstrike.py:716-727 | the loop over the parameters adds 20 to `tested` per parameter, appends the reference findings in parameter order, adds their number to `reflected`, and logs one error line per finding |
| Scanner.TestSource | xsstrike.py:709-749 | testing a source (query with `GET`, body with `POST`) charges 20 per distinct parameter name and adds one finding per name, in order, on a suspicious target; an empty source adds nothing |
| Scanner.Scan | xsstrike.py:687-762 | a target without a scheme yields empty totals, and the log is the opening lines plus one error; otherwise `tested` is 20 times the number of distinct query and body names, the findings are the query findings followed by the body findings, and `reflected` equals the number of findings |
| Scanner.Summary | xsstrike.py:751-757 | the closing lines: two rules around the title, the `tested` and `reflected` totals, and the finding count, at warning level when there are findings and success level otherwise |
| Scanner.ScanLogsOneErrorPerFinding | xsstrike.py:696-757 | in a scan of a target with a scheme, the number of error-level log lines equals the number of findings |
| Scanner.ScanFindingsShape | xsstrike.py:709-749 | there is one finding per distinct query name and per distinct body name on a suspicious target, and none otherwise; each finding names a parameter of its own source; `GET` findings precede `POST` findings; no method/parameter pair repeats |
| Utf8.Encode | xsstrike.py:808 | a payload of n characters encodes to between n and 4n bytes |
| Utf8.DecodeEncode | xsstrike.py:808 | decoding the UTF-8 encoding of any text gives that text back |
| Utf8.EncodeDecode | xsstrike.py:808 | any byte string the strict decoder accepts is the encoding of what it decodes to |
| Base64.EncodeLength | xsstrike.py:808 | n bytes encode to 4 times ⌈n/3⌉ characters |
| Base64.DecodeEncode | xsstrike.py:808 | decoding the base 64 encoding of any byte string gives those bytes back |
| Base64.EncodeDecode | xsstrike.py:808 | any text the strict decoder accepts is the encoding of what it decodes to |
| PayloadEncoding.EncodePayload | xsstrike.py:804-809 | an encoding other than `"base64"` leaves the payload unchanged; `"base64"` yields decodable text whose length is a multiple of four |
| PayloadEncoding.DecodeEncodePayload | xsstrike.py:804-809 | reading an encoded payload back, by base 64 and then UTF-8 decoding for `"base64"`, gives the payload for every encoding |
| PayloadEncoding.EncodeDecodePayload | xsstrike.py:804-809 | every text that reads back to a payload is that payload's encoding |
| PayloadEncoding.EncodePayloadInjective | xsstrike.py:804-809 | distinct payloads never share an encoding |
| Scenarios.ParseRepeatedName | xsstrike.py:764-777 | `a=1&b&a=2=3` parses to `a` → `2=3` then `b` → empty |
| Scenarios.VulnwebGetScan | xsstrike.py:687-802 | scanning `http://testphp.vulnweb.com/search.php?test=query` gives one `GET` finding for `test`, with 20 tested and 1 reflected |
| Scenarios.VulnwebPostScan | xsstrike.py:687-802 | the `vulnweb` login page with body `username=admin&password=test` gives `POST` findings for `username` then `password`, with 40 tested and 2 reflected |
| Scenarios.SafeGetScan | xsstrike.py:687-802 | `http://example.com/page?q=1&x=2` gives no findings, with 40 tested and 0 reflected |
| Scenarios.NoSchemeScan | xsstrike.py:701-704 | a target without a scheme gives empty totals and exactly one error line |

## Left out

- The desktop window (`BlackStrikeGUI`, xsstrike.py:23), the command-line
  front end (`main`, xsstrike.py:816-880) and the scan thread are
  presentation around the engine.
- `urlparse`: `scan` receives the scheme, host, path and query as a
  `Scanner.UrlParts` value. How Python splits a URL into these parts is not
  part of this model.
- The `except Exception` handler of `scan` (xsstrike.py:759-760) is not
  modelled. The modelled steps raise nothing, because the configuration
  always holds `target` and `paramData`. `urlparse` itself can raise
  `ValueError`, for example on an unbalanced `[` in the host. `scan` then
  logs one error line and returns empty totals. A `Scanner.UrlParts` input
  cannot express that outcome, so the model does not cover it.
- The text and emoji of each log line: `Reports.Message` keeps only the values
  a line reports.
- `self.vulnerabilities` (xsstrike.py:660) is never read. The `config`
  argument of `test_parameter` is unused. Configuration entries other than
  `target` and `paramData` are never read by the engine.
- Text.Lower: lower-cases ASCII letters only, while Python's `str.lower` covers
  all of Unicode. No non-ASCII character lower-cases to a letter of `test`,
  `demo` or `vulnweb`, so the heuristic's verdict is the same.
- Utf8.Encode: Dafny characters are Unicode scalar values, so the
  `UnicodeEncodeError` that Python raises for a lone surrogate in the payload
  cannot arise in the model.
- Scanner.Scan: for a target with a scheme, its contract fixes the totals and
  the findings. The log is described only through
  `Scanner.ScanLogsOneErrorPerFinding`, not line by line.
