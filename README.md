# restrict-ips-lambda, modelled in Dafny

The repository is an access gate, a Lambda@Edge request handler
(`restrictIp.js`), and a script that fills its DynamoDB table from a file of
addresses (`import_ips_from_csv.py`).

The gate encodes the client's IPv4 address as a number (`ip2int`) and looks
it up in the table `restrict-ip-table`. The code uses the table as a
**restrict-list**:

- a lookup error rewrites the request to `/restricted.html`;
- an address with no item passes unchanged;
- an address with an item passes only when the query parameter `ipr` equals
  the SSM parameter `/develop/shared/restrict_flag`, and is rewritten
  otherwise.

The table is a restrict-list, not an allow-list, and no request path is
exempt from the check.

The importer encodes each line with `format_ip` and writes one item
`{'ip': key}` per line.

Modules:

- `Octets` (octets.dfy): the reference meaning of a key, the big-endian
  number of the octets, with bounds, injectivity and the append step.
- `Address` (address.dfy): `split('.')`, decimal numerals, well-formed dotted
  quads and their rendering. Split and join round-trip both ways, and so do
  canonical numerals and their values, and canonical quads and their octets.
- `JsInt32` (js_int32.dfy): JavaScript's ToInt32/ToUint32 and `x << 8`.
- `RestrictIp` (restrict_ip.dfy): `ip2int`, the verdict functions, a
  `Request` class, and the methods `RestrictedResponse`, `CheckRestrictFlag`
  and `CheckIpTable`, which rewrite the request in place. It also holds
  `checkRestrictFlag` as written, with its missing `return`.
- `ImportIps` (import_ips.dfy): `format_ip`, the batch writer, and the
  import loop.
- `KeyAgreement` (key_agreement.dfy): how the importer's keys meet the gate's
  lookups.

## Model

| member | source | states |
|---|---|---|
| `Address.JoinSplit` | restrictIp.js:57 | Splitting at '.' loses nothing: joining the parts with '.' gives the string back, and no part contains a '.' |
| `Address.SplitJoin` | import_ips_from_csv.py:14 | Splitting the '.'-join of dot-free parts gives exactly those parts back |
| `Address.Decimal` | restrictIp.js:57 | The canonical numeral of n is a non-empty digit string with no leading zero, and reading it base 10 gives n |
| `Address.OctetsOf` | restrictIp.js:57 | The four parts of a well-formed dotted quad read as four octets in [0,255] |
| `Address.DecimalOfParse` | restrictIp.js:57 | Reading a numeral without leading zeros and printing the value gives the numeral back |
| `Address.RenderParses` | import_ips_from_csv.py:14 | The usual text of any four octets is a dotted quad without leading zeros that parses back to the same octets |
| `Address.ParseRenders` | import_ips_from_csv.py:14 | Parsing a dotted quad without leading zeros and printing its octets gives the text back |
| `Address.CanonicalQuadsByOctets` | restrictIp.js:57 | Two dotted quads without leading zeros are the same text exactly when their octets are equal |
| `JsInt32.ToInt32` | restrictIp.js:57 | ToInt32 yields a signed 32-bit value and leaves values already in that range unchanged |
| `JsInt32.ShiftLeft8Add` | restrictIp.js:57 | `(x << 8) + octet` equals the signed 32-bit wrap of the exact x·256 + octet |
| `RestrictIp.ShiftFoldIsInt32Wrap` | restrictIp.js:57 | For octets of any count, the reduce with `<<` is the signed 32-bit wrap of their big-endian number |
| `RestrictIp.Ip2IntClosedForm` | restrictIp.js:56-58 | `ip2int` equals o1·2^24 + o2·2^16 + o3·2^8 + o4, less 2^32 when o1 is 128 or more |
| `RestrictIp.Ip2IntRange` | restrictIp.js:56-58 | `ip2int` is a signed 32-bit number, negative exactly when o1 is 128 or more |
| `RestrictIp.Ip2IntInjective` | restrictIp.js:56-58 | Two well-formed addresses get the same `ip2int` key exactly when their octets are equal |
| `RestrictIp.Ip2IntInjectiveOnText` | restrictIp.js:56-58 | On addresses without leading zeros, two texts get the same `ip2int` key exactly when they are the same text |
| `RestrictIp.Ip2IntUnsignedIsBigEndian` | restrictIp.js:56-58 | Read as unsigned (`>>> 0`), the gate's key is the big-endian number of the octets |
| `RestrictIp.RestrictFlagFailsClosed` | restrictIp.js:36-54 | The token check passes exactly when a non-empty single `ipr` equals a fetched secret. A missing or empty `ipr`, a fetch error, or a repeated `ipr` (an array) restricts |
| `RestrictIp.IpTableBranches` | restrictIp.js:15-34 | A lookup error restricts; an absent item passes. A present item restricts without `ipr`, and with `ipr` passes exactly when the fetched secret equals it |
| `RestrictIp.PassOnlyThroughAbsentItemOrToken` | restrictIp.js:15-54 | A request passes if and only if its item is absent, or its item is present and a non-empty `ipr` equals the fetched secret |
| `RestrictIp.SecretReadOnlyWhenFetched` | restrictIp.js:23-40 | When SSM is not called (lookup error, absent item, or falsy `ipr`), the secret's value cannot change the verdict |
| `RestrictIp.RestrictedIdempotent` | restrictIp.js:60-63 | Restricting sets `uri` to `/restricted.html`, keeps `clientIp` and `querystring`, and restricting twice equals restricting once |
| `RestrictIp.RestrictedResponse` | restrictIp.js:60-63 | Rewrites only `uri` of the request in place and completes with Restrict |
| `RestrictIp.CheckRestrictFlag` | restrictIp.js:36-54 | Completes once with the token-check verdict, calls SSM exactly when `ipr` is truthy, and leaves the request unchanged on Pass or rewritten on Restrict |
| `RestrictIp.CheckIpTable` | restrictIp.js:15-34 | Every request gets exactly one verdict, the gate's. SSM is called only for a present item with a truthy `ipr`. The request is returned unchanged on Pass and with only `uri` rewritten on Restrict |
| `RestrictIp.AsWrittenThrowsAfterFetchError` | restrictIp.js:43-53 | As written, the first event is always the callback with the intended verdict. An unhandled promise rejection (the TypeError at line 49) follows it exactly when `ipr` is truthy and the fetch failed |
| `ImportIps.ShiftAndSumIsBigEndian` | import_ips_from_csv.py:10-14 | `reduce(shift_and_sum, parts)` with no initial value is the big-endian number of the parts, for any non-empty count |
| `ImportIps.FormatIpClosedForm` | import_ips_from_csv.py:10-14 | `format_ip` equals ((o1·256+o2)·256+o3)·256+o4, with no wrap |
| `ImportIps.FormatIpRange` | import_ips_from_csv.py:13-14 | `format_ip` lies in [0, 2^32) |
| `ImportIps.FormatIpInjective` | import_ips_from_csv.py:10-14 | Two well-formed addresses get the same `format_ip` key exactly when their octets are equal |
| `ImportIps.FormatIpInjectiveOnText` | import_ips_from_csv.py:10-14 | On addresses without leading zeros, two lines get the same `format_ip` key exactly when they are the same text |
| `ImportIps.BatchWriter.PutItem` | import_ips_from_csv.py:33 | Appends the item to what the batch has received and changes nothing else |
| `ImportIps.ImportCsvToDynamodb` | import_ips_from_csv.py:29-33 | Puts exactly one row per line, in input order, each keyed by `format_ip` of its line |
| `KeyAgreement.ImporterAndGateKeys` | restrictIp.js:56-58 | `format_ip(ip)` equals `ip2int(ip)` when o1 < 128 and `ip2int(ip) + 2^32` when o1 ≥ 128. They agree exactly below 128.0.0.0 |
| `KeyAgreement.UnsignedKeyMatchesImporter` | restrictIp.js:56-58 | `ip2int(ip) >>> 0` equals `format_ip(ip)` for every well-formed address |
| `KeyAgreement.ImportedKeyListed` | import_ips_from_csv.py:29-33 | An address's importer key is in the imported table exactly when some line names the same address |
| `KeyAgreement.GateFindsListedLowAddresses` | restrictIp.js:16-22 | Below 128.0.0.0, the gate's lookup finds an item exactly for the listed addresses |
| `KeyAgreement.HighAddressesNeverFound` | restrictIp.js:16-30 | From 128.0.0.0 on, the gate's lookup never finds an imported key. Every such request passes, whatever `ipr` and the secret |
| `KeyAgreement.ListedAddressPassesUnchecked` | restrictIp.js:16-30 | 192.168.0.1 is the only listed address, yet its lookup misses and it passes with no `ipr` |
| `KeyAgreement.UnsignedGateFindsExactlyListed` | restrictIp.js:16-22 | With the unsigned key, the lookup finds an item exactly for the listed addresses, whatever the first octet |

## Left out

- The AWS SDK calls (`dynamodb.getItem`, `ssm.getParameter`, boto3's session, table and `batch_writer`) are network clients. Their outcomes are inputs (`LookupResult`, `SecretResult`), and the batch writer is a class that records the items put.
- `QS.parse(request.querystring)` is a library parser. Its result for `ipr` is the input `IprParam`: missing, one string, or the array built for a repeated key.
- The `async`/`await` and callback mechanics and the event unpacking of `exports.handler` (restrictIp.js:8-11) are plumbing. A method's returned verdict stands for the single callback. The as-written function models the one place where a second outcome, an unhandled promise rejection, follows.
- `console.error` and `print` only log, with no effect on results.
- Command-line parsing and file or stdin handling in the importer are I/O. Lines are given as strings without their trailing newline, which `int()` would strip anyway.
- Coercion of malformed input is host-language behaviour and is not modelled. This covers `parseInt`/`int()` on non-numerals, whitespace, out-of-range octets, a count other than four, and an IPv6 `clientIp`. The encoders are modelled on well-formed dotted quads only. With a single part, `format_ip` returns the unconverted string.
- RestrictIp.CheckIpTable: takes the lookup outcome as an input rather than computing `ip2int(request.clientIp)` itself, because `ip2int` is modelled only on well-formed dotted quads. `KeyAgreement` ties the lookup to `Ip2Int` of the address.
- Request fields other than `clientIp`, `uri` and `querystring` are not touched by the code and are not modelled.
- Distinct strings with leading zeros can name the same octets (`01.2.3.4` and `1.2.3.4`). Both encoders are injective on octets, and on text only among addresses written without leading zeros.

## Findings

| source | as written | input that shows it | evidently intended | confidence | as-written member | corrected member |
|---|---|---|---|---|---|---|
| restrictIp.js:45-49 | The catch block calls `restrictedResponse` but does not return. Line 49 then reads `data.Parameter` while `data` is undefined, so a TypeError rejects the async function's promise after the callback has completed. `checkIpTable` awaits that promise and the handler discards it, so it ends as an unhandled rejection | An item is present, `ipr=abc`, and `ssm.getParameter` rejects | Return right after `restrictedResponse`, so that Restrict is the only outcome | high; not executed | `RestrictIp.RestrictFlagEventsAsWritten` (lemma `RestrictIp.AsWrittenThrowsAfterFetchError`) | `RestrictIp.CheckRestrictFlag` (specified by `RestrictIp.RestrictFlagVerdict`, lemma `RestrictIp.RestrictFlagFailsClosed`) |
| restrictIp.js:57 | `<<` wraps the key to a signed 32-bit number, while the importer writes the unsigned number (import_ips_from_csv.py:13). Keys of addresses from 128.0.0.0 up never match, so those addresses pass the restrict-list without a token | 192.168.0.1 is imported as 3232235521. The gate looks up -1062731775, misses, and passes the request | Both sides use one key: the gate's key read unsigned (`ip2int(ip) >>> 0`) | high; not executed | `RestrictIp.Ip2Int` (lemmas `KeyAgreement.HighAddressesNeverFound`, `KeyAgreement.ListedAddressPassesUnchecked`) | `RestrictIp.Ip2IntUnsigned` (lemmas `KeyAgreement.UnsignedKeyMatchesImporter`, `KeyAgreement.UnsignedGateFindsExactlyListed`) |
