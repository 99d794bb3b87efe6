# graphsense-REST core, modelled in Dafny

graphsense-REST is the HTTP API in front of a GraphSense cryptocurrency
analytics store. This project models four of its parts and proves
properties about them:

- **Request validation.** `check_inputs` walks the keyword arguments of a
  request in order. Each argument either passes, aborts the request with an
  HTTP status, or ends the walk early with a value (a parsed `limit`, or the
  two flags of a search `expression`).
- **The exchange-rate cache.** For every crypto currency it holds a table
  from block height to fiat rates, plus the height of the currency's last
  block. It is loaded from the store's `exchange_rates` table. `get_rates`
  reads it, and `list_rates` asks the store for a list of heights.
- **The label and tag queries.** Tags are stored partitioned by the first
  three characters of the normalised label.
- **The transaction queries.** Transactions are stored under a
  five-character prefix of their hash. The prefix search renders each stored
  hash as a lower-case hexadecimal numeral.

The files:

- `wrappers.dfy`: the `Option` and `Result` datatypes.
- `checks.dfy`: `check_inputs`. It is an imperative method proved equal to a
  recursive specification, which is in turn proved to accept exactly the
  arguments that pass their per-key rule.
- `rates.dfy`: the cache as a class with two map fields. It covers the load
  loops, `get_rates` as a read-only function, and `list_rates` as a loop
  proved equal to a fold.
- `text.dfy`: string slicing, `startswith` and lower-casing.
- `tags.dfy`: `get_label`, `list_tags` and `list_labels`.
- `txs.dfy`: `get_tx`, `list_txs` and `list_matching_txs`, with the hexadecimal
  encodings they rely on.

The store's answers are parameters rather than I/O:

- the column list of a schema query;
- the rows of a table, in the order the store yields them;
- the outcome of each concurrent query;
- the current page and paging state of a paged query.

A Python exception is an error value:

- in `check_inputs`, `abort` is `Abort(code)`, and an uncaught `TypeError` or `AttributeError` is `Raised`;
- in the services, every exception is an `Err` with its cause. This includes the `AttributeError` that `list_rates` raises on a query that answered no row, which is `Err(NoRowReturned)`, as well as the `ValueError` and `KeyError` cases.

## Model

| member | source | states |
|---|---|---|
| Checks.ParseInt | gsrest/util/checks.py:15-25 | `int()` succeeds exactly on a non-empty string of decimal digits, optionally after a sign that precedes at least one digit. Every other string raises `ValueError`. The value is the digits' decimal value, negated after `-`. |
| Checks.ParseIntString | gsrest/util/checks.py:15-25 | The `int()` parse accepts every integer written in decimal and reads it back unchanged: `int(str(n)) == n`. |
| Checks.SplitOnComma | gsrest/util/checks.py:46 | `split(',')` always yields at least one piece, and no piece contains a comma. |
| Checks.JoinSplit | gsrest/util/checks.py:46 | Joining the pieces of `split(',')` with commas gives the original string back. |
| Checks.SplitJoin | gsrest/util/checks.py:46 | Splitting a comma-join of comma-free pieces gives those pieces back. |
| Checks.PiecesAlnumIffWellFormed | gsrest/util/checks.py:44-48 | An `addresses` string passes exactly when it is non-empty, has no leading or trailing comma and no `,,`, and holds only letters, digits and commas. |
| Checks.AddressPiecesValid | gsrest/util/checks.py:45-48 | The loop over the pieces returns true exactly for such a well-formed list. |
| Checks.CheckArg | gsrest/util/checks.py:8-64 | One argument is let through exactly when it meets its key's rule (`Passes`). It never ends the walk as accepted. It raises exactly when the value's type makes `isalnum`, `isalpha`, `len` or `>` fail (`TypeFault`). Every abort is 400 or 404, and it is 404 exactly for a `currency` missing from the mapping, or a non-empty `currency_optional` missing from it. Only `limit` returns a number: the non-zero integer itself, or the value `int()` parses from a string. Only `expression` returns the flags: for a non-empty string that has at least 3 characters or is alphanumeric, the flags are exactly those two facts. So every other failed rule aborts with 400, including a non-empty `limit` that does not parse and a falsy `expression`. |
| Checks.CheckAll | gsrest/util/checks.py:7-64 | The walk accepts exactly when every argument passes its rule. |
| Checks.FirstStopDecides | gsrest/util/checks.py:8-64 | The first argument that does not pass decides the outcome; the arguments after it are never looked at. |
| Checks.StopHasCause | gsrest/util/checks.py:8-64 | A walk that does not accept stopped at a definite argument: everything before it passed, and its own step gives the outcome. |
| Checks.LimitReturnsEarly | gsrest/util/checks.py:20-25 | A `limit` that parses is returned as soon as it is reached, whatever follows it. |
| Checks.ExpressionVerdict | gsrest/util/checks.py:49-61 | A non-empty expression ends the walk. It aborts with 400 exactly when it is shorter than 3 and not alphanumeric. Otherwise the flags are "at least 3 characters" and "alphanumeric". |
| Checks.CheckInputs | gsrest/util/checks.py:7-64 | The imperative validator, including its early returns and the `pagesize` rebinding, yields exactly `CheckAll`. |
| Rates.SupportedFiatCurrencies | gsrest/service/rates_service.py:46-50 | The fiat currencies are the schema columns other than `height`, with their multiplicities, and nothing else. |
| Rates.SupportedFiatAppend | gsrest/service/rates_service.py:47-49 | The filter keeps schema order: it distributes over concatenation. |
| Rates.LoadSupportedFiatCurrencies | gsrest/service/rates_service.py:32-50 | The loop builds exactly `SupportedFiatCurrencies` of the returned columns. |
| Rates.RecordOf | gsrest/service/rates_service.py:68-70 | A row's rates record has exactly the supported fiat keys, each with the row's value. |
| Rates.ProjectRow | gsrest/service/rates_service.py:68-70 | The inner copy loop builds exactly that record. |
| Rates.TableOf | gsrest/service/rates_service.py:67-73 | Every table built from rows stores each entry under its own height. |
| Rates.TableOfKeys | gsrest/service/rates_service.py:67-73 | The table has an entry for a height exactly when some row carries that height. |
| Rates.LastRowWins | gsrest/service/rates_service.py:67-73 | The entry for a height is built from the last row with that height. |
| Rates.RateCache.constructor | gsrest/service/rates_service.py:12-13 | Both module-level dicts start empty. |
| Rates.RateCache.LoadRates | gsrest/service/rates_service.py:53-77 | Sets the last height to `no_blocks - 1`. Merges the loaded table into the currency's existing table, with new rows overwriting. Leaves other currencies alone, keeps the cache invariant, and counts the rows. |
| Rates.RateCache.ResetAndLoad | gsrest/service/rates_service.py:27-29 | After the reset and load, the currency's table is exactly the loaded table. |
| Rates.RateCache.LoadAllRates | gsrest/service/rates_service.py:22-29 | After the reload, the tables and last heights are exactly `Reloaded` and `LastHeights` of the sources. |
| Rates.ReloadedTables | gsrest/service/rates_service.py:22-29 | After a reload, every listed currency holds exactly its source's table, and every other currency keeps what it had. |
| Rates.ReloadedHeights | gsrest/service/rates_service.py:22-29 | After a reload, every listed currency's last height is `no_blocks - 1`, and every other currency keeps its own. |
| Rates.RateCache.GetRates | gsrest/service/rates_service.py:80-98 | In dummy mode the answer is the fixed `eur`/`usd` 0.5 record at the given height. An unknown currency, or one with an empty table, is an error. A success is the cached entry at the effective height, where -1 stands for the last block. A height present in a non-empty table is found. Only non-dummy lookups fail. |
| Rates.DefaultHeightIsLast | gsrest/service/rates_service.py:91-92 | Asking for height -1 is the same as asking for the currency's last height. |
| Rates.LookupAfterLoad | gsrest/service/rates_service.py:53-98 | After a load, a lookup succeeds exactly for the heights some row carries, and it returns the last such row's record. |
| Rates.HeightRates | gsrest/service/rates_service.py:114-122 | No result record contains the `height` column. Its keys and values are stated by `HeightRatesKeys` and `HeightRatesValue`. |
| Rates.HeightRatesValue | gsrest/service/rates_service.py:115-121 | With a consistent store, the record under a height is the answer row of the last succeeded query for that height, without its `height` column. |
| Rates.HeightRatesErrorSticks | gsrest/service/rates_service.py:115-121 | Once a query outcome raises, no later outcome changes the result. |
| Rates.HeightRatesFails | gsrest/service/rates_service.py:115-121 | `list_rates` raises exactly when some query succeeded without a row. |
| Rates.HeightRatesKeys | gsrest/service/rates_service.py:115-121 | With a consistent store, the result has a key exactly for the heights whose query succeeded. Failed queries are dropped silently. |
| Rates.ListRates | gsrest/service/rates_service.py:101-122 | The loop over the concurrent outcomes yields exactly `HeightRates` of the requested heights. Those are the given list, or by default only the last block, `no_blocks - 1`. |
| Text.Take | gsrest/service/tags_service.py:9 | `s[:n]` has length `min(n, len(s))` and is a prefix of `s`. |
| Text.TakeOfExtension | gsrest/service/txs_service.py:43 | Two strings, one starting with the other, share their `n`-prefix once the shorter is at least `n` long. |
| Text.Lower | gsrest/service/tags_service.py:49 | `lower()` keeps the length and lower-cases each character on its own. |
| Tags.NormPrefix | gsrest/service/tags_service.py:8-9 | The partition key is the first 3 characters of the normalised label, or the whole label when it is shorter. |
| Tags.SelectByLabel | gsrest/service/tags_service.py:26-28 | The query answers exactly the table rows with that partition key and normalised label, and no more rows than the table has. |
| Tags.SelectByLabelAppend | gsrest/service/tags_service.py:26-28 | The query answers each matching row once, in table order: it distributes over concatenation of the table. |
| Tags.LabelQueryComplete | gsrest/service/tags_service.py:22-28 | In a table partitioned by its own rule, the label query loses no row with the normalised label. |
| Tags.GetLabel | gsrest/service/tags_service.py:7-18 | The result is None exactly when no row matches. Otherwise it is the normalised label, the first matching row's label and the number of matching rows. |
| Tags.TagsOf | gsrest/service/tags_service.py:30-31 | One tag per row, in row order, each with the row's own currency. |
| Tags.ListTags | gsrest/service/tags_service.py:21-32 | The result is None exactly when no row matches. Otherwise it is one tag per matching row, in order. |
| Tags.SelectedLabels | gsrest/service/tags_service.py:46-52 | The comprehension keeps exactly the labels of the rows that extend the expression and, when a currency is given, match it lower-cased. |
| Tags.SelectedLabelsAppend | gsrest/service/tags_service.py:46-52 | The comprehension keeps row order: it distributes over concatenation of the rows. |
| Tags.Dedup | gsrest/service/tags_service.py:46 | `dict.fromkeys` keeps exactly the same elements, each once. |
| Tags.DedupKeepsFirstOrder | gsrest/service/tags_service.py:46 | `dict.fromkeys` orders its elements by their first occurrence. |
| Tags.ListLabels | gsrest/service/tags_service.py:35-52 | Every returned label comes from a selected row, and every selected row's label is returned, with no duplicates. |
| Tags.ListLabelsOrder | gsrest/service/tags_service.py:45-52 | The labels come out in the order of their first occurrence among the selected labels, which `SelectedLabelsAppend` shows to be row order. |
| Tags.SearchPartitionComplete | gsrest/service/tags_service.py:37-43 | A label extending a normalised expression of at least 3 characters lies in the partition the search reads. |
| Tags.ShortSearchMissesPartition | gsrest/service/tags_service.py:37-43 | A normalised expression shorter than 3 characters reads a partition that holds no label of 3 or more characters, so such labels are never listed for it. |
| Txs.Hex | gsrest/service/txs_service.py:44-45 | `hex(n)[2:]` is a non-empty lower-case numeral. It starts with 0 exactly for the value 0. |
| Txs.HexRoundTrip | gsrest/service/txs_service.py:44-45 | Reading `hex(n)[2:]` back gives `n`. |
| Txs.CanonicalRoundTrip | gsrest/service/txs_service.py:44-45 | Every lower-case numeral without leading zeros is the `hex` form of its own value. |
| Txs.CandidateReadsBack | gsrest/service/txs_service.py:44-46 | The numeral part of a candidate starts right after its `max(leading_zeros, 0)` padding zeros. That part alone, and the whole padded candidate, both read back as `int.from_bytes` of the hash. |
| Txs.MatchingCandidates | gsrest/service/txs_service.py:44-47 | The filter keeps exactly the candidates of the answered hashes that start with the expression. |
| Txs.MatchingCandidatesAppend | gsrest/service/txs_service.py:47 | The filter keeps row order. |
| Txs.TxPrefix | gsrest/service/txs_service.py:15 | The store key is the first 5 characters of the hash or expression. |
| Txs.PrefixHashes | gsrest/service/txs_service.py:42-43 | The prefix query answers exactly the hashes stored under that prefix, and no more hashes than the table has rows. |
| Txs.PrefixHashesAppend | gsrest/service/txs_service.py:42-43 | The prefix query answers one hash per matching row, in table order: it distributes over concatenation of the table. |
| Txs.ListMatchingTxs | gsrest/service/txs_service.py:40-47 | The search returns at most one answer per table row. Its answers are exactly the padded numerals of the hashes stored under the expression's 5-character prefix that start with the expression. |
| Txs.ListMatchingTxsFindsHash | gsrest/service/txs_service.py:40-47 | Take a stored non-zero hash and an expression of at least 5 characters that starts its `hex()` form. The search, padded by that form's leading zeros, returns the form itself. |
| Txs.BytesHex | gsrest/service/txs_service.py:16 | The `hex()` form of a byte string has two lower-case digits per byte. Byte `k` is at positions `2k` (high nibble) and `2k+1` (low nibble). |
| Txs.FromHex | gsrest/service/txs_service.py:16 | `fromhex` succeeds exactly on strings of even length made only of hexadecimal digits, in either case. Otherwise it raises `ValueError`. On success there is one byte per pair of digits, whose value is high digit times 16 plus low digit. |
| Txs.FromHexBytesHex | gsrest/service/txs_service.py:16 | `bytearray.fromhex(b.hex()) == b`. |
| Txs.BytesHexValue | gsrest/service/txs_service.py:44-45 | The value of `b.hex()` is `int.from_bytes(b, "big")`. |
| Txs.PaddedCandidateIsBytesHex | gsrest/service/txs_service.py:44-45 | For a non-zero hash, padding `hex()` of its value with the leading zeros of `b.hex()` gives exactly `b.hex()`. |
| Txs.SelectTx | gsrest/service/txs_service.py:14-16 | The query answers exactly the rows with that prefix and hash, and no more rows than the table has. |
| Txs.SelectTxAppend | gsrest/service/txs_service.py:14-16 | The query answers each matching row once, in table order: it distributes over concatenation of the table. |
| Txs.GetTx | gsrest/service/txs_service.py:11-21 | A malformed hash is a `ValueError`. No matching row gives None. A match gives the first row with the rates `get_rates` finds at its height, and a rates error is passed on. |
| Txs.GetTxReadsHash | gsrest/service/txs_service.py:14-16 | Looking up `b.hex()` in a prefix-keyed table reads exactly the rows of hash `b`. |
| Txs.ConvertAll | gsrest/service/txs_service.py:34-35 | Conversion fails exactly when some row's height has no rates. Otherwise each row gives one transaction with its height's rates, in order. |
| Txs.ListTxs | gsrest/service/txs_service.py:24-37 | Success passes on the paging state and gives one transaction per row, in order, each with the `list_rates` record for its own height. It succeeds exactly when `list_rates` does and covers every row's height. |
| Txs.ListTxsComplete | gsrest/service/txs_service.py:24-37 | When every rate query succeeds with a row, `list_txs` succeeds with one transaction per row. Each carries the store's answer row for its own height, without the `height` column, taken from the last query for that height. |
| Txs.ListTxsFailedQuery | gsrest/service/txs_service.py:33-35 | When every rate query for a row's height fails, `list_rates` drops that height and `list_txs` raises. |

## Left out

- Database sessions, keyspace mapping, statement construction and `fetch_size`/`paging_state` handling are left out. The store's answers are parameters: schema columns, table rows, query outcomes, and the current page and paging state.
- Logging is left out. So is the Flask application: `current_app`, the `init_app` registration of `load_all_rates`, and `before_first_request`. The `DUMMY_EXCHANGE_RATES` setting is a `dummy` parameter, and the currency `MAPPING` is a set of names.
- `get_statistics` is not part of this model. Its `no_blocks` is a field of the rate source and a parameter of `list_rates`.
- The models of `ExchangeRate`, `Tag`, `Label` and `Tx` and their `to_dict` are not part of this model. Records keep the row they are built from.
- `alphanumeric_lower` (gsrest/util/string_edit.py) is not part of this model. It is the parameter `norm`.
- Checks.IsAlnum: reads `str.isalnum` and `str.isalpha` on ASCII letters and digits only. Unicode letters and digits are not modelled.
- Checks.ParseInt: reads `int()` as an optional sign followed by ASCII digits. Surrounding whitespace and `_` separators, which Python also accepts, are not modelled.
- Text.Lower: lower-cases ASCII letters only.
- Txs.FromHex: does not model the whitespace `bytearray.fromhex` skips between bytes.
- Fiat rates are plain reals. They are only copied, never combined, so floating point plays no part.
- Tags.ListLabels: takes the rows the grouped prefix query answers. The store's `GROUP BY` is not modelled.
- Tags.GetLabel: models the store's `COUNT(address) ... GROUP BY` as the first matching row plus the number of matching rows.
- Rates.RateCache.LoadRates: requires the currency to have a table already. Without one, the source's last height is still updated. It then raises `KeyError` at the first row, or returns normally when the table has no rows. Only `load_all_rates` calls it, and that caller always creates the table first.
- Rates.RateCache.LoadAllRates: the `0` that `load_all_rates` writes as the last height is overwritten at once by `load_rates`. The model performs both writes.
- Txs.GetTx: its contract does not state that the rates carry the row's height. Only their values are tied to `get_rates`, because height -1 is also read as "last block" there.
- The module-level dicts are shared by concurrent requests in the source. The model treats the cache as one object updated by one caller at a time.
- The neighbour search that `MAX_DEPTH` bounds is not part of this model. Only the depth check is modelled.
