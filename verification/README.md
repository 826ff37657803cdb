# Commission ingestion and partner attribution, modelled in Dafny

The WePlus partner API (`server.js`) takes a spreadsheet of course orders,
turns each data row into a commission record, and answers two per-partner
queries. The data query keeps the records whose affiliate or invitor
recipient name matches the partner code. The summary query adds up the
partner's 10% and 15% commissions and counts the partner's orders. This
project models that engine and proves properties of it:

- `convertExcelDate` (module `ExcelDate`). A falsy cell becomes `""`. A
  number above 40000 is an Excel serial day: day `floor(v) - 25569` after
  1970-01-01, printed by `toISOString` and throwing a `RangeError` beyond the
  last valid time value. A trimmed `a/b/c` string becomes `c-pad2(a)-pad2(b)`,
  or `c-pad2(b)-pad2(a)` when `Number(a) > 12`. Every other value comes back
  as its trimmed string form.
- `processExcelData` (module `Ingest`). It rejects an absent grid or one with
  fewer than two rows. It drops the header row and skips absent or empty
  rows. It maps the fixed columns 0, 1, 6, 8, 9, 10, 11, 12, 13 and 16. A row
  whose mapping throws is skipped, as the per-row `catch` does. It keeps a
  row only when one of its two commission amounts is positive. The `forEach`
  loop is an imperative method whose loop invariant ties the pushed records
  to a recursive specification.
- The partner filter of the `/data` handler (module `Attribution`). It does
  lower-cased substring containment in both directions, on either recipient.
- The accumulation loop of the `/summary` handler (module `PartnerSummary`).
  It is an imperative method over the already-filtered records, proved
  against recursive definitions of the three counters.

Supporting modules: `Wrappers` (Option, Result), `JsText` (the JavaScript
string operations the engine uses), `Cells` (spreadsheet cell values and the
`||` defaults), `Calendar` (the proleptic Gregorian calendar counted in days
from 1970).

The runtime's number conversions are not written out. `parseFloat`,
`Number` and `String(number)` come in as the total functions of a `Host`
value, with `None` standing for NaN. `Date.now()` is a `clock` parameter
that gives the reading at each row index.

Some behaviour of `server.js` worth knowing, which the model keeps:

- The code does not fall back to today's date for a date it cannot read.
  It passes the text through trimmed.
- The code does not shift serial dates to UTC+7.
- The code has no general date parser. Only `a/b/c` text is rewritten.
- The code does not clamp amounts to be non-negative. A negative amount is
  stored as parsed, and the `> 0` tests leave it uncounted.
- A record whose affiliate name matches but whose affiliate amount is not
  positive is not counted as an order, even when its invitor share is
  counted. So `totalOrders` is not "records with a counted share"
  (`PartnerSummary.OrderWeightIff`, `PartnerSummary.MaskedInvitorOrder`).
- The partner match is containment only. There is no exact-match variant
  and no monthly breakdown.

## Model

| member | source | states |
|---|---|---|
| `ExcelDate.ConvertExcelDate` | server.js:37-60 | conversion fails (a `RangeError`) exactly for a serial above 40000 beyond the last valid time value; a falsy cell gives `""` |
| `ExcelDate.SerialRule` | server.js:41-43 | a serial in range prints as `YYYY-MM-DD` text that reads back as a valid date whose day count from 1970-01-01 is `floor(v) - 25569` |
| `ExcelDate.IsoDateRoundTrip` | server.js:43 | the printed date part of a valid date up to year 9999 has the `YYYY-MM-DD` shape and reads back as that date |
| `ExcelDate.SlashDateRule` | server.js:48-56 | trimmed text with exactly three `/`-parts becomes `year-pad2(month)-pad2(day)`; day and month are swapped exactly when the first part reads as a number above 12 |
| `ExcelDate.OtherTextRule` | server.js:47-59 | non-serial truthy input whose trimmed text does not split into three parts comes back as that trimmed text |
| `ExcelDate.NoSlashRule` | server.js:47-59 | non-serial truthy input whose trimmed text has no `/` comes back as that trimmed text |
| `ExcelDate.SmallNumberRule` | server.js:47-59 | a non-zero number at or below 40000 comes back as its trimmed `String()` form, on a host whose number printing writes no `/` (`Cells.SlashFreeNumerals`) |
| `ExcelDate.MonthFirstText` | server.js:48-55 | `M/D/YYYY` text of a valid date converts to the same `YYYY-MM-DD` text a serial for that date prints |
| `ExcelDate.DayFirstText` | server.js:52-55 | `D/M/YYYY` text with a day above 12 converts to the same `YYYY-MM-DD` text |
| `Calendar.CivilFromDays` | server.js:42-43 | every day count from 1970-01-01 names a valid date that counts back to it |
| `Calendar.DaysFromCivilInjective` | server.js:42-43 | two valid dates with the same day count are equal |
| `Calendar.CivilFromDaysOfCivil` | server.js:42-43 | every valid date from 1970 on is the date of its own day count |
| `JsText.Trim` | server.js:47 | the result is the input with a whitespace-only prefix and a whitespace-only suffix cut off; it starts and ends with non-whitespace, and text that already does is unchanged |
| `JsText.TrimIdempotent` | server.js:47 | trimming twice is trimming once |
| `JsText.Split` | server.js:49 | a split has one more part than the separators in the text, and no part holds the separator |
| `JsText.JoinSplit` | server.js:49 | joining the parts of a split with the separator gives the text back |
| `JsText.SplitJoin` | server.js:49 | separator-free parts are recovered by splitting their join |
| `JsText.PadStart` | server.js:55 | padding keeps the text as a suffix, fills the front with the pad character, and reaches the width unless the text is longer |
| `JsText.IncludesIff` | server.js:212-213 | `includes` holds exactly when the search text occurs at some position |
| `JsText.LowerCharwise` | server.js:208-210 | lower-casing maps each character in place, letters A-Z to a-z |
| `JsText.LowerIdempotent` | server.js:208-210 | lower-casing twice is lower-casing once |
| `JsText.LowerAppend` | server.js:208-210 | lower-casing distributes over concatenation |
| `JsText.DecRoundTrip` | server.js:74 | the decimal numeral of a number reads back as that number |
| `JsText.DecInjective` | server.js:74 | distinct numbers have distinct numerals |
| `Cells.TextOr` | server.js:76 | `cell \|\| ''` is `""` for a falsy cell and the text of a string cell |
| `Cells.AmountOr` | server.js:77 | `parseFloat(cell) \|\| 0` is 0 when parsing gives NaN and the parsed number otherwise |
| `Ingest.NormalizeRow` | server.js:72-87 | building a record throws exactly when the date conversion throws |
| `Ingest.ColumnMapping` | server.js:73-84 | a row whose date cell converts yields a record; its id embeds the clock reading and the row index; the order date comes from column 0; course, affiliate code, affiliate recipient, invitor code and invitor recipient are the text of columns 1, 8, 9, 10 and 11 (`''` when falsy); payment and the two amounts are the parsed numbers of columns 6, 12 and 13 (0 for NaN); a falsy column 16 gives `ORDER-<index+1>` |
| `Ingest.ProcessRow` | server.js:70-94 | the `forEach` callback pushes the record of a kept row and nothing for any other row |
| `Ingest.Emit` | server.js:70-94 | one pass of the loop body pushes the record of a kept row and nothing otherwise |
| `Ingest.Records` | server.js:69-95 | the records are no more than the rows, and every record has a positive commission amount |
| `Ingest.KeptIndicesExact` | server.js:69-70 | the kept row positions are increasing, each names a kept row, and every kept row is among them |
| `Ingest.RecordsAreKeptRows` | server.js:69-91 | the k-th record is the record of the k-th kept row, so row order is kept and nothing else is output |
| `Ingest.KeptRowIsEmitted` | server.js:89-90 | every non-empty data row with a positive amount and a convertible date is in the output |
| `Ingest.RecordIdNamesRow` | server.js:74 | equal record ids come from the same row index, whatever the clock read |
| `Ingest.RecordIdsDistinct` | server.js:74 | the ids produced by one call are pairwise distinct |
| `Ingest.ProcessExcelData` | server.js:62-98 | throws `Invalid Excel data` exactly for an absent grid or one with fewer than two rows; otherwise returns the records of the rows after the header, at most `rawData.length - 1` of them |
| `Attribution.MatchesEitherTier` | server.js:207-213 | the filter keeps a record exactly when its affiliate or its invitor name matches the partner in one of the two containment directions |
| `Attribution.EmptyRecipientMatchesEveryPartner` | server.js:207-213 | a record with an empty recipient name matches every partner |
| `Attribution.MatchIgnoresCase` | server.js:208-210 | the match ignores the case of the partner code and of the recipient names |
| `Attribution.NameInsideCodeMatches` | server.js:212-213 | a partner code containing the invitor's name matches the record, e.g. partner `neenyweplus` and invitor `neeny`; together with `Attribution.MatchIgnoresCase` also invitor `Neeny` |
| `Attribution.FilterPartnerRecords` | server.js:207-214 | the output holds exactly the matching input records and is no longer than the input |
| `Attribution.FilterKeepsMultiplicity` | server.js:207-214 | each matching record occurs in the output as many times as in the input, duplicates included; other records do not occur |
| `Attribution.FilterIsSubsequence` | server.js:207-214 | the filter keeps the input order |
| `Attribution.FilterAppend` | server.js:207-214 | filtering a concatenation filters each part |
| `Attribution.FilterIdempotent` | server.js:207-214 | filtering twice for a partner is filtering once |
| `PartnerSummary.AffiliateShare` | server.js:257-262 | a record adds either nothing or its whole `affiliate10Amount` to `total10`, the amount exactly when the affiliate name matches and the amount is positive |
| `PartnerSummary.InvitorShare` | server.js:258-266 | a record adds either nothing or its whole `invitor15Amount` to `total15`, the amount exactly when the invitor name matches and the amount is positive |
| `PartnerSummary.OrderWeight` | server.js:260-268 | a record adds at most one to `totalOrders` |
| `PartnerSummary.OrderCount` | server.js:252-269 | `totalOrders` never exceeds the number of records |
| `PartnerSummary.Commission10` | server.js:252-269 | `total10` is never negative |
| `PartnerSummary.Commission15` | server.js:252-269 | `total15` is never negative |
| `PartnerSummary.Summarize` | server.js:248-278 | the loop's counters are `OrderCount`, `Commission10` and `Commission15` of the records; the totals are non-negative, the order count is at most the record count, and `totalCommission` is their sum |
| `PartnerSummary.SummaryAppend` | server.js:252-269 | the three counters over two batches of records add up |
| `PartnerSummary.UnmatchedRecordAddsNothing` | server.js:257-268 | a record the partner filter drops adds nothing to any counter |
| `PartnerSummary.FilterKeepsTotals` | server.js:207-214 | summing over the filtered records gives the same three counters as summing over all records |
| `PartnerSummary.OrdersAtMostPartnerRecords` | server.js:219 | the order count is at most the data query's `recordCount` |
| `PartnerSummary.OrderWeightIff` | server.js:260-268 | a record counts as an order exactly when its affiliate share counts, or its invitor share counts while its affiliate name does not match |
| `PartnerSummary.MaskedInvitorOrder` | server.js:260-268 | a partner named in both tiers with a zero affiliate amount and a positive invitor amount earns that invitor amount on zero orders |

## Left out

- HTTP routing, CORS, multer uploads, the error and 404 middleware and `app.listen` (server.js:9-26, 103-109, 319-336). These are transport only.
- The Supabase calls: the delete-all and batched insert (server.js:126-134), the `system_info` upsert and select (server.js:137-141, 296-300), and the record select with its `gte`/`lte` date range (server.js:193-203). These are foreign database calls. The summary is taken over the records the data query returns.
- Reading the workbook with `xlsx` (server.js:119-121). A grid of cells is given instead.
- The self-`fetch` from the summary route to the data route (server.js:240-245). `PartnerSummary.Summarize` takes the filtered records directly, and `PartnerSummary.FilterKeepsTotals` relates the two.
- The credential table, the login check and the unknown-partner 404 (server.js:29-34, 160-179, 187-190). These are a lookup in a constant table.
- `createdAt`/`updatedAt` and the `console.warn` in the per-row `catch` (server.js:85-86, 92-94). They are a clock reading and logging.
- `parseFloat`, `Number` and `String(number)` are abstract `Host` functions. The model does not fix which strings parse, and it does not fix the digits a number prints with. It assumes, where a lemma says so with `Cells.SlashFreeNumerals`, that a printed number holds no `/`.
- IEEE-754 arithmetic: amounts and sums are exact reals. There is no rounding in `total10 += amount`, no `-0`, and no `Infinity`.
- ExcelDate.SerialRule: works from `floor(v)` with exact reals. It does not model the floating-point product `(v - 25569) * 86400 * 1000`. Rounding that product could at most move it up onto the next day boundary, never below the day of `floor(v)`. It states only the dates up to year 9999, whose year prints in four digits.
- `record_${Date.now()}_${index}` is modelled with `JsText.Dec` on both numbers. That matches JavaScript's printing below 10^21; `Date.now()` stays below 8.64e15 and an index is far smaller, so ids never use exponent form.
- `toLowerCase` is modelled on ASCII letters only. Other Unicode case mappings are not modelled.
- Strings are sequences of Unicode scalar values, not UTF-16 code units.
- Ingest.ColumnMapping: a truthy non-string cell in a text column (a number in the course or recipient column, say) is held as its `String()` form. server.js:76-84 stores the raw value, so such a field would be a number. Only string and falsy cells are stated exactly as the source has them.
- The model assumes the text columns come back from the database as strings. server.js stores a truthy number cell as a number and does not show the column type. If the column kept numbers, `toLowerCase` at server.js:208-209 and 253-254 would throw a TypeError on such a record. The model does not capture that, and it does not capture a null recipient name either.
