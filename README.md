# Lighthouse report upload: header reconciliation and report flattening

`postAudit.js` reads Lighthouse audit reports and prepares a Google
spreadsheet for them. It creates one worksheet per audited hostname. From each
report it builds a flat record, and it grows the worksheet's header row with
that record's keys. The record's values are computed and then dropped: no
row of report values is written. This project models the data logic inside
that glue, and proves properties of it:

- **Header reconciliation** (`mergeHeader`). The worksheet's current header
  row is read. The wanted column names that are missing are kept in the order
  they were wanted. The row `current ++ missing` is written back. This is
  modelled as pure functions on `seq<string>` in module `Headers`.
- **Ordered records** (module `Records`). A JavaScript object is modelled as
  a list of (key, value) pairs whose keys are unique, kept in creation order.
  This is the order `Object.keys` returns. Property assignment (`Put`)
  overwrites an existing key where it stands and appends a new key at the end.
  Object spread (`Spread`) assigns one object's pairs onto another in order.
  Scalar values are a small datatype. Numbers are JavaScript floats in the
  source; an integer stands in for them.
- **Report flattening** (module `Reports`). The loop over
  `Object.entries(report.audits)` is the method `FlattenAudits`. It is proved
  equal to the reference definition `Flattened`. The `switch` is modelled as
  written. Line 59 has no `break`, so a `"binary"` audit is first assigned the
  boolean of its score and then, on falling into the `"numeric"` case, its
  `numericValue`. What survives is always `numericValue`. Every other display
  mode is skipped. `ReportData` builds the report record: the twelve metadata
  fields, then `...summary`, then `...audits`.
- **Worksheet resolution and upload** (module `Sheets`). The spreadsheet is a
  class whose one field maps worksheet titles to header rows.
  - `ResolveDirectory` is the directory update as a set of titles: the
    hostname is added only when it is absent.
  - `LoadSheet`, `MergeHeader` and `UploadReport` are the state-changing steps
    of `loadSheet`, `mergeHeader` and `uploadReport`.

Calls to the spreadsheet service are replaced by direct updates of the modelled
state. `loadInfo` and `loadHeaderRow` become reads of that state.
`addSheet { title }` adds a worksheet with an empty header row.
`setHeaderRow` replaces the header row. The hostname of the requested URL is
an input of `UploadReport`.

## Model

| member | source | states |
|---|---|---|
| `Headers.Diff` | postAudit.js:37 | A name is in the diff exactly when it is wanted and not in the current header. The diff is no longer than the wanted list. It is empty exactly when every wanted name is already present. |
| `Headers.DiffConcat` | postAudit.js:37 | The filter distributes over concatenation, so missing names keep the order in which they were wanted. |
| `Headers.DiffSingle` | postAudit.js:37 | A single wanted name is kept exactly when it is missing. Together with DiffConcat this fixes the diff completely. |
| `Headers.DiffDistinct` | postAudit.js:37 | A duplicate-free wanted list gives a duplicate-free diff. |
| `Headers.DiffNothingPresent` | postAudit.js:37 | Against an empty header, nothing is filtered out. |
| `Headers.Merge` | postAudit.js:40 | The header written back has length `|current| + |diff|`. The current header is its prefix, so no column moves or is lost. Every wanted name is in it. Every name in it is either current or wanted. |
| `Headers.MergeKeepsPrefix` | postAudit.js:40 | Any leading run of the current header stays in place after the merge. This is a corollary of `Headers.Merge`'s prefix clause. |
| `Headers.MergeIdempotent` | postAudit.js:37-40 | Merging the same names into an already merged header gives an empty diff and leaves the header unchanged. |
| `Headers.MergeDistinct` | postAudit.js:37-40 | A duplicate-free header merged with duplicate-free names (the keys of an object) stays duplicate-free. |
| `Headers.MergeIsUnion` | postAudit.js:37-40 | With duplicate-free inputs, the merged header holds exactly the union of the two name sets, and its length is the size of that union. |
| `Headers.MergeDisjointRows` | postAudit.js:37-40 | Two disjoint field lists merged one after the other into an empty header give the first list followed by the second. The length is the size of the union. |
| `Headers.MergeFirstThenRest` | postAudit.js:80-83 | Merging one key and then the keys after it gives the same order as merging them all at once. This is the key order an object spread produces. |
| `Records.Keys` | postAudit.js:56-83 | `Object.keys` and the key order of `Object.entries` have one key per pair (`|ks| == |r|`). The key at each position is given by `Records.KeyAt`. |
| `Records.KeyAt` | postAudit.js:83 | `Object.keys` gives, at each position, the key of the pair at that position. |
| `Records.Lookup` | postAudit.js:59-61 | The observer that gives the assignments of lines 59-61 (`Put`) and the spreads their meaning. The source never reads the record back. A key has a value exactly when it is present (`v.Some? <==> k in Keys(r)`). Which value it has is given by `Records.LookupAt` for objects. |
| `Records.Put` | postAudit.js:59-61 | Assigning an existing key keeps the key list. Assigning a new key appends it, and the record becomes the old one plus that pair. The assigned key then reads as the new value and every other key reads as before. |
| `Records.PutOverwritesLast` | postAudit.js:58-61 | Two assignments to a key that was new leave a single pair at the end that holds the second value. |
| `Records.Spread` | postAudit.js:80-81 | Spreading s onto r gives the key order `Merge(Keys(r), Keys(s))`: r's keys in place, then s's new keys in s's order. A key in s reads as s's value, and any other key reads as r's value. |
| `Reports.Truthy` | postAudit.js:59 | `Boolean(score)` is false exactly for undefined, null, false, 0 and the empty string. Its value never reaches the record: line 61 overwrites it through the fall-through. |
| `Reports.Flattened` | postAudit.js:54-65 | The flattened audits only use keys of the report's audits, and no key occurs twice. |
| `Reports.FlattenAudits` | postAudit.js:54-65 | The loop, including the binary-to-numeric fall-through, yields exactly `Flattened(entries)`. |
| `Reports.FlattenedLookup` | postAudit.js:56-65 | A key with no audit reads as absent. An audit whose display mode is neither "binary" nor "numeric" is absent. A "numeric" audit holds its `numericValue`. A "binary" audit also holds its `numericValue`, because of the fall-through. |
| `Reports.FlattenedConcat` | postAudit.js:56 | Flattening keeps entry order: flattening two runs of entries is flattening each and concatenating. |
| `Reports.BinaryAndManualExamples` | postAudit.js:57-63 | A binary audit scored 1 with no `numericValue` is kept with an absent value, never as `true`. An audit shown as "manual" is left out. |
| `Reports.Metadata` | postAudit.js:67-79 | The twelve metadata keys come in source order with no duplicates. Each of the twelve keys reads as its report field, including the nested `configSettings` and `screenEmulation` fields. |
| `Reports.ReportData` | postAudit.js:67-83 | The record's keys are unique. Their order is metadata, then the new summary keys, then the new audit keys. The key set is the union of the three groups. On a clash the value comes from audits, else summary, else metadata. |
| `Reports.ReportKeysStartWithMetadata` | postAudit.js:67-83 | The header a report asks for starts with the twelve metadata columns, in order. |
| `Sheets.ResolveDirectory` | postAudit.js:90-94 | Afterwards the hostname is a title. Nothing is removed, and at most that one title is added. The directory is unchanged exactly when the hostname was already present. The size grows by one exactly when it was absent. |
| `Sheets.ResolveIdempotent` | postAudit.js:90-94 | Resolving the same hostname again changes nothing. |
| `Sheets.Spreadsheet.LoadSheet` | postAudit.js:88-98 | The titles become `ResolveDirectory(old titles, hostname)`. Existing worksheets keep their header rows. A new worksheet starts with an empty header. The worksheet returned is the hostname's. |
| `Sheets.Spreadsheet.MergeHeader` | postAudit.js:33-43 | The sheet's header becomes `Merge(old header, newHeaders)`. The titles and every other worksheet are unchanged. |
| `Sheets.Spreadsheet.UploadReport` | postAudit.js:45-86 | The titles become `ResolveDirectory(old titles, hostname)`. The hostname's header becomes the old header (empty for a new worksheet) merged with the keys of `ReportData(report, Flattened(report.audits))`. Every other worksheet is unchanged. |

## Left out

- Reading the manifest and the report files (`getManifest`, `getReport`, `dotenv`), and JSON parsing. These are I/O and library behaviour. A report is given as an already parsed value whose objects have unique keys.
- A report that lacks `audits`, `configSettings` or `configSettings.screenEmulation`. The source throws a TypeError there (lines 56 and 75-79); the report datatype always has these fields. An absent `summary` spreads nothing and is the empty record.
- Authentication and transport to the spreadsheet service (`initGSheet`, `doc.loadInfo`, `addSheet`, `loadHeaderRow`, `setHeaderRow`). They are replaced by updates of the modelled header map. The library's own behaviour, for example on a worksheet whose header row is empty, is not part of this model.
- The missing `await` on `setHeaderRow` (line 40) and on `mergeHeader` (line 84). This is a timing concern; the model applies each step in program order.
- Console logging, including the `Array.join` calls (lines 35, 38 and 42). `Array.join` is not a static method and would throw. Only the header computation of lines 37 and 40 is modelled.
- Hostname extraction with `new URL` (line 47). This is a library parser; the hostname is an input.
- `main`, which uploads the reports one after another (lines 124-133). It is sequencing glue around the modelled steps.
- Floating-point values. `score` and `numericValue` are integers or other scalars here. `Truthy` treats `0` as false, but it does not model `NaN`.
- JavaScript object quirks. `requestedHostname in doc.sheetsByTitle` is also true for inherited names such as `constructor`. Assigning `audits["__proto__"]` would not create a key. The model treats every title and key as a plain own key, which holds for real hostnames and Lighthouse audit ids.
- JavaScript's special ordering of integer-like property keys in `Object.keys` and in spread. The model keeps plain insertion order, which is the order for Lighthouse's non-numeric keys.
- The `numericValue` that replaces the boolean of a binary audit is modelled as written. The boolean flattening the code evidently intended is not modelled.
