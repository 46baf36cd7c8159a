# Encrypted paginated record store: a Dafny model

This project models the record-store logic of a small React application. The
application keeps two IndexedDB object stores, `records` and `patientRecords`.
Text fields are encrypted before they are written and decrypted when they are
read. Reads are served by page, with an optional case-insensitive search.

Each store is modelled as an immutable value: its rows plus the next value of
its auto-increment key generator. Every operation is a pure function over that
value.

| file | module | models |
|---|---|---|
| `seqs.dfy` | `Seqs` | `Array.prototype.filter`, `map` and `slice` (with ECMAScript negative-index rules), offset/limit paging, and the subsequence and ordering relations used to state results |
| `text.dfy` | `Text` | `toLowerCase` (ASCII letters only), `String.prototype.includes`, decimal formatting of integers in template literals, and IndexedDB's code-unit string order |
| `cipher.dfy` | `Ciphers` | the field cipher as a pair of functions, with the round-trip property as a predicate |
| `database.dfy` | `Database` | `initializeDatabase`: opening, the upgrade that creates both stores, and the version check |
| `records.dfy` | `Records` | the `records` store: `insertData` and `getPageData` |
| `patients.dfy` | `Patients` | the `patientRecords` store: `getAllPatientRecords`, and the total-count call the patient page makes |
| `loops.dfy` | `Loops` | a counted `for` loop over a state, with the loop-invariant rule used to reason about it |
| `seeder.dfy` | `Seeder` | `populateDatabase`: seeding pages 1 to 10 with 1000 items each when empty |

Modelling choices:

- **Cipher.** The key is derived from a constant token. The IV is a constant.
  So encryption under that key is a deterministic function from strings to
  bytes, and decryption is a function back. A `Cipher` is any such pair of
  functions. Properties that need decryption to undo encryption take
  `RoundTrips(c)` as a precondition. Nothing else about the cipher is assumed.
- **Record ids.** Items passed to `insertData` carry no id, so every stored row
  takes the key generator's value. The only writer, the seeder, never sets an
  id.
- **Patient store.** Nothing in the program writes the patient store; its
  writer is commented out. So it is taken as given, in the form that a scan of
  `createdAtIndex` returns: rows ordered by `createdAt`, then by id.
- **Integers.** `page` and `pageSize` are integers. `slice` is modelled with its
  negative-index rule, so pages below 1 behave as they do in JavaScript.

## Model

| member | source | states |
|---|---|---|
| `Database.InitializeDatabase` | src/configs/indexDB.ts:23-41 | Opening a missing database gives version 1 with both stores empty and well formed. An existing version-1 database comes back unchanged. A newer version is a version error. |
| `Database.OpenTwiceIsOpenOnce` | src/configs/indexDB.ts:23-41 | Opening the database that an open returned gives it back unchanged. |
| `Records.AddAll` | src/configs/indexDB.ts:55-61 | The `add` calls of one transaction append the pending rows in order. Each row gets the next key-generator value. Rows already stored are not changed. |
| `Records.InsertData` | src/configs/indexDB.ts:43-65 | `insertData(page, items)` appends one row per item after the existing rows, in input order. Each row has a fresh consecutive id, the encrypted name, and `page` in place of the item's own page. The generator advances by the batch size, and a well-formed store stays well formed. |
| `Records.InsertIdsAreFresh` | src/configs/indexDB.ts:26-28 | In a well-formed store, every id the batch receives is larger than every id already stored. |
| `Records.InsertThenPageRows` | src/configs/indexDB.ts:48-61 | The page written to gains exactly the batch's rows, after the rows it already had. |
| `Records.InsertLeavesOtherPages` | src/configs/indexDB.ts:43-65 | After an insert, every other page has the same rows and reads the same for any search term. |
| `Records.InsertThenRead` | src/configs/indexDB.ts:43-116 | If decryption undoes encryption, a page read after an insert returns the earlier read followed by the batch. The batch comes in input order, with fresh ids, the page argument and the original plaintext names. It is searched like any other record. |
| `Records.GetPageData` | src/configs/indexDB.ts:92-116 | Every record returned is on the requested page and its name matches the term. With no term, there is one record per stored row of the page. In a well-formed store, ids strictly increase along the result. |
| `Records.DecryptedRowsOnPage` | src/configs/indexDB.ts:100-109 | The exact-match lookup and decryption give records of the requested page only. The rows' id order is kept. |
| `Records.SearchKeepsMatches` | src/configs/indexDB.ts:111-115 | The search step returns a subsequence of its input. That subsequence holds every matching record and only matching records, and it keeps id order. |
| `Records.PageDataMembers` | src/configs/indexDB.ts:100-115 | A record is in a page read exactly when it decrypts a stored row of that page and its name matches the term. Only the name changes on the way. |
| `Records.SearchIsSubsequence` | src/configs/indexDB.ts:111-115 | A searched read is a subsequence of the unsearched read. It holds exactly the records whose lower-cased name contains the lower-cased term. |
| `Records.EmptyTermKeepsEverything` | src/configs/indexDB.ts:111-115 | Filtering with the empty term keeps every record, because every name contains the empty string. The source's empty-term shortcut returns the same result. |
| `Records.AlphaBetaScenario` | src/configs/indexDB.ts:43-116 | Insert "Alpha", "Beta" and "Alpha2" on page 1 of a fresh store, with "Beta" claiming page 5. Page 1 reads back all three in order on page 1. Searching "alpha" gives "Alpha" and "Alpha2". Page 2 is empty. |
| `Patients.FilteredPatients` | src/configs/indexDB.ts:150-171 | The decrypted index scan, searched, is a subsequence of the scan. It holds every record whose lower-cased name or diagnosis contains the lower-cased term, and only those. |
| `Patients.PatientFilterMembers` | src/configs/indexDB.ts:165-171 | A record survives the search exactly when it is a decrypted scan row whose name or diagnosis matches. The empty term keeps the whole scan in index order. |
| `Patients.GetAllPatientRecords` | src/configs/indexDB.ts:144-176 | For page 1 or later and a non-negative size, the result is the filtered records from offset `(page-1)*pageSize` up to `pageSize` of them, cut off at the end. Page 0 and size 0 give nothing. |
| `Patients.PageLength` | src/configs/indexDB.ts:173-175 | A page holds no records once the offset reaches the end. Otherwise it holds `pageSize` records or whatever is left, whichever is fewer. |
| `Patients.DefaultCallReturnsFirstTen` | src/configs/indexDB.ts:144-176 | With the default page 1 and page size 10, the call returns the first ten filtered records, or all of them when there are fewer. |
| `Patients.PageInIndexOrder` | src/configs/indexDB.ts:150-175 | In a well-formed store, every page lists its records in `createdAt`-index order. |
| `Patients.TwentyFiveRecordsScenario` | src/configs/indexDB.ts:173-175 | With 25 matches and pages of 10: page 2 holds records 11 to 20, page 3 holds records 21 to 25 (five records), and page 4 is empty. |
| `Patients.NegativePageCountsFromEnd` | src/configs/indexDB.ts:173-175 | With 25 matches and pages of 10, page 0 is empty. Page -1 returns records 6 to 15, because `slice` counts a negative offset from the end. |
| `Patients.TotalCountAsWritten` | src/pages/Page2.tsx:23-25 | The total that the patient page computes is the size of a default call: the number of matches capped at 10. |
| `Patients.TotalCountAsWrittenHidesRecords` | src/pages/Page2.tsx:84-90 | With 25 matches, the pager is told 10 and shows one page. That page holds only the first ten matches. |
| `Patients.TotalCount` | src/pages/Page2.tsx:23-25 | The intended total is the number of matching records. A single page of that size returns all of them. |
| `Patients.TotalCountCoversAllRecords` | src/pages/Page2.tsx:84-90 | With the intended total, reading the pager's pages one after another returns every matching record once, in order. |
| `Seqs.Filter` | src/configs/indexDB.ts:112-114 | `filter` returns a subsequence of its input. It holds every element that meets the condition and only such elements. |
| `Seqs.FilterCounts` | src/configs/indexDB.ts:112-114 | `filter` keeps every copy of a value that meets the condition and no copy of one that does not, so duplicates are neither merged nor dropped. |
| `Seqs.JsSlice` | src/configs/indexDB.ts:175 | `slice(start, end)` with non-negative bounds is the clamped sub-range. An end of 0, or an end equal to the start, gives nothing. |
| `Seqs.Paginate` | src/configs/indexDB.ts:174-175 | The offset/limit slice is the clamped range starting at `(page-1)*pageSize`, at most `pageSize` long. Page 0 and size 0 give nothing. |
| `Seqs.PagesFormPrefix` | src/configs/indexDB.ts:174-175 | Pages 1 to k together are the first `k*pageSize` elements, or all of them. No element is skipped or repeated. |
| `Seqs.PaginateOrdered` | src/configs/indexDB.ts:174-175 | Every page of an ordered sequence is ordered. |
| `Text.Lower` | src/configs/indexDB.ts:113 | Lower-casing maps each of `A` to `Z` to its own lower-case letter, at the same distance from `a` as the input is from `A`. It leaves every other character unchanged. |
| `Text.EmptyTermFound` | src/configs/indexDB.ts:111-115 | Lowering the empty term leaves it empty, and every lowered name contains it, so the empty term matches every record. |
| `Text.LowerStrIdempotent` | src/configs/indexDB.ts:113 | Lower-casing twice is the same as lower-casing once. |
| `Text.Contains` | src/configs/indexDB.ts:113 | `includes` holds exactly when the needle occurs at some position of the haystack. |
| `Text.ContainsEmpty` | src/configs/indexDB.ts:111-115 | Every string contains the empty string. |
| `Text.NatToString` | src/configs/indexDB.ts:186 | An interpolated integer is a non-empty run of decimal digits with no leading zero that reads back as the same number. |
| `Ciphers.CiphertextEqualityLeaksPlaintextEquality` | src/configs/storageUtils.ts:28-64 | With a fixed key and IV, two ciphertexts are equal exactly when their plaintexts are equal. |
| `Seeder.PopulateDatabase` | src/configs/indexDB.ts:180-191 | Seeding keeps a well-formed store well formed. Afterwards, pages 1 to 10 are all non-empty. |
| `Seeder.SeedPageEffect` | src/configs/indexDB.ts:183-190 | One loop step leaves other pages' rows unchanged. It leaves a non-empty page alone. It gives an empty page exactly 1000 rows, read back as "Item i on Page p" for i = 1 to 1000. |
| `Seeder.SeedFromFrame` | src/configs/indexDB.ts:182-191 | From a given page on, the loop leaves earlier pages, pages past 10 and non-empty pages untouched. Every page it visits ends up non-empty. |
| `Loops.IterateInvariant` | src/configs/indexDB.ts:182-191 | An invariant that holds before the seeding loop and that each iteration carries from page p to page p + 1 still holds when the loop ends. |
| `Seeder.SeedFromKeeps` | src/configs/indexDB.ts:182-191 | From a given page on, the loop leaves alone any page it does not visit and any page that already has rows. |
| `Seeder.SeedFromFills` | src/configs/indexDB.ts:182-191 | From a given page on, every page the loop visits ends up non-empty. |
| `Seeder.SeedFromSeeds` | src/configs/indexDB.ts:182-191 | From a given page on, every empty page the loop visits reads back as the 1000 generated records. |
| `Seeder.PopulateSeedsEmptyPages` | src/configs/indexDB.ts:180-191 | After seeding, each of pages 1 to 10 that was empty holds exactly "Item 1 on Page p" to "Item 1000 on Page p", in that order. Every other page keeps its rows. |
| `Seeder.SeedNameInjective` | src/configs/indexDB.ts:185-187 | Two generated names for the same page are equal only when their item numbers are equal. |
| `Seeder.SeededNamesDistinct` | src/configs/indexDB.ts:182-191 | A seeded page holds no two records with the same name. |
| `Seeder.SeedFromNothingToDo` | src/configs/indexDB.ts:182-191 | When every remaining page is non-empty, the loop changes nothing. |
| `Seeder.PopulateIdempotent` | src/configs/indexDB.ts:180-191 | Seeding twice leaves exactly the store that seeding once leaves, ids included. |

## Left out

- Key derivation (`deriveKeyFromToken`: PBKDF2 with SHA-256, 100,000 iterations) and AES-GCM encryption are not modelled. The cipher is a parameter, and decryption undoing encryption is a precondition where needed.
- Decryption failures, transaction aborts, quota errors and a missing crypto or storage platform are not modelled. These are library behaviour and are not handled in the application code.
- The `idb` connection, transactions, `tx.done`, `await` and `Promise.all` scheduling are not modelled. Each operation is one atomic step, run by one caller at a time. Parallel decryption keeps order in `Promise.all`, so it becomes an order-preserving map.
- `Seeder.SeedPage`: the emptiness test and the insert are one step in the model. In the program they are two transactions: a read-only `getPageData(page)` (src/configs/indexDB.ts:183) and then a read-write `insertData` (src/configs/indexDB.ts:189). `populateDatabase` is started without being awaited (src/configs/indexDB.ts:180, 207), in every tab that loads the module. Two tabs opening a fresh database can both find a page empty and both insert, leaving 2000 rows on it. So `Seeder.PopulateIdempotent`, `Seeder.PopulateSeedsEmptyPages` and `Seeder.SeededNamesDistinct` hold only for runs that do not overlap.
- The `nameIndex` on both stores is created but never queried, so it is not represented.
- Caller-supplied ids on inserted items are not modelled. An item's optional `id` would be spread into the row and bypass the key generator. No caller passes one.
- Non-integer and NaN values of `page` and `pageSize` are not modelled.
- `Text.Lower`: lower-cases ASCII letters only. JavaScript's `toLowerCase` lower-cases all of Unicode, including the Vietnamese text the application uses.
- `Text.StrLess` compares Unicode scalar values, whereas IndexedDB compares UTF-16 code units. The two orders differ only for characters outside the Basic Multilingual Plane.
- The commented-out code is not modelled: the older `insertData`, `insertPatientRecords` and the patient seeding loop. The patient store therefore has no insert operation.
- The React pages and layout are not modelled, apart from the total-count call on the patient page described under Findings.

## Findings

| source | as written | input that shows it | evidently intended | confidence | as-written member | corrected member |
|---|---|---|---|---|---|---|
| src/pages/Page2.tsx:24 | The total for the pager is the length of `getAllPatientRecords(searchTerm)`. That call uses the default page 1 and page size 10, so the total is never more than 10. | 25 matching patient records: the total is 10, the pager shows one page, and records 11 to 25 cannot be reached. | The total should be the number of matching records, so that the pager's pages cover them all. | high; not executed | `Patients.TotalCountAsWrittenHidesRecords` | `Patients.TotalCountCoversAllRecords` |
