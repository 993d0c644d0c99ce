# Employee manager reconciliation, modelled in Dafny

The program (`Program.cs`) loads employee rows from a spreadsheet and cuts the
table into batches of 10 rows. It hands each batch to a task that looks every
employee up in Active Directory. The task then compares the manager recorded
in the row with the one the directory gives. This project models that core and
proves properties of it:

- **Batching** (`batching.dfy`, `engine.dfy`). `GetBatchData` copies the window
  of rows `[start, min(start + size, n))` into a new table. The loop of `Main`
  asks for windows at `0, b, 2b, …` while the start is below the row count. It
  gives each copy to its own `ProcessBatchData` task.
- **Distinguished-name extraction** (`dn.dfy`, `text.dfy`). The manager id is
  `managerDN.Split(',')[0].Split('=')[1]`: the text after the first `=` of
  the first RDN, up to any next `=`. .NET's `String.Split(char)` is modelled
  with empty segments kept. Indexing a one-field split throws, and that
  exception becomes a `Failure(IndexOutOfRange)` result.
- **Per-row comparison** (`reconcile.dfy`). When the user is found and has a
  non-empty manager id, the program compares ids ignoring case. On a mismatch
  it writes `ManagerIdUpdated` and `ManagerNameUpdated`, plus a verdict
  (`Correct`/`Wrong`) from comparing names ignoring case. An exception in a row
  is caught and leaves that row as it was. Processing goes on with the next row.

The directory is a map from employee id to a `Principal`: the `manager`
attribute (a DN) and the display name. A missing key is a search that found
nobody. `OrdinalIgnoreCase` is modelled as equality after upper-casing ASCII
letters. This approximates .NET's ordinal upper-case mapping, which also folds
non-ASCII letters.

Line 121 splits the id a second time, after line 157 has already extracted it.
The extracted id never contains `,` or `=`. So `[1]` throws whenever line 121
is reached, and no row is ever updated. The model keeps this behaviour as
`ExtractionRule.AsWritten`. `ExtractionRule.ExtractOnce` is the evidently
intended rule, which uses the line-116 id as it is. Every operation takes the
rule as a parameter, and `CompareEmployeeData` (the program as written) uses
`AsWritten`.

The tasks' updates land in the copies that `GetBatchData` makes. They are never
copied back, so `SaveExcelData` writes the loaded table unchanged. The model
reflects this: `ReconcileInBatches` and `CompareEmployeeData` only read `table`
(they have no `modifies` clause), and the processed batches are returned
separately.

## Model

| member | source | states |
|---|---|---|
| Text.EqualsIgnoreCaseIff | Program.cs:122 | ignoring case, two strings are equal exactly when they have the same length and agree character by character after ASCII upper-casing |
| Text.Split | Program.cs:157 | `Split(char)` always yields at least one segment, so `[0]` never fails |
| Text.SplitJoin | Program.cs:157 | joining the segments with the separator gives back the original string |
| Text.JoinSplit | Program.cs:157 | splitting a join of separator-free segments gives back those segments (the inverse direction) |
| Text.SplitSegments | Program.cs:157 | no segment contains the separator |
| Text.SplitCount | Program.cs:157 | there is one segment more than there are separators, so `[1]` exists exactly when the separator occurs |
| DistinguishedName.FirstRdnValue | Program.cs:157 | `dn.Split(',')[0].Split('=')[1]` fails (index out of range) exactly when the first comma segment has no `=`; a result contains neither `,` nor `=` |
| DistinguishedName.GetManagerId | Program.cs:150-161 | an absent or empty `manager` value gives ""; otherwise the first-RDN extraction, failing exactly when the first comma segment has no `=` |
| DistinguishedName.FirstRdnValueOf | Program.cs:157 | for `attr=value` followed by the end, a `,` or another `=` (no separators inside `attr` or `value`), the extraction returns `value` |
| DistinguishedName.ReExtractionFails | Program.cs:121 | extracting again from an extracted id always throws the index-out-of-range exception |
| Batching.GetBatchData | Program.cs:88-96 | the new batch is exactly the source rows `start .. min(start + size, n) - 1`, in order; the source array is only read |
| Batching.StartsAt | Program.cs:56 | the loop's k-th start index is `k * size`, and every start is below the row count |
| Batching.StartsFromBatches | Program.cs:56-58 | there is one batch per start index, and each batch is the window at its start |
| Batching.BatchAt | Program.cs:56-60 | batch k holds exactly rows `k * size .. min((k + 1) * size, n) - 1`; these ranges are disjoint, so no row is in two batches |
| Batching.BatchesFlatten | Program.cs:56-60 | concatenating all batches reproduces the table exactly, in order |
| Batching.BatchSizes | Program.cs:91 | every batch but the last has exactly `size` rows; the last has between 1 and `size` |
| Batching.BatchCount | Program.cs:56-60 | there are ⌈n / size⌉ batches, and none exactly when the table is empty |
| Reconcile.GetManagerName | Program.cs:163-167 | the manager's display name, or "" when no manager is found or it has no display name |
| Reconcile.ReconcileRow | Program.cs:107-131 | only the three computed fields can change; a user not found, or an empty manager id, leaves the row as is; the row fails exactly when an extraction throws; a changed row has a verdict and an updated id that differs from the recorded one ignoring case |
| Reconcile.MismatchUpdates | Program.cs:122-128 | under the intended rule, on an id mismatch the row gets the directory id, the manager's display name ("" if not found) and `Correct` exactly when the names match ignoring case, else `Wrong`; nothing else changes |
| Reconcile.MatchLeavesRow | Program.cs:122 | a compared id equal to the recorded one, ignoring case, leaves every field, the verdict included, untouched |
| Reconcile.AsWrittenLeavesRow | Program.cs:116-121 | as written, no row ever changes: a found user with a non-empty manager id always fails at the second split |
| Reconcile.NextRowIdempotent | Program.cs:105-137 | a second pass over an already processed row, with the same directory, changes nothing |
| Reconcile.ProcessRowsAsWritten | Program.cs:105-137 | as written, a batch comes out of the loop exactly as it went in |
| Reconcile.ProcessRowsAppend | Program.cs:105-137 | processing is row by row: processing a concatenation is concatenating the processed parts |
| Reconcile.ProcessRow | Program.cs:107-136 | the imperative try block yields the row `NextRow` specifies; when it writes nothing, the row is unchanged |
| Reconcile.ProcessBatch | Program.cs:105-137 | the in-place loop leaves each row as `NextRow` of its old value, computed from that row alone |
| Engine.RunBatchTask | Program.cs:98-139 | a task run on its own copy of a batch returns that batch processed row by row |
| Engine.FlattenProcessEach | Program.cs:56-63 | processing batch by batch and concatenating is processing the whole table row by row |
| Engine.ReconcileInBatches | Program.cs:52-63 | the start indices are exactly those of the batching loop (`StartsFrom(n, 0, b)`, which `Batching.StartsAt` shows are `0, b, 2b, …` below n); the task results are the batches of the partition, each processed; concatenated, they are the whole table processed row by row |
| Engine.CompareEmployeeData | Program.cs:52-63 | with batch size 10 and the code as written, there are ⌈n / 10⌉ batches, each returned exactly as the window copied from the table, and together they hold exactly the table's rows, none changed |

## Findings

| source | as written | input that shows it | evidently intended | confidence | as-written member | corrected member |
|---|---|---|---|---|---|---|
| Program.cs:121 | `managerIdAD.Split(',')[0].Split('=')[1]` splits an id that line 157 has already extracted, and that id has no `=` | a found employee whose `manager` is `CN=B456,OU=Staff` and whose recorded ManagerId is `A123`: line 157 gives `B456`, and line 121 throws IndexOutOfRangeException, so the row is never updated | compare the id of line 116 directly | high, not executed | Reconcile.AsWrittenLeavesRow | Reconcile.MismatchUpdates |

## Left out

- Spreadsheet loading (Program.cs:15-46, 77-86) and saving (Program.cs:169-181): file I/O through third-party libraries. Rows arrive as an array of records.
- Active Directory access (Program.cs:49, 141-148, 152): replaced by a map from employee id to the `manager` attribute and display name. Lookup failures (connectivity, duplicate matches, a principal that is not a `UserPrincipal`) are not modelled. The code still looks the manager up before checking whether the id is empty (line 117), but in the model the lookup has no effect.
- `Task.Run`, `Task.WhenAll(...).Wait()` and the task list (Program.cs:54, 59, 63, 100): batches are processed one after another. Each task owns its own copy of the rows, so the order cannot change the results.
- Console output and exception messages (Program.cs:47, 68, 72, 134): logging only.
- `DataTable` schema mechanics: cloning, the result column added at line 103, and whether the `ManagerIdUpdated`/`ManagerNameUpdated` columns exist. Rows are records that have these fields. A missing column would throw, and a `ManagerName` column missing after the first two writes would leave a partly written row. Neither case is modelled.
- `Reconcile.ProcessBatch`: it writes a row's three cells as one record update. The program assigns them one by one, which makes no difference here because nothing between those writes can throw in the model.
- `Batching.GetBatchData`: it takes a non-negative start (`nat`), as its only caller provides. A negative start would make `Rows[i]` throw.
- `Engine.ReconcileInBatches`: it requires a positive batch size. With 0 and at least one row, the loop of `Main` would never end; the program uses 10.
- 32-bit overflow of `startIndex + batchSize` and `i += batchSize`: not modelled. It would need a table with close to 2^31 rows.
- The DN parsing follows the program's plain splitting, not RFC 4514: escaped `,` or `=` (section 2.4 of RFC 4514) and multi-valued RDNs are not understood.
