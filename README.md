# Daily stock data ingestor, modelled in Dafny

The repository keeps a master dataset of daily stock rows, one row per
`(SYMBOL, DATE)` pair. A daily batch file arrives at a fixed location. The
update script `update_data.py` then does the following:

1. It stops at once when there is no batch file.
2. It reads the batch, and the master file when there is one. A missing master counts as empty.
3. It appends the batch rows after the master rows.
4. It drops duplicate `(SYMBOL, DATE)` keys, keeping the **last** row of each key.
5. It writes the result as the new master.
6. Only then does it delete the batch file.

The model has four modules:

- `Wrappers` (`wrappers.dfy`): `Option`, for a file that may not exist.
- `Rows` (`rows.dfy`): the row and key types. A row is a symbol, a date and an opaque payload of other columns. This module also holds the key-level helpers: the key set of a sequence, distinct keys, the last position of a key, and removal of keys.
- `Dedup` (`dedup.dfy`): the merge step as pure functions. `DedupKeepLast` is pandas' `drop_duplicates(keep='last')` on the key columns. `Merge(master, batch)` is `DedupKeepLast(master + batch)`. The module also holds the lemmas that give the step its meaning.
- `Ingestor` (`ingestor.dfy`): the script's control flow.
  - `Ingest` is a function from the two files and the I/O outcome of each step to the new files, the ordered list of changes and a status.
  - `Store` is a class with the `batch` and `master` file fields and a log of changes. Its `Run` method performs the steps in the script's order, and its postcondition ties the result to `Ingest`.

`DedupKeepLast` has a reference definition that uses no recursion, `KeepsLastOf`. It says that:

- every key of the input appears exactly once;
- each row is the input's last row with that key, unaltered;
- rows are ordered by the positions of those last occurrences.

`DedupCharacterization` proves that `DedupKeepLast` is the one and only sequence with these properties.

## Model

| member | source | states |
|---|---|---|
| Rows.LastIndex | update_data.py:26 | gives the position of a key's last row, or -1 exactly when the key is absent; the row there has the key |
| Rows.LastIndexIsLast | update_data.py:26 | no row after `LastIndex(s, k)` has key `k`, so it is the last occurrence |
| Dedup.DedupKeepLast | update_data.py:26 | after dropping duplicates, no two rows share a `(SYMBOL, DATE)` key and the set of keys is unchanged |
| Dedup.Merge | update_data.py:25-26 | the merged master has no duplicate key and holds every key of the old master and of the batch, and no other |
| Dedup.DedupCount | update_data.py:26-27 | the deduplicated length equals the number of distinct keys |
| Dedup.DedupSurvivorsAreLast | update_data.py:26 | each surviving row is, unaltered, the last row of the input with its key |
| Dedup.DedupKeepsOrder | update_data.py:26 | survivors keep the relative order of their last occurrences |
| Dedup.DedupCharacterization | update_data.py:26 | a sequence equals `DedupKeepLast(s)` if and only if it keeps exactly the last row of every key in order (both directions) |
| Dedup.DedupSubsequence | update_data.py:25-26 | the result is a subsequence of the input: nothing is reordered, altered or invented |
| Dedup.DedupIdempotent | update_data.py:26 | deduplicating a sequence without duplicate keys returns it unchanged |
| Dedup.DedupAppend | update_data.py:25-26 | deduplicating `a + b` keeps the survivors of `a` whose keys `b` lacks, followed by the deduplicated `b` |
| Dedup.MergeStructure | update_data.py:25-26 | the new master is the old master's survivors whose key the batch does not hold, in master order, then the deduplicated batch |
| Dedup.MergeCount | update_data.py:25-27 | the new master's length is the number of distinct keys across old master and batch |
| Dedup.MergeBatchWins | update_data.py:25-26 | for a key in the batch, the batch's last row for it survives, beating master rows and earlier batch rows; other keys keep the master's last row |
| Dedup.MergeMasterRowsFirst | update_data.py:25-26 | rows whose key only the master holds all precede rows whose key the batch holds |
| Dedup.MergeRerun | update_data.py:25-26 | merging the same batch again into the merged master changes nothing |
| Ingestor.Ingest | update_data.py:11-33 | a missing batch is a no-op, and only a missing batch is; the run ends `Updated` exactly when there is a batch and no step fails; a failing read, deduplication or write leaves both files unchanged; a failing delete leaves the batch but the merge written; any failure keeps the batch; what is written is the merge, with distinct keys; the batch is removed only after the master was written |
| Ingestor.IngestBootstrap | update_data.py:18-33 | with no master file, a fault-free run creates the master from the deduplicated batch alone and deletes the batch; under any faults, nothing other than that master is ever written |
| Ingestor.IngestRerunSameBatch | update_data.py:11-33 | delivering the same batch again after a successful run leaves the master unchanged |
| Ingestor.IngestRetryAfterRemoveFailure | update_data.py:29-33 | after the master was written but the batch delete failed, a retry writes the same master and then deletes the batch |
| Ingestor.IngestExample | update_data.py:15-33 | a worked case: a master row for AAA on 2024-01-01 is replaced by the batch's row for that key, and BBB is appended |
| Ingestor.Store.Run | update_data.py:11-33 | the files and status after the run are those of `Ingest`, and the change log grows by `Ingest`'s changes in order; deleting the batch implies the merged master was written just before |

## Left out

- The CSV and Parquet formats (`pd.read_csv`, `pd.read_parquet`, `to_parquet`) are not modelled. These are foreign library I/O. Files are optional sequences of rows. A parse failure is a `Faults` flag that makes the run stop unchanged.
- The success or failure of each I/O step is not computed by the model. It comes from the filesystem and the parsers, so it is the `Faults` parameter of the run.
- A missing `SYMBOL` or `DATE` column is not derived from the rows. A `Row` always carries both key fields. The `KeyError` that `drop_duplicates` raises at update_data.py:26 is the `keyColumnsMissing` fault instead. That fault stops the run at the `Deduplicate` stage, after both reads and before the write, with both files unchanged.
- Schema effects of `pd.concat` are not modelled. These include NaN filling when the master and batch have different columns. Dtype coercion of `DATE` is not modelled either: a string from CSV may differ from the stored Parquet type, and pandas treats NaN keys as equal. The key is compared only by plain equality on `(SYMBOL, DATE)`.
- The progress messages (`print`) and the process exit (`exit()`) are not modelled. `Status` records only where a run stopped.
- The effect of a failed `to_parquet` on the master file is not known. The model assumes the old master is left intact. The script does a plain overwrite, not an atomic replace, so a real failure could leave a partially written file. Crash recovery is not modelled.
- The Publisher (per-symbol JSON documents and the symbol index) is not part of this model. Its source is not among the modelled files.
- A design note for this system asks for atomic replacement of the master and names error kinds (`MalformedInputError`, `IOError`). The script has neither. It does a plain `to_parquet` overwrite and lets pandas or the OS raise whatever they raise. The model follows the script: it keeps one `Failed(stage)` status per step.
