# glacsync, modelled in Dafny

glacsync keeps a set of local directories in step with an Amazon Glacier vault. A local
JSON database remembers which archive holds which file. `GlacierSync.sync` works in three steps:

1. It lists the directories and compares them with the database (`DifferRunner` over
   `SimpleDiffer` and `LastModifiedDiffer`).
2. It uploads new files and deletes the archives of files that disappeared.
3. For every file whose local copy is newer, it uploads that copy and then deletes the old
   archive.

`GlacierSync.restoredb` rebuilds the database's file list from a finished vault
inventory job.

The repository ships the module twice:

- `glacsync/glacsync.py` is the newer copy. Its database also holds pending vault jobs.
- The top-level `glacsync.py` is an older copy. Its database holds files only.

## Modules

| file | module | models |
|---|---|---|
| `wrappers.dfy` | `Wrappers` | `Option` and `Result` |
| `records.dfy` | `Records` | `File`, `LocalFile`, `RemoteFile`: identity by path, order by modification time; `set(...)` |
| `changeset.dfy` | `ChangeSet` | `SimpleDiffer`, `LastModifiedDiffer`, `DifferRunner` |
| `database.dfy` | `Database` | `GlacierLocalDatabaseFile` and the job classes |
| `remote.dfy` | `Remote` | the vault, as a log of calls, and `RemoteFilesystem` |
| `plan.dfy` | `Plan` | a `sync` pass as a list of upload/remove steps, and their effect on the database |
| `sync.dfy` | `Sync` | `GlacierSync.sync` and `GlacierSync.restoredb` |
| `outcome.dfy` | `Outcome` | what the database holds after `sync`, and why a second `sync` does nothing |
| `legacy.dfy` | `Legacy` | the older copy: files-only database, its `RemoteFilesystem` and `sync(quiet)` |
| `timestamps.dfy` | `Timestamps` | the resolution of modification times (see Findings) |

### Model choices

**Records.** A record is a `LocalFile` or a `RemoteFile`. Two records are the same file when
their paths agree. A side of the comparison is a `FileSet`, a map from path to record.
`set(listing)` becomes `FromSeq`: records with the same path collapse, and the first one
listed stays. This matches CPython, where adding an element equal to one already present
keeps the old one. So no precondition demands distinct paths.

**Orders and answers.** Python walks a set in an order the model cannot know. Each loop
therefore picks an arbitrary remaining element. `sync` returns the orders it used, and
`Walks` states that each order enumerates its set exactly once. Three things the program
receives from outside become parameters:

- the vault's answers: `idFor` gives the archive id an upload of a path receives, and `poll`
  gives a job's status;
- the directory listing: `local`;
- the clock: `now`.

**State.**
- The vault is a log of the calls made to it.
- `RemoteFilesystem` keeps a ghost journal of vault calls and database rewrites.
- The database file is a ghost snapshot. After each mutating method it equals the state in
  memory (`Saved`).

**Differences between the two copies.**
- The older database has no `pending_jobs` and no `restore_from_amazon`.
- Its `files` property returns the raw entries, and the older `RemoteFilesystem.files` builds
  the `RemoteFile` views itself.
- Its `delete_file` goes through the `files` setter.
- Its `sync(quiet)` has the same three loops. With `quiet=False`, which is how `main.py:53`
  calls it, the third loop's progress line raises (see Findings). `Sync` models the pass
  with that line corrected, and `SyncVerbose` models it as written.

Module `Legacy` reuses every record, differ, step and plan definition of the newer copy.

**Where the code is followed rather than its evident slips.**
- `glacsync/glacsync.py:233` lacks a `:`, so the file does not parse as written. The model
  stores `parse_ts(CreationDate)` as both times, as line 234 does.
- `glacsync/glacsync.py:320` polls an unbound `inventory_job`. The model polls the uuid of
  the job it found.
- `glacsync/glacsync.py:329` calls `restore_from_amazon` on `RemoteFilesystem`, where it is not
  defined. The model calls it on the database, which defines it (228-239).
- `glacsync/test/tests.py:197` compares a `datetime` with an int. The model follows
  `RemoteFile.last_modified` (line 148), which converts the stored integer.
- `glacsync/glacsync.py:233-234` store `parse_ts(CreationDate)`, a `datetime`. The encoder
  patch cannot write a `datetime`, so the `write()` at line 239 fails for a non-empty
  inventory, and `utcfromtimestamp` at line 148 would fail on such a value too. The model
  stores the creation date as integer epoch seconds, which is what `add_file` stores
  (line 220), so a restored database can be written and read back.
- `restoredb` ends by falling off its loop when no inventory job is pending, which returns
  `None`. The model names this outcome `NoInventoryJob`.

## Model

| member | source | states |
|---|---|---|
| Records.Identity | glacsync/glacsync.py:38-42 | two records are the same file iff their paths agree, whatever their kind, time or uuid; the same file hashes alike; identity is transitive |
| Records.NewerIsStrict | glacsync/glacsync.py:35-36 | `>` compares modification times only and is a strict order: irreflexive, asymmetric, transitive |
| Records.RemoteRecordRoundTrip | glacsync/glacsync.py:141-160 | a `RemoteFile` view reads back its entry's path, uuid and both times, and is determined by the entry |
| Records.RemoteRecords | glacsync/glacsync.py:200-203 | the `files` property yields one `RemoteFile` per entry, in order, each reading back exactly its entry |
| Records.FromSeq | glacsync/glacsync.py:90-91 | `set(listing)` files every record under its own path, covers every listed path and keeps only listed records |
| Records.FromSeqKeepsFirst | glacsync/glacsync.py:90-91 | of several records with one path, `set(...)` keeps the first listed |
| Records.FromSeqDistinct | glacsync/glacsync.py:90-91 | with distinct paths nothing collapses: every record is kept and there are as many as listed |
| ChangeSet.Minus | glacsync/glacsync.py:65-66 | a set difference keeps records of the left side only, each under its path |
| ChangeSet.MinusExact | glacsync/glacsync.py:65-66 | `a - b` holds exactly the records of `a` that are the same file as no record of `b` (both directions) |
| ChangeSet.PairsPerPath | glacsync/glacsync.py:68-73 | maybe-modified holds, for each path on both sides, exactly the pair of that path's two records, and nothing else |
| ChangeSet.PathsPartition | glacsync/glacsync.py:65-73 | the paths of new, deleted and maybe-modified files are pairwise disjoint and together are all paths of both sides |
| ChangeSet.SimpleDiffer | glacsync/glacsync.py:63-75 | the nested loops compute the two differences and exactly the same-file pairs |
| ChangeSet.LastModifiedDifferIsStrict | glacsync/glacsync.py:84-85 | a pair is flagged iff the local copy is strictly newer; an older or equally old copy is not flagged; never both ways |
| ChangeSet.FlagsStep | glacsync/glacsync.py:103-107 | asking one more policy flags the pair iff the earlier ones or this one did |
| ChangeSet.DifferRunner | glacsync/glacsync.py:87-110 | the loops over pairs and policies compute `Classify`: the two differences and the maybe-modified pairs some policy flags |
| ChangeSet.ClassifyProperties | glacsync/glacsync.py:100-110 | new and deleted are passed through; modified is a subset of maybe-modified; a shared path's pair is modified iff some policy flags it; no policies, nothing modified |
| ChangeSet.AgainstEmpty | glacsync/glacsync.py:63-75 | against an empty side, everything is new (or deleted) and nothing is maybe-modified |
| ChangeSet.SelfComparison | glacsync/glacsync.py:63-75 | a set compared with itself has nothing new or deleted and one pair per record, of that record with itself |
| Database.DecodeJob | glacsync/glacsync.py:208-209 | an entry decodes iff its tag is `PendingJob` or `RetreiveInvetoryJob`, and then to the job that is stored as that entry |
| Database.JobRoundTrip | glacsync/glacsync.py:246-253 | a job stored by `add_pending_job` decodes back to itself |
| Database.DecodeJobs | glacsync/glacsync.py:205-211 | the jobs enumerate iff every tag is known, one job per entry in order; otherwise it fails, and the `Err` carries an unknown tag (a modelling addition: the source's exception has a fixed message) |
| Database.DecodeAppended | glacsync/glacsync.py:246-253 | a job appended to a readable list reads back last, after the jobs already there |
| Database.DecodedMembers | glacsync/glacsync.py:205-211 | a readable list holds a job exactly when it holds that job's stored entry |
| Database.DeletePendingJobDropsSame | glacsync/glacsync.py:254-257 | deleting a job keeps the list readable and drops exactly the jobs the same as it (by uuid), of either class |
| Database.DecodeWithoutJob | glacsync/glacsync.py:254-257 | after deleting a uuid no job of that uuid is read back |
| Database.WithoutArchive | glacsync/glacsync.py:242 | `delete_file` keeps exactly the entries whose uuid differs |
| Database.WithoutArchiveConcat | glacsync/glacsync.py:242 | the filter works entry by entry, so it keeps the order of what it keeps |
| Database.WithoutAbsentArchive | glacsync/glacsync.py:242 | deleting a uuid no entry carries changes nothing |
| Database.AddThenDeleteFile | glacsync/glacsync.py:217-244 | deleting the fresh uuid just added undoes `add_file` |
| Database.WithoutJob | glacsync/glacsync.py:255 | `delete_pending_job` keeps exactly the jobs whose uuid differs |
| Database.WithoutJobConcat | glacsync/glacsync.py:255 | that filter keeps the order of what it keeps |
| Database.LocalDatabase.constructor | glacsync/glacsync.py:190-198 | opening loads the stored lists, or empty `files` and `pending_jobs` when there is no database file |
| Database.LocalDatabase.Files | glacsync/glacsync.py:200-203 | one `RemoteFile` view per entry, reading back that entry |
| Database.LocalDatabase.Write | glacsync/glacsync.py:213-215 | afterwards the file holds exactly the state in memory |
| Database.LocalDatabase.AddFile | glacsync/glacsync.py:217-227 | one entry `{path, last_modified, uploaded_at = now, uuid}` appended at the end; earlier entries and jobs unchanged; written |
| Database.LocalDatabase.RestoreFromAmazon | glacsync/glacsync.py:228-239 | `files` becomes one entry per archive, in order, with path from the description and uuid from the archive id; jobs unchanged; written |
| Database.LocalDatabase.DeleteFile | glacsync/glacsync.py:241-244 | `files` keeps exactly the entries with another uuid, in order; jobs unchanged; written |
| Database.LocalDatabase.AddPendingJob | glacsync/glacsync.py:246-253 | one job entry appended; `files` unchanged; written |
| Database.LocalDatabase.DeletePendingJob | glacsync/glacsync.py:254-257 | the jobs with another uuid kept, in order; `files` unchanged; written |
| Database.AddedJobReadsBack | glacsync/glacsync.py:197-211 | a fresh database with one added job reads back exactly that job and no files |
| Database.UnknownJobTypeFails | glacsync/glacsync.py:208-211 | an entry with an unknown class name makes enumeration fail; the model's `Err` names it, where the source's message does not |
| Remote.Vault.CreateArchive | glacsync/glacsync.py:173 | the upload is logged and answered with the id the vault gives |
| Remote.Vault.DeleteArchive | glacsync/glacsync.py:182 | the deletion is logged |
| Remote.Vault.GetJob | glacsync/glacsync.py:320 | the poll is logged |
| Remote.RemoteFilesystem.constructor | glacsync/glacsync.py:163-166 | holds the database and the vault, with an empty journal |
| Remote.RemoteFilesystem.Files | glacsync/glacsync.py:168-170 | the database's records, one per entry |
| Remote.RemoteFilesystem.UploadFile | glacsync/glacsync.py:172-179 | one vault upload, then one entry appended under the answered id and the database written; journal: the call, then the save |
| Remote.RemoteFilesystem.DeleteFile | glacsync/glacsync.py:181-184 | one vault deletion, then the entries of that uuid dropped and the database written; journal: the call, then the save |
| Plan.Extend | glacsync/glacsync.py:300-314 | one more step changes the database, the vault log and the journal by exactly that step |
| Plan.ExecuteConcat | glacsync/glacsync.py:300-314 | two runs of steps one after the other are the run of their concatenation |
| Plan.JournalAlternates | glacsync/glacsync.py:172-184 | every vault call is followed at once by a database write that holds the effect of every step up to that call |
| Plan.JournalAt | glacsync/glacsync.py:172-184 | the two events of the step at `k`: its vault call, then the file list after it |
| Plan.Replacements | glacsync/glacsync.py:310-314 | a modified pair makes exactly two steps |
| Plan.ReplacementOrder | glacsync/glacsync.py:313-314 | each pair's upload is at an even place and its archive's removal right after it |
| Plan.ReplacementAt | glacsync/glacsync.py:313-314 | an even step of the third loop is an upload and an odd step a removal, of the same pair |
| Plan.Keep | glacsync/glacsync.py:242 | keeps exactly the entries whose uuid is not among the ids |
| Plan.KeepMore | glacsync/glacsync.py:242 | deleting one more uuid is filtering by one more id |
| Plan.UploadEntries | glacsync/glacsync.py:217-225 | exactly the entries the uploads of a plan add |
| Plan.ExecuteClosedForm | glacsync/glacsync.py:217-244 | when no step deletes an archive a step created, the result is the surviving original entries in order, then one entry per upload in order |
| Sync.EnumeratesSize | glacsync/glacsync.py:300-314 | a walk of a set takes as many steps as the set has elements |
| Sync.DifferencesAreArchived | glacsync/glacsync.py:296-314 | what `sync` deletes and the archived halves of what it replaces are `RemoteFile`s |
| Sync.StopIndex | glacsync/glacsync.py:316-319 | the lazy walk over `pending_jobs` passes only plain pending jobs and stops at the first entry that is not one |
| Sync.StopIndexPrefix | glacsync/glacsync.py:316-319 | entries after the stop cannot change where the walk stops |
| Sync.StopIndexAppended | glacsync/glacsync.py:316-319 | an inventory job added after plain jobs is where the walk stops |
| Sync.StopIndexDecoded | glacsync/glacsync.py:316-319 | a stop at an unknown tag means the list does not decode; if it decodes, the jobs before the stop are plain and the stop is the inventory job |
| Sync.LazyDecoding | glacsync/glacsync.py:205-211 | an inventory job ahead of an unknown tag is found although the whole list fails to decode |
| Sync.GlacierSync.constructor | glacsync/glacsync.py:286-291 | opens the database as stored and connects to a vault with no calls yet |
| Sync.GlacierSync.UploadNew | glacsync/glacsync.py:300-303 | walks the new files once each and performs exactly one upload per file in that order |
| Sync.GlacierSync.RemoveDeleted | glacsync/glacsync.py:305-308 | walks the deleted files once each and performs exactly one removal per archive in that order |
| Sync.GlacierSync.ReplacePair | glacsync/glacsync.py:313-314 | uploads the local copy, then removes the old archive |
| Sync.GlacierSync.ReplaceModified | glacsync/glacsync.py:310-314 | walks the modified pairs once each and performs upload-then-removal for each |
| Sync.GlacierSync.Sync | glacsync/glacsync.py:295-314 | compares the listing with the database using the modification-time policy; the database, vault log and journal are then exactly the effect of the new uploads, the removals and the replacements, in that order; jobs untouched |
| Sync.GlacierSync.RestoreDb | glacsync/glacsync.py:316-334 | at the first non-plain job: an unknown tag fails and changes nothing; an inventory job is polled; if unfinished: `False`, files unchanged; if finished: `True` and `files` is one entry per inventory archive; no inventory job: nothing changes; the stored file is untouched whenever `files` is; jobs never change |
| Outcome.UploadPhase | glacsync/glacsync.py:300-303 | the first loop appends one entry per new file, in walk order |
| Outcome.RemovalPhase | glacsync/glacsync.py:305-308 | the second loop drops exactly the deleted archives |
| Outcome.ReplacementPhase | glacsync/glacsync.py:310-314 | the third loop drops the replaced archives and appends one entry per local copy |
| Outcome.SyncClosedForm | glacsync/glacsync.py:295-314 | with fresh archive ids: surviving old entries in order, then new files' entries, then replaced files' entries |
| Outcome.FlagsNewer | glacsync/glacsync.py:103-107 | with the modification-time policy alone, a pair is modified iff the local copy is newer |
| Outcome.WalkNew | glacsync/glacsync.py:300 | the new files walked are exactly the listed records with no archive |
| Outcome.WalkGone | glacsync/glacsync.py:305 | the deleted files walked are exactly the archived records no longer listed |
| Outcome.WalkChanged | glacsync/glacsync.py:310 | the modified pairs walked are exactly the listed records newer than their archive, paired with it |
| Outcome.RemovedExactly | glacsync/glacsync.py:305-314 | for a database with one entry per path and per uuid: an entry's archive is deleted iff its path is no longer listed or its listed copy is newer |
| Outcome.KeptEntries | glacsync/glacsync.py:295-314 | for a database with one entry per path and per uuid: the entries `sync` keeps are exactly the old entries of listed paths whose copy is not newer |
| Outcome.SyncResult | glacsync/glacsync.py:295-314 | for the orders `sync` walks: kept entries, then the new files' entries, then the replaced files' entries |
| Outcome.SyncEntriesSound | glacsync/glacsync.py:295-314 | every entry afterwards belongs to a listed path and is its expected entry: the old archive if not newer, else a fresh upload |
| Outcome.SyncEntriesComplete | glacsync/glacsync.py:295-314 | every listed path has its expected entry afterwards |
| Outcome.SyncDistinctPaths | glacsync/glacsync.py:295-314 | a database with one entry per path keeps one entry per path |
| Outcome.SyncDistinctUuids | glacsync/glacsync.py:295-314 | with distinct ids for distinct paths, one entry per archive is kept |
| Outcome.ExpectedPath | glacsync/glacsync.py:217-221 | the expected entry of a path is filed under it and is not older than the listed copy |
| Outcome.SyncedSides | glacsync/glacsync.py:295-314 | afterwards the archived side lists exactly the listed paths, none older than its local copy |
| Outcome.SyncConverges | glacsync/glacsync.py:295-314 | right after `sync`, the differences against the same listing are empty |
| Outcome.SyncTwice | glacsync/glacsync.py:295-314 | two passes over the same listing: the second walks nothing, so the vault log and the database are what the first left |
| Legacy.LegacyDatabase.constructor | glacsync.py:183-191 | opening loads the stored list, or an empty one when there is no file |
| Legacy.LegacyDatabase.Write | glacsync.py:201-203 | afterwards the file holds exactly the list in memory |
| Legacy.LegacyDatabase.SetFiles | glacsync.py:197-199 | the setter replaces the list |
| Legacy.LegacyDatabase.AddFile | glacsync.py:205-215 | one entry appended at the end, nothing else changes; written |
| Legacy.LegacyDatabase.DeleteFile | glacsync.py:217-220 | exactly the entries with another uuid kept, in order; written |
| Legacy.LegacyRemoteFilesystem.constructor | glacsync.py:158-161 | holds the database and the vault; the journal is empty |
| Legacy.LegacyRemoteFilesystem.Files | glacsync.py:163-166 | one `RemoteFile` view built per entry, in order |
| Legacy.LegacyRemoteFilesystem.UploadFile | glacsync.py:168-175 | one vault upload, then the entry appended under the answered id and written; the journal gains the call, then the save of the new list |
| Legacy.LegacyRemoteFilesystem.DeleteFile | glacsync.py:177-180 | one vault deletion, then exactly the entries of other uuids kept, in order, and written; the journal gains the call, then the save of the new list |
| Legacy.LegacyGlacierSync.constructor | glacsync.py:235-240 | opens the database as stored, with a vault that has no calls yet |
| Legacy.LegacyGlacierSync.UploadNew | glacsync.py:247-250 | one upload per new file, each once; entries, log and journal are that plan's effect |
| Legacy.LegacyGlacierSync.RemoveDeleted | glacsync.py:252-255 | one removal per deleted archive, each once; entries, log and journal are that plan's effect |
| Legacy.LegacyGlacierSync.ReplacePair | glacsync.py:260-261 | the local copy uploaded, then the old archive removed; entries, log and journal are that plan's effect |
| Legacy.LegacyGlacierSync.ReplaceModified | glacsync.py:257-261 | upload-then-removal for each modified pair, each once; entries, log and journal are that plan's effect |
| Legacy.LegacyGlacierSync.SyncVerbose | glacsync.py:242-259 | `sync(quiet=False)` as written: each new file uploaded and each deleted archive removed, each once, with that plan's exact effect; the pass aborts, with no replacement, iff some pair is modified |
| Legacy.VerboseSkipsModified | glacsync.py:257-261 | one archived file modified since: nothing is new or deleted, so the aborted pass leaves the database as it was, where the corrected pass replaces the stale entry |
| Legacy.LegacyGlacierSync.Sync | glacsync.py:242-261 | with the third progress line corrected: the same plan as the newer `sync`, over the files-only database: entries, vault log and journal are exactly that plan's effect, so every vault call is followed at once by its database write |
| Timestamps.StoredSeconds | glacsync/glacsync.py:220 | `timegm(...timetuple())` keeps the whole second the time falls in |
| Timestamps.AsWrittenFlagsUnchanged | glacsync/glacsync.py:146-148 | as written, a file unchanged since its upload is flagged iff its time has a fraction of a second |
| Timestamps.ReuploadsUnchangedFile | glacsync/glacsync.py:118-120 | a file modified at 1403701810.5 s and untouched since is flagged again |
| Timestamps.CorrectedComparison | glacsync/glacsync.py:84-85 | compared at the stored resolution, an unchanged file is never flagged, a file changed in a later second always is, and a flagged file did change |
| Timestamps.ListedRecord | glacsync/glacsync.py:112-120 | the corrected listing, not the source's (which keeps the fraction): a local record of the path whose time is the whole second the listed time falls in |
| Timestamps.ModelComparesCorrected | glacsync/glacsync.py:217-221 | the modification-time policy of the rest of the model is the corrected comparison |

## Left out

- **The vault.** Network calls to Amazon Glacier (`Layer2`, `get_vault`, uploads,
  deletions, `get_job`, `get_output`) become a log of calls. Their answers are parameters:
  `idFor` for archive ids and `poll` for a job's status and inventory. Vault errors and
  exceptions are not modelled.
- **The listing.** `LocalFilesystem.files` (`os.listdir`, `os.path.isfile`) becomes the given
  `local` sequence of records.
- **Modification times.** `os.path.getmtime` is left out. A record's time is the stored
  epoch second; how sub-second times compare is in Findings.
- **datetime conversions.**
  - datetime, `timegm` and time zones are replaced by integer epoch seconds.
    `datetime.fromtimestamp` gives the local wall-clock reading, and `timegm` stores that
    reading as if it were UTC. `utcfromtimestamp` reads it back unchanged, so both sides of
    every comparison are local wall-clock readings. The model compares them as plain
    numbers and does not capture that wall-clock readings are not monotone: after a
    daylight-saving fall-back, a file modified later can carry an earlier reading.
  - The encoder patch in `glacsync/__init__.py` and `PendingJob.to_JSON` are not part of this
    model. The patch serialises only objects whose class has `to_JSON`; anything else goes to
    the original `JSONEncoder.default`, which raises `TypeError`.
- **JSON.**
  - The reading and writing of the database file are a ghost snapshot.
  - A malformed database file, and IO errors other than a missing file, are not modelled.
  - The newer copy opening a database written by the older one is not modelled. That file
    has no `pending_jobs` key, which the newer enumeration does not handle.
- **The clock.** It is one `now` per `sync` pass. The source reads `datetime.now()` at each
  `add_file`.
- **Job records.** The `globals()` class lookup is replaced by the closed set of two tags.
  A job is its uuid and its class; other fields a stored job may carry
  (`self.__dict__.update`) are not modelled.
- **Printing and the CLI.** `print` output (`print_status`, `quiet`) and `__repr__` strings
  are left out. So are the command line, configuration and packaging
  (`main.py`, `setup.py`), and `delayed_delete` with `GlacierDelayedDeleteFile`, an
  unimplemented stub.
- **Policies.** `Differ` is any function value. `sync` uses only `LastModifiedDiffer`, as
  the source does.
- Outcome.SyncClosedForm, Outcome.SyncResult, Outcome.SyncEntriesSound, Outcome.SyncEntriesComplete, Outcome.SyncDistinctPaths, Outcome.SyncedSides, Outcome.SyncConverges, Outcome.SyncTwice: these require the vault to answer each upload with an archive id the database does not already hold (`FreshIds`), and a database with one entry per path and per uuid. Outcome.SyncDistinctUuids additionally requires distinct ids for distinct paths (`Injective`). Only the id conditions rest on Glacier. One entry per path holds for a database built by `sync` from empty (Outcome.SyncDistinctPaths preserves it). It need not hold after `restore_from_amazon` (glacsync/glacsync.py:228-239), which imports every archive of the inventory: a pass interrupted between the upload at line 313 and the deletion at line 314 leaves two archives with one description. These lemmas say nothing about such a database.
- Outcome.RemovedExactly, Outcome.KeptEntries: these require a database with one entry per path and per uuid, for the same reason and with the same gap after a restore.
- Legacy.LegacyGlacierSync.Sync, Legacy.LegacyGlacierSync.ReplaceModified: these model the older pass with the third loop's progress line corrected. As written, `quiet=False` aborts that pass at the first modified pair; Legacy.LegacyGlacierSync.SyncVerbose models that (see Findings).
- Database.DecodeJobs, Database.UnknownJobTypeFails, Sync.GlacierSync.RestoreDb: the unknown tag in `Err(tag)` and in `InvalidJobType(tag)` is a modelling addition. The source raises `InvalidJobTypeException` with a fixed message (glacsync/glacsync.py:211).
- Sync.GlacierSync.Sync, Legacy.LegacyGlacierSync.Sync: the order in which each set is walked is existential (`Walks`), not CPython's hash order.
- Older `RemoteFile`: it has no `uploaded_at` accessor (glacsync.py:139-155). The shared record keeps that field; the older code never reads it.

## Findings

| source | as written | input that shows it | evidently intended | confidence | as-written member | corrected member |
|---|---|---|---|---|---|---|
| glacsync/glacsync.py:35-36, 119-120, 147-148, 220 (also glacsync.py:34-35, 119, 147, 208) | `LastModifiedDiffer` compares the listed time, which keeps its fraction of a second (`datetime.fromtimestamp(getmtime(...))`), with the archived time, which is the whole second `timegm(...timetuple())` stored | a file with modification time 1403701810.5 s, uploaded and not modified since: it is stored as 1403701810, and 1403701810.5 > 1403701810, so every `sync` uploads it again and deletes the previous archive | compare at the resolution the database keeps: the listed time's whole second against the stored second | not executed; holds wherever the filesystem reports sub-second modification times | Timestamps.NewerAsWritten, with Timestamps.ReuploadsUnchangedFile and Timestamps.AsWrittenFlagsUnchanged | Timestamps.NewerCorrected, with Timestamps.CorrectedComparison and Timestamps.ModelComparesCorrected; records elsewhere in the model carry whole seconds |
| glacsync.py:257-259 (called with `quiet=False` at main.py:53) | the third loop prints `'File has changed: %s' % curr_file`, where `curr_file` is a `(local, remote)` pair: a 2-tuple against one `%s` raises `TypeError`, so the pass stops at the first modified pair, before its upload | an archived file modified since its upload, with `quiet=False`: the first two loops finish, then the pass raises and the file is never replaced, on every run | print the local copy, `curr_file[0]`, as the newer copy does at glacsync/glacsync.py:311 | not executed; reading of Python 2 `%` formatting | Legacy.LegacyGlacierSync.SyncVerbose, with Legacy.VerboseSkipsModified | Legacy.LegacyGlacierSync.Sync |
