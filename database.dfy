/**
 * The local metadata database `GlacierLocalDatabaseFile` (glacsync/glacsync.py:186-278):
 * an ordered `files` list and an ordered `pending_jobs` list, rewritten to the database
 * file after every change. The file itself is a ghost snapshot.
 */
module Database {
  import opened Wrappers
  import opened Records

  /** One entry of `pending_jobs`: its `__job_type` tag and the job's uuid. */
  datatype JobEntry = JobEntry(jobType: string, uuid: Uuid)

  /** The job kinds a database may hold; jobs are identified by uuid. */
  datatype Job = PendingJob(uuid: Uuid) | RetrieveInventoryJob(uuid: Uuid)

  /** The class names the `__job_type` tag may carry (glacsync/glacsync.py:259, 277). */
  const PendingJobTag: string := "PendingJob"
  const InventoryJobTag: string := "RetreiveInvetoryJob"

  predicate KnownJobType(t: string) {
    t == PendingJobTag || t == InventoryJobTag
  }

  /** The class name `add_pending_job` stores for a job. */
  function JobType(j: Job): string {
    match j
    case PendingJob(_) => PendingJobTag
    case RetrieveInventoryJob(_) => InventoryJobTag
  }

  /** The entry `add_pending_job` stores for a job. */
  function JobEntryOf(j: Job): JobEntry {
    JobEntry(JobType(j), j.uuid)
  }

  /** The job an entry stands for, when its tag names an accepted kind (glacsync/glacsync.py:208-211). */
  function DecodeJob(e: JobEntry): (r: Option<Job>)
    ensures r.Some? <==> KnownJobType(e.jobType)
    ensures r.Some? ==> JobEntryOf(r.value) == e
  {
    if e.jobType == PendingJobTag then Some(PendingJob(e.uuid))
    else if e.jobType == InventoryJobTag then Some(RetrieveInventoryJob(e.uuid))
    else None
  }

  /** A job stored by `add_pending_job` reads back as the same job. */
  lemma JobRoundTrip(j: Job)
    ensures DecodeJob(JobEntryOf(j)) == Some(j)
  {
  }

  /**
   * Enumerating the `pending_jobs` property to the end: every job in order, or, when an
   * entry's tag is not an accepted kind, `InvalidJobTypeException` carrying that tag.
   */
  function DecodeJobs(entries: seq<JobEntry>): (r: Result<seq<Job>, string>)
    ensures r.Ok? <==> forall i :: 0 <= i < |entries| ==> KnownJobType(entries[i].jobType)
    ensures r.Ok? ==> (|r.value| == |entries| &&
      forall i :: 0 <= i < |entries| ==> JobEntryOf(r.value[i]) == entries[i])
    ensures r.Err? ==> !KnownJobType(r.error)
  {
    if entries == [] then Ok([])
    else match DecodeJob(entries[0])
      case None => Err(entries[0].jobType)
      case Some(j) =>
        match DecodeJobs(entries[1..])
        case Err(t) => Err(t)
        case Ok(rest) => Ok([j] + rest)
  }

  /** A job appended to a readable list reads back last, after the jobs already there. */
  lemma {:induction false} DecodeAppended(entries: seq<JobEntry>, j: Job)
    requires DecodeJobs(entries).Ok?
    ensures DecodeJobs(entries + [JobEntryOf(j)]) == Ok(DecodeJobs(entries).value + [j])
  {
    if entries != [] {
      var longer := entries + [JobEntryOf(j)];
      assert longer[0] == entries[0] && longer[1..] == entries[1..] + [JobEntryOf(j)];
      DecodeAppended(entries[1..], j);
      var first := DecodeJob(entries[0]).value;
      var rest := DecodeJobs(entries[1..]).value;
      assert DecodeJobs(entries).value == [first] + rest;
      assert DecodeJobs(longer) == Ok([first] + (rest + [j]));
      assert [first] + (rest + [j]) == ([first] + rest) + [j];
    } else {
      JobRoundTrip(j);
      assert entries + [JobEntryOf(j)] == [JobEntryOf(j)];
      assert [JobEntryOf(j)][1..] == [];
      assert DecodeJobs([]) == Ok([]);
      assert DecodeJobs([JobEntryOf(j)]) == Ok([j] + []);
      assert [j] + [] == [] + [j];
    }
  }

  /** The whole content of the database file. */
  datatype Snapshot = Snapshot(files: seq<FileEntry>, pendingJobs: seq<JobEntry>)

  /** What opening the database yields: the stored content, or empty lists when there is no file yet. */
  function Load(stored: Option<Snapshot>): Snapshot {
    match stored
    case None => Snapshot([], [])
    case Some(s) => s
  }

  /** The entry `add_file` appends for a record uploaded as `uuid` at time `now`. */
  function UploadEntry(file: FileRecord, uuid: Uuid, now: int): FileEntry {
    FileEntry(file.path, file.lastModified, now, uuid)
  }

  /** The list `delete_file` keeps: the entries whose uuid differs, in their order. */
  function WithoutArchive(files: seq<FileEntry>, uuid: Uuid): (r: seq<FileEntry>)
    ensures forall e :: e in r <==> e in files && e.uuid != uuid
    ensures |r| <= |files|
  {
    if files == [] then []
    else (if files[0].uuid == uuid then [] else [files[0]]) + WithoutArchive(files[1..], uuid)
  }

  /** Deleting works entry by entry: it keeps the order of what it keeps. */
  lemma {:induction false} WithoutArchiveConcat(a: seq<FileEntry>, b: seq<FileEntry>, uuid: Uuid)
    ensures WithoutArchive(a + b, uuid) == WithoutArchive(a, uuid) + WithoutArchive(b, uuid)
  {
    if a == [] {
      assert a + b == b;
    } else {
      assert (a + b)[1..] == a[1..] + b;
      WithoutArchiveConcat(a[1..], b, uuid);
    }
  }

  /** Deleting a uuid no entry carries changes nothing. */
  lemma {:induction false} WithoutAbsentArchive(files: seq<FileEntry>, uuid: Uuid)
    requires forall e :: e in files ==> e.uuid != uuid
    ensures WithoutArchive(files, uuid) == files
  {
    if files != [] {
      WithoutAbsentArchive(files[1..], uuid);
    }
  }

  /** Deleting the uuid just added, when it is new, undoes the addition. */
  lemma AddThenDeleteFile(files: seq<FileEntry>, e: FileEntry)
    requires forall x :: x in files ==> x.uuid != e.uuid
    ensures WithoutArchive(files + [e], e.uuid) == files
  {
    WithoutArchiveConcat(files, [e], e.uuid);
    WithoutAbsentArchive(files, e.uuid);
    assert WithoutArchive([e], e.uuid) == [];
  }

  /** The list `delete_pending_job` keeps: the entries whose uuid differs, in their order. */
  function WithoutJob(jobs: seq<JobEntry>, uuid: Uuid): (r: seq<JobEntry>)
    ensures forall e :: e in r <==> e in jobs && e.uuid != uuid
    ensures |r| <= |jobs|
  {
    if jobs == [] then []
    else (if jobs[0].uuid == uuid then [] else [jobs[0]]) + WithoutJob(jobs[1..], uuid)
  }

  /** Deleting a job keeps the order of the jobs it keeps. */
  lemma {:induction false} WithoutJobConcat(a: seq<JobEntry>, b: seq<JobEntry>, uuid: Uuid)
    ensures WithoutJob(a + b, uuid) == WithoutJob(a, uuid) + WithoutJob(b, uuid)
  {
    if a == [] {
      assert a + b == b;
    } else {
      assert (a + b)[1..] == a[1..] + b;
      WithoutJobConcat(a[1..], b, uuid);
    }
  }

  /** Deleting a job keeps a readable list readable, and no job of that uuid is read back. */
  lemma {:induction false} DecodeWithoutJob(jobs: seq<JobEntry>, uuid: Uuid)
    requires DecodeJobs(jobs).Ok?
    ensures DecodeJobs(WithoutJob(jobs, uuid)).Ok?
    ensures forall j :: j in DecodeJobs(WithoutJob(jobs, uuid)).value ==> j.uuid != uuid
  {
    var kept := WithoutJob(jobs, uuid);
    forall i | 0 <= i < |kept| ensures KnownJobType(kept[i].jobType) {
      assert kept[i] in jobs;
    }
    var js := DecodeJobs(kept).value;
    forall j | j in js ensures j.uuid != uuid {
      var i :| 0 <= i < |js| && js[i] == j;
      assert JobEntryOf(j) == kept[i];
      assert kept[i] in kept;
    }
  }

  /** `PendingJob.__eq__`: jobs are the same when their uuids are, whatever their class. */
  predicate SameJob(a: Job, b: Job) {
    a.uuid == b.uuid
  }

  /** A list that decodes holds a job exactly when it holds the entry `add_pending_job` stores for it. */
  lemma DecodedMembers(entries: seq<JobEntry>)
    requires DecodeJobs(entries).Ok?
    ensures forall j :: j in DecodeJobs(entries).value <==> JobEntryOf(j) in entries
  {
    var js := DecodeJobs(entries).value;
    forall j | JobEntryOf(j) in entries ensures j in js {
      var i :| 0 <= i < |entries| && entries[i] == JobEntryOf(j);
      JobRoundTrip(j);
      JobRoundTrip(js[i]);
      assert JobEntryOf(js[i]) == JobEntryOf(j);
    }
  }

  /** `delete_pending_job(job)` drops exactly the jobs that are the same as `job`, of either class. */
  lemma DeletePendingJobDropsSame(jobs: seq<JobEntry>, job: Job)
    requires DecodeJobs(jobs).Ok?
    ensures DecodeJobs(WithoutJob(jobs, job.uuid)).Ok?
    ensures forall j :: j in DecodeJobs(WithoutJob(jobs, job.uuid)).value <==>
      j in DecodeJobs(jobs).value && !SameJob(j, job)
  {
    DecodeWithoutJob(jobs, job.uuid);
    DecodedMembers(jobs);
    DecodedMembers(WithoutJob(jobs, job.uuid));
  }

  /** One element of an inventory's `ArchiveList`. */
  datatype Archive = Archive(archiveId: Uuid, description: string, creationDate: int)

  /** The entry `restore_from_amazon` builds for an archive: its description is the path. */
  function ArchiveEntry(a: Archive): FileEntry {
    FileEntry(a.description, a.creationDate, a.creationDate, a.archiveId)
  }

  class LocalDatabase {
    var files: seq<FileEntry>
    var pendingJobs: seq<JobEntry>
    /** The content of the database file; `None` while there is none. */
    ghost var persisted: Option<Snapshot>

    function State(): Snapshot
      reads this
    {
      Snapshot(files, pendingJobs)
    }

    /** Opening the database file again would give back the state in memory. */
    ghost predicate Valid()
      reads this
    {
      Load(persisted) == State()
    }

    /** The database file holds exactly the state in memory. */
    ghost predicate Saved()
      reads this
    {
      persisted == Some(State())
    }

    /** Opens the database; `stored` is the file's content, `None` when the file is missing. */
    constructor (stored: Option<Snapshot>)
      ensures persisted == stored && State() == Load(stored) && Valid()
      ensures stored.None? ==> files == [] && pendingJobs == []
    {
      match stored {
        case None =>
          files, pendingJobs := [], [];
        case Some(s) =>
          files, pendingJobs := s.files, s.pendingJobs;
      }
      persisted := stored;
    }

    /** The `files` property: the `RemoteFile` view of every entry, in order. */
    function Files(): (r: seq<FileRecord>)
      reads this
      ensures |r| == |files|
      ensures forall i :: 0 <= i < |r| ==> r[i].RemoteFile? && EntryOf(r[i]) == files[i]
    {
      RemoteRecords(files)
    }

    /** The `pending_jobs` property, enumerated to the end. */
    function PendingJobs(): Result<seq<Job>, string>
      reads this
    {
      DecodeJobs(pendingJobs)
    }

    /** `write`: the whole state replaces the database file. */
    method Write()
      modifies this`persisted
      ensures Saved() && Valid()
    {
      persisted := Some(State());
    }

    /** `add_file`: one entry at the end of `files`; nothing else changes. */
    method AddFile(file: FileRecord, uuid: Uuid, now: int)
      modifies this
      ensures files == old(files) + [UploadEntry(file, uuid, now)]
      ensures pendingJobs == old(pendingJobs)
      ensures Saved() && Valid()
    {
      files := files + [UploadEntry(file, uuid, now)];
      Write();
    }

    /** `restore_from_amazon`: `files` becomes one entry per archive, in order. */
    method RestoreFromAmazon(archives: seq<Archive>)
      modifies this
      ensures |files| == |archives| && forall i :: 0 <= i < |archives| ==> files[i] == ArchiveEntry(archives[i])
      ensures pendingJobs == old(pendingJobs)
      ensures Saved() && Valid()
    {
      files := [];
      var i := 0;
      while i < |archives|
        invariant 0 <= i <= |archives|
        invariant |files| == i && forall k :: 0 <= k < i ==> files[k] == ArchiveEntry(archives[k])
        invariant pendingJobs == old(pendingJobs)
      {
        files := files + [ArchiveEntry(archives[i])];
        i := i + 1;
      }
      Write();
    }

    /** `delete_file`: keeps the entries whose uuid is not `uuid`. */
    method DeleteFile(uuid: Uuid)
      modifies this
      ensures files == WithoutArchive(old(files), uuid)
      ensures pendingJobs == old(pendingJobs)
      ensures Saved() && Valid()
    {
      files := WithoutArchive(files, uuid);
      Write();
    }

    /** `add_pending_job`: a job of class `jobType` appended to `pending_jobs`. */
    method AddPendingJob(jobType: string, uuid: Uuid)
      modifies this
      ensures pendingJobs == old(pendingJobs) + [JobEntry(jobType, uuid)]
      ensures files == old(files)
      ensures Saved() && Valid()
    {
      pendingJobs := pendingJobs + [JobEntry(jobType, uuid)];
      Write();
    }

    /** `delete_pending_job`: keeps the jobs whose uuid is not `uuid`. */
    method DeletePendingJob(uuid: Uuid)
      modifies this
      ensures pendingJobs == WithoutJob(old(pendingJobs), uuid)
      ensures files == old(files)
      ensures Saved() && Valid()
    {
      pendingJobs := WithoutJob(pendingJobs, uuid);
      Write();
    }
  }

  /** Opening a missing database, adding a job and reading the jobs back gives that job. */
  method AddedJobReadsBack(j: Job) returns (db: LocalDatabase)
    ensures db.PendingJobs() == Ok([j]) && db.files == []
  {
    db := new LocalDatabase(None);
    db.AddPendingJob(JobType(j), j.uuid);
    DecodeAppended([], j);
    assert db.pendingJobs == [] + [JobEntryOf(j)];
    assert [] + [j] == [j];
  }

  /** An entry whose tag is no accepted class name makes enumerating the jobs fail with that tag. */
  method UnknownJobTypeFails(tag: string, uuid: Uuid) returns (db: LocalDatabase)
    requires !KnownJobType(tag)
    ensures db.PendingJobs() == Err(tag)
  {
    db := new LocalDatabase(None);
    db.AddPendingJob(tag, uuid);
  }
}
