/**
 * `GlacierSync` (glacsync/glacsync.py:280-334): `sync` compares a directory listing with
 * the database and uploads, removes and replaces archives; `restoredb` rebuilds the
 * database's file list from a finished vault inventory job.
 */
module Sync {
  import opened Wrappers
  import opened Records
  import opened ChangeSet
  import opened Database
  import opened Remote
  import opened Plan

  /** `xs` walks the set `s`: every element once, nothing else. */
  ghost predicate Enumerates<T(!new)>(xs: seq<T>, s: set<T>) {
    && (forall i, j :: 0 <= i < j < |xs| ==> xs[i] != xs[j])
    && (forall x :: x in xs <==> x in s)
  }

  /** Walking one more element of what remains. */
  lemma EnumeratesExtend<T(!new)>(xs: seq<T>, s: set<T>, todo: set<T>, x: T)
    requires todo <= s && x in todo && Enumerates(xs, s - todo)
    ensures Enumerates(xs + [x], s - (todo - {x}))
  {
    assert forall y :: y in xs + [x] <==> y in xs || y == x;
  }

  /** A walk takes as many steps as the set has elements. */
  lemma {:induction false} EnumeratesSize<T(!new)>(xs: seq<T>, s: set<T>)
    requires Enumerates(xs, s)
    ensures |xs| == |s|
    decreases |xs|
  {
    if xs == [] {
      assert s == {};
    } else {
      var x, init := xs[|xs| - 1], xs[..|xs| - 1];
      assert x in s;
      forall y | y in init ensures y in s - {x} {
        var i :| 0 <= i < |init| && init[i] == y;
        assert xs[i] == y && xs[i] != xs[|xs| - 1];
      }
      forall y | y in s - {x} ensures y in init {
        var i :| 0 <= i < |xs| && xs[i] == y;
        assert i != |xs| - 1;
        assert init[i] == y;
      }
      EnumeratesSize(init, s - {x});
    }
  }

  /** What `sync` acts on: the listing against the database's records, with the modification-time policy only. */
  ghost function SyncDifferences(local: seq<FileRecord>, files: seq<FileEntry>): Differences {
    Classify(local, RemoteRecords(files), [LastModifiedDiffer])
  }

  /**
   * The orders `sync` may walk the three sets of `SyncDifferences(local, files)` in; the
   * records deleted and the archived halves of replaced pairs are `RemoteFile`s.
   */
  ghost predicate Walks(local: seq<FileRecord>, files: seq<FileEntry>,
                        newOrder: seq<FileRecord>, goneOrder: seq<FileRecord>, changedOrder: seq<Pair>)
  {
    var d := SyncDifferences(local, files);
    && Enumerates(newOrder, d.newFiles.Values)
    && Enumerates(goneOrder, d.deletedFiles.Values)
    && Enumerates(changedOrder, d.modified)
    && (forall i :: 0 <= i < |goneOrder| ==> goneOrder[i].RemoteFile?)
    && (forall i :: 0 <= i < |changedOrder| ==> changedOrder[i].remote.RemoteFile?)
  }

  /** Every record on the archived side is the `RemoteFile` view of some database entry. */
  lemma ArchivedSide(files: seq<FileEntry>)
    ensures forall p :: p in FromSeq(RemoteRecords(files)) ==>
      FromSeq(RemoteRecords(files))[p].RemoteFile? &&
      exists i :: 0 <= i < |files| && FromSeq(RemoteRecords(files))[p] == RemoteRecord(files[i])
  {
    var rs := RemoteRecords(files);
    forall p | p in FromSeq(rs)
      ensures exists i :: 0 <= i < |files| && FromSeq(rs)[p] == RemoteRecord(files[i])
    {
      var i :| 0 <= i < |rs| && rs[i] == FromSeq(rs)[p];
    }
  }

  /** The records `sync` deletes and the archived halves of the pairs it replaces are `RemoteFile`s. */
  lemma DifferencesAreArchived(local: seq<FileRecord>, files: seq<FileEntry>)
    ensures forall g :: g in SyncDifferences(local, files).deletedFiles.Values ==> g.RemoteFile?
    ensures forall q :: q in SyncDifferences(local, files).modified ==> q.remote.RemoteFile?
  {
    ArchivedSide(files);
    var l, m := FromSeq(local), FromSeq(RemoteRecords(files));
    ClassifyProperties(local, RemoteRecords(files), [LastModifiedDiffer]);
    forall g | g in SyncDifferences(local, files).deletedFiles.Values ensures g.RemoteFile? {
      var p :| p in Minus(m, l) && Minus(m, l)[p] == g;
    }
  }

  /** A job's answer from the vault: whether it has finished, and the inventory's `ArchiveList`. */
  datatype JobStatus = JobStatus(completed: bool, archives: seq<Archive>)

  /** How `restoredb` ends: `True`, `False`, falling off the loop, or `InvalidJobTypeException`. */
  datatype RestoreOutcome = Restored | NotReady | NoInventoryJob | InvalidJobType(jobType: string)

  /**
   * How far `restoredb` walks the lazily decoded `pending_jobs`: past every plain pending
   * job, up to the first entry that is an inventory job or carries a tag no class has.
   */
  function StopIndex(entries: seq<JobEntry>): (k: nat)
    ensures k <= |entries|
    ensures forall i :: 0 <= i < k ==> entries[i].jobType == PendingJobTag
    ensures k < |entries| ==> entries[k].jobType != PendingJobTag
  {
    if entries == [] || entries[0].jobType != PendingJobTag then 0 else 1 + StopIndex(entries[1..])
  }

  /** The walk never looks past where it stops: what follows cannot change it. */
  lemma {:induction false} StopIndexPrefix(a: seq<JobEntry>, b: seq<JobEntry>)
    requires StopIndex(a) < |a|
    ensures StopIndex(a + b) == StopIndex(a)
  {
    if a[0].jobType == PendingJobTag {
      assert (a + b)[1..] == a[1..] + b;
      StopIndexPrefix(a[1..], b);
    }
  }

  /** An inventory job appended after plain pending jobs only is the one the walk stops at. */
  lemma {:induction false} StopIndexAppended(entries: seq<JobEntry>, id: Uuid)
    requires forall i :: 0 <= i < |entries| ==> entries[i].jobType == PendingJobTag
    ensures StopIndex(entries + [JobEntry(InventoryJobTag, id)]) == |entries|
  {
    if entries != [] {
      assert (entries + [JobEntry(InventoryJobTag, id)])[1..] == entries[1..] + [JobEntry(InventoryJobTag, id)];
      StopIndexAppended(entries[1..], id);
    }
  }

  /**
   * When every tag is known, the walk stops at the first inventory job, all jobs before it
   * being plain pending jobs; a stop at any other entry means the list does not decode.
   */
  lemma StopIndexDecoded(entries: seq<JobEntry>)
    ensures var k := StopIndex(entries);
      k < |entries| && entries[k].jobType != InventoryJobTag ==> DecodeJobs(entries).Err?
    ensures var k := StopIndex(entries);
      DecodeJobs(entries).Ok? ==>
        (forall i :: 0 <= i < k ==> DecodeJobs(entries).value[i].PendingJob?) &&
        (k < |entries| ==> DecodeJobs(entries).value[k] == RetrieveInventoryJob(entries[k].uuid))
  {
    var k := StopIndex(entries);
    if DecodeJobs(entries).Ok? {
      var jobs := DecodeJobs(entries).value;
      forall i | 0 <= i < k ensures jobs[i].PendingJob? {
        assert JobEntryOf(jobs[i]) == entries[i];
      }
      if k < |entries| {
        assert JobEntryOf(jobs[k]) == entries[k];
      }
    }
  }

  /**
   * The walk is lazy: an inventory job ahead of an entry with an unknown tag is still
   * found, although the list as a whole does not decode.
   */
  lemma LazyDecoding()
    ensures var entries := [JobEntry(InventoryJobTag, "job-1"), JobEntry("ArchiveJob", "job-2")];
      StopIndex(entries) == 0 && DecodeJobs(entries) == Err("ArchiveJob")
  {
    var entries := [JobEntry(InventoryJobTag, "job-1"), JobEntry("ArchiveJob", "job-2")];
    assert entries[1..] == [JobEntry("ArchiveJob", "job-2")];
    assert entries[1..][1..] == [];
  }

  class GlacierSync {
    const database: LocalDatabase
    const vault: Vault
    const remote: RemoteFilesystem

    ghost predicate Valid()
      reads this, remote, database
    {
      remote.database == database && remote.vault == vault && database.Valid()
    }

    /** Opens the database (`stored` is the file's content, if any) and connects to an untouched vault. */
    constructor (stored: Option<Snapshot>)
      ensures Valid() && database.State() == Load(stored) && database.persisted == stored
      ensures vault.log == [] && remote.journal == []
    {
      var db := new LocalDatabase(stored);
      var v := new Vault();
      database := db;
      vault := v;
      remote := new RemoteFilesystem(db, v);
    }

    /** The effect of `steps` on this object, as `RemoteFilesystem` performs them. */
    ghost predicate Performed(steps: seq<Step>, files0: seq<FileEntry>, log0: seq<VaultCall>, journal0: seq<Event>, now: int)
      reads this, database, vault, remote
    {
      && database.files == Execute(files0, steps, now)
      && vault.log == log0 + Calls(steps)
      && remote.journal == journal0 + Journal(files0, steps, now)
    }

    /** The first loop of `sync`: uploads every record of `newFiles`, in some order. */
    method UploadNew(newFiles: set<FileRecord>, idFor: Path -> Uuid, now: int) returns (order: seq<FileRecord>)
      requires Valid()
      modifies database, vault, remote
      ensures Valid() && database.pendingJobs == old(database.pendingJobs)
      ensures Enumerates(order, newFiles)
      ensures Performed(Uploads(order, idFor), old(database.files), old(vault.log), old(remote.journal), now)
    {
      ghost var files0, log0, journal0 := database.files, vault.log, remote.journal;
      order := [];
      var todo := newFiles;
      while todo != {}
        invariant todo <= newFiles
        invariant Enumerates(order, newFiles - todo)
        invariant Performed(Uploads(order, idFor), files0, log0, journal0, now)
        invariant database.pendingJobs == old(database.pendingJobs) && Valid()
        decreases todo
      {
        var f :| f in todo;
        var step := Upload(f, idFor(f.path));
        remote.UploadFile(f, idFor(f.path), now);
        Advance(files0, log0, journal0, Uploads(order, idFor), step, now);
        UploadsExtend(order, f, idFor);
        EnumeratesExtend(order, newFiles, todo, f);
        order := order + [f];
        todo := todo - {f};
      }
    }

    /** The second loop of `sync`: removes the archive of every record of `deletedFiles`, in some order. */
    method RemoveDeleted(deletedFiles: set<FileRecord>, now: int) returns (order: seq<FileRecord>)
      requires Valid()
      requires forall g :: g in deletedFiles ==> g.RemoteFile?
      modifies database, vault, remote
      ensures Valid() && database.pendingJobs == old(database.pendingJobs)
      ensures Enumerates(order, deletedFiles)
      ensures forall i :: 0 <= i < |order| ==> order[i].RemoteFile?
      ensures Performed(Removals(order), old(database.files), old(vault.log), old(remote.journal), now)
    {
      ghost var files0, log0, journal0 := database.files, vault.log, remote.journal;
      order := [];
      var todo := deletedFiles;
      while todo != {}
        invariant todo <= deletedFiles
        invariant Enumerates(order, deletedFiles - todo)
        invariant forall i :: 0 <= i < |order| ==> order[i].RemoteFile?
        invariant Performed(Removals(order), files0, log0, journal0, now)
        invariant database.pendingJobs == old(database.pendingJobs) && Valid()
        decreases todo
      {
        var g :| g in todo;
        remote.DeleteFile(g);
        Advance(files0, log0, journal0, Removals(order), Remove(g.uuid), now);
        RemovalsExtend(order, g);
        EnumeratesExtend(order, deletedFiles, todo, g);
        order := order + [g];
        todo := todo - {g};
      }
    }

    /** The third loop of `sync`: for every modified pair, uploads the local copy and then removes the archived one. */
    method ReplaceModified(modified: set<Pair>, idFor: Path -> Uuid, now: int) returns (order: seq<Pair>)
      requires Valid()
      requires forall q :: q in modified ==> q.remote.RemoteFile?
      modifies database, vault, remote
      ensures Valid() && database.pendingJobs == old(database.pendingJobs)
      ensures Enumerates(order, modified)
      ensures forall i :: 0 <= i < |order| ==> order[i].remote.RemoteFile?
      ensures Performed(Replacements(order, idFor), old(database.files), old(vault.log), old(remote.journal), now)
    {
      ghost var files0, log0, journal0 := database.files, vault.log, remote.journal;
      order := [];
      var todo := modified;
      while todo != {}
        invariant todo <= modified
        invariant Enumerates(order, modified - todo)
        invariant forall i :: 0 <= i < |order| ==> order[i].remote.RemoteFile?
        invariant Performed(Replacements(order, idFor), files0, log0, journal0, now)
        invariant database.pendingJobs == old(database.pendingJobs) && Valid()
        decreases todo
      {
        var q :| q in todo;
        ReplacePair(q, idFor, now, Replacements(order, idFor), files0, log0, journal0);
        ReplacementsExtend(order, q, idFor);
        EnumeratesExtend(order, modified, todo, q);
        order := order + [q];
        todo := todo - {q};
      }
    }

    /** The body of the third loop: the local copy uploaded, then the archived one removed, after the steps `done`. */
    method ReplacePair(q: Pair, idFor: Path -> Uuid, now: int, ghost done: seq<Step>,
                       ghost files0: seq<FileEntry>, ghost log0: seq<VaultCall>, ghost journal0: seq<Event>)
      requires Valid() && q.remote.RemoteFile?
      requires Performed(done, files0, log0, journal0, now)
      modifies database, vault, remote
      ensures Valid() && database.pendingJobs == old(database.pendingJobs)
      ensures Performed(done + Replacements([q], idFor), files0, log0, journal0, now)
    {
      var up, rm := Upload(q.local, idFor(q.local.path)), Remove(q.remote.uuid);
      remote.UploadFile(q.local, idFor(q.local.path), now);
      Advance(files0, log0, journal0, done, up, now);
      remote.DeleteFile(q.remote);
      Advance(files0, log0, journal0, done + [up], rm, now);
      ReplacementsExtend([], q, idFor);
      Assoc(done, [up], [rm]);
      assert [up] + [rm] == Replacements([q], idFor);
    }

    /**
     * `sync`: every new file uploaded, every deleted file's archive removed, every
     * modified file uploaded again and its old archive removed, each set walked in
     * some order. `local` is the directory listing, `idFor` the archive ids the vault
     * answers with and `now` the clock.
     */
    method Sync(local: seq<FileRecord>, idFor: Path -> Uuid, now: int)
      returns (newOrder: seq<FileRecord>, goneOrder: seq<FileRecord>, changedOrder: seq<Pair>)
      requires Valid()
      modifies database, vault, remote
      ensures Valid() && database.pendingJobs == old(database.pendingJobs)
      ensures Walks(local, old(database.files), newOrder, goneOrder, changedOrder)
      ensures Performed(SyncPlan(newOrder, goneOrder, changedOrder, idFor), old(database.files), old(vault.log), old(remote.journal), now)
    {
      var d := DifferRunner(local, remote.Files(), [LastModifiedDiffer]);
      ghost var files0, log0, journal0 := database.files, vault.log, remote.journal;
      DifferencesAreArchived(local, files0);
      newOrder := UploadNew(d.newFiles.Values, idFor, now);
      ghost var ups := Uploads(newOrder, idFor);
      goneOrder := RemoveDeleted(d.deletedFiles.Values, now);
      ghost var rms := Removals(goneOrder);
      Chain(files0, log0, journal0, ups, rms, now);
      changedOrder := ReplaceModified(d.modified, idFor, now);
      ghost var reps := Replacements(changedOrder, idFor);
      Chain(files0, log0, journal0, ups + rms, reps, now);
      assert SyncPlan(newOrder, goneOrder, changedOrder, idFor) == ups + rms + reps;
    }

    /**
     * `restoredb`: walks the pending jobs; at the first inventory job it polls the vault
     * (`poll` is the vault's answer) and, once the job has finished, replaces the
     * database's file list by the inventory. The job stays pending.
     */
    method RestoreDb(poll: Uuid -> JobStatus) returns (outcome: RestoreOutcome)
      requires Valid()
      modifies database, vault
      ensures Valid() && database.pendingJobs == old(database.pendingJobs)
      ensures var entries := old(database.pendingJobs); var k := StopIndex(entries);
        && (k == |entries| ==>
              outcome == NoInventoryJob && vault.log == old(vault.log) &&
              database.files == old(database.files) && database.persisted == old(database.persisted))
        && (k < |entries| && entries[k].jobType != InventoryJobTag ==>
              outcome == InvalidJobType(entries[k].jobType) && vault.log == old(vault.log) &&
              database.files == old(database.files) && database.persisted == old(database.persisted))
        && (k < |entries| && entries[k].jobType == InventoryJobTag ==>
              vault.log == old(vault.log) + [Polled(entries[k].uuid)])
        && (k < |entries| && entries[k].jobType == InventoryJobTag && !poll(entries[k].uuid).completed ==>
              outcome == NotReady && database.files == old(database.files) &&
              database.persisted == old(database.persisted))
        && (k < |entries| && entries[k].jobType == InventoryJobTag && poll(entries[k].uuid).completed ==>
              outcome == Restored && database.Saved() &&
              |database.files| == |poll(entries[k].uuid).archives| &&
              forall i :: 0 <= i < |database.files| ==> database.files[i] == ArchiveEntry(poll(entries[k].uuid).archives[i]))
    {
      var entries := database.pendingJobs;
      var i := 0;
      while i < |entries|
        invariant 0 <= i <= |entries|
        invariant forall k :: 0 <= k < i ==> entries[k].jobType == PendingJobTag
      {
        match DecodeJob(entries[i])
        case None =>
          return InvalidJobType(entries[i].jobType);
        case Some(RetrieveInventoryJob(id)) =>
          vault.GetJob(id);
          var status := poll(id);
          if !status.completed {
            return NotReady;
          }
          database.RestoreFromAmazon(status.archives);
          return Restored;
        case Some(PendingJob(_)) =>
        i := i + 1;
      }
      return NoInventoryJob;
    }
  }
}
