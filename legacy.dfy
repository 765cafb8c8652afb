/**
 * The older copy of the module (glacsync.py). Records, differs, the upload and delete
 * steps and their effect on the file list are the same definitions as in the newer copy;
 * what differs is the database, which holds only `files` (no pending jobs, no inventory
 * restore), and `RemoteFilesystem`, which builds the `RemoteFile` views itself.
 */
module Legacy {
  import opened Wrappers
  import opened Records
  import opened ChangeSet
  import opened Database
  import opened Remote
  import opened Plan
  import opened Sync

  /** What opening the older database yields: the stored list, or an empty one when there is no file yet. */
  function LoadFiles(stored: Option<seq<FileEntry>>): seq<FileEntry> {
    match stored
    case None => []
    case Some(files) => files
  }

  /** The older `GlacierLocalDatabaseFile`: the list of entries, and the file it is written to. */
  class LegacyDatabase {
    var files: seq<FileEntry>
    /** The content of the database file; `None` while there is none. */
    ghost var persisted: Option<seq<FileEntry>>

    /** Opening the database file again would give back the list in memory. */
    ghost predicate Valid()
      reads this
    {
      LoadFiles(persisted) == files
    }

    /** The database file holds exactly the list in memory. */
    ghost predicate Saved()
      reads this
    {
      persisted == Some(files)
    }

    /** Opens the database; `stored` is the file's content, `None` when the file is missing. */
    constructor (stored: Option<seq<FileEntry>>)
      ensures persisted == stored && files == LoadFiles(stored) && Valid()
      ensures stored.None? ==> files == []
    {
      files := LoadFiles(stored);
      persisted := stored;
    }

    /** `write`: the list replaces the database file. */
    method Write()
      modifies this`persisted
      ensures Saved() && Valid()
    {
      persisted := Some(files);
    }

    /** The `files` setter: the list is replaced in memory only. */
    method SetFiles(value: seq<FileEntry>)
      modifies this`files
      ensures files == value
    {
      files := value;
    }

    /** `add_file`: one entry at the end of the list; nothing else changes. */
    method AddFile(file: FileRecord, uuid: Uuid, now: int)
      modifies this
      ensures files == old(files) + [UploadEntry(file, uuid, now)]
      ensures Saved() && Valid()
    {
      files := files + [UploadEntry(file, uuid, now)];
      Write();
    }

    /** `delete_file`: keeps the entries whose uuid is not `uuid`, through the setter. */
    method DeleteFile(uuid: Uuid)
      modifies this
      ensures files == WithoutArchive(old(files), uuid)
      ensures Saved() && Valid()
    {
      SetFiles(WithoutArchive(files, uuid));
      Write();
    }
  }

  /** The older `RemoteFilesystem`: the same two steps, over the files-only database. */
  class LegacyRemoteFilesystem {
    const database: LegacyDatabase
    const vault: Vault
    /** The vault calls and database writes made through this object. */
    ghost var journal: seq<Event>

    constructor (database: LegacyDatabase, vault: Vault)
      ensures this.database == database && this.vault == vault && journal == []
    {
      this.database := database;
      this.vault := vault;
      journal := [];
    }

    /** `files`: a `RemoteFile` view built for every entry, in order. */
    function Files(): (r: seq<FileRecord>)
      reads database
      ensures |r| == |database.files|
      ensures forall i :: 0 <= i < |r| ==> r[i].RemoteFile? && EntryOf(r[i]) == database.files[i]
    {
      RemoteRecords(database.files)
    }

    /** `upload_file`: the vault stores the file, then the database records it under the answered id. */
    method UploadFile(file: FileRecord, archiveId: Uuid, now: int)
      modifies this, database, vault
      ensures vault.log == old(vault.log) + [Created(file.path, archiveId)]
      ensures database.files == old(database.files) + [UploadEntry(file, archiveId, now)]
      ensures database.Saved() && database.Valid()
      ensures journal == old(journal) + [Called(Created(file.path, archiveId)), Saved(database.files)]
    {
      var id := vault.CreateArchive(file.path, archiveId);
      journal := journal + [Called(Created(file.path, id))];
      database.AddFile(file, id, now);
      journal := journal + [Saved(database.files)];
    }

    /** `delete_file`: the vault deletes the archive, then the database forgets it. */
    method DeleteFile(remote: FileRecord)
      requires remote.RemoteFile?
      modifies this, database, vault
      ensures vault.log == old(vault.log) + [Deleted(remote.uuid)]
      ensures database.files == WithoutArchive(old(database.files), remote.uuid)
      ensures database.Saved() && database.Valid()
      ensures journal == old(journal) + [Called(Deleted(remote.uuid)), Saved(database.files)]
    {
      vault.DeleteArchive(remote.uuid);
      journal := journal + [Called(Deleted(remote.uuid))];
      database.DeleteFile(remote.uuid);
      journal := journal + [Saved(database.files)];
    }
  }

  /** The older `GlacierSync`, which only syncs. */
  class LegacyGlacierSync {
    const database: LegacyDatabase
    const vault: Vault
    const remote: LegacyRemoteFilesystem

    ghost predicate Valid()
      reads this, remote, database
    {
      remote.database == database && remote.vault == vault && database.Valid()
    }

    /** Opens the database (`stored` is the file's content, if any) and connects to an untouched vault. */
    constructor (stored: Option<seq<FileEntry>>)
      ensures Valid() && database.files == LoadFiles(stored) && database.persisted == stored
      ensures vault.log == [] && remote.journal == []
    {
      var db := new LegacyDatabase(stored);
      var v := new Vault();
      database := db;
      vault := v;
      remote := new LegacyRemoteFilesystem(db, v);
    }

    /** The effect of `steps` on this object, as `LegacyRemoteFilesystem` performs them. */
    ghost predicate Performed(steps: seq<Step>, files0: seq<FileEntry>, log0: seq<VaultCall>, journal0: seq<Event>, now: int)
      reads this, database, vault, remote
    {
      && database.files == Execute(files0, steps, now)
      && vault.log == log0 + Calls(steps)
      && remote.journal == journal0 + Journal(files0, steps, now)
    }

    /** The first loop of `sync`: uploads every record of `newFiles`, in some order. */
    method UploadNew(newFiles: set<FileRecord>, idFor: Path -> Uuid, now: int) returns (order: seq<FileRecord>)
      requires Valid()
      modifies database, vault, remote
      ensures Valid() && Enumerates(order, newFiles)
      ensures Performed(Uploads(order, idFor), old(database.files), old(vault.log), old(remote.journal), now)
    {
      ghost var files0, log0, journal0 := database.files, vault.log, remote.journal;
      order := [];
      var todo := newFiles;
      while todo != {}
        invariant todo <= newFiles
        invariant Enumerates(order, newFiles - todo)
        invariant Performed(Uploads(order, idFor), files0, log0, journal0, now)
        invariant Valid()
        decreases todo
      {
        var f :| f in todo;
        var step := Upload(f, idFor(f.path));
        remote.UploadFile(f, idFor(f.path), now);
        Advance(files0, log0, journal0, Uploads(order, idFor), step, now);
        UploadsExtend(order, f, idFor);
        EnumeratesExtend(order, newFiles, todo, f);
        order := order + [f];
        todo := todo - {f};
      }
    }

    /** The second loop of `sync`: removes the archive of every record of `deletedFiles`, in some order. */
    method RemoveDeleted(deletedFiles: set<FileRecord>, now: int) returns (order: seq<FileRecord>)
      requires Valid()
      requires forall g :: g in deletedFiles ==> g.RemoteFile?
      modifies database, vault, remote
      ensures Valid() && Enumerates(order, deletedFiles)
      ensures forall i :: 0 <= i < |order| ==> order[i].RemoteFile?
      ensures Performed(Removals(order), old(database.files), old(vault.log), old(remote.journal), now)
    {
      ghost var files0, log0, journal0 := database.files, vault.log, remote.journal;
      order := [];
      var todo := deletedFiles;
      while todo != {}
        invariant todo <= deletedFiles
        invariant Enumerates(order, deletedFiles - todo)
        invariant forall i :: 0 <= i < |order| ==> order[i].RemoteFile?
        invariant Performed(Removals(order), files0, log0, journal0, now)
        invariant Valid()
        decreases todo
      {
        var g :| g in todo;
        remote.DeleteFile(g);
        Advance(files0, log0, journal0, Removals(order), Remove(g.uuid), now);
        RemovalsExtend(order, g);
        EnumeratesExtend(order, deletedFiles, todo, g);
        order := order + [g];
        todo := todo - {g};
      }
    }

    /** The third loop of `sync`: for every modified pair, uploads the local copy and then removes the archived one. */
    method ReplaceModified(modified: set<Pair>, idFor: Path -> Uuid, now: int) returns (order: seq<Pair>)
      requires Valid()
      requires forall q :: q in modified ==> q.remote.RemoteFile?
      modifies database, vault, remote
      ensures Valid() && Enumerates(order, modified)
      ensures forall i :: 0 <= i < |order| ==> order[i].remote.RemoteFile?
      ensures Performed(Replacements(order, idFor), old(database.files), old(vault.log), old(remote.journal), now)
    {
      ghost var files0, log0, journal0 := database.files, vault.log, remote.journal;
      order := [];
      var todo := modified;
      while todo != {}
        invariant todo <= modified
        invariant Enumerates(order, modified - todo)
        invariant forall i :: 0 <= i < |order| ==> order[i].remote.RemoteFile?
        invariant Performed(Replacements(order, idFor), files0, log0, journal0, now)
        invariant Valid()
        decreases todo
      {
        var q :| q in todo;
        ReplacePair(q, idFor, now, Replacements(order, idFor), files0, log0, journal0);
        ReplacementsExtend(order, q, idFor);
        EnumeratesExtend(order, modified, todo, q);
        order := order + [q];
        todo := todo - {q};
      }
    }

    /** The body of the third loop: the local copy uploaded, then the archived one removed, after the steps `done`. */
    method ReplacePair(q: Pair, idFor: Path -> Uuid, now: int,
                       ghost done: seq<Step>, ghost files0: seq<FileEntry>, ghost log0: seq<VaultCall>,
                       ghost journal0: seq<Event>)
      requires Valid() && q.remote.RemoteFile?
      requires Performed(done, files0, log0, journal0, now)
      modifies database, vault, remote
      ensures Valid()
      ensures Performed(done + Replacements([q], idFor), files0, log0, journal0, now)
    {
      var up, rm := Upload(q.local, idFor(q.local.path)), Remove(q.remote.uuid);
      remote.UploadFile(q.local, idFor(q.local.path), now);
      Advance(files0, log0, journal0, done, up, now);
      remote.DeleteFile(q.remote);
      Advance(files0, log0, journal0, done + [up], rm, now);
      ReplacementsExtend([], q, idFor);
      Assoc(done, [up], [rm]);
      assert [up] + [rm] == Replacements([q], idFor);
    }

    /**
     * `sync(quiet)` with the progress line of the third loop corrected to name the local
     * copy (`curr_file[0]`, as the newer copy prints): the same three loops as the newer
     * copy, over the files-only database. With that line corrected, `quiet` only silences
     * the progress lines.
     */
    method Sync(local: seq<FileRecord>, idFor: Path -> Uuid, now: int)
      returns (newOrder: seq<FileRecord>, goneOrder: seq<FileRecord>, changedOrder: seq<Pair>)
      requires Valid()
      modifies database, vault, remote
      ensures Valid()
      ensures Walks(local, old(database.files), newOrder, goneOrder, changedOrder)
      ensures Performed(SyncPlan(newOrder, goneOrder, changedOrder, idFor), old(database.files), old(vault.log), old(remote.journal), now)
    {
      var d := DifferRunner(local, remote.Files(), [LastModifiedDiffer]);
      ghost var files0, log0, journal0 := database.files, vault.log, remote.journal;
      DifferencesAreArchived(local, files0);
      newOrder := UploadNew(d.newFiles.Values, idFor, now);
      ghost var ups := Uploads(newOrder, idFor);
      goneOrder := RemoveDeleted(d.deletedFiles.Values, now);
      ghost var rms := Removals(goneOrder);
      Chain(files0, log0, journal0, ups, rms, now);
      changedOrder := ReplaceModified(d.modified, idFor, now);
      ghost var reps := Replacements(changedOrder, idFor);
      Chain(files0, log0, journal0, ups + rms, reps, now);
      assert SyncPlan(newOrder, goneOrder, changedOrder, idFor) == ups + rms + reps;
    }

    /**
     * `sync(quiet=False)` as written, the pass the command line runs: the first two loops
     * as in `Sync`; then the progress line of the first modified pair formats the pair, a
     * 2-tuple, with a single `%s`, which raises, so no modified file is replaced.
     * `aborted` says whether the pass raised.
     */
    method SyncVerbose(local: seq<FileRecord>, idFor: Path -> Uuid, now: int)
      returns (newOrder: seq<FileRecord>, goneOrder: seq<FileRecord>, aborted: bool)
      requires Valid()
      modifies database, vault, remote
      ensures Valid()
      ensures Enumerates(newOrder, SyncDifferences(local, old(database.files)).newFiles.Values)
      ensures Enumerates(goneOrder, SyncDifferences(local, old(database.files)).deletedFiles.Values)
      ensures forall i :: 0 <= i < |goneOrder| ==> goneOrder[i].RemoteFile?
      ensures aborted <==> SyncDifferences(local, old(database.files)).modified != {}
      ensures Performed(Uploads(newOrder, idFor) + Removals(goneOrder), old(database.files), old(vault.log), old(remote.journal), now)
    {
      var d := DifferRunner(local, remote.Files(), [LastModifiedDiffer]);
      ghost var files0, log0, journal0 := database.files, vault.log, remote.journal;
      DifferencesAreArchived(local, files0);
      newOrder := UploadNew(d.newFiles.Values, idFor, now);
      ghost var ups := Uploads(newOrder, idFor);
      goneOrder := RemoveDeleted(d.deletedFiles.Values, now);
      ghost var rms := Removals(goneOrder);
      Chain(files0, log0, journal0, ups, rms, now);
      assert d == SyncDifferences(local, files0);
      aborted := d.modified != {};
    }
  }

  /**
   * One archived file, modified since: the pass walks nothing new and nothing deleted, so
   * `SyncVerbose` raises at the modified pair with the database as it was, where `Sync`
   * replaces the stale entry.
   */
  lemma VerboseSkipsModified()
    ensures var files := [FileEntry("a", 1, 0, "u")];
      var local := [LocalFile("a", 2)];
      var q := Pair(LocalFile("a", 2), RemoteFile("a", 1, "u", 0));
      var idFor := (p: Path) => "v";
      && SyncDifferences(local, files) == Differences(map[], map[], {q})
      && Walks(local, files, [], [], [q])
      && Execute(files, Uploads([], idFor) + Removals([]), 5) == files
      && Execute(files, SyncPlan([], [], [q], idFor), 5) == [FileEntry("a", 2, 5, "v")]
  {
    var q := Pair(LocalFile("a", 2), RemoteFile("a", 1, "u", 0));
    WitnessDifferences();
    assert Enumerates([q], {q});
    WitnessReplacement();
    assert Uploads([], (p: Path) => "v") + Removals([]) == [];
  }

  /** The differences of the witness: one modified pair and nothing else. */
  lemma WitnessDifferences()
    ensures SyncDifferences([LocalFile("a", 2)], [FileEntry("a", 1, 0, "u")]) ==
      Differences(map[], map[], {Pair(LocalFile("a", 2), RemoteFile("a", 1, "u", 0))})
  {
    var q := Pair(LocalFile("a", 2), RemoteFile("a", 1, "u", 0));
    var l, r := FromSeq([LocalFile("a", 2)]), FromSeq(RemoteRecords([FileEntry("a", 1, 0, "u")]));
    assert RemoteRecords([FileEntry("a", 1, 0, "u")]) == [RemoteFile("a", 1, "u", 0)];
    assert l == map["a" := LocalFile("a", 2)];
    assert r == map["a" := RemoteFile("a", 1, "u", 0)];
    assert MatchingPairs(l.Values, r.Values) == {q};
    assert [LastModifiedDiffer][0](q.local, q.remote);
  }

  /** Replacing the witness pair: the new upload is the only entry left. */
  lemma WitnessReplacement()
    ensures Execute([FileEntry("a", 1, 0, "u")],
                    SyncPlan([], [], [Pair(LocalFile("a", 2), RemoteFile("a", 1, "u", 0))], (p: Path) => "v"), 5)
      == [FileEntry("a", 2, 5, "v")]
  {
    var files, e := [FileEntry("a", 1, 0, "u")], FileEntry("a", 2, 5, "v");
    var q := Pair(LocalFile("a", 2), RemoteFile("a", 1, "u", 0));
    var plan := SyncPlan([], [], [q], (p: Path) => "v");
    ReplacementsExtend([], q, (p: Path) => "v");
    assert plan == [Upload(q.local, "v"), Remove("u")];
    assert plan[..1] == [Upload(q.local, "v")];
    assert Execute(files, plan[..1], 5) == files + [e];
    WithoutArchiveConcat(files, [e], "u");
    assert WithoutArchive(files, "u") == [];
    assert WithoutArchive([e], "u") == [e];
  }
}
