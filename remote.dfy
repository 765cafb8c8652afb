/**
 * The archive store and `RemoteFilesystem` (glacsync/glacsync.py:162-184). The store
 * is seen only through the log of calls made to it; its answers are parameters.
 */
module Remote {
  import opened Records
  import opened Database

  /** A call made to the vault. */
  datatype VaultCall =
    | Created(description: Path, archiveId: Uuid)
    | Deleted(archiveId: Uuid)
    | Polled(jobId: Uuid)

  /** The vault: every call made to it, in order. */
  class Vault {
    var log: seq<VaultCall>

    constructor ()
      ensures log == []
    {
      log := [];
    }

    /** `concurrent_create_archive_from_file(path, path)`; the store answers with `archiveId`. */
    method CreateArchive(path: Path, archiveId: Uuid) returns (id: Uuid)
      modifies this
      ensures id == archiveId
      ensures log == old(log) + [Created(path, archiveId)]
    {
      id := archiveId;
      log := log + [Created(path, archiveId)];
    }

    /** `delete_archive(archiveId)`. */
    method DeleteArchive(archiveId: Uuid)
      modifies this
      ensures log == old(log) + [Deleted(archiveId)]
    {
      log := log + [Deleted(archiveId)];
    }

    /** `get_job(jobId)`. */
    method GetJob(jobId: Uuid)
      modifies this
      ensures log == old(log) + [Polled(jobId)]
    {
      log := log + [Polled(jobId)];
    }
  }

  /** What happens during a sync, in order: a vault call, or the database file being rewritten with a file list. */
  datatype Event = Called(call: VaultCall) | Saved(files: seq<FileEntry>)

  class RemoteFilesystem {
    const database: LocalDatabase
    const vault: Vault
    /** The vault calls and database writes made through this object. */
    ghost var journal: seq<Event>

    constructor (database: LocalDatabase, vault: Vault)
      ensures this.database == database && this.vault == vault && journal == []
    {
      this.database := database;
      this.vault := vault;
      journal := [];
    }

    /** `files`: the records of the database. */
    function Files(): (r: seq<FileRecord>)
      reads database
      ensures |r| == |database.files|
      ensures forall i :: 0 <= i < |r| ==> r[i].RemoteFile? && EntryOf(r[i]) == database.files[i]
    {
      database.Files()
    }

    /**
     * `upload_file`: the vault stores the file, then the database records it under
     * the archive id the vault answered with.
     */
    method UploadFile(file: FileRecord, archiveId: Uuid, now: int)
      modifies this, database, vault
      ensures vault.log == old(vault.log) + [Created(file.path, archiveId)]
      ensures database.files == old(database.files) + [UploadEntry(file, archiveId, now)]
      ensures database.pendingJobs == old(database.pendingJobs) && database.Saved()
      ensures journal == old(journal) + [Called(Created(file.path, archiveId)), Saved(database.files)]
    {
      var id := vault.CreateArchive(file.path, archiveId);
      journal := journal + [Called(Created(file.path, id))];
      database.AddFile(file, id, now);
      journal := journal + [Saved(database.files)];
    }

    /** `delete_file`: the vault deletes the archive, then the database forgets it. */
    method DeleteFile(remote: FileRecord)
      requires remote.RemoteFile?
      modifies this, database, vault
      ensures vault.log == old(vault.log) + [Deleted(remote.uuid)]
      ensures database.files == WithoutArchive(old(database.files), remote.uuid)
      ensures database.pendingJobs == old(database.pendingJobs) && database.Saved()
      ensures journal == old(journal) + [Called(Deleted(remote.uuid)), Saved(database.files)]
    {
      vault.DeleteArchive(remote.uuid);
      journal := journal + [Called(Deleted(remote.uuid))];
      database.DeleteFile(remote.uuid);
      journal := journal + [Saved(database.files)];
    }
  }
}
