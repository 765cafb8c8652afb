/**
 * File records as the change detector sees them (glacsync/glacsync.py:27-47, 112-160).
 * A record is either a file found in a synchronised directory or an archive listed in
 * the local database. Two records are the same file when their paths agree, whatever
 * their kind, time or uuid; "newer" compares modification times only.
 */
module Records {

  type Path = string
  type Uuid = string

  /** One entry of the database's `files` list; both times are epoch seconds. */
  datatype FileEntry = FileEntry(path: Path, lastModified: int, uploadedAt: int, uuid: Uuid)

  /** `LocalFile` and `RemoteFile`, the two kinds of `File`. */
  datatype FileRecord =
    | LocalFile(path: Path, lastModified: int)
    | RemoteFile(path: Path, lastModified: int, uuid: Uuid, uploadedAt: int)

  /** `File.__eq__`. */
  predicate SameFile(a: FileRecord, b: FileRecord) {
    a.path == b.path
  }

  /** `File.__hash__` hashes the path: the key a record is hashed by. */
  function HashKey(a: FileRecord): Path {
    a.path
  }

  /** `File.__gt__`: `a` was modified after `b`. */
  predicate Newer(a: FileRecord, b: FileRecord) {
    a.lastModified > b.lastModified
  }

  /** Identity ignores the kind of record, its time and its uuid, and agrees with the hash. */
  lemma Identity(p: Path, q: Path, t: int, t': int, u: Uuid, w: int)
    ensures SameFile(LocalFile(p, t), RemoteFile(q, t', u, w)) <==> p == q
    ensures SameFile(LocalFile(p, t), LocalFile(q, t')) <==> p == q
    ensures forall a, b :: SameFile(a, b) ==> HashKey(a) == HashKey(b)
    ensures forall a, b, c :: SameFile(a, b) && SameFile(b, c) ==> SameFile(a, c)
  {
  }

  /** "Newer" is a strict order on times, unrelated to identity. */
  lemma NewerIsStrict(p: Path, t: int, t': int)
    ensures forall a :: !Newer(a, a)
    ensures forall a, b :: Newer(a, b) ==> !Newer(b, a)
    ensures forall a, b, c :: Newer(a, b) && Newer(b, c) ==> Newer(a, c)
    ensures Newer(LocalFile(p, t), LocalFile(p, t')) <==> t > t'
  {
  }

  /** The `RemoteFile` view of a database entry: its accessors read the entry's fields. */
  function RemoteRecord(e: FileEntry): (r: FileRecord)
    ensures r.RemoteFile?
  {
    RemoteFile(e.path, e.lastModified, e.uuid, e.uploadedAt)
  }

  /** The entry a remote record reads. */
  function EntryOf(r: FileRecord): FileEntry
    requires r.RemoteFile?
  {
    FileEntry(r.path, r.lastModified, r.uploadedAt, r.uuid)
  }

  /** A remote record loses nothing of its entry, and is determined by it. */
  lemma RemoteRecordRoundTrip(e: FileEntry, r: FileRecord)
    ensures EntryOf(RemoteRecord(e)) == e
    ensures r.RemoteFile? ==> RemoteRecord(EntryOf(r)) == r
    ensures RemoteRecord(e).path == e.path && RemoteRecord(e).uuid == e.uuid
    ensures RemoteRecord(e).lastModified == e.lastModified && RemoteRecord(e).uploadedAt == e.uploadedAt
  {
  }

  /** Remote records of a list of entries, in order (`GlacierLocalDatabaseFile.files`). */
  function RemoteRecords(entries: seq<FileEntry>): (r: seq<FileRecord>)
    ensures |r| == |entries|
    ensures forall i :: 0 <= i < |r| ==> r[i].RemoteFile? && EntryOf(r[i]) == entries[i]
  {
    seq(|entries|, i requires 0 <= i < |entries| => RemoteRecord(entries[i]))
  }

  /**
   * A set of records compared by identity: each record is filed under its path.
   * Only maps where `Keyed` holds are used.
   */
  type FileSet = map<Path, FileRecord>

  ghost predicate Keyed(m: FileSet) {
    forall p :: p in m ==> m[p].path == p
  }

  /**
   * `set(records)`: records with the same path collapse into one, and the one
   * listed first stays (adding an element equal to one already present keeps the old one).
   */
  function FromSeq(s: seq<FileRecord>): (m: FileSet)
    ensures Keyed(m)
    ensures forall i :: 0 <= i < |s| ==> s[i].path in m
    ensures forall p :: p in m ==> m[p] in s
  {
    if s == [] then map[] else FromSeq(s[1..])[s[0].path := s[0]]
  }

  /** The record kept for a path is its first occurrence. */
  lemma {:induction false} FromSeqKeepsFirst(s: seq<FileRecord>, i: nat)
    requires i < |s|
    requires forall k :: 0 <= k < i ==> s[k].path != s[i].path
    ensures FromSeq(s)[s[i].path] == s[i]
  {
    if i > 0 {
      FromSeqKeepsFirst(s[1..], i - 1);
    }
  }

  /** With distinct paths nothing collapses: every record is kept and the set has one per record. */
  lemma {:induction false} FromSeqDistinct(s: seq<FileRecord>)
    requires forall i, j :: 0 <= i < j < |s| ==> s[i].path != s[j].path
    ensures forall i :: 0 <= i < |s| ==> FromSeq(s)[s[i].path] == s[i]
    ensures |FromSeq(s)| == |s|
  {
    forall i | 0 <= i < |s| ensures FromSeq(s)[s[i].path] == s[i] {
      FromSeqKeepsFirst(s, i);
    }
    if s != [] {
      FromSeqDistinct(s[1..]);
    }
  }
}
