/**
 * What a `sync` pass leaves in the database (glacsync/glacsync.py:295-314): the entries
 * of the files still listed and unchanged, then one fresh entry per uploaded file; and a
 * second pass over the same listing has nothing to do.
 */
module Outcome {
  import opened Records
  import opened ChangeSet
  import opened Database
  import opened Remote
  import opened Plan
  import opened Sync

  function PathOf(e: FileEntry): Path { e.path }
  function UuidOf(e: FileEntry): Uuid { e.uuid }

  /** No two entries share a key. */
  ghost predicate Distinct(files: seq<FileEntry>, key: FileEntry -> string) {
    forall i, j :: 0 <= i < j < |files| ==> key(files[i]) != key(files[j])
  }

  /** The uuids the entries carry. */
  ghost function Uuids(files: seq<FileEntry>): set<Uuid> {
    set e | e in files :: e.uuid
  }

  /** The vault never answers an upload with an archive id the database already holds. */
  ghost predicate FreshIds(idFor: Path -> Uuid, files: seq<FileEntry>) {
    forall p :: idFor(p) !in Uuids(files)
  }

  /** The vault answers uploads of different paths with different archive ids. */
  ghost predicate Injective(idFor: Path -> Uuid) {
    forall p, q :: p != q ==> idFor(p) != idFor(q)
  }

  lemma DistinctConcat(a: seq<FileEntry>, b: seq<FileEntry>, key: FileEntry -> string)
    requires Distinct(a, key) && Distinct(b, key)
    requires forall x, y :: x in a && y in b ==> key(x) != key(y)
    ensures Distinct(a + b, key)
  {
    var c := a + b;
    forall i, j | 0 <= i < j < |c| ensures key(c[i]) != key(c[j]) {
      if j < |a| {
        assert c[i] == a[i] && c[j] == a[j];
      } else if i >= |a| {
        assert c[i] == b[i - |a|] && c[j] == b[j - |a|];
      } else {
        assert c[i] == a[i] && c[j] == b[j - |a|];
        assert a[i] in a && b[j - |a|] in b;
      }
    }
  }

  /** Filtering keeps keys distinct. */
  lemma {:induction false} KeepDistinct(files: seq<FileEntry>, ids: set<Uuid>, key: FileEntry -> string)
    requires Distinct(files, key)
    ensures Distinct(Keep(files, ids), key)
  {
    if files != [] {
      var rest := files[1..];
      assert Distinct(rest, key) by {
        forall i, j | 0 <= i < j < |rest| ensures key(rest[i]) != key(rest[j]) {
          assert rest[i] == files[i + 1] && rest[j] == files[j + 1];
        }
      }
      KeepDistinct(rest, ids, key);
      var head := if files[0].uuid in ids then [] else [files[0]];
      forall x, y | x in head && y in Keep(rest, ids) ensures key(x) != key(y) {
        var j :| 0 <= j < |rest| && rest[j] == y;
        assert files[j + 1] == y;
      }
      DistinctConcat(head, Keep(rest, ids), key);
    }
  }

  lemma {:induction false} KeepConcat(a: seq<FileEntry>, b: seq<FileEntry>, ids: set<Uuid>)
    ensures Keep(a + b, ids) == Keep(a, ids) + Keep(b, ids)
  {
    if a == [] {
      assert a + b == b;
    } else {
      assert (a + b)[1..] == a[1..] + b;
      KeepConcat(a[1..], b, ids);
    }
  }

  lemma {:induction false} KeepUntouched(files: seq<FileEntry>, ids: set<Uuid>)
    requires forall e :: e in files ==> e.uuid !in ids
    ensures Keep(files, ids) == files
  {
    if files != [] {
      KeepUntouched(files[1..], ids);
    }
  }

  lemma {:induction false} KeepTwice(files: seq<FileEntry>, a: set<Uuid>, b: set<Uuid>)
    ensures Keep(Keep(files, a), b) == Keep(files, a + b)
  {
    if files != [] {
      var head := if files[0].uuid in a then [] else [files[0]];
      KeepConcat(head, Keep(files[1..], a), b);
      KeepTwice(files[1..], a, b);
      if files[0].uuid !in a {
        assert [files[0]][1..] == [];
      }
    }
  }

  /** The entries `add_file` appends for records uploaded in this order. */
  function Stored(fs: seq<FileRecord>, idFor: Path -> Uuid, now: int): seq<FileEntry> {
    seq(|fs|, i requires 0 <= i < |fs| => UploadEntry(fs[i], idFor(fs[i].path), now))
  }

  /** The local halves of the pairs. */
  function Locals(ps: seq<Pair>): (r: seq<FileRecord>)
    ensures |r| == |ps| && forall i :: 0 <= i < |ps| ==> r[i] == ps[i].local
  {
    seq(|ps|, i requires 0 <= i < |ps| => ps[i].local)
  }

  lemma StoredExtend(fs: seq<FileRecord>, f: FileRecord, idFor: Path -> Uuid, now: int)
    ensures Stored(fs + [f], idFor, now) == Stored(fs, idFor, now) + [UploadEntry(f, idFor(f.path), now)]
  {
    var a, b := Stored(fs + [f], idFor, now), Stored(fs, idFor, now) + [UploadEntry(f, idFor(f.path), now)];
    forall i | 0 <= i < |a| ensures a[i] == b[i] {
      if i < |fs| {
        assert (fs + [f])[i] == fs[i];
      }
    }
  }

  /** Every stored entry carries an id the vault answered with. */
  lemma StoredIds(fs: seq<FileRecord>, idFor: Path -> Uuid, now: int)
    ensures forall e :: e in Stored(fs, idFor, now) ==> exists p :: e.uuid == idFor(p) && e.path == p
  {
    forall e | e in Stored(fs, idFor, now) ensures exists p :: e.uuid == idFor(p) && e.path == p {
      var i :| 0 <= i < |fs| && Stored(fs, idFor, now)[i] == e;
      assert e.uuid == idFor(fs[i].path);
    }
  }

  lemma LocalsExtend(ps: seq<Pair>, q: Pair)
    ensures Locals(ps + [q]) == Locals(ps) + [q.local]
  {
    var a, b := Locals(ps + [q]), Locals(ps) + [q.local];
    forall i | 0 <= i < |a| ensures a[i] == b[i] {
      if i < |ps| {
        assert (ps + [q])[i] == ps[i];
      }
    }
  }

  /** The archive ids of records that are `RemoteFile`s. */
  ghost function ArchiveIds(fs: seq<FileRecord>): set<Uuid>
    requires forall i :: 0 <= i < |fs| ==> fs[i].RemoteFile?
  {
    set i | 0 <= i < |fs| :: fs[i].uuid
  }

  /** The archive ids of the archived halves of the pairs. */
  ghost function ReplacedIds(ps: seq<Pair>): set<Uuid>
    requires forall i :: 0 <= i < |ps| ==> ps[i].remote.RemoteFile?
  {
    set i | 0 <= i < |ps| :: ps[i].remote.uuid
  }

  lemma ArchiveIdsExtend(fs: seq<FileRecord>, g: FileRecord)
    requires forall i :: 0 <= i < |fs| ==> fs[i].RemoteFile?
    requires g.RemoteFile?
    ensures ArchiveIds(fs + [g]) == ArchiveIds(fs) + {g.uuid}
  {
    var longer := fs + [g];
    forall x | x in ArchiveIds(longer) ensures x in ArchiveIds(fs) + {g.uuid} {
      var i :| 0 <= i < |longer| && longer[i].uuid == x;
      if i < |fs| {
        assert longer[i] == fs[i];
      }
    }
    forall x | x in ArchiveIds(fs) + {g.uuid} ensures x in ArchiveIds(longer) {
      if x == g.uuid {
        assert longer[|fs|] == g;
      } else {
        var i :| 0 <= i < |fs| && fs[i].uuid == x;
        assert longer[i] == fs[i];
      }
    }
  }

  lemma ReplacedIdsExtend(ps: seq<Pair>, q: Pair)
    requires forall i :: 0 <= i < |ps| ==> ps[i].remote.RemoteFile?
    requires q.remote.RemoteFile?
    ensures ReplacedIds(ps + [q]) == ReplacedIds(ps) + {q.remote.uuid}
  {
    var longer := ps + [q];
    forall x | x in ReplacedIds(longer) ensures x in ReplacedIds(ps) + {q.remote.uuid} {
      var i :| 0 <= i < |longer| && longer[i].remote.uuid == x;
      if i < |ps| {
        assert longer[i] == ps[i];
      }
    }
    forall x | x in ReplacedIds(ps) + {q.remote.uuid} ensures x in ReplacedIds(longer) {
      if x == q.remote.uuid {
        assert longer[|ps|] == q;
      } else {
        var i :| 0 <= i < |ps| && ps[i].remote.uuid == x;
        assert longer[i] == ps[i];
      }
    }
  }

  /** The first loop appends one entry per new file. */
  lemma {:induction false} UploadPhase(files: seq<FileEntry>, fs: seq<FileRecord>, idFor: Path -> Uuid, now: int)
    ensures Execute(files, Uploads(fs, idFor), now) == files + Stored(fs, idFor, now)
    decreases |fs|
  {
    if fs == [] {
      assert Uploads(fs, idFor) == [] && Stored(fs, idFor, now) == [];
      assert files + [] == files;
    } else {
      var init, f := fs[..|fs| - 1], fs[|fs| - 1];
      var step := Upload(f, idFor(f.path));
      UploadPhase(files, init, idFor, now);
      assert Uploads(fs, idFor) == Uploads(init, idFor) + [step];
      Extend(files, Uploads(init, idFor), step, now);
      assert Stored(fs, idFor, now) == Stored(init, idFor, now) + [UploadEntry(f, idFor(f.path), now)];
      assert files + Stored(init, idFor, now) + [UploadEntry(f, idFor(f.path), now)] ==
        files + (Stored(init, idFor, now) + [UploadEntry(f, idFor(f.path), now)]);
    }
  }

  /** The second loop filters out the deleted archives. */
  lemma {:induction false} RemovalPhase(files: seq<FileEntry>, gs: seq<FileRecord>, now: int)
    requires forall i :: 0 <= i < |gs| ==> gs[i].RemoteFile?
    ensures Execute(files, Removals(gs), now) == Keep(files, ArchiveIds(gs))
    decreases |gs|
  {
    if gs == [] {
      KeepAll(files);
      assert ArchiveIds(gs) == {};
      assert Removals(gs) == [];
    } else {
      var init, g := gs[..|gs| - 1], gs[|gs| - 1];
      assert gs == init + [g];
      ArchiveIdsExtend(init, g);
      RemovalPhase(files, init, now);
      assert Removals(gs) == Removals(init) + [Remove(g.uuid)];
      Extend(files, Removals(init), Remove(g.uuid), now);
      KeepMore(files, ArchiveIds(init), g.uuid);
    }
  }

  /** One pair of the third loop: the new entry appended, then the old archive filtered out. */
  lemma ReplacementStep(kept: seq<FileEntry>, stored: seq<FileEntry>, files: seq<FileEntry>, ids: set<Uuid>,
                        q: Pair, idFor: Path -> Uuid, now: int)
    requires q.remote.RemoteFile? && kept == Keep(files, ids)
    requires forall e :: e in stored ==> e.uuid != q.remote.uuid
    requires idFor(q.local.path) != q.remote.uuid
    ensures Execute(kept + stored, Replacements([q], idFor), now) ==
      Keep(files, ids + {q.remote.uuid}) + (stored + [UploadEntry(q.local, idFor(q.local.path), now)])
  {
    var up, rm := Upload(q.local, idFor(q.local.path)), Remove(q.remote.uuid);
    var e := UploadEntry(q.local, idFor(q.local.path), now);
    ReplacementsExtend([], q, idFor);
    assert [up, rm] == [up] + [rm];
    Extend(kept + stored, [], up, now);
    Extend(kept + stored, [up], rm, now);
    assert Execute(kept + stored, [], now) == kept + stored;
    assert kept + stored + [e] == kept + (stored + [e]);
    WithoutArchiveConcat(kept, stored + [e], q.remote.uuid);
    KeepMore(files, ids, q.remote.uuid);
    WithoutAbsentArchive(stored + [e], q.remote.uuid);
  }

  /** The third loop: each replaced archive filtered out and each local copy's entry appended. */
  lemma {:induction false} ReplacementPhase(files: seq<FileEntry>, ps: seq<Pair>, idFor: Path -> Uuid, now: int)
    requires forall i :: 0 <= i < |ps| ==> ps[i].remote.RemoteFile?
    requires forall p :: idFor(p) !in ReplacedIds(ps)
    ensures Execute(files, Replacements(ps, idFor), now) == Keep(files, ReplacedIds(ps)) + Stored(Locals(ps), idFor, now)
    decreases |ps|
  {
    if ps == [] {
      KeepAll(files);
      assert ReplacedIds(ps) == {};
      assert Stored(Locals(ps), idFor, now) == [];
      assert files + [] == files;
    } else {
      var init, q := ps[..|ps| - 1], ps[|ps| - 1];
      assert ps == init + [q];
      ReplacedIdsExtend(init, q);
      ReplacementPhase(files, init, idFor, now);
      ReplacementsExtend(init, q, idFor);
      ExecuteConcat(files, Replacements(init, idFor), Replacements([q], idFor), now);
      var stored := Stored(Locals(init), idFor, now);
      assert q.remote.uuid in ReplacedIds(ps);
      StoredIds(Locals(init), idFor, now);
      ReplacementStep(Keep(files, ReplacedIds(init)), stored, files, ReplacedIds(init), q, idFor, now);
      LocalsExtend(init, q);
      StoredExtend(Locals(init), q.local, idFor, now);
    }
  }

  /**
   * A whole pass, when the vault's archive ids are fresh: the entries whose archive was
   * neither deleted nor replaced, in their order, then the entries of the new files, then
   * those of the modified files, each in the order its set was walked.
   */
  lemma SyncClosedForm(files: seq<FileEntry>, newOrder: seq<FileRecord>, goneOrder: seq<FileRecord>,
                       changedOrder: seq<Pair>, idFor: Path -> Uuid, now: int)
    requires forall i :: 0 <= i < |goneOrder| ==> goneOrder[i].RemoteFile?
    requires forall i :: 0 <= i < |changedOrder| ==> changedOrder[i].remote.RemoteFile?
    requires FreshIds(idFor, files)
    requires ArchiveIds(goneOrder) <= Uuids(files) && ReplacedIds(changedOrder) <= Uuids(files)
    ensures Execute(files, SyncPlan(newOrder, goneOrder, changedOrder, idFor), now) ==
      Keep(files, ArchiveIds(goneOrder) + ReplacedIds(changedOrder)) +
      Stored(newOrder, idFor, now) + Stored(Locals(changedOrder), idFor, now)
  {
    var ups, rms, reps := Uploads(newOrder, idFor), Removals(goneOrder), Replacements(changedOrder, idFor);
    var gone, replaced := ArchiveIds(goneOrder), ReplacedIds(changedOrder);
    var s1, s2 := Stored(newOrder, idFor, now), Stored(Locals(changedOrder), idFor, now);
    ExecuteConcat(files, ups + rms, reps, now);
    ExecuteConcat(files, ups, rms, now);
    UploadPhase(files, newOrder, idFor, now);
    RemovalPhase(files + s1, goneOrder, now);
    forall e | e in s1 ensures e.uuid !in Uuids(files) {
      var i :| 0 <= i < |s1| && s1[i] == e;
    }
    KeepConcat(files, s1, gone);
    KeepUntouched(s1, gone);
    ReplacementPhase(Keep(files, gone) + s1, changedOrder, idFor, now);
    KeepConcat(Keep(files, gone), s1, replaced);
    KeepUntouched(s1, replaced);
    KeepTwice(files, gone, replaced);
  }

  /** The archived side `sync` compares against. */
  ghost function Archived(files: seq<FileEntry>): FileSet {
    FromSeq(RemoteRecords(files))
  }

  /** Every path on the archived side is the path of an entry. */
  lemma ArchivedPaths(files: seq<FileEntry>)
    ensures forall p :: p in Archived(files) ==> exists i :: 0 <= i < |files| && files[i].path == p
  {
    var rs := RemoteRecords(files);
    forall p | p in Archived(files) ensures exists i :: 0 <= i < |files| && files[i].path == p {
      var i :| 0 <= i < |rs| && rs[i] == Archived(files)[p];
      assert files[i].path == p;
    }
  }

  /** With one entry per path, the archived side holds each entry's `RemoteFile` view under its path, and nothing else. */
  lemma ArchivedByPath(files: seq<FileEntry>)
    requires Distinct(files, PathOf)
    ensures forall i :: 0 <= i < |files| ==>
      files[i].path in Archived(files) && Archived(files)[files[i].path] == RemoteRecord(files[i])
    ensures forall p :: p in Archived(files) ==> exists i :: 0 <= i < |files| && files[i].path == p
  {
    var rs := RemoteRecords(files);
    assert forall i, j :: 0 <= i < j < |rs| ==> rs[i].path != rs[j].path by {
      forall i, j | 0 <= i < j < |rs| ensures rs[i].path != rs[j].path {
        assert PathOf(files[i]) != PathOf(files[j]);
      }
    }
    FromSeqDistinct(rs);
    forall i | 0 <= i < |files|
      ensures files[i].path in Archived(files) && Archived(files)[files[i].path] == RemoteRecord(files[i])
    {
      assert rs[i] == RemoteRecord(files[i]) && rs[i].path == files[i].path;
    }
    ArchivedPaths(files);
  }

  /** With the modification-time policy alone, a pair is flagged exactly when the local copy is newer. */
  lemma FlagsNewer(q: Pair)
    ensures Flags([LastModifiedDiffer], q) <==> LastModifiedDiffer(q.local, q.remote)
  {
    var differs: seq<Differ> := [LastModifiedDiffer];
    assert differs[0] == LastModifiedDiffer;
  }

  /** The new files walked are the listed records with no archive, each once. */
  lemma WalkNew(local: seq<FileRecord>, files: seq<FileEntry>,
                newOrder: seq<FileRecord>, goneOrder: seq<FileRecord>, changedOrder: seq<Pair>)
    requires Walks(local, files, newOrder, goneOrder, changedOrder)
    ensures var l, m := FromSeq(local), Archived(files);
      && (forall i :: 0 <= i < |newOrder| ==>
            newOrder[i].path in l && newOrder[i].path !in m && l[newOrder[i].path] == newOrder[i])
      && (forall p :: p in l && p !in m ==> l[p] in newOrder)
  {
    var l, m := FromSeq(local), Archived(files);
    var d := SyncDifferences(local, files);
    ClassifyProperties(local, RemoteRecords(files), [LastModifiedDiffer]);
    forall i | 0 <= i < |newOrder|
      ensures newOrder[i].path in l && newOrder[i].path !in m && l[newOrder[i].path] == newOrder[i]
    {
      assert newOrder[i] in d.newFiles.Values;
      var p :| p in d.newFiles && d.newFiles[p] == newOrder[i];
    }
    forall p | p in l && p !in m ensures l[p] in newOrder {
      assert p in d.newFiles;
      assert d.newFiles[p] in d.newFiles.Values;
    }
  }

  /** The deleted files walked are the archived records whose path is no longer listed, each once. */
  lemma WalkGone(local: seq<FileRecord>, files: seq<FileEntry>,
                 newOrder: seq<FileRecord>, goneOrder: seq<FileRecord>, changedOrder: seq<Pair>)
    requires Walks(local, files, newOrder, goneOrder, changedOrder)
    ensures var l, m := FromSeq(local), Archived(files);
      && (forall i :: 0 <= i < |goneOrder| ==>
            goneOrder[i].path in m && goneOrder[i].path !in l && m[goneOrder[i].path] == goneOrder[i])
      && (forall p :: p in m && p !in l ==> m[p] in goneOrder)
  {
    var l, m := FromSeq(local), Archived(files);
    var d := SyncDifferences(local, files);
    ClassifyProperties(local, RemoteRecords(files), [LastModifiedDiffer]);
    forall i | 0 <= i < |goneOrder|
      ensures goneOrder[i].path in m && goneOrder[i].path !in l && m[goneOrder[i].path] == goneOrder[i]
    {
      assert goneOrder[i] in d.deletedFiles.Values;
      var p :| p in d.deletedFiles && d.deletedFiles[p] == goneOrder[i];
    }
    forall p | p in m && p !in l ensures m[p] in goneOrder {
      assert p in d.deletedFiles;
      assert d.deletedFiles[p] in d.deletedFiles.Values;
    }
  }

  /** The modified pairs walked are the listed records newer than their archive, each once. */
  lemma WalkChanged(local: seq<FileRecord>, files: seq<FileEntry>,
                    newOrder: seq<FileRecord>, goneOrder: seq<FileRecord>, changedOrder: seq<Pair>)
    requires Walks(local, files, newOrder, goneOrder, changedOrder)
    ensures var l, m := FromSeq(local), Archived(files);
      && (forall i :: 0 <= i < |changedOrder| ==>
            var p := changedOrder[i].local.path;
            p in l && p in m && changedOrder[i] == Pair(l[p], m[p]) && LastModifiedDiffer(l[p], m[p]))
      && (forall p :: p in l && p in m && LastModifiedDiffer(l[p], m[p]) ==> Pair(l[p], m[p]) in changedOrder)
  {
    var l, m := FromSeq(local), Archived(files);
    var d := SyncDifferences(local, files);
    ClassifyProperties(local, RemoteRecords(files), [LastModifiedDiffer]);
    forall i | 0 <= i < |changedOrder|
      ensures var p := changedOrder[i].local.path;
        p in l && p in m && changedOrder[i] == Pair(l[p], m[p]) && LastModifiedDiffer(l[p], m[p])
    {
      assert changedOrder[i] in d.modified;
      FlagsNewer(changedOrder[i]);
    }
    forall p | p in l && p in m && LastModifiedDiffer(l[p], m[p]) ensures Pair(l[p], m[p]) in changedOrder {
      FlagsNewer(Pair(l[p], m[p]));
    }
  }

  /** Under `Distinct`, an entry is found by its key. */
  lemma SameKeySameIndex(files: seq<FileEntry>, key: FileEntry -> string, i: nat, j: nat)
    requires Distinct(files, key) && i < |files| && j < |files|
    requires key(files[i]) == key(files[j])
    ensures i == j
  {
  }

  /** A path whose archive `sync` replaces or deletes: it is no longer listed, or the listed copy is newer. */
  predicate Superseded(l: FileSet, m: FileSet, p: Path) {
    p !in l || (p in m && LastModifiedDiffer(l[p], m[p]))
  }

  /** Every archive `sync` deletes is that of an entry whose path is gone or whose listed copy is newer. */
  lemma RemovedOwners(local: seq<FileRecord>, files: seq<FileEntry>,
                      newOrder: seq<FileRecord>, goneOrder: seq<FileRecord>, changedOrder: seq<Pair>)
    requires Walks(local, files, newOrder, goneOrder, changedOrder)
    requires Distinct(files, PathOf)
    ensures var l, m := FromSeq(local), Archived(files);
      forall x :: x in ArchiveIds(goneOrder) + ReplacedIds(changedOrder) ==>
        exists j :: (0 <= j < |files| && files[j].uuid == x &&
          Superseded(l, m, files[j].path))
  {
    var l, m := FromSeq(local), Archived(files);
    WalkGone(local, files, newOrder, goneOrder, changedOrder);
    WalkChanged(local, files, newOrder, goneOrder, changedOrder);
    ArchivedByPath(files);
    forall x | x in ArchiveIds(goneOrder) + ReplacedIds(changedOrder)
      ensures exists j :: (0 <= j < |files| && files[j].uuid == x &&
        Superseded(l, m, files[j].path))
    {
      var p: Path;
      if x in ArchiveIds(goneOrder) {
        var k :| 0 <= k < |goneOrder| && goneOrder[k].uuid == x;
        p := goneOrder[k].path;
      } else {
        var k :| 0 <= k < |changedOrder| && changedOrder[k].remote.uuid == x;
        p := changedOrder[k].local.path;
      }
      var j :| 0 <= j < |files| && files[j].path == p;
      assert m[p] == RemoteRecord(files[j]);
    }
  }

  /**
   * With one entry per path and per uuid, `sync` deletes the archive of an entry exactly
   * when its path is no longer listed or the listed copy is newer.
   */
  lemma RemovedExactly(local: seq<FileRecord>, files: seq<FileEntry>,
                       newOrder: seq<FileRecord>, goneOrder: seq<FileRecord>, changedOrder: seq<Pair>)
    requires Walks(local, files, newOrder, goneOrder, changedOrder)
    requires Distinct(files, PathOf) && Distinct(files, UuidOf)
    ensures ArchiveIds(goneOrder) <= Uuids(files) && ReplacedIds(changedOrder) <= Uuids(files)
    ensures var l, m := FromSeq(local), Archived(files);
      forall i :: 0 <= i < |files| ==>
        (files[i].uuid in ArchiveIds(goneOrder) + ReplacedIds(changedOrder) <==>
         Superseded(l, m, files[i].path))
  {
    var l, m := FromSeq(local), Archived(files);
    var removed := ArchiveIds(goneOrder) + ReplacedIds(changedOrder);
    RemovedOwners(local, files, newOrder, goneOrder, changedOrder);
    forall x | x in removed ensures x in Uuids(files) {
      var j :| 0 <= j < |files| && files[j].uuid == x &&
        Superseded(l, m, files[j].path);
      assert files[j] in files;
    }
    forall i | 0 <= i < |files| && files[i].uuid in removed
      ensures Superseded(l, m, files[i].path)
    {
      var j :| 0 <= j < |files| && files[j].uuid == files[i].uuid &&
        Superseded(l, m, files[j].path);
      SameKeySameIndex(files, UuidOf, i, j);
    }
    RemovedCovers(local, files, newOrder, goneOrder, changedOrder);
  }

  /** The archive of an entry whose path is gone or whose listed copy is newer is deleted. */
  lemma RemovedCovers(local: seq<FileRecord>, files: seq<FileEntry>,
                      newOrder: seq<FileRecord>, goneOrder: seq<FileRecord>, changedOrder: seq<Pair>)
    requires Walks(local, files, newOrder, goneOrder, changedOrder)
    requires Distinct(files, PathOf)
    ensures var l, m := FromSeq(local), Archived(files);
      forall i :: 0 <= i < |files| && Superseded(l, m, files[i].path) ==>
        files[i].uuid in ArchiveIds(goneOrder) + ReplacedIds(changedOrder)
  {
    var l, m := FromSeq(local), Archived(files);
    WalkGone(local, files, newOrder, goneOrder, changedOrder);
    WalkChanged(local, files, newOrder, goneOrder, changedOrder);
    ArchivedByPath(files);
    forall i | 0 <= i < |files| && Superseded(l, m, files[i].path)
      ensures files[i].uuid in ArchiveIds(goneOrder) + ReplacedIds(changedOrder)
    {
      var p := files[i].path;
      if p !in l {
        var k :| 0 <= k < |goneOrder| && goneOrder[k] == m[p];
        assert goneOrder[k].uuid in ArchiveIds(goneOrder);
      } else {
        var k :| 0 <= k < |changedOrder| && changedOrder[k] == Pair(l[p], m[p]);
        assert changedOrder[k].remote.uuid in ReplacedIds(changedOrder);
      }
    }
  }

  /** Each file is walked once, so the walked records have distinct paths. */
  lemma WalkedPathsDistinct(local: seq<FileRecord>, files: seq<FileEntry>,
                            newOrder: seq<FileRecord>, goneOrder: seq<FileRecord>, changedOrder: seq<Pair>)
    requires Walks(local, files, newOrder, goneOrder, changedOrder)
    ensures forall i, j :: 0 <= i < j < |newOrder| ==> newOrder[i].path != newOrder[j].path
    ensures forall i, j :: 0 <= i < j < |changedOrder| ==> changedOrder[i].local.path != changedOrder[j].local.path
  {
    WalkNew(local, files, newOrder, goneOrder, changedOrder);
    WalkChanged(local, files, newOrder, goneOrder, changedOrder);
    forall i, j | 0 <= i < j < |newOrder| ensures newOrder[i].path != newOrder[j].path {
      assert newOrder[i] != newOrder[j];
    }
    forall i, j | 0 <= i < j < |changedOrder| ensures changedOrder[i].local.path != changedOrder[j].local.path {
      assert changedOrder[i] != changedOrder[j];
    }
  }

  /** Uploads of records with distinct paths give entries with distinct paths, and distinct uuids when ids are. */
  lemma StoredDistinct(fs: seq<FileRecord>, idFor: Path -> Uuid, now: int)
    requires forall i, j :: 0 <= i < j < |fs| ==> fs[i].path != fs[j].path
    ensures Distinct(Stored(fs, idFor, now), PathOf)
    ensures Injective(idFor) ==> Distinct(Stored(fs, idFor, now), UuidOf)
  {
    var st := Stored(fs, idFor, now);
    forall i, j | 0 <= i < j < |st| ensures PathOf(st[i]) != PathOf(st[j]) {
      assert st[i] == UploadEntry(fs[i], idFor(fs[i].path), now);
      assert st[j] == UploadEntry(fs[j], idFor(fs[j].path), now);
    }
    if Injective(idFor) {
      forall i, j | 0 <= i < j < |st| ensures UuidOf(st[i]) != UuidOf(st[j]) {
        assert st[i].uuid == idFor(fs[i].path) && st[j].uuid == idFor(fs[j].path);
      }
    }
  }

  /** The entry a listed path has after `sync`: the archive kept when nothing is newer, else a fresh upload. */
  ghost function Expected(l: FileSet, m: FileSet, p: Path, idFor: Path -> Uuid, now: int): FileEntry
    requires p in l
  {
    if p in m && m[p].RemoteFile? && !LastModifiedDiffer(l[p], m[p]) then EntryOf(m[p])
    else UploadEntry(l[p], idFor(p), now)
  }

  /** The entries `sync` keeps are the old entries of listed paths whose copy is not newer. */
  lemma KeptEntries(local: seq<FileRecord>, files: seq<FileEntry>,
                    newOrder: seq<FileRecord>, goneOrder: seq<FileRecord>, changedOrder: seq<Pair>)
    requires Walks(local, files, newOrder, goneOrder, changedOrder)
    requires Distinct(files, PathOf) && Distinct(files, UuidOf)
    ensures var l, m := FromSeq(local), Archived(files);
      forall e :: e in Keep(files, ArchiveIds(goneOrder) + ReplacedIds(changedOrder)) ==>
        && e in files && e.path in l && e.path in m && m[e.path] == RemoteRecord(e)
        && !LastModifiedDiffer(l[e.path], m[e.path])
    ensures var l, m := FromSeq(local), Archived(files);
      forall i :: 0 <= i < |files| && !Superseded(l, m, files[i].path) ==>
        files[i] in Keep(files, ArchiveIds(goneOrder) + ReplacedIds(changedOrder))
  {
    var l, m := FromSeq(local), Archived(files);
    var removed := ArchiveIds(goneOrder) + ReplacedIds(changedOrder);
    RemovedExactly(local, files, newOrder, goneOrder, changedOrder);
    ArchivedByPath(files);
    forall e | e in Keep(files, removed)
      ensures && e in files && e.path in l && e.path in m && m[e.path] == RemoteRecord(e)
              && !LastModifiedDiffer(l[e.path], m[e.path])
    {
      var i :| 0 <= i < |files| && files[i] == e;
      assert !Superseded(l, m, files[i].path);
    }
  }

  /** The entries the uploads of new files add: one per listed path with no archive, with the listed time and the path's id. */
  lemma StoredNewEntries(local: seq<FileRecord>, files: seq<FileEntry>,
                         newOrder: seq<FileRecord>, goneOrder: seq<FileRecord>, changedOrder: seq<Pair>,
                         idFor: Path -> Uuid, now: int)
    requires Walks(local, files, newOrder, goneOrder, changedOrder)
    ensures var l, m := FromSeq(local), Archived(files);
      forall e :: e in Stored(newOrder, idFor, now) ==>
        e.path in l && e.path !in m && e == UploadEntry(l[e.path], idFor(e.path), now)
  {
    var l, m := FromSeq(local), Archived(files);
    var s1 := Stored(newOrder, idFor, now);
    WalkNew(local, files, newOrder, goneOrder, changedOrder);
    forall e | e in s1 ensures e.path in l && e.path !in m && e == UploadEntry(l[e.path], idFor(e.path), now) {
      var i :| 0 <= i < |s1| && s1[i] == e;
      assert e.path == newOrder[i].path;
    }
  }

  /** The entries the re-uploads add: one per listed path whose copy is newer than its archive. */
  lemma StoredChangedEntries(local: seq<FileRecord>, files: seq<FileEntry>,
                             newOrder: seq<FileRecord>, goneOrder: seq<FileRecord>, changedOrder: seq<Pair>,
                             idFor: Path -> Uuid, now: int)
    requires Walks(local, files, newOrder, goneOrder, changedOrder)
    ensures var l, m := FromSeq(local), Archived(files);
      forall e :: e in Stored(Locals(changedOrder), idFor, now) ==>
        e.path in l && e.path in m && LastModifiedDiffer(l[e.path], m[e.path]) &&
        e == UploadEntry(l[e.path], idFor(e.path), now)
  {
    var l, m := FromSeq(local), Archived(files);
    var s2 := Stored(Locals(changedOrder), idFor, now);
    WalkChanged(local, files, newOrder, goneOrder, changedOrder);
    forall e | e in s2
      ensures e.path in l && e.path in m && LastModifiedDiffer(l[e.path], m[e.path]) &&
              e == UploadEntry(l[e.path], idFor(e.path), now)
    {
      var i :| 0 <= i < |s2| && s2[i] == e;
      assert e.path == changedOrder[i].local.path;
    }
  }

  /** Every listed path with no archive, or with a newer copy, is uploaded. */
  lemma StoredCovers(local: seq<FileRecord>, files: seq<FileEntry>,
                     newOrder: seq<FileRecord>, goneOrder: seq<FileRecord>, changedOrder: seq<Pair>,
                     idFor: Path -> Uuid, now: int)
    requires Walks(local, files, newOrder, goneOrder, changedOrder)
    ensures var l, m := FromSeq(local), Archived(files);
      forall p :: p in l && (p !in m || LastModifiedDiffer(l[p], m[p])) ==>
        UploadEntry(l[p], idFor(p), now) in Stored(newOrder, idFor, now) + Stored(Locals(changedOrder), idFor, now)
  {
    var l, m := FromSeq(local), Archived(files);
    var s1, s2 := Stored(newOrder, idFor, now), Stored(Locals(changedOrder), idFor, now);
    WalkNew(local, files, newOrder, goneOrder, changedOrder);
    WalkChanged(local, files, newOrder, goneOrder, changedOrder);
    forall p | p in l && (p !in m || LastModifiedDiffer(l[p], m[p])) ensures UploadEntry(l[p], idFor(p), now) in s1 + s2 {
      if p !in m {
        var i :| 0 <= i < |newOrder| && newOrder[i] == l[p];
        assert s1[i] == UploadEntry(l[p], idFor(p), now);
        assert s1[i] in s1 + s2;
      } else {
        var i :| 0 <= i < |changedOrder| && changedOrder[i] == Pair(l[p], m[p]);
        assert s2[i] == UploadEntry(l[p], idFor(p), now);
        assert s2[i] in s1 + s2;
      }
    }
  }

  /** The database `sync` leaves behind, in its closed form, for walks of the differences. */
  lemma SyncResult(local: seq<FileRecord>, files: seq<FileEntry>,
                   newOrder: seq<FileRecord>, goneOrder: seq<FileRecord>, changedOrder: seq<Pair>,
                   idFor: Path -> Uuid, now: int)
    requires Walks(local, files, newOrder, goneOrder, changedOrder)
    requires Distinct(files, PathOf) && Distinct(files, UuidOf) && FreshIds(idFor, files)
    ensures Execute(files, SyncPlan(newOrder, goneOrder, changedOrder, idFor), now) ==
      Keep(files, ArchiveIds(goneOrder) + ReplacedIds(changedOrder)) +
      (Stored(newOrder, idFor, now) + Stored(Locals(changedOrder), idFor, now))
  {
    RemovedExactly(local, files, newOrder, goneOrder, changedOrder);
    SyncClosedForm(files, newOrder, goneOrder, changedOrder, idFor, now);
    var kept, s1, s2 := Keep(files, ArchiveIds(goneOrder) + ReplacedIds(changedOrder)),
      Stored(newOrder, idFor, now), Stored(Locals(changedOrder), idFor, now);
    ConcatAssoc(kept, s1, s2);
  }

  /** Regrouping the closed form's three parts (a separate lemma keeps `SyncResult` cheap). */
  lemma ConcatAssoc(a: seq<FileEntry>, b: seq<FileEntry>, c: seq<FileEntry>)
    ensures a + b + c == a + (b + c)
  {
  }

  /** Every entry after `sync` is the expected entry of a listed path. */
  lemma SyncEntriesSound(local: seq<FileRecord>, files: seq<FileEntry>,
                         newOrder: seq<FileRecord>, goneOrder: seq<FileRecord>, changedOrder: seq<Pair>,
                         idFor: Path -> Uuid, now: int)
    requires Walks(local, files, newOrder, goneOrder, changedOrder)
    requires Distinct(files, PathOf) && Distinct(files, UuidOf) && FreshIds(idFor, files)
    ensures var l, m := FromSeq(local), Archived(files);
      forall e :: e in Execute(files, SyncPlan(newOrder, goneOrder, changedOrder, idFor), now) ==>
        e.path in l && e == Expected(l, m, e.path, idFor, now)
  {
    var l, m := FromSeq(local), Archived(files);
    var kept := Keep(files, ArchiveIds(goneOrder) + ReplacedIds(changedOrder));
    var s1, s2 := Stored(newOrder, idFor, now), Stored(Locals(changedOrder), idFor, now);
    SyncResult(local, files, newOrder, goneOrder, changedOrder, idFor, now);
    KeptEntries(local, files, newOrder, goneOrder, changedOrder);
    StoredNewEntries(local, files, newOrder, goneOrder, changedOrder, idFor, now);
    StoredChangedEntries(local, files, newOrder, goneOrder, changedOrder, idFor, now);
    forall e: FileEntry | e in kept + s1 + s2 ensures e.path in l && e == Expected(l, m, e.path, idFor, now) {
      if e in kept {
        RemoteRecordRoundTrip(e, m[e.path]);
      }
    }
  }

  /** Every listed path has its expected entry after `sync`. */
  lemma SyncEntriesComplete(local: seq<FileRecord>, files: seq<FileEntry>,
                            newOrder: seq<FileRecord>, goneOrder: seq<FileRecord>, changedOrder: seq<Pair>,
                            idFor: Path -> Uuid, now: int)
    requires Walks(local, files, newOrder, goneOrder, changedOrder)
    requires Distinct(files, PathOf) && Distinct(files, UuidOf) && FreshIds(idFor, files)
    ensures var l, m := FromSeq(local), Archived(files);
      forall p :: p in l ==>
        Expected(l, m, p, idFor, now) in Execute(files, SyncPlan(newOrder, goneOrder, changedOrder, idFor), now)
  {
    var l, m := FromSeq(local), Archived(files);
    var kept := Keep(files, ArchiveIds(goneOrder) + ReplacedIds(changedOrder));
    var s1, s2 := Stored(newOrder, idFor, now), Stored(Locals(changedOrder), idFor, now);
    SyncResult(local, files, newOrder, goneOrder, changedOrder, idFor, now);
    KeptEntries(local, files, newOrder, goneOrder, changedOrder);
    StoredCovers(local, files, newOrder, goneOrder, changedOrder, idFor, now);
    ArchivedByPath(files);
    forall p | p in l ensures Expected(l, m, p, idFor, now) in kept + s1 + s2 {
      if p in m && !LastModifiedDiffer(l[p], m[p]) {
        var i :| 0 <= i < |files| && files[i].path == p;
        assert !Superseded(l, m, files[i].path);
        RemoteRecordRoundTrip(files[i], m[p]);
        assert Expected(l, m, p, idFor, now) == files[i];
      }
    }
  }

  /** After `sync` the database has one entry per path. */
  lemma SyncDistinctPaths(local: seq<FileRecord>, files: seq<FileEntry>,
                          newOrder: seq<FileRecord>, goneOrder: seq<FileRecord>, changedOrder: seq<Pair>,
                          idFor: Path -> Uuid, now: int)
    requires Walks(local, files, newOrder, goneOrder, changedOrder)
    requires Distinct(files, PathOf) && Distinct(files, UuidOf) && FreshIds(idFor, files)
    ensures Distinct(Execute(files, SyncPlan(newOrder, goneOrder, changedOrder, idFor), now), PathOf)
  {
    var l, m := FromSeq(local), Archived(files);
    var locals := Locals(changedOrder);
    var kept := Keep(files, ArchiveIds(goneOrder) + ReplacedIds(changedOrder));
    var s1, s2 := Stored(newOrder, idFor, now), Stored(locals, idFor, now);
    SyncResult(local, files, newOrder, goneOrder, changedOrder, idFor, now);
    KeepDistinct(files, ArchiveIds(goneOrder) + ReplacedIds(changedOrder), PathOf);
    WalkedPathsDistinct(local, files, newOrder, goneOrder, changedOrder);
    StoredDistinct(newOrder, idFor, now);
    assert forall i, j :: 0 <= i < j < |locals| ==> locals[i].path != locals[j].path by {
      forall i, j | 0 <= i < j < |locals| ensures locals[i].path != locals[j].path {
        assert locals[i] == changedOrder[i].local && locals[j] == changedOrder[j].local;
      }
    }
    StoredDistinct(locals, idFor, now);
    KeptEntries(local, files, newOrder, goneOrder, changedOrder);
    StoredNewEntries(local, files, newOrder, goneOrder, changedOrder, idFor, now);
    StoredChangedEntries(local, files, newOrder, goneOrder, changedOrder, idFor, now);
    DistinctConcat(kept, s1, PathOf);
    DistinctConcat(kept + s1, s2, PathOf);
    ConcatAssoc(kept, s1, s2);
  }

  /** Uploading two lists is uploading their concatenation. */
  lemma StoredConcat(a: seq<FileRecord>, b: seq<FileRecord>, idFor: Path -> Uuid, now: int)
    ensures Stored(a + b, idFor, now) == Stored(a, idFor, now) + Stored(b, idFor, now)
  {
    var x, y := Stored(a + b, idFor, now), Stored(a, idFor, now) + Stored(b, idFor, now);
    forall k | 0 <= k < |x| ensures x[k] == y[k] {
      if k < |a| {
        assert (a + b)[k] == a[k];
      } else {
        assert (a + b)[k] == b[k - |a|];
      }
    }
  }

  /** Two lists of records with distinct paths, and no path in common, join into one. */
  lemma PathsDistinctConcat(a: seq<FileRecord>, b: seq<FileRecord>)
    requires forall i, j :: 0 <= i < j < |a| ==> a[i].path != a[j].path
    requires forall i, j :: 0 <= i < j < |b| ==> b[i].path != b[j].path
    requires forall i, j :: 0 <= i < |a| && 0 <= j < |b| ==> a[i].path != b[j].path
    ensures forall i, j :: 0 <= i < j < |a + b| ==> (a + b)[i].path != (a + b)[j].path
  {
    var u := a + b;
    forall i, j | 0 <= i < j < |u| ensures u[i].path != u[j].path {
      if j < |a| {
        assert u[i] == a[i] && u[j] == a[j];
      } else if i < |a| {
        assert u[i] == a[i] && u[j] == b[j - |a|];
      } else {
        assert u[i] == b[i - |a|] && u[j] == b[j - |a|];
      }
    }
  }

  /** The records `sync` uploads, new files and then newer copies, have distinct paths. */
  lemma UploadedPathsDistinct(local: seq<FileRecord>, files: seq<FileEntry>,
                              newOrder: seq<FileRecord>, goneOrder: seq<FileRecord>, changedOrder: seq<Pair>)
    requires Walks(local, files, newOrder, goneOrder, changedOrder)
    ensures var u := newOrder + Locals(changedOrder);
      forall i, j :: 0 <= i < j < |u| ==> u[i].path != u[j].path
  {
    var m := Archived(files);
    var locals := Locals(changedOrder);
    WalkedPathsDistinct(local, files, newOrder, goneOrder, changedOrder);
    WalkNew(local, files, newOrder, goneOrder, changedOrder);
    WalkChanged(local, files, newOrder, goneOrder, changedOrder);
    forall i, j | 0 <= i < |newOrder| && 0 <= j < |locals| ensures newOrder[i].path != locals[j].path {
      assert newOrder[i].path !in m && locals[j].path in m;
    }
    PathsDistinctConcat(newOrder, locals);
  }

  /** Uploads take fresh ids, which no old entry carries. */
  lemma StoredFresh(fs: seq<FileRecord>, files: seq<FileEntry>, idFor: Path -> Uuid, now: int)
    requires FreshIds(idFor, files)
    ensures forall e :: e in Stored(fs, idFor, now) ==> e.uuid !in Uuids(files)
  {
    StoredIds(fs, idFor, now);
  }

  /** The uploads of one `sync` carry distinct ids that no old entry carries. */
  lemma UploadedIds(local: seq<FileRecord>, files: seq<FileEntry>,
                    newOrder: seq<FileRecord>, goneOrder: seq<FileRecord>, changedOrder: seq<Pair>,
                    idFor: Path -> Uuid, now: int)
    requires Walks(local, files, newOrder, goneOrder, changedOrder)
    requires FreshIds(idFor, files) && Injective(idFor)
    ensures var uploaded := Stored(newOrder, idFor, now) + Stored(Locals(changedOrder), idFor, now);
      Distinct(uploaded, UuidOf) && forall e :: e in uploaded ==> e.uuid !in Uuids(files)
  {
    var u := newOrder + Locals(changedOrder);
    UploadedPathsDistinct(local, files, newOrder, goneOrder, changedOrder);
    StoredConcat(newOrder, Locals(changedOrder), idFor, now);
    StoredDistinct(u, idFor, now);
    StoredFresh(u, files, idFor, now);
  }

  /** A kept entry carries an old uuid. */
  lemma KeptIds(files: seq<FileEntry>, ids: set<Uuid>)
    ensures forall e :: e in Keep(files, ids) ==> e.uuid in Uuids(files)
  {
    forall e | e in Keep(files, ids) ensures e.uuid in Uuids(files) {
      assert e in files;
    }
  }

  /** Entries with distinct uuids inside and outside a set of uuids join into entries with distinct uuids. */
  lemma SeparatedConcat(a: seq<FileEntry>, b: seq<FileEntry>, ids: set<Uuid>)
    requires Distinct(a, UuidOf) && Distinct(b, UuidOf)
    requires forall e :: e in a ==> e.uuid in ids
    requires forall e :: e in b ==> e.uuid !in ids
    ensures Distinct(a + b, UuidOf)
  {
    DistinctConcat(a, b, UuidOf);
  }

  /** After `sync` the database has one entry per archive, when the vault gives different paths different ids. */
  lemma SyncDistinctUuids(local: seq<FileRecord>, files: seq<FileEntry>,
                          newOrder: seq<FileRecord>, goneOrder: seq<FileRecord>, changedOrder: seq<Pair>,
                          idFor: Path -> Uuid, now: int)
    requires Walks(local, files, newOrder, goneOrder, changedOrder)
    requires Distinct(files, PathOf) && Distinct(files, UuidOf) && FreshIds(idFor, files)
    requires Injective(idFor)
    ensures Distinct(Execute(files, SyncPlan(newOrder, goneOrder, changedOrder, idFor), now), UuidOf)
  {
    var kept := Keep(files, ArchiveIds(goneOrder) + ReplacedIds(changedOrder));
    var uploaded := Stored(newOrder, idFor, now) + Stored(Locals(changedOrder), idFor, now);
    SyncResult(local, files, newOrder, goneOrder, changedOrder, idFor, now);
    KeepDistinct(files, ArchiveIds(goneOrder) + ReplacedIds(changedOrder), UuidOf);
    UploadedIds(local, files, newOrder, goneOrder, changedOrder, idFor, now);
    KeptIds(files, ArchiveIds(goneOrder) + ReplacedIds(changedOrder));
    SeparatedConcat(kept, uploaded, Uuids(files));
  }

  /** The expected entry of a path is filed under that path and is at least as recent as the listed copy. */
  lemma ExpectedPath(l: FileSet, m: FileSet, p: Path, idFor: Path -> Uuid, now: int)
    requires Keyed(l) && Keyed(m) && p in l
    ensures Expected(l, m, p, idFor, now).path == p
    ensures l[p].lastModified <= Expected(l, m, p, idFor, now).lastModified
  {
  }

  /** After `sync` the archived side lists exactly the listed paths, none of them older than its listed copy. */
  lemma SyncedSides(local: seq<FileRecord>, files: seq<FileEntry>,
                    newOrder: seq<FileRecord>, goneOrder: seq<FileRecord>, changedOrder: seq<Pair>,
                    idFor: Path -> Uuid, now: int)
    requires Walks(local, files, newOrder, goneOrder, changedOrder)
    requires Distinct(files, PathOf) && Distinct(files, UuidOf) && FreshIds(idFor, files)
    ensures var l, m := FromSeq(local), Archived(Execute(files, SyncPlan(newOrder, goneOrder, changedOrder, idFor), now));
      (forall p :: p in m <==> p in l) && (forall p :: p in l ==> !LastModifiedDiffer(l[p], m[p]))
  {
    var l, m := FromSeq(local), Archived(files);
    var r := Execute(files, SyncPlan(newOrder, goneOrder, changedOrder, idFor), now);
    var m' := Archived(r);
    SyncEntriesSound(local, files, newOrder, goneOrder, changedOrder, idFor, now);
    SyncEntriesComplete(local, files, newOrder, goneOrder, changedOrder, idFor, now);
    SyncDistinctPaths(local, files, newOrder, goneOrder, changedOrder, idFor, now);
    ArchivedByPath(r);
    forall p | p in m' ensures p in l {
      var i :| 0 <= i < |r| && r[i].path == p;
      assert r[i] in r;
    }
    forall p | p in l ensures p in m' && !LastModifiedDiffer(l[p], m'[p]) {
      var e := Expected(l, m, p, idFor, now);
      ExpectedPath(l, m, p, idFor, now);
      var i :| 0 <= i < |r| && r[i] == e;
      assert m'[p] == RemoteRecord(r[i]);
    }
  }

  /**
   * `sync` converges: right after it, with the same listing, a second `sync` finds nothing
   * new, nothing deleted and nothing modified, so it makes no vault call.
   */
  lemma SyncConverges(local: seq<FileRecord>, files: seq<FileEntry>,
                      newOrder: seq<FileRecord>, goneOrder: seq<FileRecord>, changedOrder: seq<Pair>,
                      idFor: Path -> Uuid, now: int)
    requires Walks(local, files, newOrder, goneOrder, changedOrder)
    requires Distinct(files, PathOf) && Distinct(files, UuidOf) && FreshIds(idFor, files)
    ensures SyncDifferences(local, Execute(files, SyncPlan(newOrder, goneOrder, changedOrder, idFor), now)) ==
      Differences(map[], map[], {})
  {
    var r := Execute(files, SyncPlan(newOrder, goneOrder, changedOrder, idFor), now);
    var l, m := FromSeq(local), Archived(r);
    var d := SyncDifferences(local, r);
    SyncedSides(local, files, newOrder, goneOrder, changedOrder, idFor, now);
    ClassifyProperties(local, RemoteRecords(r), [LastModifiedDiffer]);
    assert d.newFiles == map[] by {
      assert forall p :: p !in d.newFiles;
    }
    assert d.deletedFiles == map[] by {
      assert forall p :: p !in d.deletedFiles;
    }
    assert d.modified == {} by {
      forall q | q in d.modified ensures false {
        FlagsNewer(q);
      }
    }
  }

  /**
   * Two passes of `sync` over the same listing: the first does its closed-form work, the
   * second walks nothing, so the vault sees no further call and the database is unchanged.
   */
  method SyncTwice(gs: GlacierSync, local: seq<FileRecord>, idFor: Path -> Uuid, now: int, later: int)
    returns (newOrder: seq<FileRecord>, goneOrder: seq<FileRecord>, changedOrder: seq<Pair>,
             newAgain: seq<FileRecord>, goneAgain: seq<FileRecord>, changedAgain: seq<Pair>)
    requires gs.Valid()
    requires Distinct(gs.database.files, PathOf) && Distinct(gs.database.files, UuidOf)
    requires FreshIds(idFor, gs.database.files)
    modifies gs.database, gs.vault, gs.remote
    ensures gs.Valid()
    ensures Walks(local, old(gs.database.files), newOrder, goneOrder, changedOrder)
    ensures gs.database.files == Execute(old(gs.database.files), SyncPlan(newOrder, goneOrder, changedOrder, idFor), now)
    ensures gs.vault.log == old(gs.vault.log) + Calls(SyncPlan(newOrder, goneOrder, changedOrder, idFor))
    ensures newAgain == [] && goneAgain == [] && changedAgain == []
  {
    ghost var files0 := gs.database.files;
    newOrder, goneOrder, changedOrder := gs.Sync(local, idFor, now);
    ghost var files1, log1 := gs.database.files, gs.vault.log;
    SyncConverges(local, files0, newOrder, goneOrder, changedOrder, idFor, now);
    newAgain, goneAgain, changedAgain := gs.Sync(local, idFor, later);
    ghost var d := SyncDifferences(local, files1);
    assert d.newFiles.Values == {} && d.deletedFiles.Values == {};
    EnumeratesSize(newAgain, d.newFiles.Values);
    EnumeratesSize(goneAgain, d.deletedFiles.Values);
    EnumeratesSize(changedAgain, d.modified);
    assert Uploads([], idFor) == [] && Removals([]) == [] && SyncPlan([], [], [], idFor) == [];
    assert gs.vault.log == log1 + Calls([]);
    assert gs.database.files == files1;
  }
}
