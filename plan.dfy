/**
 * What one `GlacierSync.sync` pass does, as a list of steps (glacsync/glacsync.py:295-314):
 * uploads of new files, removals of deleted ones, then for every modified pair an upload
 * of the local copy followed by the removal of the archived one. `Execute` is the effect
 * of a list of steps on the database's `files`.
 */
module Plan {
  import opened Records
  import opened ChangeSet
  import opened Database
  import opened Remote

  /** One change: store a local record under the archive id the vault answers with, or delete an archive. */
  datatype Step = Upload(file: FileRecord, archiveId: Uuid) | Remove(archiveId: Uuid)

  /** The vault call a step makes. */
  function CallOf(s: Step): VaultCall {
    match s
    case Upload(f, id) => Created(f.path, id)
    case Remove(id) => Deleted(id)
  }

  /** The database's `files` after one step (`add_file` or `delete_file`). */
  function Apply(files: seq<FileEntry>, s: Step, now: int): seq<FileEntry> {
    match s
    case Upload(f, id) => files + [UploadEntry(f, id, now)]
    case Remove(id) => WithoutArchive(files, id)
  }

  /** The database's `files` after every step, in order. */
  function Execute(files: seq<FileEntry>, plan: seq<Step>, now: int): seq<FileEntry>
    decreases |plan|
  {
    if plan == [] then files
    else Apply(Execute(files, plan[..|plan| - 1], now), plan[|plan| - 1], now)
  }

  /** The vault calls of the steps, in order. */
  function Calls(plan: seq<Step>): seq<VaultCall> {
    seq(|plan|, i requires 0 <= i < |plan| => CallOf(plan[i]))
  }

  /** What `RemoteFilesystem` does for the steps: each vault call, then the database file rewritten. */
  ghost function Journal(files: seq<FileEntry>, plan: seq<Step>, now: int): seq<Event>
    decreases |plan|
  {
    if plan == [] then []
    else Journal(files, plan[..|plan| - 1], now) + [Called(CallOf(plan[|plan| - 1])), Saved(Execute(files, plan, now))]
  }

  /** One more step at the end. */
  lemma Extend(files: seq<FileEntry>, plan: seq<Step>, s: Step, now: int)
    ensures Execute(files, plan + [s], now) == Apply(Execute(files, plan, now), s, now)
    ensures Calls(plan + [s]) == Calls(plan) + [CallOf(s)]
    ensures Journal(files, plan + [s], now) ==
      Journal(files, plan, now) + [Called(CallOf(s)), Saved(Execute(files, plan + [s], now))]
  {
    assert (plan + [s])[..|plan|] == plan;
  }

  /** One more step at the end, seen from the state before the first step and its log and journal. */
  lemma Advance(files: seq<FileEntry>, log: seq<VaultCall>, journal: seq<Event>, plan: seq<Step>, s: Step, now: int)
    ensures Execute(files, plan + [s], now) == Apply(Execute(files, plan, now), s, now)
    ensures log + Calls(plan + [s]) == (log + Calls(plan)) + [CallOf(s)]
    ensures journal + Journal(files, plan + [s], now) ==
      (journal + Journal(files, plan, now)) + [Called(CallOf(s)), Saved(Execute(files, plan + [s], now))]
  {
    Extend(files, plan, s, now);
  }

  /**
   * Every vault call is followed at once by a rewrite of the database file, which then
   * holds the effect of every step up to and including that call.
   */
  lemma {:induction false} JournalAlternates(files: seq<FileEntry>, plan: seq<Step>, now: int)
    ensures |Journal(files, plan, now)| == 2 * |plan|
    ensures forall k :: 0 <= k < |plan| ==>
      Journal(files, plan, now)[2 * k] == Called(CallOf(plan[k])) &&
      Journal(files, plan, now)[2 * k + 1] == Saved(Execute(files, plan[..k + 1], now))
  {
    JournalLength(files, plan, now);
    forall k | 0 <= k < |plan|
      ensures Journal(files, plan, now)[2 * k] == Called(CallOf(plan[k])) &&
              Journal(files, plan, now)[2 * k + 1] == Saved(Execute(files, plan[..k + 1], now))
    {
      JournalAt(files, plan, now, k);
    }
  }

  lemma {:induction false} JournalLength(files: seq<FileEntry>, plan: seq<Step>, now: int)
    ensures |Journal(files, plan, now)| == 2 * |plan|
    decreases |plan|
  {
    if plan != [] {
      JournalLength(files, plan[..|plan| - 1], now);
    }
  }

  /** The two events of the step at `k`. */
  lemma {:induction false} JournalAt(files: seq<FileEntry>, plan: seq<Step>, now: int, k: nat)
    requires k < |plan|
    ensures |Journal(files, plan, now)| == 2 * |plan|
    ensures Journal(files, plan, now)[2 * k] == Called(CallOf(plan[k]))
    ensures Journal(files, plan, now)[2 * k + 1] == Saved(Execute(files, plan[..k + 1], now))
    decreases |plan|
  {
    var init := plan[..|plan| - 1];
    var ji, last := Journal(files, init, now), [Called(CallOf(plan[|plan| - 1])), Saved(Execute(files, plan, now))];
    JournalLength(files, init, now);
    assert Journal(files, plan, now) == ji + last;
    if k < |init| {
      JournalAt(files, init, now, k);
      assert init[k] == plan[k];
      assert init[..k + 1] == plan[..k + 1];
    } else {
      assert plan[..k + 1] == plan;
    }
  }

  /** Two lists of steps run one after the other. */
  lemma {:induction false} ExecuteConcat(files: seq<FileEntry>, a: seq<Step>, b: seq<Step>, now: int)
    ensures Execute(files, a + b, now) == Execute(Execute(files, a, now), b, now)
    ensures Calls(a + b) == Calls(a) + Calls(b)
    ensures Journal(files, a + b, now) == Journal(files, a, now) + Journal(Execute(files, a, now), b, now)
    decreases |b|
  {
    if b == [] {
      assert a + b == a;
    } else {
      var init, s := b[..|b| - 1], b[|b| - 1];
      assert b == init + [s];
      assert a + b == (a + init) + [s];
      ExecuteConcat(files, a, init, now);
      Extend(files, a + init, s, now);
      Extend(Execute(files, a, now), init, s, now);
      Assoc(Calls(a), Calls(init), [CallOf(s)]);
      var x := Execute(files, a, now);
      Assoc(Journal(files, a, now), Journal(x, init, now), [Called(CallOf(s)), Saved(Execute(x, b, now))]);
    }
  }

  /** Two lists of steps run one after the other, seen from the state before the first and its log and journal. */
  lemma Chain(files: seq<FileEntry>, log: seq<VaultCall>, journal: seq<Event>, a: seq<Step>, b: seq<Step>, now: int)
    ensures Execute(Execute(files, a, now), b, now) == Execute(files, a + b, now)
    ensures (log + Calls(a)) + Calls(b) == log + Calls(a + b)
    ensures (journal + Journal(files, a, now)) + Journal(Execute(files, a, now), b, now) == journal + Journal(files, a + b, now)
  {
    ExecuteConcat(files, a, b, now);
    Assoc(log, Calls(a), Calls(b));
    Assoc(journal, Journal(files, a, now), Journal(Execute(files, a, now), b, now));
  }

  lemma Assoc<T>(x: seq<T>, y: seq<T>, z: seq<T>)
    ensures (x + y) + z == x + (y + z)
  {
  }

  /** The first loop of `sync`: one upload per new file, in the order the set is walked. */
  function Uploads(fs: seq<FileRecord>, idFor: Path -> Uuid): seq<Step> {
    seq(|fs|, i requires 0 <= i < |fs| => Upload(fs[i], idFor(fs[i].path)))
  }

  /** The second loop: one removal per deleted (archived) file. */
  function Removals(fs: seq<FileRecord>): seq<Step>
    requires forall i :: 0 <= i < |fs| ==> fs[i].RemoteFile?
  {
    seq(|fs|, i requires 0 <= i < |fs| => Remove(fs[i].uuid))
  }

  /** One more new file: its upload behind the others. */
  lemma UploadsExtend(fs: seq<FileRecord>, f: FileRecord, idFor: Path -> Uuid)
    ensures Uploads(fs + [f], idFor) == Uploads(fs, idFor) + [Upload(f, idFor(f.path))]
  {
  }

  /** One more deleted file: its removal behind the others. */
  lemma RemovalsExtend(fs: seq<FileRecord>, g: FileRecord)
    requires forall i :: 0 <= i < |fs| ==> fs[i].RemoteFile?
    requires g.RemoteFile?
    ensures Removals(fs + [g]) == Removals(fs) + [Remove(g.uuid)]
  {
  }

  /**
   * The third loop: for every modified pair, the upload of the local copy and then the
   * removal of the archived one.
   */
  function Replacements(ps: seq<Pair>, idFor: Path -> Uuid): (r: seq<Step>)
    requires forall i :: 0 <= i < |ps| ==> ps[i].remote.RemoteFile?
    ensures |r| == 2 * |ps|
    decreases |ps|
  {
    if ps == [] then []
    else
      var q := ps[|ps| - 1];
      Replacements(ps[..|ps| - 1], idFor) + [Upload(q.local, idFor(q.local.path)), Remove(q.remote.uuid)]
  }

  /** One more pair: its upload, then its removal, behind the others. */
  lemma ReplacementsExtend(ps: seq<Pair>, q: Pair, idFor: Path -> Uuid)
    requires forall i :: 0 <= i < |ps| ==> ps[i].remote.RemoteFile?
    requires q.remote.RemoteFile?
    ensures Replacements([q], idFor) == [Upload(q.local, idFor(q.local.path)), Remove(q.remote.uuid)]
    ensures Replacements(ps + [q], idFor) == Replacements(ps, idFor) + Replacements([q], idFor)
  {
    assert (ps + [q])[..|ps|] == ps;
    assert [q][..0] == [];
    var pair := [Upload(q.local, idFor(q.local.path)), Remove(q.remote.uuid)];
    assert Replacements([q], idFor) == [] + pair;
  }

  /**
   * Each pair's upload sits at an even place and its removal right after it, so the
   * file is never left without an archive.
   */
  lemma {:induction false} ReplacementOrder(ps: seq<Pair>, idFor: Path -> Uuid)
    requires forall i :: 0 <= i < |ps| ==> ps[i].remote.RemoteFile?
    ensures forall k :: 0 <= k < |ps| ==>
      Replacements(ps, idFor)[2 * k] == Upload(ps[k].local, idFor(ps[k].local.path)) &&
      Replacements(ps, idFor)[2 * k + 1] == Remove(ps[k].remote.uuid)
    decreases |ps|
  {
    if ps != [] {
      var init := ps[..|ps| - 1];
      ReplacementOrder(init, idFor);
      assert Replacements(ps, idFor) == Replacements(init, idFor) + [Upload(ps[|ps| - 1].local, idFor(ps[|ps| - 1].local.path)), Remove(ps[|ps| - 1].remote.uuid)];
      forall k | 0 <= k < |init| ensures init[k] == ps[k] {
      }
    }
  }

  /** Every step of `Replacements` at an even place is an upload, every step at an odd place a removal. */
  lemma ReplacementAt(ps: seq<Pair>, idFor: Path -> Uuid, m: nat)
    requires forall i :: 0 <= i < |ps| ==> ps[i].remote.RemoteFile?
    requires m < 2 * |ps|
    ensures m % 2 == 0 ==> Replacements(ps, idFor)[m] == Upload(ps[m / 2].local, idFor(ps[m / 2].local.path))
    ensures m % 2 == 1 ==> Replacements(ps, idFor)[m] == Remove(ps[m / 2].remote.uuid)
  {
    ReplacementOrder(ps, idFor);
    var k := m / 2;
    assert m == 2 * k || m == 2 * k + 1;
  }

  /** The whole `sync` pass, given the order in which each of the three sets is walked. */
  function SyncPlan(newOrder: seq<FileRecord>, goneOrder: seq<FileRecord>, changedOrder: seq<Pair>, idFor: Path -> Uuid): seq<Step>
    requires forall i :: 0 <= i < |goneOrder| ==> goneOrder[i].RemoteFile?
    requires forall i :: 0 <= i < |changedOrder| ==> changedOrder[i].remote.RemoteFile?
  {
    Uploads(newOrder, idFor) + Removals(goneOrder) + Replacements(changedOrder, idFor)
  }

  /** The archive ids the steps delete. */
  ghost function Removed(plan: seq<Step>): set<Uuid> {
    set i | 0 <= i < |plan| && plan[i].Remove? :: plan[i].archiveId
  }

  /** The archive ids the steps create. */
  ghost function Uploaded(plan: seq<Step>): set<Uuid> {
    set i | 0 <= i < |plan| && plan[i].Upload? :: plan[i].archiveId
  }

  /** The entries whose uuid is not among `ids`, in their order. */
  function Keep(files: seq<FileEntry>, ids: set<Uuid>): (r: seq<FileEntry>)
    ensures forall e :: e in r <==> e in files && e.uuid !in ids
  {
    if files == [] then []
    else (if files[0].uuid in ids then [] else [files[0]]) + Keep(files[1..], ids)
  }

  /** The entries the uploads of the steps add, in order. */
  function UploadEntries(plan: seq<Step>, now: int): (r: seq<FileEntry>)
    ensures forall e :: e in r <==>
      exists i :: 0 <= i < |plan| && plan[i].Upload? && e == UploadEntry(plan[i].file, plan[i].archiveId, now)
    decreases |plan|
  {
    if plan == [] then []
    else
      var s := plan[|plan| - 1];
      UploadEntries(plan[..|plan| - 1], now) + (if s.Upload? then [UploadEntry(s.file, s.archiveId, now)] else [])
  }

  lemma StepSets(plan: seq<Step>, s: Step)
    ensures Removed(plan + [s]) == Removed(plan) + (if s.Remove? then {s.archiveId} else {})
    ensures Uploaded(plan + [s]) == Uploaded(plan) + (if s.Upload? then {s.archiveId} else {})
  {
    var p := plan + [s];
    assert p[|plan|] == s;
    forall i | 0 <= i < |plan| ensures p[i] == plan[i] {
    }
  }

  /** A filter with no ids keeps everything. */
  lemma {:induction false} KeepAll(files: seq<FileEntry>)
    ensures Keep(files, {}) == files
  {
    if files != [] {
      KeepAll(files[1..]);
    }
  }

  /** Deleting one more archive from what a filter kept is filtering by one more id. */
  lemma {:induction false} KeepMore(files: seq<FileEntry>, ids: set<Uuid>, id: Uuid)
    ensures WithoutArchive(Keep(files, ids), id) == Keep(files, ids + {id})
  {
    if files != [] {
      var head := if files[0].uuid in ids then [] else [files[0]];
      WithoutArchiveConcat(head, Keep(files[1..], ids), id);
      KeepMore(files[1..], ids, id);
      if files[0].uuid !in ids {
        assert [files[0]][1..] == [];
      }
    }
  }

  /** The upload entries of one more step. */
  lemma UploadEntriesExtend(plan: seq<Step>, s: Step, now: int)
    ensures UploadEntries(plan + [s], now) ==
      UploadEntries(plan, now) + (if s.Upload? then [UploadEntry(s.file, s.archiveId, now)] else [])
  {
    assert (plan + [s])[..|plan|] == plan;
  }

  /** An upload step appends its entry behind the others. */
  lemma ClosedFormUpload(files: seq<FileEntry>, init: seq<Step>, f: FileRecord, id: Uuid, now: int)
    requires Execute(files, init, now) == Keep(files, Removed(init)) + UploadEntries(init, now)
    ensures Execute(files, init + [Upload(f, id)], now) ==
      Keep(files, Removed(init + [Upload(f, id)])) + UploadEntries(init + [Upload(f, id)], now)
  {
    var s := Upload(f, id);
    Extend(files, init, s, now);
    StepSets(init, s);
    UploadEntriesExtend(init, s, now);
    assert Removed(init + [s]) == Removed(init);
    var kept, ups := Keep(files, Removed(init)), UploadEntries(init, now);
    assert Execute(files, init + [s], now) == kept + ups + [UploadEntry(f, id, now)];
    assert kept + ups + [UploadEntry(f, id, now)] == kept + (ups + [UploadEntry(f, id, now)]);
  }

  /** A removal of an id no earlier upload created only filters the original entries. */
  lemma ClosedFormRemove(files: seq<FileEntry>, init: seq<Step>, id: Uuid, now: int)
    requires id !in Uploaded(init)
    requires Execute(files, init, now) == Keep(files, Removed(init)) + UploadEntries(init, now)
    ensures Execute(files, init + [Remove(id)], now) ==
      Keep(files, Removed(init + [Remove(id)])) + UploadEntries(init + [Remove(id)], now)
  {
    var s := Remove(id);
    Extend(files, init, s, now);
    StepSets(init, s);
    UploadEntriesExtend(init, s, now);
    var kept, ups := Keep(files, Removed(init)), UploadEntries(init, now);
    WithoutArchiveConcat(kept, ups, id);
    KeepMore(files, Removed(init), id);
    forall e | e in ups ensures e.uuid != id {
      var i :| 0 <= i < |init| && init[i].Upload? && e == UploadEntry(init[i].file, init[i].archiveId, now);
      assert e.uuid in Uploaded(init);
    }
    WithoutAbsentArchive(ups, id);
    assert ups + [] == ups;
  }

  /**
   * When no step deletes an archive a step creates, the result is the original entries
   * minus the deleted archives, in their order, followed by one entry per upload, in order.
   */
  lemma {:induction false} ExecuteClosedForm(files: seq<FileEntry>, plan: seq<Step>, now: int)
    requires Uploaded(plan) !! Removed(plan)
    ensures Execute(files, plan, now) == Keep(files, Removed(plan)) + UploadEntries(plan, now)
  {
    if plan == [] {
      KeepAll(files);
      assert Removed(plan) == {};
      assert files + [] == files;
    } else {
      var init, s := plan[..|plan| - 1], plan[|plan| - 1];
      assert plan == init + [s];
      StepSets(init, s);
      ExecuteClosedForm(files, init, now);
      match s {
        case Upload(f, id) => ClosedFormUpload(files, init, f, id, now);
        case Remove(id) => ClosedFormRemove(files, init, id, now);
      }
    }
  }
}
