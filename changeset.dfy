/**
 * Change detection (glacsync/glacsync.py:57-110): `SimpleDiffer` splits a local and a
 * remote record set into new, deleted and maybe-modified files; modification policies
 * such as `LastModifiedDiffer` decide which maybe-modified pairs to upload again, and
 * `DifferRunner` combines them by "or".
 */
module ChangeSet {
  import opened Records

  /** A local record and the remote record of the same path. */
  datatype Pair = Pair(local: FileRecord, remote: FileRecord)

  /** The three sets `SimpleDiffer.differences` returns. */
  datatype Candidates = Candidates(newFiles: FileSet, deletedFiles: FileSet, maybeModified: set<Pair>)

  /** The three sets `DifferRunner.differences` returns. */
  datatype Differences = Differences(newFiles: FileSet, deletedFiles: FileSet, modified: set<Pair>)

  /** `a - b` on two record sets: the records of `a` filed under a path `b` lacks. */
  function Minus(a: FileSet, b: FileSet): (r: FileSet)
    requires Keyed(a)
    ensures Keyed(r)
    ensures forall p :: p in r ==> p in a && r[p] == a[p]
  {
    map p | p in a && p !in b :: a[p]
  }

  /** `a - b` keeps exactly the records of `a` that no record of `b` is the same file as. */
  lemma MinusExact(a: FileSet, b: FileSet)
    requires Keyed(a) && Keyed(b)
    ensures forall f :: f in Minus(a, b).Values <==>
      f in a.Values && forall g :: g in b.Values ==> !SameFile(f, g)
  {
    var r := Minus(a, b);
    forall f | f in r.Values
      ensures f in a.Values && forall g :: g in b.Values ==> !SameFile(f, g)
    {
      var p :| p in r && r[p] == f;
      assert a[p] == f;
      forall g | g in b.Values ensures !SameFile(f, g) {
        var q :| q in b && b[q] == g;
      }
    }
    forall f | f in a.Values && (forall g :: g in b.Values ==> !SameFile(f, g))
      ensures f in r.Values
    {
      var p :| p in a && a[p] == f;
      assert forall q :: q in b ==> b[q] in b.Values;
      assert r[p] == f;
    }
  }

  /** Every pair of a local and a remote record that are the same file (the loop at glacsync/glacsync.py:70-73). */
  ghost function MatchingPairs(ls: set<FileRecord>, rs: set<FileRecord>): set<Pair> {
    set l, r | l in ls && r in rs && SameFile(l, r) :: Pair(l, r)
  }

  /** The paths a set of pairs covers. */
  ghost function PairPaths(ps: set<Pair>): set<Path> {
    set q | q in ps :: q.local.path
  }

  /** Maybe-modified holds one pair per path on both sides, made of the two records of that path. */
  lemma PairsPerPath(local: FileSet, remote: FileSet)
    requires Keyed(local) && Keyed(remote)
    ensures forall p :: p in local && p in remote ==>
      Pair(local[p], remote[p]) in MatchingPairs(local.Values, remote.Values)
    ensures forall q :: q in MatchingPairs(local.Values, remote.Values) ==>
      q.local.path == q.remote.path && q.local.path in local && q.local.path in remote &&
      q == Pair(local[q.local.path], remote[q.local.path])
    ensures PairPaths(MatchingPairs(local.Values, remote.Values)) == local.Keys * remote.Keys
  {
    var ps := MatchingPairs(local.Values, remote.Values);
    forall p | p in local && p in remote ensures Pair(local[p], remote[p]) in ps {
      assert local[p] in local.Values && remote[p] in remote.Values;
    }
    forall q | q in ps
      ensures q.local.path == q.remote.path && q.local.path in local && q.local.path in remote &&
              q == Pair(local[q.local.path], remote[q.local.path])
    {
      var p :| p in local && local[p] == q.local;
      var p' :| p' in remote && remote[p'] == q.remote;
    }
    forall p | p in local.Keys * remote.Keys ensures p in PairPaths(ps) {
      assert Pair(local[p], remote[p]) in ps;
    }
  }

  /** The paths of new, deleted and maybe-modified files split the paths of both sides. */
  lemma PathsPartition(local: FileSet, remote: FileSet)
    requires Keyed(local) && Keyed(remote)
    ensures var n, d, m := Minus(local, remote).Keys, Minus(remote, local).Keys,
                           PairPaths(MatchingPairs(local.Values, remote.Values));
      n + d + m == local.Keys + remote.Keys && n !! d && n !! m && d !! m
  {
    PairsPerPath(local, remote);
  }

  /**
   * `SimpleDiffer.differences`: the two set differences, then the nested loop over
   * every local and every remote record that collects same-file pairs.
   */
  method SimpleDiffer(local: FileSet, remote: FileSet) returns (c: Candidates)
    requires Keyed(local) && Keyed(remote)
    ensures c.newFiles == Minus(local, remote)
    ensures c.deletedFiles == Minus(remote, local)
    ensures c.maybeModified == MatchingPairs(local.Values, remote.Values)
  {
    var newFiles := Minus(local, remote);
    var deletedFiles := Minus(remote, local);
    var pairs: set<Pair> := {};
    var outer := local.Values;
    while outer != {}
      invariant outer <= local.Values
      invariant pairs == MatchingPairs(local.Values - outer, remote.Values)
      decreases outer
    {
      var l :| l in outer;
      var inner := remote.Values;
      while inner != {}
        invariant inner <= remote.Values
        invariant pairs == MatchingPairs(local.Values - outer, remote.Values) + MatchingPairs({l}, remote.Values - inner)
        decreases inner
      {
        var r :| r in inner;
        if SameFile(l, r) {
          pairs := pairs + {Pair(l, r)};
        }
        inner := inner - {r};
      }
      assert local.Values - (outer - {l}) == (local.Values - outer) + {l};
      outer := outer - {l};
    }
    c := Candidates(newFiles, deletedFiles, pairs);
  }

  /** A modification policy: given a maybe-modified (local, remote) pair, whether to upload the local copy again. */
  type Differ = (FileRecord, FileRecord) -> bool

  /** `LastModifiedDiffer.local_is_modified`: the local copy is newer than the archived one. */
  predicate LastModifiedDiffer(local: FileRecord, remote: FileRecord) {
    Newer(local, remote)
  }

  /** Only a strictly newer local copy is flagged; an older or equally old one is not. */
  lemma LastModifiedDifferIsStrict(local: FileRecord, remote: FileRecord)
    ensures LastModifiedDiffer(local, remote) <==> local.lastModified > remote.lastModified
    ensures local.lastModified <= remote.lastModified ==> !LastModifiedDiffer(local, remote)
    ensures LastModifiedDiffer(local, remote) ==> !LastModifiedDiffer(remote, local)
  {
  }

  /** Some policy of the list flags the pair. */
  ghost predicate Flags(differs: seq<Differ>, q: Pair) {
    exists i :: 0 <= i < |differs| && differs[i](q.local, q.remote)
  }

  /** The pairs of `ps` that some policy flags. */
  ghost function Flagged(ps: set<Pair>, differs: seq<Differ>): set<Pair> {
    set q | q in ps && Flags(differs, q)
  }

  /** What `DifferRunner(localFiles, remoteFiles, differs).differences` computes. */
  ghost function Classify(localFiles: seq<FileRecord>, remoteFiles: seq<FileRecord>, differs: seq<Differ>): Differences {
    var local, remote := FromSeq(localFiles), FromSeq(remoteFiles);
    Differences(Minus(local, remote), Minus(remote, local), Flagged(MatchingPairs(local.Values, remote.Values), differs))
  }

  /** Asking one more policy about a pair. */
  lemma FlagsStep(differs: seq<Differ>, j: nat, q: Pair)
    requires j < |differs|
    ensures Flags(differs[..j + 1], q) <==> Flags(differs[..j], q) || differs[j](q.local, q.remote)
  {
    if differs[j](q.local, q.remote) {
      assert differs[..j + 1][j] == differs[j];
    }
    if Flags(differs[..j + 1], q) && !differs[j](q.local, q.remote) {
      var i :| 0 <= i < j + 1 && differs[..j + 1][i](q.local, q.remote);
      assert differs[..j][i] == differs[..j + 1][i];
    }
    if Flags(differs[..j], q) {
      var i :| 0 <= i < j && differs[..j][i](q.local, q.remote);
      assert differs[..j + 1][i] == differs[..j][i];
    }
  }

  /** One more pair asked about. */
  lemma FlaggedAdd(done: set<Pair>, q: Pair, differs: seq<Differ>)
    ensures Flagged(done + {q}, differs) == Flagged(done, differs) + (if Flags(differs, q) then {q} else {})
  {
  }

  /**
   * `DifferRunner`: collapses both listings into record sets, runs `SimpleDiffer`, and
   * asks every policy about every maybe-modified pair.
   */
  method DifferRunner(localFiles: seq<FileRecord>, remoteFiles: seq<FileRecord>, differs: seq<Differ>)
    returns (d: Differences)
    ensures d == Classify(localFiles, remoteFiles, differs)
  {
    var local, remote := FromSeq(localFiles), FromSeq(remoteFiles);
    var c := SimpleDiffer(local, remote);
    var reupload: set<Pair> := {};
    var todo := c.maybeModified;
    while todo != {}
      invariant todo <= c.maybeModified
      invariant reupload == Flagged(c.maybeModified - todo, differs)
      decreases todo
    {
      var q :| q in todo;
      ghost var before := reupload;
      var j := 0;
      while j < |differs|
        invariant 0 <= j <= |differs|
        invariant reupload == before + (if Flags(differs[..j], q) then {q} else {})
      {
        FlagsStep(differs, j, q);
        if differs[j](q.local, q.remote) {
          reupload := reupload + {q};
        }
        j := j + 1;
      }
      assert differs[..|differs|] == differs;
      FlaggedAdd(c.maybeModified - todo, q, differs);
      assert c.maybeModified - (todo - {q}) == (c.maybeModified - todo) + {q};
      todo := todo - {q};
    }
    d := Differences(c.newFiles, c.deletedFiles, reupload);
  }

  /**
   * What `DifferRunner` promises: new and deleted files are `SimpleDiffer`'s, unchanged;
   * a path on both sides is modified iff some policy flags its pair; every modified pair
   * is maybe-modified; with no policies nothing is modified.
   */
  lemma ClassifyProperties(localFiles: seq<FileRecord>, remoteFiles: seq<FileRecord>, differs: seq<Differ>)
    ensures var d, local, remote := Classify(localFiles, remoteFiles, differs), FromSeq(localFiles), FromSeq(remoteFiles);
      && d.newFiles == Minus(local, remote)
      && d.deletedFiles == Minus(remote, local)
      && d.modified <= MatchingPairs(local.Values, remote.Values)
      && (forall p :: p in local && p in remote ==>
            (Pair(local[p], remote[p]) in d.modified <==> Flags(differs, Pair(local[p], remote[p]))))
      && (forall q :: q in d.modified ==>
            q.local.path in local && q.local.path in remote && q == Pair(local[q.local.path], remote[q.local.path]))
      && (differs == [] ==> d.modified == {})
  {
    PairsPerPath(FromSeq(localFiles), FromSeq(remoteFiles));
  }

  /** Against an empty other side: everything is new (or deleted) and nothing is maybe-modified. */
  lemma AgainstEmpty(files: FileSet)
    requires Keyed(files)
    ensures Minus(files, map[]) == files && Minus(map[], files) == map[]
    ensures MatchingPairs(files.Values, {}) == {} && MatchingPairs({}, files.Values) == {}
  {
  }

  /** A set compared with itself: nothing new, nothing deleted, one pair per record, of that record with itself. */
  lemma SelfComparison(files: FileSet)
    requires Keyed(files)
    ensures Minus(files, files) == map[]
    ensures MatchingPairs(files.Values, files.Values) == set f | f in files.Values :: Pair(f, f)
  {
    var ps := MatchingPairs(files.Values, files.Values);
    forall q | q in ps ensures q.local == q.remote {
      PairsPerPath(files, files);
    }
    forall f | f in files.Values ensures Pair(f, f) in ps {
    }
  }
}
