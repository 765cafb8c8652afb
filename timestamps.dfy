/**
 * Modification times at the resolution they are read and stored with
 * (glacsync/glacsync.py:119-120, 147-148, 217-223, 35-36). A listed file's time is read
 * with its fraction of a second (`datetime.fromtimestamp(getmtime(...))`), the database
 * stores whole seconds (`timegm(...timetuple())` drops the fraction), and an archived
 * record's time is read back from those whole seconds. Times here are counts of
 * microseconds, or of seconds for stored values, on the local wall clock: `timegm` takes
 * the local wall-clock reading as if it were UTC and `utcfromtimestamp` gives that same
 * reading back, so both sides of the comparison are local wall-clock readings.
 */
module Timestamps {
  import opened Records
  import opened ChangeSet
  import opened Database

  const MicrosPerSecond: int := 1_000_000

  /** What `add_file` stores for a listed time: the whole seconds, the fraction dropped. */
  function StoredSeconds(micros: int): (s: int)
    ensures s * MicrosPerSecond <= micros < (s + 1) * MicrosPerSecond
  {
    micros / MicrosPerSecond
  }

  /** What `RemoteFile.last_modified` reads back for a stored value: that whole second. */
  function ArchivedMicros(stored: int): int {
    stored * MicrosPerSecond
  }

  /** `LastModifiedDiffer` as written: the listed time, fraction included, against the archived one. */
  predicate NewerAsWritten(localMicros: int, stored: int) {
    localMicros > ArchivedMicros(stored)
  }

  /** As written, a file unchanged since its upload is flagged exactly when its time has a fraction of a second. */
  lemma AsWrittenFlagsUnchanged(micros: int)
    ensures NewerAsWritten(micros, StoredSeconds(micros)) <==> micros % MicrosPerSecond != 0
  {
  }

  /** A file modified at 1403701810.5 s and not touched since its upload is uploaded again by every `sync`. */
  lemma ReuploadsUnchangedFile()
    ensures var m := 1_403_701_810_500_000;
      StoredSeconds(m) == 1_403_701_810 && NewerAsWritten(m, StoredSeconds(m))
  {
    var m := 1_403_701_810_500_000;
    assert m == 1_403_701_810 * MicrosPerSecond + 500_000;
  }

  /** The comparison as intended: at the resolution the database keeps. */
  predicate NewerCorrected(localMicros: int, stored: int) {
    StoredSeconds(localMicros) > stored
  }

  /**
   * Corrected, an unchanged file is never flagged; a file modified in a later second is
   * always flagged, and a flagged file was modified after its upload.
   */
  lemma CorrectedComparison(micros: int, later: int)
    ensures !NewerCorrected(micros, StoredSeconds(micros))
    ensures NewerCorrected(later, StoredSeconds(micros)) <==> StoredSeconds(later) > StoredSeconds(micros)
    ensures later >= micros + MicrosPerSecond ==> NewerCorrected(later, StoredSeconds(micros))
    ensures NewerCorrected(later, StoredSeconds(micros)) ==> later > micros
  {
  }

  /**
   * The listed record in the rest of the model: a local record of that path whose time is
   * the whole second the listed time falls in (the corrected listing; the source keeps the fraction).
   */
  function ListedRecord(path: Path, micros: int): (r: FileRecord)
    ensures r.LocalFile? && r.path == path
    ensures r.lastModified * MicrosPerSecond <= micros < (r.lastModified + 1) * MicrosPerSecond
  {
    LocalFile(path, StoredSeconds(micros))
  }

  /**
   * The records of the rest of the model carry whole seconds, so `LastModifiedDiffer`
   * there is the corrected comparison of the listed time with what `add_file` stored.
   */
  lemma ModelComparesCorrected(path: Path, micros: int, later: int, uuid: Uuid, now: int)
    ensures LastModifiedDiffer(ListedRecord(path, later),
                               RemoteRecord(UploadEntry(ListedRecord(path, micros), uuid, now)))
            <==> NewerCorrected(later, StoredSeconds(micros))
  {
  }
}
