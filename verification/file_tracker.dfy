/**
 * `FileTracker`: the store of learned files, keyed by path. A file counts
 * as learned when its record's hash equals the hash of its current bytes.
 * Writing the store back to its JSON file is not part of this model: the
 * class holds the store in memory.
 */
module FileTracking {
  import opened Text
  import opened Files

  /** One entry of `learned_files["files"]`. `learnedAt` is the working
      directory at the time of marking (the source stores `Path.cwd()`). */
  datatype Record = Record(
    filename: string,
    hash: string,
    textLength: nat,
    processingMethod: string,
    learnedAt: string,
    size: nat)

  /** The tracking file's contents, as `json.load` returns them. */
  datatype TrackingData = TrackingData(files: map<string, Record>, lastUpdate: Option<string>, totalFilesLearned: nat)

  /** `_get_file_hash`: the MD5 hex digest of the file's bytes; a file that
      cannot be opened or read gives the empty string instead of raising. */
  function FileHash(disk: Disk, p: string): (h: string)
    ensures ReadBytes(disk, p) == None ==> h == ""
    ensures ReadBytes(disk, p) != None ==> h == disk.md5(ReadBytes(disk, p).value)
  {
    match ReadBytes(disk, p)
    case None => ""
    case Some(b) => disk.md5(b)
  }

  /** The learned test of `is_file_learned`, on a given store. The hashes are
      compared as plain strings, so a record stored with the failure hash ""
      matches a file that still cannot be read. */
  predicate Learned(files: map<string, Record>, disk: Disk, p: string) {
    p in files && FileHash(disk, p) == files[p].hash
  }

  function NotLearnedIn(files: map<string, Record>, disk: Disk): string -> bool {
    p => !Learned(files, disk, p)
  }

  /** The sum of the records' text lengths, in no particular order. */
  ghost function TotalTextLength(files: map<string, Record>): nat
    decreases |files|
  {
    if files == map[] then 0
    else
      var k :| k in files;
      files[k].textLength + TotalTextLength(files - {k})
  }

  /** The sum does not depend on which record is taken out first. */
  lemma {:induction false} TotalTextLengthRemove(files: map<string, Record>, k: string)
    requires k in files
    ensures TotalTextLength(files) == files[k].textLength + TotalTextLength(files - {k})
    decreases |files|
  {
    var j :| j in files && TotalTextLength(files) == files[j].textLength + TotalTextLength(files - {j});
    if j != k {
      TotalTextLengthRemove(files - {j}, k);
      TotalTextLengthRemove(files - {k}, j);
      assert files - {j} - {k} == files - {k} - {j};
    }
  }

  /** Upserting one record changes the total by the difference of the two lengths. */
  lemma TotalTextLengthUpsert(files: map<string, Record>, k: string, r: Record)
    ensures TotalTextLength(files[k := r]) + (if k in files then files[k].textLength else 0)
         == TotalTextLength(files) + r.textLength
  {
    var m := files[k := r];
    TotalTextLengthRemove(m, k);
    if k in files {
      TotalTextLengthRemove(files, k);
      assert m - {k} == files - {k};
    } else {
      assert m - {k} == files;
    }
  }

  /** The store after `mark_file_as_learned(p, textLength, processingMethod)`:
      unchanged when `stat()` raises, otherwise `p`'s record written. */
  function MarkedData(t: TrackingData, disk: Disk, p: string, textLength: nat, processingMethod: string, cwd: string): (r: TrackingData)
    ensures p !in disk.files ==> r == t
    ensures p in disk.files ==> Learned(r.files, disk, p) && r.files[p].textLength == textLength
                                && r.totalFilesLearned == |r.files| && r.lastUpdate == Some(cwd)
    ensures forall q :: q != p ==> (q in r.files <==> q in t.files)
    ensures forall q :: q != p && q in r.files ==> r.files[q] == t.files[q]
  {
    if p !in disk.files then t
    else
      var files := t.files[p := Record(BaseName(p), FileHash(disk, p), textLength, processingMethod, cwd, disk.files[p].size)];
      TrackingData(files, Some(cwd), |files|)
  }

  datatype LearnedInfo = LearnedInfo(totalFiles: nat, totalTextLength: nat, files: map<string, Record>)

  class FileTracker {
    var files: map<string, Record>
    var lastUpdate: Option<string>
    var totalFilesLearned: nat

    /** `__init__` / `_load_tracking_data`: the stored data when the tracking
        file exists and parses, otherwise (`None`) the empty store. */
    constructor (stored: Option<TrackingData>)
      ensures stored == None ==> files == map[] && lastUpdate == None && totalFilesLearned == 0
      ensures stored != None ==> files == stored.value.files && lastUpdate == stored.value.lastUpdate
                                 && totalFilesLearned == stored.value.totalFilesLearned
    {
      match stored
      case None =>
        files, lastUpdate, totalFilesLearned := map[], None, 0;
      case Some(d) =>
        files, lastUpdate, totalFilesLearned := d.files, d.lastUpdate, d.totalFilesLearned;
    }

    function State(): TrackingData
      reads this
    {
      TrackingData(files, lastUpdate, totalFilesLearned)
    }

    /** `is_file_learned`. */
    function IsFileLearned(disk: Disk, p: string): (b: bool)
      reads this
      ensures p !in files ==> !b
      ensures p in files ==> (b <==> FileHash(disk, p) == files[p].hash)
    {
      Learned(files, disk, p)
    }

    /** `mark_file_as_learned`. `raised` is the `FileNotFoundError` that
        `stat()` throws for a path that is not there, in which case nothing
        changes. Otherwise only `p`'s record is written (a file that cannot be
        read is stored with the hash ""), the count becomes the number of
        records, and `p` stays learned for as long as its bytes stay the same. */
    method MarkFileAsLearned(disk: Disk, p: string, textLength: nat, processingMethod: string, cwd: string)
      returns (raised: bool)
      modifies this
      ensures raised <==> p !in disk.files
      ensures raised ==> files == old(files) && lastUpdate == old(lastUpdate)
                         && totalFilesLearned == old(totalFilesLearned)
      ensures !raised ==> files == old(files)[p := Record(BaseName(p), FileHash(disk, p), textLength,
                                                          processingMethod, cwd, disk.files[p].size)]
      ensures !raised ==> totalFilesLearned == |files| && lastUpdate == Some(cwd)
      ensures forall q :: q != p ==> (q in files <==> q in old(files))
      ensures forall q :: q != p && q in files ==> files[q] == old(files)[q]
      ensures !raised ==> forall d: Disk :: d.md5 == disk.md5 && ReadBytes(d, p) == ReadBytes(disk, p) ==> IsFileLearned(d, p)
      ensures State() == MarkedData(old(State()), disk, p, textLength, processingMethod, cwd)
    {
      if p !in disk.files {
        return true;
      }
      var hash := FileHash(disk, p);
      files := files[p := Record(BaseName(p), hash, textLength, processingMethod, cwd, disk.files[p].size)];
      totalFilesLearned := |files|;
      lastUpdate := Some(cwd);
      raised := false;
    }

    /** `get_new_files`: the inputs that are not learned, in input order. */
    method GetNewFiles(disk: Disk, paths: seq<string>) returns (r: seq<string>)
      ensures r == Filter(paths, NotLearnedIn(files, disk))
      ensures IsSubsequence(r, paths)
      ensures forall k :: 0 <= k < |r| ==> !IsFileLearned(disk, r[k])
      ensures forall k :: 0 <= k < |paths| && !IsFileLearned(disk, paths[k]) ==> paths[k] in r
    {
      ghost var isNew := NotLearnedIn(files, disk);
      r := [];
      var i := 0;
      while i < |paths|
        invariant 0 <= i <= |paths|
        invariant r == Filter(paths[..i], isNew)
      {
        assert paths[..i + 1][..i] == paths[..i];
        assert isNew(paths[i]) == !IsFileLearned(disk, paths[i]);
        if !IsFileLearned(disk, paths[i]) {
          r := r + [paths[i]];
        }
        i := i + 1;
      }
      TakeAll(paths);
      FilterIsSubsequence(paths, isNew);
      FilterMembers(paths, isNew);
    }

    /** `get_learned_files_info`: the number of records, the sum of their
        text lengths, and the records themselves. */
    method GetLearnedFilesInfo() returns (info: LearnedInfo)
      ensures info.totalFiles == |files|
      ensures info.totalTextLength == TotalTextLength(files)
      ensures info.files == files
    {
      var rest := files;
      var total := 0;
      while rest != map[]
        invariant total + TotalTextLength(rest) == TotalTextLength(files)
        decreases |rest|
      {
        var k :| k in rest;
        TotalTextLengthRemove(rest, k);
        total := total + rest[k].textLength;
        rest := rest - {k};
      }
      info := LearnedInfo(|files|, total, files);
    }

    /** `reset_tracking`: back to the empty store. */
    method ResetTracking()
      modifies this
      ensures files == map[] && lastUpdate == None && totalFilesLearned == 0
    {
      files, lastUpdate, totalFilesLearned := map[], None, 0;
    }
  }

  /** A record written with the failure hash "" keeps matching while the
      file stays unreadable: "" is compared like any other hash. */
  lemma EmptyHashMatchesUnreadable(files: map<string, Record>, disk: Disk, p: string)
    requires p in files && files[p].hash == "" && ReadBytes(disk, p) == None
    ensures Learned(files, disk, p)
  {
  }
}
