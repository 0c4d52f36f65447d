/**
 * `IncrementalDataProcessor`: one ingestion run. The input is resolved to
 * candidate files, the tracker keeps the new ones, each of those is loaded,
 * checked against two length thresholds and cleaned, the accepted ones are
 * recorded and marked learned, and the records are appended to the corpus.
 *
 * The corpus file (`pdf_history_data.json`) is held in memory as a
 * `CorpusFile` value; the tracker is the `FileTracker` class. The run is
 * stated over `load_file` and `clean_text` as given functions (an
 * `Extraction`).
 */
module Incremental {
  import opened Text
  import opened Files
  import opened FileTracking
  import DataProcessing
  import MetadataFilter

  /** `data_path` as `process_new_files` receives it: a path, a list of
      paths, or a value of any other type. */
  datatype DataPath = PathArg(path: string) | ListArg(paths: seq<string>) | OtherArg

  const SupportedExtensions: set<string> := {".pdf", ".txt", ".doc", ".docx", ".djvu", ".fb2"}

  predicate IsSupported(f: string) {
    Lower(Suffix(f)) in SupportedExtensions
  }

  /** The candidate files: the supported entries of a directory, a list as
      it is, any other path on its own; `None` is the `ValueError` for an
      input of another type. */
  function ResolveFiles(disk: Disk, arg: DataPath): (r: Option<seq<string>>)
    ensures r == None <==> arg.OtherArg?
    ensures arg.ListArg? ==> r == Some(arg.paths)
    ensures arg.PathArg? && arg.path !in disk.dirs ==> r == Some([arg.path])
    ensures arg.PathArg? && arg.path in disk.dirs ==>
      IsSubsequence(r.value, disk.dirs[arg.path])
      && (forall k :: 0 <= k < |r.value| ==> IsSupported(r.value[k]))
      && (forall k :: 0 <= k < |disk.dirs[arg.path]| && IsSupported(disk.dirs[arg.path][k]) ==>
            disk.dirs[arg.path][k] in r.value)
  {
    match arg
    case ListArg(paths) => Some(paths)
    case PathArg(p) =>
      if p in disk.dirs then
        var entries := disk.dirs[p];
        FilterIsSubsequence(entries, IsSupported);
        FilterMembers(entries, IsSupported);
        Some(Filter(entries, IsSupported))
      else Some([p])
    case OtherArg => None
  }

  /** One record of the corpus. */
  datatype DataEntry = DataEntry(
    filename: string,
    text: string,
    originalLength: nat,
    processedLength: nat,
    filePath: string)

  const ProcessingMethod: string := "incremental_processing"

  /** `load_file` and `clean_text`; in the source they are
      `DataProcessing.LoadFile` on the file system and
      `DataProcessing.CleanText` with the book-metadata filter, if any. */
  datatype Extraction = Extraction(load: string -> DataProcessing.LoadResult, clean: string -> string)

  /** What `clean_text` guarantees of its result and the records rely on:
      no longer than its input, a single line, no surrounding whitespace. */
  ghost predicate CleansToOneLine(clean: string -> string) {
    forall s :: |clean(s)| <= |s| && '\n' !in clean(s) && Trimmed(clean(s))
  }

  lemma CleanTextCleansToOneLine(filter: Option<MetadataFilter.BookMetadataFilter>)
    ensures CleansToOneLine(s => DataProcessing.CleanText(filter, s))
  {
  }

  /** The record `process_new_files` makes of one file, or `None` when the
      file is dropped: loading raised, or the stripped text has at most 200
      characters, or the cleaned text at most 100 after stripping. */
  function Candidate(ext: Extraction, f: string): (r: Option<DataEntry>)
    ensures r != None ==>
      ext.load(f).Loaded? && |Strip(ext.load(f).text)| > 200
      && r.value.text == ext.clean(Strip(ext.load(f).text)) && |Strip(r.value.text)| > 100
      && r.value.originalLength == |ext.load(f).text| && r.value.processedLength == |r.value.text|
      && r.value.filePath == f && r.value.filename == BaseName(f)
    ensures r == None ==>
      !ext.load(f).Loaded? || |Strip(ext.load(f).text)| <= 200
      || |Strip(ext.clean(Strip(ext.load(f).text)))| <= 100
  {
    match ext.load(f)
    case Raised => None
    case Loaded(text) =>
      if text == "" then None
      else
        var cleaned := Strip(text);
        if |cleaned| <= 200 then None
        else
          var final := ext.clean(cleaned);
          if final != "" && |Strip(final)| > 100 then
            Some(DataEntry(BaseName(f), final, |text|, |final|, f))
          else None
  }

  /** With `clean_text`'s guarantees, a record's text is one line of more
      than 100 characters without surrounding whitespace, no longer than
      the loaded text. */
  lemma CandidateShape(ext: Extraction, f: string)
    requires CleansToOneLine(ext.clean) && Candidate(ext, f) != None
    ensures var e := Candidate(ext, f).value;
      100 < |e.text| <= e.originalLength && '\n' !in e.text && Trimmed(e.text)
  {
    var e := Candidate(ext, f).value;
    var t := Strip(ext.load(f).text);
    assert |ext.clean(t)| <= |t| && Trimmed(ext.clean(t));
    StripOfUnpadded(e.text);
  }

  lemma CandidateNotLoaded(ext: Extraction, f: string)
    requires !ext.load(f).Loaded? || ext.load(f).text == ""
    ensures Candidate(ext, f) == None
  {
  }

  lemma CandidateTooShort(ext: Extraction, f: string)
    requires ext.load(f).Loaded? && |Strip(ext.load(f).text)| <= 200
    ensures Candidate(ext, f) == None
  {
  }

  lemma CandidateCleaned(ext: Extraction, f: string)
    requires ext.load(f).Loaded? && ext.load(f).text != "" && |Strip(ext.load(f).text)| > 200
    ensures var text := ext.load(f).text;
      var final := ext.clean(Strip(text));
      Candidate(ext, f) == if final != "" && |Strip(final)| > 100 then Some(DataEntry(BaseName(f), final, |text|, |final|, f)) else None
  {
  }

  function CandidateOf(ext: Extraction): string -> Option<DataEntry> {
    f => Candidate(ext, f)
  }

  /** The records of the accepted files, in file order. */
  function Records(ext: Extraction, files: seq<string>): seq<DataEntry> {
    Picked(files, CandidateOf(ext))
  }

  lemma RecordsSnoc(ext: Extraction, files: seq<string>, i: nat)
    requires i < |files|
    ensures Records(ext, files[..i + 1]) ==
      Records(ext, files[..i]) + (if Candidate(ext, files[i]) == None then [] else [Candidate(ext, files[i]).value])
  {
    PickedSnoc(files, i, CandidateOf(ext));
  }

  /** Every accepted file has its record among the records. */
  lemma RecordsComplete(ext: Extraction, files: seq<string>, k: nat)
    requires k < |files| && Candidate(ext, files[k]) != None
    ensures Candidate(ext, files[k]).value in Records(ext, files)
  {
    PickedComplete(files, CandidateOf(ext), k);
  }

  /** No accepted file, no records. */
  lemma RecordsNone(ext: Extraction, files: seq<string>)
    requires forall k :: 0 <= k < |files| ==> Candidate(ext, files[k]) == None
    ensures Records(ext, files) == []
  {
    PickedNone(files, CandidateOf(ext));
  }

  /** The tracker after `mark_file_as_learned` on each record's file, in order. */
  function MarkAll(t: TrackingData, disk: Disk, entries: seq<DataEntry>, cwd: string): TrackingData {
    if |entries| == 0 then t
    else
      var e := entries[|entries| - 1];
      MarkedData(MarkAll(t, disk, entries[..|entries| - 1], cwd), disk, e.filePath, e.processedLength, ProcessingMethod, cwd)
  }

  lemma MarkAllSnoc(t: TrackingData, disk: Disk, entries: seq<DataEntry>, e: DataEntry, cwd: string)
    ensures MarkAll(t, disk, entries + [e], cwd)
         == MarkedData(MarkAll(t, disk, entries, cwd), disk, e.filePath, e.processedLength, ProcessingMethod, cwd)
  {
    assert (entries + [e])[..|entries|] == entries;
  }

  /** One step of the loop keeps the records and the tracker state in line
      with `Records` and `MarkAll` over the files seen so far. */
  lemma ProcessStep(ext: Extraction, disk: Disk, cwd: string, t0: TrackingData, files: seq<string>, i: nat,
                    done: seq<DataEntry>, entry: Option<DataEntry>)
    requires i < |files| && done == Records(ext, files[..i]) && entry == Candidate(ext, files[i])
    ensures entry.None? ==> done == Records(ext, files[..i + 1])
    ensures entry.Some? ==> done + [entry.value] == Records(ext, files[..i + 1])
    ensures entry.Some? ==> MarkAll(t0, disk, done + [entry.value], cwd)
                            == MarkedData(MarkAll(t0, disk, done, cwd), disk, files[i], entry.value.processedLength, ProcessingMethod, cwd)
  {
    RecordsSnoc(ext, files, i);
    if entry.Some? {
      MarkAllSnoc(t0, disk, done, entry.value, cwd);
    }
  }

  /** Every recorded file that `stat()` finds ends up learned. */
  lemma {:induction false} MarkAllLearned(t: TrackingData, disk: Disk, entries: seq<DataEntry>, cwd: string, k: nat)
    requires k < |entries| && entries[k].filePath in disk.files
    ensures Learned(MarkAll(t, disk, entries, cwd).files, disk, entries[k].filePath)
  {
    var init := entries[..|entries| - 1];
    var last := entries[|entries| - 1];
    if k < |entries| - 1 && last.filePath != entries[k].filePath {
      MarkAllLearned(t, disk, init, cwd, k);
    }
  }

  /** A file without a record keeps its tracker entry, or its absence. */
  lemma {:induction false} MarkAllUntouched(t: TrackingData, disk: Disk, entries: seq<DataEntry>, cwd: string, q: string)
    requires forall k :: 0 <= k < |entries| ==> entries[k].filePath != q
    ensures var m := MarkAll(t, disk, entries, cwd).files;
      (q in m <==> q in t.files) && (q in m ==> m[q] == t.files[q])
  {
    if |entries| > 0 {
      MarkAllUntouched(t, disk, entries[..|entries| - 1], cwd, q);
    }
  }

  /** A file that was new and is accepted has a record. */
  lemma AcceptedIsRecorded(ext: Extraction, files: seq<string>, q: string)
    requires q in files && Candidate(ext, q) != None
    ensures exists j :: 0 <= j < |Records(ext, files)| && Records(ext, files)[j].filePath == q
  {
    var k :| 0 <= k < |files| && files[k] == q;
    RecordsComplete(ext, files, k);
    var e := Candidate(ext, q).value;
    var j :| 0 <= j < |Records(ext, files)| && Records(ext, files)[j] == e;
  }

  /** A file that is not learned after the marking and has no record was
      not learned before it either. */
  lemma UnrecordedWasNew(t: TrackingData, disk: Disk, entries: seq<DataEntry>, cwd: string, q: string)
    requires forall k :: 0 <= k < |entries| ==> entries[k].filePath != q
    requires !Learned(MarkAll(t, disk, entries, cwd).files, disk, q)
    ensures !Learned(t.files, disk, q)
  {
    MarkAllUntouched(t, disk, entries, cwd, q);
  }

  /** Once the accepted files of a run have been marked (they all exist),
      a second run over the same candidates with the same contents finds
      nothing to record: the accepted files are learned now, and the others
      are rejected again. */
  lemma SecondRunFindsNothing(ext: Extraction, disk: Disk, t: TrackingData, all: seq<string>, cwd: string, first: seq<DataEntry>)
    requires first == Records(ext, Filter(all, NotLearnedIn(t.files, disk)))
    requires forall k :: 0 <= k < |first| ==> first[k].filePath in disk.files
    ensures Records(ext, Filter(all, NotLearnedIn(MarkAll(t, disk, first, cwd).files, disk))) == []
  {
    var new1 := Filter(all, NotLearnedIn(t.files, disk));
    var after := MarkAll(t, disk, first, cwd);
    var new2 := Filter(all, NotLearnedIn(after.files, disk));
    FilterMembers(all, NotLearnedIn(t.files, disk));
    FilterMembers(all, NotLearnedIn(after.files, disk));
    forall k | 0 <= k < |new2| ensures Candidate(ext, new2[k]) == None {
      var q := new2[k];
      assert !Learned(after.files, disk, q);
      if Candidate(ext, q) != None {
        if j :| 0 <= j < |first| && first[j].filePath == q {
          MarkAllLearned(t, disk, first, cwd, j);
        } else {
          UnrecordedWasNew(t, disk, first, cwd, q);
          var i :| 0 <= i < |all| && all[i] == q;
          AcceptedIsRecorded(ext, new1, q);
        }
      }
    }
    RecordsNone(ext, new2);
  }

  /** `pdf_history_data.json`: absent, not loadable by `json.load`, loaded
      as a document that is not a list (a dict, a string or a scalar, with
      `len(data)`, 0 for a scalar whose `len` raises), or its records. Only
      an absent file and a list can be extended; the update fails on the
      others and is logged. */
  datatype CorpusFile = Missing | Unreadable | NotAList(size: nat) | Stored(records: seq<DataEntry>)

  /** The corpus can take `existing_data.extend(new_data)`. */
  predicate Extendable(c: CorpusFile) {
    c.Missing? || c.Stored?
  }

  /** The corpus after `_update_processed_data_file(newData)`. */
  function Appended(c: CorpusFile, newData: seq<DataEntry>): (r: CorpusFile)
    ensures !Extendable(c) ==> r == c
    ensures Extendable(c) ==> r.Stored? && r.records == CorpusRecords(c) + newData
  {
    match c
    case Missing => Stored(newData)
    case Unreadable => c
    case NotAList(_) => c
    case Stored(records) => Stored(records + newData)
  }

  function CorpusRecords(c: CorpusFile): seq<DataEntry> {
    if c.Stored? then c.records else []
  }

  /** `total_records` of `get_processing_stats`: `len(data)` of whatever
      the file loads as; 0 when it is absent or cannot be loaded. */
  function TotalRecords(c: CorpusFile): (n: nat)
    ensures c.Missing? || c.Unreadable? ==> n == 0
    ensures c.NotAList? ==> n == c.size
    ensures c.Stored? ==> n == |c.records|
  {
    match c
    case NotAList(size) => size
    case _ => |CorpusRecords(c)|
  }

  /** Appending to an extendable corpus adds exactly the new records to the
      count; any other corpus keeps its count. */
  lemma AppendedCount(c: CorpusFile, newData: seq<DataEntry>)
    ensures Extendable(c) ==> TotalRecords(Appended(c, newData)) == TotalRecords(c) + |newData|
    ensures Extendable(c) ==> CorpusRecords(Appended(c, newData))[..TotalRecords(c)] == CorpusRecords(c)
    ensures !Extendable(c) ==> TotalRecords(Appended(c, newData)) == TotalRecords(c)
  {
  }

  datatype ProcessingStats = ProcessingStats(learnedFiles: nat, totalTextLength: nat, totalRecords: nat, trackingFile: string)

  class IncrementalDataProcessor {
    const tracker: FileTracker
    const trackingFile: string
    var corpus: CorpusFile

    /** `__init__`: the tracker loaded from `trackingFile` (`stored`, or
        `None` when missing or unreadable), and the corpus file as found. */
    constructor (stored: Option<TrackingData>, trackingFile: string, corpus: CorpusFile)
      ensures fresh(tracker)
      ensures stored == None ==> tracker.State() == TrackingData(map[], None, 0)
      ensures stored != None ==> tracker.State() == stored.value
      ensures this.trackingFile == trackingFile && this.corpus == corpus
    {
      tracker := new FileTracker(stored);
      this.trackingFile := trackingFile;
      this.corpus := corpus;
    }

    /** `process_new_files`. `None` is the `ValueError` for an input of an
        unsupported type. Otherwise the result is the records of the new
        files that are accepted, in order; each of them is marked learned as
        its record is made, and a non-empty result is appended to the corpus.
        `cwd` is what the tracker stores as the marking time. */
    method ProcessNewFiles(ext: Extraction, disk: Disk, cwd: string, arg: DataPath) returns (r: Option<seq<DataEntry>>)
      modifies this, tracker
      ensures r == None <==> arg.OtherArg?
      ensures r == None ==> tracker.State() == old(tracker.State()) && corpus == old(corpus)
      ensures r != None ==>
        var newFiles := Filter(ResolveFiles(disk, arg).value, NotLearnedIn(old(tracker.files), disk));
        r.value == Records(ext, newFiles)
        && tracker.State() == MarkAll(old(tracker.State()), disk, r.value, cwd)
        && corpus == (if r.value == [] then old(corpus) else Appended(old(corpus), r.value))
    {
      var all := ResolveFiles(disk, arg);
      if all == None {
        return None;
      }
      var newFiles := tracker.GetNewFiles(disk, all.value);
      if |newFiles| == 0 {
        return Some([]);
      }
      var newData := ProcessFiles(ext, disk, cwd, newFiles);
      if |newData| > 0 {
        UpdateProcessedDataFile(newData);
      }
      return Some(newData);
    }

    /** The loop of `process_new_files` over the new files: each accepted
        file's record is appended and the file is marked learned. A file
        that raises on loading, or on marking (`stat()` after the file has
        gone), is logged and the loop goes on. */
    method ProcessFiles(ext: Extraction, disk: Disk, cwd: string, newFiles: seq<string>) returns (newData: seq<DataEntry>)
      modifies tracker
      ensures newData == Records(ext, newFiles)
      ensures tracker.State() == MarkAll(old(tracker.State()), disk, newData, cwd)
    {
      newData := [];
      ghost var t0 := tracker.State();
      var i := 0;
      while i < |newFiles|
        invariant 0 <= i <= |newFiles|
        invariant newData == Records(ext, newFiles[..i])
        invariant tracker.State() == MarkAll(t0, disk, newData, cwd)
      {
        var entry := ProcessFile(ext, disk, cwd, newFiles[i]);
        ProcessStep(ext, disk, cwd, t0, newFiles, i, newData, entry);
        if entry.Some? {
          newData := newData + [entry.value];
        }
        i := i + 1;
      }
      TakeAll(newFiles);
    }

    /** One pass of that loop: load, strip, clean and test the thresholds;
        an accepted file gives its record and is then marked learned. */
    method ProcessFile(ext: Extraction, disk: Disk, cwd: string, f: string) returns (entry: Option<DataEntry>)
      modifies tracker
      ensures entry == Candidate(ext, f)
      ensures entry.None? ==> tracker.State() == old(tracker.State())
      ensures entry.Some? ==>
        tracker.State() == MarkedData(old(tracker.State()), disk, f, entry.value.processedLength, ProcessingMethod, cwd)
    {
      var loaded := ext.load(f);
      if loaded.Loaded? && loaded.text != "" {
        var text := loaded.text;
        var cleanedText := Strip(text);
        if |cleanedText| > 200 {
          var finalText := ext.clean(cleanedText);
          CandidateCleaned(ext, f);
          if finalText != "" && |Strip(finalText)| > 100 {
            entry := Some(DataEntry(BaseName(f), finalText, |text|, |finalText|, f));
            var _ := tracker.MarkFileAsLearned(disk, f, |finalText|, ProcessingMethod, cwd);
            return;
          }
        } else {
          CandidateTooShort(ext, f);
        }
      } else {
        CandidateNotLoaded(ext, f);
      }
      entry := None;
    }

    /** `_update_processed_data_file`: the stored records followed by the new
        ones; a corpus that cannot be loaded is left as it is. */
    method UpdateProcessedDataFile(newData: seq<DataEntry>)
      modifies this
      ensures corpus == Appended(old(corpus), newData)
    {
      match corpus
      case Unreadable =>
      case NotAList(_) =>
      case Missing =>
        corpus := Stored(newData);
      case Stored(existing) =>
        corpus := Stored(existing + newData);
    }

    /** `get_processing_stats`. */
    method GetProcessingStats() returns (s: ProcessingStats)
      ensures s.learnedFiles == |tracker.files|
      ensures s.totalTextLength == TotalTextLength(tracker.files)
      ensures s.totalRecords == TotalRecords(corpus)
      ensures s.trackingFile == trackingFile
    {
      var info := tracker.GetLearnedFilesInfo();
      var totalRecords := 0;
      match corpus {
        case Stored(records) => totalRecords := |records|;
        case NotAList(size) => totalRecords := size;
        case _ =>
      }
      s := ProcessingStats(info.totalFiles, info.totalTextLength, totalRecords, trackingFile);
    }

    /** `reset_learning`: an empty tracker and no corpus file. */
    method ResetLearning()
      modifies this, tracker
      ensures tracker.State() == TrackingData(map[], None, 0)
      ensures corpus == Missing
    {
      tracker.ResetTracking();
      corpus := Missing;
    }
  }
}
