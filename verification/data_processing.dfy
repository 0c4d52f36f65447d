/**
 * `data_processing.py`: loading a file of any supported format as text,
 * `clean_text`, and `split_text_into_chunks`.
 *
 * The libraries the loaders call (the UTF-8 and cp1251 codecs, `json`,
 * pandas, pdfplumber, PyPDF2, python-docx, PyMuPDF, docx2txt, olefile,
 * the antiword and catdoc programs, `zipfile` and BeautifulSoup) are
 * given as the fields of an `Env`; the decisions the loaders take on what
 * those return are modelled as written.
 */
module DataProcessing {
  import opened Text
  import opened Files
  import Json
  import MetadataFilter

  datatype Encoding = Utf8 | Cp1251 | Latin1

  /** What one run of `antiword` or `catdoc` came to: the program is not
      installed (`FileNotFoundError`, which the loader catches), it failed in
      a way the loader does not catch (its output is not valid UTF-8, say),
      or it exited with a return code and an output. */
  datatype ToolRun = NotInstalled | Crashed | Exited(code: int, stdout: string)

  /** One entry of `ole.listdir()`: its path components and its bytes, or
      `None` when opening or reading it raises. */
  datatype OleStream = OleStream(path: seq<string>, data: Option<Bytes>)

  /** olefile on a path: not an OLE file (or olefile missing), a failure
      while opening or listing it, or its streams in `listdir()` order. */
  datatype OleProbe = NotOle | OleFailed | OleStreams(streams: seq<OleStream>)

  /** A call into a Python library: its import fails (`ImportError`), the
      call itself raises something else, or it returns a text. */
  datatype LibRun = LibMissing | LibRaised | LibText(text: string)

  /** python-docx on a path: not installed (`ImportError`), `Document`
      raised, or the text of each paragraph in document order. */
  datatype DocxRun = DocxMissing | DocxFailed | DocxParagraphs(texts: seq<string>)

  datatype ZipEntry = ZipEntry(name: string, data: Option<Bytes>)

  /** `zipfile` on an FB2 path: not a ZIP archive, an archive that cannot be
      opened, or its entries in `namelist()` order. */
  datatype Fb2Container = NotZip | ZipFailed | Zip(entries: seq<ZipEntry>)

  /** What BeautifulSoup finds in FB2 markup: the text of every `<p>`, then
      the text of every `section`, `title`, `subtitle`, `epigraph` and `cite`
      element, in document order, before stripping. */
  datatype Fb2Soup = Fb2Soup(paragraphs: seq<string>, elements: seq<string>)

  datatype Env = Env(
    disk: Disk,
    /** `bytes.decode(enc)` for UTF-8 and cp1251; `None` is `UnicodeDecodeError`. */
    decode: (Encoding, Bytes) -> Option<string>,
    /** `bytes.decode('utf-8', errors='ignore')`. */
    decodeLenient: Bytes -> string,
    /** `json.loads`; `None` is a parse error. */
    parseJson: string -> Option<Json.Value>,
    /** `load_csv_file` and `load_djvu_file`, which hand everything to
        pandas and PyMuPDF and give "" on error. */
    csvText: string -> string,
    djvuText: string -> string,
    pythonDocx: string -> DocxRun,
    /** The page texts pdfplumber / PyPDF2 produced, up to the end of the
        document or up to the page on which the library raised. */
    plumberPages: string -> seq<Option<string>>,
    pypdfPages: string -> seq<string>,
    antiword: string -> ToolRun,
    catdoc: string -> ToolRun,
    /** `docx2txt.process`. */
    docx2txt: string -> LibRun,
    ole: string -> OleProbe,
    fb2Container: string -> Fb2Container,
    /** BeautifulSoup on FB2 markup, or `None` when it (or its import) raises. */
    fb2Soup: string -> Option<Fb2Soup>,
    /** The module-level `BookMetadataFilter` that `clean_text` uses, or
        `None` when importing `metadata_filter` or calling
        `filter_book_metadata` raises. */
    metadataFilter: Option<MetadataFilter.BookMetadataFilter>)

  /** The outcome of a loader that lets exceptions through. */
  datatype LoadResult = Loaded(text: string) | Raised

  // ---------------------------------------------------------------------
  // Decoding

  /** latin-1 maps every byte to the code point of the same value. */
  function Latin1Decode(b: Bytes): (s: string)
    ensures |s| == |b|
    ensures forall i :: 0 <= i < |b| ==> s[i] as int == b[i] as int
  {
    seq(|b|, i requires 0 <= i < |b| => b[i] as char)
  }

  function Decode(env: Env, enc: Encoding, b: Bytes): Option<string> {
    if enc == Latin1 then Some(Latin1Decode(b)) else env.decode(enc, b)
  }

  /** The first of `encs` that decodes `b`, with its text. */
  function FirstDecoding(env: Env, b: Bytes, encs: seq<Encoding>): (r: Option<(Encoding, string)>)
    ensures r == None <==> forall k :: 0 <= k < |encs| ==> Decode(env, encs[k], b) == None
    ensures r != None ==> exists k :: 0 <= k < |encs| && encs[k] == r.value.0
                                   && Decode(env, encs[k], b) == Some(r.value.1)
                                   && forall j :: 0 <= j < k ==> Decode(env, encs[j], b) == None
  {
    if |encs| == 0 then None
    else match Decode(env, encs[0], b)
      case Some(t) => Some((encs[0], t))
      case None =>
        var rest := FirstDecoding(env, b, encs[1..]);
        assert forall k :: 1 <= k < |encs| ==> encs[k] == encs[1..][k - 1];
        rest
  }

  /** Reading in text mode turns "\r\n" and a lone "\r" into "\n". */
  function UniversalNewlines(s: string): (r: string)
    ensures |r| <= |s|
    ensures '\r' !in r
    decreases |s|
  {
    if |s| == 0 then ""
    else if s[0] == '\r' then "\n" + UniversalNewlines(if |s| > 1 && s[1] == '\n' then s[2..] else s[1..])
    else [s[0]] + UniversalNewlines(s[1..])
  }

  // ---------------------------------------------------------------------
  // load_txt_file, load_json_file, load_pdf_file

  const TxtEncodings: seq<Encoding> := [Utf8, Cp1251, Latin1]

  /** Decoding with UTF-8, cp1251 and then latin-1 always succeeds. */
  lemma Latin1Fallback(env: Env, b: Bytes)
    ensures FirstDecoding(env, b, TxtEncodings) != None
  {
    assert Decode(env, TxtEncodings[2], b) != None;
  }

  /** `load_txt_file`: the file decoded with the first of UTF-8, cp1251 and
      latin-1 that works. A file that cannot be opened raises; so would a
      file no encoding decodes (`ValueError`), which latin-1 rules out. */
  function LoadTxt(env: Env, p: string): (r: LoadResult)
    ensures ReadBytes(env.disk, p) == None <==> r == Raised
    ensures r != Raised ==> exists k :: (0 <= k < |TxtEncodings|
      && Decode(env, TxtEncodings[k], ReadBytes(env.disk, p).value) != None
      && r.text == UniversalNewlines(Decode(env, TxtEncodings[k], ReadBytes(env.disk, p).value).value)
      && forall j :: 0 <= j < k ==> Decode(env, TxtEncodings[j], ReadBytes(env.disk, p).value) == None)
  {
    match ReadBytes(env.disk, p)
    case None => Raised
    case Some(b) =>
      Latin1Fallback(env, b);
      match FirstDecoding(env, b, TxtEncodings)
      case None => Raised
      case Some(d) => Loaded(UniversalNewlines(d.1))
  }

  predicate IsStr(v: Json.Value) {
    v.Str?
  }

  /** The string payloads of the `str` values among `vs`, in order. */
  function StrPayloads(vs: seq<Json.Value>): (r: seq<string>)
    ensures |r| == |Filter(vs, IsStr)|
    ensures forall k :: 0 <= k < |r| ==> Json.Str(r[k]) == Filter(vs, IsStr)[k]
  {
    var strs := Filter(vs, IsStr);
    seq(|strs|, k requires 0 <= k < |strs| => strs[k].s)
  }

  function Values(entries: seq<(string, Json.Value)>): (vs: seq<Json.Value>)
    ensures |vs| == |entries|
    ensures forall k :: 0 <= k < |vs| ==> vs[k] == entries[k].1
  {
    seq(|entries|, k requires 0 <= k < |entries| => entries[k].1)
  }

  /** The members of a dict (its values) or a list. */
  function Members(v: Json.Value): seq<Json.Value>
    requires v.Obj? || v.Arr?
  {
    if v.Obj? then Values(v.entries) else v.items
  }

  /** The text `load_json_file` takes from a parsed document: the `str`
      members of a dict or list joined by spaces, or `str()` of anything else. */
  function JsonText(v: Json.Value): (r: string)
    ensures !(v.Obj? || v.Arr?) ==> r == Json.ScalarStr(v)
    ensures (v.Obj? || v.Arr?) && Filter(Members(v), IsStr) == [] ==> r == ""
    ensures (v.Obj? || v.Arr?) && Filter(Members(v), IsStr) != [] ==>
      |r| == SumLengths(StrPayloads(Members(v))) + |Filter(Members(v), IsStr)| - 1
  {
    if v.Obj? || v.Arr? then
      var strs := StrPayloads(Members(v));
      assert strs != [] ==> |JoinWith(strs, " ")| == SumLengths(strs) + |strs| - 1 by {
        if strs != [] { JoinLength(strs, " "); }
      }
      JoinWith(strs, " ")
    else Json.ScalarStr(v)
  }

  /** The `k`-th `str` member of a dict or list sits in the text at its
      offset, followed by a single space unless it is the last one. */
  lemma JsonTextMembers(v: Json.Value, k: nat)
    requires v.Obj? || v.Arr?
    requires k < |Filter(Members(v), IsStr)|
    ensures var strs := StrPayloads(Members(v)); var o := JoinOffset(strs, k, " ");
      Filter(Members(v), IsStr)[k] == Json.Str(strs[k]) &&
      Occurs(JsonText(v), o, strs[k]) &&
      (k + 1 < |strs| ==> Occurs(JsonText(v), o + |strs[k]|, " "))
  {
    var strs := StrPayloads(Members(v));
    JoinPieceAt(strs, " ", k);
    if k + 1 < |strs| {
      JoinSepAfter(strs, " ", k);
    }
  }

  /** Dict keys never contribute: a dict gives the text of the list of its
      values. */
  lemma JsonTextIgnoresKeys(entries: seq<(string, Json.Value)>)
    ensures JsonText(Json.Obj(entries)) == JsonText(Json.Arr(Values(entries)))
  {
  }

  /** The strings a dict or list contributes come back from the joined text
      when none of them contains a space. */
  lemma JsonTextSplits(v: Json.Value)
    requires v.Obj? || v.Arr?
    requires |Filter(Members(v), IsStr)| > 0
    requires forall k :: 0 <= k < |Members(v)| && Members(v)[k].Str? ==> ' ' !in Members(v)[k].s
    ensures SplitOn(JsonText(v), ' ') == StrPayloads(Members(v))
  {
    var vs := Members(v);
    var r := StrPayloads(vs);
    FilterMembers(vs, IsStr);
    forall k | 0 <= k < |r| ensures ' ' !in r[k] {
      assert Filter(vs, IsStr)[k] in vs;
    }
    JoinSplitOn(r, ' ');
  }

  /** `load_json_file`: "" whenever reading, decoding or parsing fails. */
  function LoadJson(env: Env, p: string): (r: string)
    ensures ReadBytes(env.disk, p) == None ==> r == ""
    ensures var b := ReadBytes(env.disk, p);
      b != None && env.decode(Utf8, b.value) == None ==> r == ""
    ensures var b := ReadBytes(env.disk, p);
      (b != None && env.decode(Utf8, b.value) != None &&
       env.parseJson(UniversalNewlines(env.decode(Utf8, b.value).value)) == None) ==> r == ""
    ensures var b := ReadBytes(env.disk, p);
      (b != None && env.decode(Utf8, b.value) != None &&
       env.parseJson(UniversalNewlines(env.decode(Utf8, b.value).value)) != None) ==>
      r == JsonText(env.parseJson(UniversalNewlines(env.decode(Utf8, b.value).value)).value)
  {
    match ReadBytes(env.disk, p)
    case None => ""
    case Some(b) =>
      match env.decode(Utf8, b)
      case None => ""
      case Some(t) =>
        match env.parseJson(UniversalNewlines(t))
        case None => ""
        case Some(v) => JsonText(v)
  }

  /** A page that gave no text: `None`, or the empty string. */
  predicate BlankPage(page: Option<string>) {
    page == None || page.value == ""
  }

  /** The pdfplumber loop: each page that gave text, followed by a newline.
      It gives nothing exactly when every page is blank. */
  function PlumberText(pages: seq<Option<string>>): (r: string)
    ensures r == "" <==> forall k :: 0 <= k < |pages| ==> BlankPage(pages[k])
    ensures r == "" || r[|r| - 1] == '\n'
  {
    if |pages| == 0 then ""
    else
      var init := pages[..|pages| - 1];
      var rest := PlumberText(init);
      var last := pages[|pages| - 1];
      assert forall k :: 0 <= k < |init| ==> init[k] == pages[k];
      if !BlankPage(last) then rest + last.value + "\n" else rest
  }

  /** The PyPDF2 loop: every page followed by a newline. */
  function PypdfText(pages: seq<string>): (r: string)
    ensures r == "" <==> pages == []
  {
    if |pages| == 0 then "" else PypdfText(pages[..|pages| - 1]) + pages[|pages| - 1] + "\n"
  }

  /** `load_pdf_file`: pdfplumber's non-empty pages, each followed by a
      newline; PyPDF2's pages only when that gave nothing. */
  function LoadPdf(env: Env, p: string): (r: string)
    ensures PlumberText(env.plumberPages(p)) != "" ==> r == PlumberText(env.plumberPages(p))
    ensures PlumberText(env.plumberPages(p)) == "" ==> r == PypdfText(env.pypdfPages(p))
    ensures r == "" ==> env.pypdfPages(p) == []
  {
    var text := PlumberText(env.plumberPages(p));
    if text != "" then text else PypdfText(env.pypdfPages(p))
  }

  // ---------------------------------------------------------------------
  // load_doc_file

  /** The characters `[^\w\sЀ-ӿԀ-ԯⷠ-ⷿꙀ-ꚟ]` does not match. */
  predicate IsDocChar(c: char) {
    IsWordChar(c) || IsSpace(c)
    || ('Ѐ' <= c <= 'ӿ') || ('Ԁ' <= c <= 'ԯ')
    || ('ⷠ' <= c <= 'ⷿ') || ('Ꙁ' <= c <= 'ꚟ')
  }

  /** The first substitution of the DOC clean-up: every other character becomes a space. */
  function BlankOut(s: string): (r: string)
    ensures |r| == |s|
  {
    if s == [] then [] else [if IsDocChar(s[0]) then s[0] else ' '] + BlankOut(s[1..])
  }

  lemma {:induction false} BlankOutChars(s: string)
    ensures forall i :: 0 <= i < |BlankOut(s)| ==> IsDocChar(BlankOut(s)[i])
  {
    if s != [] {
      BlankOutChars(s[1..]);
      assert forall i :: 1 <= i < |BlankOut(s)| ==> BlankOut(s)[i] == BlankOut(s[1..])[i - 1];
    }
  }

  /** `re.sub(r'\s+', ' ', re.sub(<non-text>, ' ', t)).strip()`. */
  function SanitizeDoc(t: string): (r: string)
    ensures OnlyPlainSpaces(r) && NoDoubleSpace(r)
    ensures Trimmed(r)
    ensures forall i :: 0 <= i < |r| ==> IsDocChar(r[i])
  {
    var c := CollapseSpaces(BlankOut(t));
    StripKeepsSpacing(c);
    SanitizeDocChars(t, c);
    Strip(c)
  }

  lemma SanitizeDocChars(t: string, c: string)
    requires c == CollapseSpaces(BlankOut(t))
    ensures forall i :: 0 <= i < |Strip(c)| ==> IsDocChar(Strip(c)[i])
  {
    BlankOutChars(t);
    CollapseKeeps(BlankOut(t), IsDocChar);
    StripKeeps(c, IsDocChar);
  }

  /** What the DOC clean-up leaves: single plain spaces between text characters. */
  predicate DocShaped(r: string) {
    OnlyPlainSpaces(r) && NoDoubleSpace(r) && forall i :: 0 <= i < |r| ==> IsDocChar(r[i])
  }

  /** `'WordDocument' in stream_name or 'Text' in stream_name`, where the
      name is the list of the stream's path components. */
  predicate IsTextStream(s: OleStream) {
    "WordDocument" in s.path || "Text" in s.path
  }

  /** The sanitised text of a stream that reads. */
  function OleStreamText(env: Env, s: OleStream): string
    requires s.data != None
  {
    SanitizeDoc(env.decodeLenient(s.data.value))
  }

  /** A stream the OLE loop returns on: a text stream that reads and whose
      sanitised text is longer than 100 characters. */
  predicate OleHit(env: Env, s: OleStream) {
    IsTextStream(s) && s.data != None && |OleStreamText(env, s)| > 100
  }

  /** The OLE loop: the first text stream that reads and whose sanitised
      text is longer than 100; streams that fail to read are skipped. */
  function FirstOleText(env: Env, streams: seq<OleStream>): (r: Option<string>)
    ensures r != None ==> |r.value| > 100 && DocShaped(r.value)
    ensures r == None <==> forall k :: 0 <= k < |streams| ==> !OleHit(env, streams[k])
    ensures r != None ==> exists k :: 0 <= k < |streams| && OleHit(env, streams[k])
                                   && r.value == OleStreamText(env, streams[k])
                                   && forall j :: 0 <= j < k ==> !OleHit(env, streams[j])
  {
    match FirstWhere(streams, s => OleHit(env, s))
    case None => None
    case Some(k) => Some(OleStreamText(env, streams[k]))
  }

  function OleText(env: Env, p: string): (r: Option<string>)
    ensures r != None ==> |r.value| > 100 && DocShaped(r.value)
  {
    match env.ole(p)
    case OleStreams(streams) => FirstOleText(env, streams)
    case _ => None
  }

  /** The last resort: the file's bytes, decoded leniently and sanitised,
      when that leaves more than 100 characters. */
  function RawDocText(env: Env, p: string): (r: Option<string>)
    ensures r != None ==> |r.value| > 100 && DocShaped(r.value)
  {
    match ReadBytes(env.disk, p)
    case None => None
    case Some(b) =>
      var text := SanitizeDoc(env.decodeLenient(b));
      if |text| > 100 then Some(text) else None
  }

  /** The stdout of a run that exited with code 0. */
  predicate Succeeded(run: ToolRun) {
    run.Exited? && run.code == 0
  }

  /** A run the loader's own handler lets the chain go on after: the
      program is not installed, or it exited with a non-zero code. */
  predicate FellThrough(run: ToolRun) {
    !run.Crashed? && !Succeeded(run)
  }

  /** `load_doc_file`: antiword, catdoc, docx2txt, the OLE streams, then the
      raw bytes, and the first that succeeds gives the text. A program that
      fails in a way its own handler does not catch ends the chain with ""
      (the outer handler). Nothing is raised. */
  function LoadDoc(env: Env, p: string): (r: string)
    ensures env.antiword(p).Crashed? ==> r == ""
    ensures Succeeded(env.antiword(p)) ==> r == env.antiword(p).stdout
    ensures FellThrough(env.antiword(p)) && env.catdoc(p).Crashed? ==> r == ""
    ensures FellThrough(env.antiword(p)) && Succeeded(env.catdoc(p)) ==> r == env.catdoc(p).stdout
    ensures FellThrough(env.antiword(p)) && FellThrough(env.catdoc(p)) && env.docx2txt(p).LibText? ==>
              r == env.docx2txt(p).text
    ensures (FellThrough(env.antiword(p)) && FellThrough(env.catdoc(p)) && !env.docx2txt(p).LibText? &&
             OleText(env, p) != None) ==> r == OleText(env, p).value
    ensures (FellThrough(env.antiword(p)) && FellThrough(env.catdoc(p)) && !env.docx2txt(p).LibText? &&
             OleText(env, p) == None) ==> r == RawDocText(env, p).GetOr("")
  {
    var antiword := env.antiword(p);
    if antiword.Crashed? then ""
    else if Succeeded(antiword) then antiword.stdout
    else
      var catdoc := env.catdoc(p);
      if catdoc.Crashed? then ""
      else if Succeeded(catdoc) then catdoc.stdout
      else if env.docx2txt(p).LibText? then env.docx2txt(p).text
      else if OleText(env, p) != None then OleText(env, p).value
      else RawDocText(env, p).GetOr("")
  }

  /** When neither program nor docx2txt gives the text, the result is empty or
      a sanitised text of more than 100 characters taken from the file. */
  lemma LoadDocFallback(env: Env, p: string)
    requires FellThrough(env.antiword(p)) && FellThrough(env.catdoc(p))
    requires !env.docx2txt(p).LibText?
    ensures var r := LoadDoc(env, p);
      r == "" || (|r| > 100 && DocShaped(r))
  {
  }

  // ---------------------------------------------------------------------
  // load_docx_file

  /** `load_docx_file`: the paragraphs joined by newlines; without
      python-docx, docx2txt's text, or "" when docx2txt is missing too. Any
      other failure of python-docx gives "". docx2txt runs inside the
      `ImportError` handler, so an exception it raises is not caught. */
  function LoadDocx(env: Env, p: string): (r: LoadResult)
    ensures r == Raised <==> env.pythonDocx(p).DocxMissing? && env.docx2txt(p).LibRaised?
    ensures env.pythonDocx(p).DocxFailed? ==> r == Loaded("")
    ensures env.pythonDocx(p).DocxMissing? && env.docx2txt(p).LibText? ==> r == Loaded(env.docx2txt(p).text)
    ensures env.pythonDocx(p).DocxMissing? && env.docx2txt(p).LibMissing? ==> r == Loaded("")
    ensures (env.pythonDocx(p).DocxParagraphs? && |env.pythonDocx(p).texts| > 0 &&
             forall k :: 0 <= k < |env.pythonDocx(p).texts| ==> '\n' !in env.pythonDocx(p).texts[k]) ==>
              r.Loaded? && SplitOn(r.text, '\n') == env.pythonDocx(p).texts
  {
    match env.pythonDocx(p)
    case DocxParagraphs(texts) =>
      assert |texts| > 0 && (forall k :: 0 <= k < |texts| ==> '\n' !in texts[k]) ==>
             SplitOn(JoinWith(texts, "\n"), '\n') == texts by {
        if |texts| > 0 && forall k :: 0 <= k < |texts| ==> '\n' !in texts[k] {
          JoinSplitOn(texts, '\n');
        }
      }
      Loaded(JoinWith(texts, "\n"))
    case DocxFailed => Loaded("")
    case DocxMissing =>
      match env.docx2txt(p)
      case LibText(t) => Loaded(t)
      case LibMissing => Loaded("")
      case LibRaised => Raised
  }

  // ---------------------------------------------------------------------
  // load_fb2_file

  /** `f.endswith('.fb2') or '.' not in f`. */
  predicate IsFb2Entry(e: ZipEntry) {
    EndsWith(e.name, ".fb2") || '.' !in e.name
  }

  /** The first FB2 entry of an archive, if any. */
  function FirstFb2Entry(entries: seq<ZipEntry>): (r: Option<ZipEntry>)
    ensures r == None <==> forall k :: 0 <= k < |entries| ==> !IsFb2Entry(entries[k])
    ensures r != None ==> exists k :: 0 <= k < |entries| && entries[k] == r.value && IsFb2Entry(r.value)
                                   && forall j :: 0 <= j < k ==> !IsFb2Entry(entries[j])
  {
    if |entries| == 0 then None
    else if IsFb2Entry(entries[0]) then Some(entries[0])
    else
      var rest := FirstFb2Entry(entries[1..]);
      assert forall k :: 1 <= k < |entries| ==> entries[k] == entries[1..][k - 1];
      rest
  }

  /** The bytes `load_fb2_file` parses: those of the first FB2 entry of an
      archive, or of the file itself. */
  function Fb2Content(env: Env, p: string): Option<Bytes> {
    match env.fb2Container(p)
    case ZipFailed => None
    case Zip(entries) =>
      (match FirstFb2Entry(entries)
       case None => None
       case Some(e) => e.data)
    case NotZip => ReadBytes(env.disk, p)
  }

  /** `re.sub(r'[ \t]+', ' ', s)`. */
  function CollapseBlanks(s: string): (r: string)
    ensures |r| <= |s|
    ensures '\t' !in r
    decreases |s|
  {
    if |s| == 0 then ""
    else if s[0] == ' ' || s[0] == '\t' then " " + CollapseBlanks(DropBlanks(s[1..]))
    else [s[0]] + CollapseBlanks(s[1..])
  }

  function DropBlanks(s: string): (r: string)
    ensures |r| <= |s| && r == s[|s| - |r|..]
    ensures r == [] || (r[0] != ' ' && r[0] != '\t')
  {
    if |s| > 0 && (s[0] == ' ' || s[0] == '\t') then DropBlanks(s[1..]) else s
  }

  predicate IsNewline(c: char) {
    c == '\n'
  }

  /** Length of the longest whitespace prefix. */
  function SpaceRun(s: string): (k: nat)
    ensures k <= |s|
    ensures forall i :: 0 <= i < k ==> IsSpace(s[i])
    ensures k < |s| ==> !IsSpace(s[k])
  {
    if |s| == 0 || !IsSpace(s[0]) then 0 else 1 + SpaceRun(s[1..])
  }

  /** `re.sub(r'\n\s*\n\s*\n', '\n\n', s)`: in a whitespace run holding at
      least three newlines, everything from its first newline to its last
      one becomes a single blank line. */
  function CollapseBlankLines(s: string): (r: string)
    decreases |s|
  {
    if |s| == 0 then ""
    else if s[0] == '\n' && Count(s[..SpaceRun(s)], IsNewline) >= 3 then
      var run := s[..SpaceRun(s)];
      var last := LastIndexOf(run, '\n');
      assert run[0] == '\n';
      "\n\n" + CollapseBlankLines(s[last + 1..])
    else [s[0]] + CollapseBlankLines(s[1..])
  }

  /** The text parts `load_fb2_file` collects: every stripped paragraph,
      then every non-empty stripped element text. */
  function Fb2Parts(soup: Fb2Soup): seq<string> {
    StripAll(soup.paragraphs) + Filter(StripAll(soup.elements), NonEmpty)
  }

  /** The text `load_fb2_file` makes of the parsed document: the parts
      joined by blank lines, runs of blank lines and of blanks collapsed,
      then stripped. */
  function Fb2Text(soup: Fb2Soup): (r: string)
    ensures '\t' !in r
    ensures Trimmed(r)
  {
    var t := CollapseBlanks(CollapseBlankLines(JoinWith(Fb2Parts(soup), "\n\n")));
    NoTabAfterStrip(t);
    Strip(t)
  }

  /** BeautifulSoup on the decoded markup, then the text; "" when parsing raises. */
  function Fb2FromMarkup(env: Env, markup: string): (r: string)
    ensures env.fb2Soup(markup) == None ==> r == ""
    ensures env.fb2Soup(markup) != None ==> r == Fb2Text(env.fb2Soup(markup).value)
  {
    match env.fb2Soup(markup)
    case None => ""
    case Some(soup) => Fb2Text(soup)
  }

  /** `load_fb2_file`. Any failure on the way gives "". The content is
      decoded as UTF-8, else as cp1251, else as latin-1. */
  function LoadFb2(env: Env, p: string): (r: string)
    ensures Fb2Content(env, p) == None ==> r == ""
    ensures var c := Fb2Content(env, p);
      c != None && env.decode(Utf8, c.value) != None ==>
      r == Fb2FromMarkup(env, env.decode(Utf8, c.value).value)
    ensures var c := Fb2Content(env, p);
      c != None && env.decode(Utf8, c.value) == None && env.decode(Cp1251, c.value) != None ==>
      r == Fb2FromMarkup(env, env.decode(Cp1251, c.value).value)
    ensures var c := Fb2Content(env, p);
      c != None && env.decode(Utf8, c.value) == None && env.decode(Cp1251, c.value) == None ==>
      r == Fb2FromMarkup(env, Latin1Decode(c.value))
    ensures '\t' !in r
    ensures Trimmed(r)
  {
    match Fb2Content(env, p)
    case None => ""
    case Some(content) =>
      var decoded := FirstDecoding(env, content, TxtEncodings);
      Fb2DecodeOrder(env, content);
      if decoded == None then ""
      else Fb2FromMarkup(env, decoded.value.1)
  }

  /** The decoding both text loaders use tries UTF-8, then cp1251, then latin-1. */
  lemma Fb2DecodeOrder(env: Env, b: Bytes)
    ensures var d := FirstDecoding(env, b, TxtEncodings);
      d != None &&
      (env.decode(Utf8, b) != None ==> d.value.1 == env.decode(Utf8, b).value) &&
      (env.decode(Utf8, b) == None && env.decode(Cp1251, b) != None ==> d.value.1 == env.decode(Cp1251, b).value) &&
      (env.decode(Utf8, b) == None && env.decode(Cp1251, b) == None ==> d.value.1 == Latin1Decode(b))
  {
    Latin1Fallback(env, b);
    var d := FirstDecoding(env, b, TxtEncodings);
    var k :| 0 <= k < |TxtEncodings| && TxtEncodings[k] == d.value.0
             && Decode(env, TxtEncodings[k], b) == Some(d.value.1)
             && forall j :: 0 <= j < k ==> Decode(env, TxtEncodings[j], b) == None;
    assert Decode(env, TxtEncodings[0], b) == env.decode(Utf8, b);
    assert Decode(env, TxtEncodings[1], b) == env.decode(Cp1251, b);
  }

  predicate NotTab(c: char) {
    c != '\t'
  }

  lemma NoTabAfterStrip(t: string)
    requires '\t' !in t
    ensures '\t' !in Strip(t)
  {
    StripKeeps(t, NotTab);
    assert forall i :: 0 <= i < |Strip(t)| ==> Strip(t)[i] != '\t';
  }

  /** An archive without an FB2 entry gives "". */
  lemma LoadFb2NoEntry(env: Env, p: string)
    requires env.fb2Container(p).Zip?
    requires forall k :: 0 <= k < |env.fb2Container(p).entries| ==> !IsFb2Entry(env.fb2Container(p).entries[k])
    ensures LoadFb2(env, p) == ""
  {
    assert FirstFb2Entry(env.fb2Container(p).entries) == None;
    assert Fb2Content(env, p) == None;
  }

  // ---------------------------------------------------------------------
  // load_file

  const Extensions: seq<string> := [".txt", ".csv", ".json", ".pdf", ".doc", ".docx", ".djvu", ".fb2"]

  /** `load_file`: the loader chosen by the lower-cased suffix; any other
      suffix gives "". Only the plain-text and the DOCX loaders can raise. */
  function LoadFile(env: Env, p: string): (r: LoadResult)
    ensures Lower(Suffix(p)) != ".txt" && Lower(Suffix(p)) != ".docx" ==> r != Raised
    ensures Lower(Suffix(p)) !in Extensions ==> r == Loaded("")
    ensures Lower(Suffix(p)) == ".txt" ==> r == LoadTxt(env, p)
    ensures Lower(Suffix(p)) == ".csv" ==> r == Loaded(env.csvText(p))
    ensures Lower(Suffix(p)) == ".json" ==> r == Loaded(LoadJson(env, p))
    ensures Lower(Suffix(p)) == ".pdf" ==> r == Loaded(LoadPdf(env, p))
    ensures Lower(Suffix(p)) == ".doc" ==> r == Loaded(LoadDoc(env, p))
    ensures Lower(Suffix(p)) == ".docx" ==> r == LoadDocx(env, p)
    ensures Lower(Suffix(p)) == ".djvu" ==> r == Loaded(env.djvuText(p))
    ensures Lower(Suffix(p)) == ".fb2" ==> r == Loaded(LoadFb2(env, p))
  {
    var ext := Lower(Suffix(p));
    if ext == ".txt" then LoadTxt(env, p)
    else if ext == ".csv" then Loaded(env.csvText(p))
    else if ext == ".json" then Loaded(LoadJson(env, p))
    else if ext == ".pdf" then Loaded(LoadPdf(env, p))
    else if ext == ".doc" then Loaded(LoadDoc(env, p))
    else if ext == ".docx" then LoadDocx(env, p)
    else if ext == ".djvu" then Loaded(env.djvuText(p))
    else if ext == ".fb2" then Loaded(LoadFb2(env, p))
    else Loaded("")
  }

  // ---------------------------------------------------------------------
  // clean_text

  /** The characters `[^\w\s\.\,\!\?\;\:\-\(\)]` does not delete. */
  predicate IsCleanChar(c: char) {
    IsWordChar(c) || IsSpace(c) || c in ".,!?;:-()"
  }

  /** `clean_text`: the metadata filter, whitespace runs to one space, the
      other characters deleted, then the lines stripped and the empty ones
      dropped. With no filter (its import failed or it raised) the text goes
      on unfiltered. */
  function CleanText(f: Option<MetadataFilter.BookMetadataFilter>, text: string): (r: string)
    ensures |r| <= |text|
    ensures '\n' !in r && OnlyPlainSpaces(r)
    ensures Trimmed(r)
    ensures forall i :: 0 <= i < |r| ==> IsCleanChar(r[i])
  {
    match f
    case None => CleanFiltered(text)
    case Some(filter) => CleanFiltered(MetadataFilter.Filtered(filter, text))
  }

  /** `clean_text` after the metadata filter. */
  function CleanFiltered(filtered: string): (r: string)
    ensures |r| <= |filtered|
    ensures '\n' !in r && OnlyPlainSpaces(r)
    ensures Trimmed(r)
    ensures forall i :: 0 <= i < |r| ==> IsCleanChar(r[i])
  {
    DropCharsAndBlankLines(CollapseSpaces(filtered))
  }

  /** A character `clean_text` keeps that is not whitespace. */
  predicate IsCleanText(c: char) {
    IsCleanChar(c) && !IsSpace(c)
  }

  /** `clean_text` after the metadata filter only rewrites whitespace and
      deletes the characters outside `[\w\s.,!?;:\-()]`: every other
      character survives, in order. */
  lemma CleanFilteredKeepsText(filtered: string)
    ensures Filter(CleanFiltered(filtered), NotSpace) == Filter(filtered, IsCleanText)
  {
    var c := CollapseSpaces(filtered);
    var kept := KeepChars(c, IsCleanChar);
    CleanTextShape(kept, c);
    StripOneLine(kept);
    assert CleanFiltered(filtered) == Strip(kept);
    StripKeepsText(kept);
    KeepCharsIsFilter(c, IsCleanChar);
    FilterFilter(c, IsCleanChar, NotSpace, IsCleanText);
    FilterFilter(c, NotSpace, IsCleanChar, IsCleanText);
    CollapseKeepsText(filtered);
    FilterFilter(filtered, NotSpace, IsCleanChar, IsCleanText);
  }

  /** What `clean_text` keeps of the text the metadata filter leaves, or of
      its input when there is no filter: every non-whitespace character it
      allows, in order. */
  lemma CleanTextKeepsText(f: Option<MetadataFilter.BookMetadataFilter>, text: string)
    ensures f == None ==> Filter(CleanText(f, text), NotSpace) == Filter(text, IsCleanText)
    ensures f != None ==>
      Filter(CleanText(f, text), NotSpace) == Filter(MetadataFilter.Filtered(f.value, text), IsCleanText)
  {
    match f
    case None => CleanFilteredKeepsText(text);
    case Some(filter) => CleanFilteredKeepsText(MetadataFilter.Filtered(filter, text));
  }

  /** The steps of `clean_text` after the whitespace collapse: the other
      characters deleted, then each line stripped, blank lines dropped, and
      the whole stripped. */
  function DropCharsAndBlankLines(collapsed: string): (r: string)
    ensures |r| <= |collapsed|
    ensures Trimmed(r)
    ensures OnlyPlainSpaces(collapsed) ==> '\n' !in r && OnlyPlainSpaces(r)
    ensures OnlyPlainSpaces(collapsed) ==> forall i :: 0 <= i < |r| ==> IsCleanChar(r[i])
  {
    var kept := KeepChars(collapsed, IsCleanChar);
    var r := Strip(StripLines(kept));
    StripLinesShorter(kept);
    if OnlyPlainSpaces(collapsed) then
      CleanTextShape(kept, collapsed);
      StripOneLine(kept);
      r
    else r
  }

  /** Stripping line by line and then the whole text is plain stripping
      on a text without newlines. */
  lemma StripOneLine(s: string)
    requires '\n' !in s
    ensures Strip(StripLines(s)) == Strip(s)
  {
    StripLinesSingleLine(s);
    StripIdempotent(s);
  }

  lemma CleanTextShape(kept: string, collapsed: string)
    requires OnlyPlainSpaces(collapsed) && IsSubsequence(kept, collapsed)
    requires forall i :: 0 <= i < |kept| ==> IsCleanChar(kept[i])
    ensures var r := Strip(kept);
      '\n' !in r && OnlyPlainSpaces(r) && '\n' !in kept
      && forall i :: 0 <= i < |r| ==> IsCleanChar(r[i])
  {
    SubsequenceKeepsPlain(kept, collapsed);
    StripKeeps(kept, IsCleanChar);
    StripKeepsPlain(kept);
    PlainHasNoNewline(Strip(kept));
  }

  lemma SubsequenceKeepsPlain(a: string, b: string)
    requires OnlyPlainSpaces(b) && IsSubsequence(a, b)
    ensures OnlyPlainSpaces(a) && '\n' !in a
  {
    SubsequenceMembers(a, b);
    forall i | 0 <= i < |a| && IsSpace(a[i]) ensures a[i] == ' ' {
      assert a[i] in b;
    }
    PlainHasNoNewline(a);
  }

  lemma PlainHasNoNewline(s: string)
    requires OnlyPlainSpaces(s)
    ensures '\n' !in s
  {
    if '\n' in s {
      var i :| 0 <= i < |s| && s[i] == '\n';
      assert IsSpace(s[i]);
    }
  }

  // ---------------------------------------------------------------------
  // split_text_into_chunks

  /** The result of `split_text_into_chunks`, or the `ValueError` that
      `range` raises for a zero step. */
  datatype ChunkResult = Chunks(chunks: seq<string>) | ZeroStep

  /** Where Python's `words[start:stop]` ends, for `0 <= start <= n`. */
  function SliceStop(start: nat, stop: int, n: nat): (j: nat)
    requires start <= n
    ensures start <= j <= n
    ensures stop >= start ==> j == if stop <= n then stop else n
  {
    var e := if stop < 0 then (if n + stop < 0 then 0 else n + stop) else if stop > n then n else stop;
    if e < start then start else e
  }

  /** The chunks that start at word `i`, `i + step`, ... (the `range` loop
      from `i`), each kept when it is not blank. */
  function ChunksFrom(words: seq<string>, chunkSize: int, step: nat, i: nat): seq<string>
    requires step > 0
    decreases |words| - i
  {
    if i >= |words| then []
    else
      var chunk := ChunkAt(words, chunkSize, i);
      (if IsBlank(chunk) then [] else [chunk]) + ChunksFrom(words, chunkSize, step, i + step)
  }

  /** `' '.join(words[i:i + chunk_size])`. */
  function ChunkAt(words: seq<string>, chunkSize: int, i: nat): string
    requires i <= |words|
  {
    JoinWith(words[i..SliceStop(i, i + chunkSize, |words|)], " ")
  }

  /** A chunk with nothing left after `strip()`. */
  predicate IsBlank(chunk: string) {
    AllSpace(chunk)
  }

  /** A chunk that is kept is the first of the chunks from its position. */
  lemma ChunksFromKept(words: seq<string>, chunkSize: int, step: nat, i: nat)
    requires step > 0 && i < |words| && !IsBlank(ChunkAt(words, chunkSize, i))
    ensures ChunksFrom(words, chunkSize, step, i) == [ChunkAt(words, chunkSize, i)] + ChunksFrom(words, chunkSize, step, i + step)
  {
  }

  /** One step of the loop of `split_text_into_chunks`. */
  lemma ChunksFromStep(words: seq<string>, chunkSize: int, step: nat, i: nat, chunk: string)
    requires step > 0 && i < |words| && chunk == ChunkAt(words, chunkSize, i)
    ensures |Strip(chunk)| > 0 ==> ChunksFrom(words, chunkSize, step, i) == [chunk] + ChunksFrom(words, chunkSize, step, i + step)
    ensures |Strip(chunk)| == 0 ==> ChunksFrom(words, chunkSize, step, i) == ChunksFrom(words, chunkSize, step, i + step)
  {
  }

  /** The loop invariant of `CollectChunks` survives one step. */
  lemma CollectStep(done: seq<string>, words: seq<string>, chunkSize: int, step: nat, i: nat, chunk: string, all: seq<string>)
    requires step > 0 && i < |words| && chunk == ChunkAt(words, chunkSize, i)
    requires done + ChunksFrom(words, chunkSize, step, i) == all
    ensures |Strip(chunk)| > 0 ==> (done + [chunk]) + ChunksFrom(words, chunkSize, step, i + step) == all
    ensures |Strip(chunk)| == 0 ==> done + ChunksFrom(words, chunkSize, step, i + step) == all
  {
    ChunksFromStep(words, chunkSize, step, i, chunk);
    var rest := ChunksFrom(words, chunkSize, step, i + step);
    if |Strip(chunk)| > 0 {
      assert (done + [chunk]) + rest == done + ([chunk] + rest);
    }
  }

  /** `split_text_into_chunks`. */
  method SplitTextIntoChunks(text: string, chunkSize: int, overlap: int) returns (r: ChunkResult)
    ensures chunkSize == overlap <==> r == ZeroStep
    ensures chunkSize < overlap ==> r == Chunks([])
    ensures chunkSize > overlap ==> r == Chunks(ChunksFrom(Words(text), chunkSize, chunkSize - overlap, 0))
  {
    var words := Words(text);
    var step := chunkSize - overlap;
    if step == 0 {
      return ZeroStep;
    }
    if step < 0 {
      return Chunks([]);
    }
    var chunks := CollectChunks(words, chunkSize, step);
    return Chunks(chunks);
  }

  /** The loop of `split_text_into_chunks` over the words, for a positive step. */
  method CollectChunks(words: seq<string>, chunkSize: int, step: nat) returns (chunks: seq<string>)
    requires step > 0
    ensures chunks == ChunksFrom(words, chunkSize, step, 0)
  {
    chunks := [];
    var i: nat := 0;
    ghost var all := ChunksFrom(words, chunkSize, step, 0);
    while i < |words|
      invariant chunks + ChunksFrom(words, chunkSize, step, i) == all
      decreases |words| - i
    {
      var chunk := ChunkAt(words, chunkSize, i);
      CollectStep(chunks, words, chunkSize, step, i, chunk, all);
      if |Strip(chunk)| > 0 {
        chunks := chunks + [chunk];
      }
      i := i + step;
    }
    assert ChunksFrom(words, chunkSize, step, i) == [];
    assert chunks + [] == chunks;
  }

  lemma MulAtLeast(k: int, d: int)
    requires k >= 1 && d > 0
    ensures k * d >= d
  {
  }

  /** The quotient is the only `a` with `y == a * d + r` and `0 <= r < d`. */
  lemma DivUnique(y: int, d: int, a: int, r: int)
    requires d > 0 && 0 <= r < d && y == a * d + r
    ensures y / d == a
  {
    var q := y / d;
    var s := y % d;
    assert y == q * d + s;
    assert (a - q) * d == s - r;
    if a - q >= 1 {
      MulAtLeast(a - q, d);
    } else if q - a >= 1 {
      MulAtLeast(q - a, d);
    }
  }

  lemma DivStep(x: nat, d: nat)
    requires d > 0
    ensures (x + d) / d == x / d + 1
  {
    DivUnique(x + d, d, x / d + 1, x % d);
  }

  function Min(a: int, b: int): int {
    if a <= b then a else b
  }

  /** With a positive chunk size, the chunk at a word position is not blank. */
  lemma ChunkNotBlank(words: seq<string>, chunkSize: int, j: nat)
    requires ProperWords(words) && chunkSize > 0 && j < |words|
    ensures !IsBlank(ChunkAt(words, chunkSize, j))
  {
    var run := words[j..SliceStop(j, j + chunkSize, |words|)];
    RunIsProper(words, j, SliceStop(j, j + chunkSize, |words|));
    JoinStartsWithWord(run);
  }

  /** ... and splitting it gives back the words from there on, at most
      `chunkSize` of them. */
  lemma ChunkWords(words: seq<string>, chunkSize: int, j: nat)
    requires ProperWords(words) && chunkSize > 0 && j < |words|
    ensures Words(ChunkAt(words, chunkSize, j)) == words[j..Min(j + chunkSize, |words|)]
  {
    var run := words[j..SliceStop(j, j + chunkSize, |words|)];
    assert run == words[j..Min(j + chunkSize, |words|)];
    RunIsProper(words, j, SliceStop(j, j + chunkSize, |words|));
    WordsOfJoin(run);
  }

  lemma RunIsProper(words: seq<string>, a: nat, b: nat)
    requires ProperWords(words) && a <= b <= |words|
    ensures ProperWords(words[a..b])
  {
    var run := words[a..b];
    forall m | 0 <= m < |run| ensures run[m] != [] && NoSpace(run[m]) {
      assert run[m] == words[a + m];
    }
  }

  /** From word `i` on there are ceil((n - i) / step) chunks. */
  lemma {:induction false} ChunksFromCount(words: seq<string>, chunkSize: int, step: nat, i: nat)
    requires step > 0 && chunkSize > 0 && ProperWords(words) && i <= |words|
    ensures |ChunksFrom(words, chunkSize, step, i)| == (|words| - i + step - 1) / step
    decreases |words| - i
  {
    var n := |words|;
    if i == n {
      DivUnique(step - 1, step, 0, step - 1);
    } else {
      ChunkNotBlank(words, chunkSize, i);
      ChunksFromKept(words, chunkSize, step, i);
      var x: nat := n - i - 1;
      DivStep(x, step);
      if i + step <= n {
        ChunksFromCount(words, chunkSize, step, i + step);
      } else {
        DivUnique(x, step, 0, x);
      }
    }
  }

  /** `k * step`, by repeated addition. */
  function Offset(k: nat, step: nat): nat {
    if k == 0 then 0 else Offset(k - 1, step) + step
  }

  lemma {:induction false} OffsetIsProduct(k: nat, step: nat)
    ensures Offset(k, step) == k * step
  {
    if k > 0 {
      OffsetIsProduct(k - 1, step);
      MulPred(k, step);
    }
  }

  lemma MulPred(k: nat, d: nat)
    requires k > 0
    ensures (k - 1) * d + d == k * d
  {
  }

  /** The k-th chunk from word `i` on starts at word `i + k * step`. */
  lemma {:induction false} ChunksFromAt(words: seq<string>, chunkSize: int, step: nat, i: nat, k: nat)
    requires step > 0 && chunkSize > 0 && ProperWords(words)
    requires k < |ChunksFrom(words, chunkSize, step, i)|
    ensures i + Offset(k, step) < |words|
    ensures ChunksFrom(words, chunkSize, step, i)[k] == ChunkAt(words, chunkSize, i + Offset(k, step))
    decreases |words| - i
  {
    assert i < |words|;
    var all := ChunksFrom(words, chunkSize, step, i);
    var rest := ChunksFrom(words, chunkSize, step, i + step);
    assert all == [ChunkAt(words, chunkSize, i)] + rest by {
      ChunkNotBlank(words, chunkSize, i);
      ChunksFromKept(words, chunkSize, step, i);
    }
    if k == 0 {
      assert all[0] == ChunkAt(words, chunkSize, i);
    } else {
      assert |rest| == |all| - 1;
      assert all[k] == rest[k - 1];
      ChunksFromAt(words, chunkSize, step, i + step, k - 1);
      assert Offset(k, step) == Offset(k - 1, step) + step;
      assert i + Offset(k, step) == (i + step) + Offset(k - 1, step);
    }
  }

  /** The chunk that word `j` falls in when chunks start every `step` words. */
  function ChunkIndex(j: nat, step: nat): (k: nat)
    requires step > 0
    ensures k * step <= j < k * step + step
  {
    DivUnique(j, step, j / step, j % step);
    j / step
  }

  /** `split_text_into_chunks` for `chunk_size > overlap` and a positive chunk
      size, on the words `text.split()` gives: ceil(n / step) chunks for n
      words, the k-th being the words from k * step on, at most `chunkSize`
      of them, joined by spaces, and never empty. */
  lemma ChunkContents(words: seq<string>, chunkSize: int, overlap: int)
    requires chunkSize > overlap && chunkSize > 0 && ProperWords(words)
    ensures var step := chunkSize - overlap;
      var cs := ChunksFrom(words, chunkSize, step, 0);
      |cs| == (|words| + step - 1) / step &&
      forall k :: 0 <= k < |cs| ==>
        k * step < |words| && cs[k] != "" &&
        cs[k] == JoinWith(words[k * step..Min(k * step + chunkSize, |words|)], " ")
  {
    var step := chunkSize - overlap;
    var cs := ChunksFrom(words, chunkSize, step, 0);
    ChunksFromCount(words, chunkSize, step, 0);
    forall k | 0 <= k < |cs|
      ensures k * step < |words| && cs[k] != ""
      ensures cs[k] == JoinWith(words[k * step..Min(k * step + chunkSize, |words|)], " ")
    {
      ChunksFromAt(words, chunkSize, step, 0, k);
      OffsetIsProduct(k, step);
      ChunkNotBlank(words, chunkSize, k * step);
      ChunkAtWindow(words, chunkSize, k * step);
    }
  }

  lemma ChunkAtWindow(words: seq<string>, chunkSize: int, j: nat)
    requires chunkSize > 0 && j < |words|
    ensures ChunkAt(words, chunkSize, j) == JoinWith(words[j..Min(j + chunkSize, |words|)], " ")
  {
  }

  /** With a non-negative overlap no word is lost: word `j` lies in the
      window of chunk `j / step`. */
  lemma ChunkCoverage(words: seq<string>, chunkSize: int, overlap: int)
    requires chunkSize > overlap >= 0 && ProperWords(words)
    ensures var step := chunkSize - overlap;
      forall j :: 0 <= j < |words| ==>
        ChunkIndex(j, step) < |ChunksFrom(words, chunkSize, step, 0)| &&
        ChunkIndex(j, step) * step <= j < Min(ChunkIndex(j, step) * step + chunkSize, |words|)
  {
    var step := chunkSize - overlap;
    ChunksFromCount(words, chunkSize, step, 0);
    forall j | 0 <= j < |words|
      ensures ChunkIndex(j, step) < |ChunksFrom(words, chunkSize, step, 0)|
    {
      var last: nat := |words| - 1;
      DivStep(last, step);
      assert |words| + step - 1 == last + step;
      DivMonotone(j, last, step);
    }
  }

  lemma DivMonotone(a: nat, b: nat, d: nat)
    requires a <= b && d > 0
    ensures a / d <= b / d
  {
    var qa, qb := a / d, b / d;
    DivUnique(a, d, qa, a % d);
    DivUnique(b, d, qb, b % d);
    if qa > qb {
      MulAtLeast(qa - qb, d);
    }
  }

  /** An empty or blank text gives no chunks. */
  lemma ChunksOfBlank(text: string, chunkSize: int, overlap: int)
    requires chunkSize > overlap && AllSpace(text)
    ensures ChunksFrom(Words(text), chunkSize, chunkSize - overlap, 0) == []
  {
    assert LStrip(text) == [];
  }
}
