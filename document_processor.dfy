/** `DocumentProcessor` (src/data/document_processor.py): dispatch of a file
    to the PDF or DOCX extractor by its extension, the accumulate-then-strip
    of both extractors, and the chunk metadata of `process_document`.

    The file system is a map from path to `File`. The parsing libraries
    (PyPDF2, python-docx) are oracles: a `File` records what each would make
    of the file's bytes. The text splitter is an oracle function from text
    to chunk texts. */
module DocumentProcessing {
  import opened Outcomes
  import opened Text
  import opened Paths
  import opened Documents

  /** One file on disk: its size in bytes, the page texts PyPDF2 extracts
      from it (or the message of the exception it raises) and the paragraph
      texts python-docx reads from it (or the message of its exception). */
  datatype File = File(
    size: nat,
    pdfPages: Result<seq<string>, string>,
    docxParagraphs: Result<seq<string>, string>)

  type FileSystem = map<string, File>

  /** `FileNotFoundError`, the `ValueError` for an unsupported extension,
      and an exception raised by a parsing library, re-raised unchanged. */
  datatype Error =
    | FileNotFound(path: string)
    | UnsupportedFormat(extension: string)
    | ExtractionFailed(message: string)

  /** The splitter: chunk texts for a text (RecursiveCharacterTextSplitter). */
  type Splitter = string -> seq<string>

  /** The text the `text += part + "\n"` loops build: every part followed
      by a newline, in order. */
  function JoinLines(parts: seq<string>): string {
    if parts == [] then "" else JoinLines(parts[..|parts| - 1]) + parts[|parts| - 1] + "\n"
  }

  /** Joining distributes over concatenation of the part lists. */
  lemma {:induction false} JoinLinesAppend(a: seq<string>, b: seq<string>)
    ensures JoinLines(a + b) == JoinLines(a) + JoinLines(b)
    decreases |b|
  {
    if b == [] {
      assert a + b == a;
    } else {
      var n := |b| - 1;
      var ab := a + b;
      assert ab[..|ab| - 1] == a + b[..n];
      assert ab[|ab| - 1] == b[n];
      JoinLinesAppend(a, b[..n]);
      calc {
        JoinLines(ab);
        JoinLines(a + b[..n]) + b[n] + "\n";
        JoinLines(a) + JoinLines(b[..n]) + b[n] + "\n";
        JoinLines(a) + (JoinLines(b[..n]) + b[n] + "\n");
      }
    }
  }

  /** Part `i` stands, followed by its newline, right after the joined
      earlier parts and right before the joined later ones. */
  lemma PartInPlace(parts: seq<string>, i: nat)
    requires i < |parts|
    ensures JoinLines(parts) == JoinLines(parts[..i]) + parts[i] + "\n" + JoinLines(parts[i + 1..])
  {
    var before, part, after := parts[..i], parts[i], parts[i + 1..];
    var head := before + [part];
    SplitAround(parts, i);
    assert head[..|head| - 1] == before;
    JoinLinesAppend(head, after);
    calc {
      JoinLines(parts);
      JoinLines(head) + JoinLines(after);
      JoinLines(before) + part + "\n" + JoinLines(after);
    }
  }

  lemma SplitAround<T>(xs: seq<T>, i: nat)
    requires i < |xs|
    ensures xs == xs[..i] + [xs[i]] + xs[i + 1..]
  {
    assert xs[..i + 1] == xs[..i] + [xs[i]];
    assert xs == xs[..i + 1] + xs[i + 1..];
  }

  /** Parts that are all whitespace join to whitespace only. */
  lemma {:induction false} JoinLinesOfBlankParts(parts: seq<string>)
    requires forall i :: 0 <= i < |parts| ==> AllSpace(parts[i])
    ensures AllSpace(JoinLines(parts))
    decreases |parts|
  {
    if parts != [] {
      var n := |parts| - 1;
      JoinLinesOfBlankParts(parts[..n]);
      var j := JoinLines(parts[..n]);
      assert JoinLines(parts) == j + parts[n] + "\n";
      forall k | 0 <= k < |JoinLines(parts)| ensures IsSpace(JoinLines(parts)[k]) {
        if k < |j| {
          assert JoinLines(parts)[k] == j[k];
        } else if k < |j| + |parts[n]| {
          assert JoinLines(parts)[k] == parts[n][k - |j|];
        }
      }
    }
  }

  /** What an extractor returns for one parser outcome: the strip of the
      joined parts, or the parser's exception. */
  function ExtractedText(parsed: Result<seq<string>, string>): Result<string, Error> {
    match parsed
    case Failure(m) => Failure(ExtractionFailed(m))
    case Success(parts) => Success(Strip(JoinLines(parts)))
  }

  /** Extracted text never starts or ends with whitespace. */
  lemma ExtractedTextTrimmed(parts: seq<string>)
    ensures var t := ExtractedText(Success(parts)).value;
      t != "" ==> !IsSpace(t[0]) && !IsSpace(t[|t| - 1])
  {
    StripTrimmed(JoinLines(parts));
  }

  /** Each part sits inside the joined text, so a joined text that is all
      whitespace has only blank parts. */
  lemma BlankJoinHasBlankParts(parts: seq<string>)
    requires AllSpace(JoinLines(parts))
    ensures forall i :: 0 <= i < |parts| ==> AllSpace(parts[i])
  {
    forall i | 0 <= i < |parts| ensures AllSpace(parts[i]) {
      PartInPlace(parts, i);
      AllSpaceOfInfix(JoinLines(parts[..i]), parts[i], "\n", JoinLines(parts[i + 1..]));
    }
  }

  lemma AllSpaceOfInfix(a: string, b: string, c: string, d: string)
    requires AllSpace(a + b + c + d)
    ensures AllSpace(b)
  {
    forall k | 0 <= k < |b| ensures IsSpace(b[k]) {
      assert (a + b + c + d)[|a| + k] == b[k];
    }
  }

  /** Extracted text is empty exactly when every page or paragraph is
      blank. */
  lemma ExtractedTextEmptyIff(parts: seq<string>)
    ensures ExtractedText(Success(parts)).value == "" <==> forall i :: 0 <= i < |parts| ==> AllSpace(parts[i])
  {
    StripEmptyIff(JoinLines(parts));
    if Strip(JoinLines(parts)) == "" {
      BlankJoinHasBlankParts(parts);
    }
    if forall i :: 0 <= i < |parts| ==> AllSpace(parts[i]) {
      JoinLinesOfBlankParts(parts);
    }
  }

  /** The `text += part + "\n"` loop of both extractors. */
  method AccumulateLines(parts: seq<string>) returns (text: string)
    ensures text == JoinLines(parts)
  {
    text := "";
    var i := 0;
    while i < |parts|
      invariant 0 <= i <= |parts|
      invariant text == JoinLines(parts[..i])
    {
      assert parts[..i + 1][..i] == parts[..i];
      text := text + parts[i] + "\n";
      i := i + 1;
    }
    assert parts[..i] == parts;
  }

  /** `extract_text_from_pdf`: page texts joined with a newline after each,
      then stripped; a PyPDF2 exception is re-raised. */
  method ExtractTextFromPdf(file: File) returns (r: Result<string, Error>)
    ensures r == ExtractedText(file.pdfPages)
  {
    match file.pdfPages
    case Failure(m) =>
      r := Failure(ExtractionFailed(m));
    case Success(pages) =>
      var text := AccumulateLines(pages);
      r := Success(Strip(text));
  }

  /** `extract_text_from_docx`: paragraph texts joined with a newline after
      each, then stripped; a python-docx exception is re-raised. */
  method ExtractTextFromDocx(file: File) returns (r: Result<string, Error>)
    ensures r == ExtractedText(file.docxParagraphs)
  {
    match file.docxParagraphs
    case Failure(m) =>
      r := Failure(ExtractionFailed(m));
    case Success(paragraphs) =>
      var text := AccumulateLines(paragraphs);
      r := Success(Strip(text));
  }

  /** The extension `extract_text_from_file` compares: the suffix of the
      file name, lower-cased. */
  function DispatchExtension(path: string): string {
    Lower(Suffix(Name(path)))
  }

  /** The two extractors `extract_text_from_file` can hand a file to. */
  datatype Extractor = PdfExtractor | DocxExtractor

  /** The extractor a lower-cased extension selects; any other extension
      is refused with it. */
  function ExtractorFor(extension: string): Result<Extractor, Error> {
    if extension == ".pdf" then Success(PdfExtractor)
    else if extension == ".docx" then Success(DocxExtractor)
    else Failure(UnsupportedFormat(extension))
  }

  /** The choice `extract_text_from_file` makes before reading the file: a
      missing file is reported first, then the lower-cased extension picks
      the extractor. */
  function Dispatch(fs: FileSystem, path: string): (r: Result<Extractor, Error>)
    ensures r.Success? ==> path in fs
  {
    if path !in fs then Failure(FileNotFound(path)) else ExtractorFor(DispatchExtension(path))
  }

  /** What the chosen extractor's parser yields for the file. */
  function Parsed(file: File, extractor: Extractor): Result<seq<string>, string> {
    match extractor
    case PdfExtractor => file.pdfPages
    case DocxExtractor => file.docxParagraphs
  }

  /** What `extract_text_from_file` returns or raises. */
  function FileText(fs: FileSystem, path: string): Result<string, Error> {
    match Dispatch(fs, path)
    case Failure(e) => Failure(e)
    case Success(extractor) => ExtractedText(Parsed(fs[path], extractor))
  }

  /** `extract_text_from_file`: existence first, then dispatch on the
      lower-cased extension. */
  method ExtractTextFromFile(fs: FileSystem, path: string) returns (r: Result<string, Error>)
    ensures r == FileText(fs, path)
  {
    if path !in fs {
      return Failure(FileNotFound(path));
    }
    var extension := DispatchExtension(path);
    if extension == ".pdf" {
      r := ExtractTextFromPdf(fs[path]);
    } else if extension == ".docx" {
      r := ExtractTextFromDocx(fs[path]);
    } else {
      r := Failure(UnsupportedFormat(extension));
    }
  }

  /** A missing file is reported as missing whatever its extension: the
      existence check comes before the extension is looked at. */
  lemma MissingFileFirst(fs: FileSystem, path: string, other: FileSystem)
    requires path !in fs && path !in other
    ensures Dispatch(fs, path) == Dispatch(other, path) == Failure(FileNotFound(path))
    ensures FileText(fs, path) == Failure(FileNotFound(path))
  {
  }

  /** `extract_text_from_file` raises `ValueError` exactly for an existing
      file whose lower-cased extension is neither ".pdf" nor ".docx"; the
      error carries that extension. */
  lemma UnsupportedExactly(fs: FileSystem, path: string)
    ensures Dispatch(fs, path).Failure? && Dispatch(fs, path).error.UnsupportedFormat? <==>
      path in fs && DispatchExtension(path) != ".pdf" && DispatchExtension(path) != ".docx"
    ensures Dispatch(fs, path) == Failure(UnsupportedFormat(DispatchExtension(path))) <==>
      path in fs && DispatchExtension(path) != ".pdf" && DispatchExtension(path) != ".docx"
  {
  }

  lemma LowerAppend(a: string, b: string)
    ensures Lower(a + b) == Lower(a) + Lower(b)
  {
  }

  /** For an existing file named `stem.ext` (bare, or inside a directory),
      the extractor is chosen by `ext` ignoring ASCII case: ".PDF" goes to
      the PDF extractor like ".pdf", ".DOCX" to the DOCX one like ".docx",
      and anything else is refused with the lower-cased extension. */
  lemma DispatchIgnoresCase(fs: FileSystem, path: string, stem: string, ext: string)
    requires stem != "" && ext != "" && '.' !in ext
    requires path in fs && Name(path) == stem + "." + ext
    ensures Dispatch(fs, path) ==
      if Lower(ext) == "pdf" then Success(PdfExtractor)
      else if Lower(ext) == "docx" then Success(DocxExtractor)
      else Failure(UnsupportedFormat("." + Lower(ext)))
  {
    DispatchOfName(fs, path, stem, ext);
    ExtractorForDotted(Lower(ext));
  }

  /** An existing file named `stem.ext` is dispatched on ".ext"
      lower-cased. */
  lemma DispatchOfName(fs: FileSystem, path: string, stem: string, ext: string)
    requires stem != "" && ext != "" && '.' !in ext
    requires path in fs && Name(path) == stem + "." + ext
    ensures Dispatch(fs, path) == ExtractorFor("." + Lower(ext))
  {
    ExtensionOfName(path, stem, ext);
  }

  /** ".x" selects the PDF extractor exactly for x == "pdf" and the DOCX
      one exactly for x == "docx". */
  lemma ExtractorForDotted(x: string)
    ensures ExtractorFor("." + x) ==
      if x == "pdf" then Success(PdfExtractor)
      else if x == "docx" then Success(DocxExtractor)
      else Failure(UnsupportedFormat("." + x))
  {
    assert ("." + x)[1..] == x;
    assert "." + x == ".pdf" <==> x == "pdf";
    assert "." + x == ".docx" <==> x == "docx";
  }

  /** The dispatch extension of a file named `stem.ext` is ".ext"
      lower-cased. */
  lemma ExtensionOfName(path: string, stem: string, ext: string)
    requires stem != "" && ext != "" && '.' !in ext
    requires Name(path) == stem + "." + ext
    ensures DispatchExtension(path) == "." + Lower(ext)
  {
    SuffixOfStemExt(stem, ext);
    LowerAppend(".", ext);
    assert Lower(".") == ".";
  }

  /** Instances of the rule above: "report.PDF" goes to the PDF extractor,
      "report.DOCX" to the DOCX one, and "notes.txt" is refused. */
  lemma UpperCasePdfAccepted(fs: FileSystem, path: string, stem: string)
    requires stem != "" && path in fs && Name(path) == stem + "." + "PDF"
    ensures Dispatch(fs, path) == Success(PdfExtractor)
  {
    PlainPdf();
    DispatchOfName(fs, path, stem, "PDF");
  }

  lemma UpperCaseDocxAccepted(fs: FileSystem, path: string, stem: string)
    requires stem != "" && path in fs && Name(path) == stem + "." + "DOCX"
    ensures Dispatch(fs, path) == Success(DocxExtractor)
  {
    PlainDocx();
    DispatchOfName(fs, path, stem, "DOCX");
  }

  lemma TextFileRefused(fs: FileSystem, path: string, stem: string)
    requires stem != "" && path in fs && Name(path) == stem + "." + "txt"
    ensures Dispatch(fs, path) == Failure(UnsupportedFormat(".txt"))
  {
    PlainTxt();
    DispatchOfName(fs, path, stem, "txt");
  }

  lemma PlainPdf()
    ensures "PDF" != "" && '/' !in "PDF" && '.' !in "PDF" && "." + Lower("PDF") == ".pdf"
  {
    assert Lower("PDF") == "pdf";
  }

  lemma PlainDocx()
    ensures "DOCX" != "" && '/' !in "DOCX" && '.' !in "DOCX" && "." + Lower("DOCX") == ".docx"
  {
    assert Lower("DOCX") == "docx";
  }

  lemma PlainTxt()
    ensures "txt" != "" && '/' !in "txt" && '.' !in "txt" && "." + Lower("txt") == ".txt"
  {
    assert Lower("txt") == "txt";
  }

  /** An existing file whose name has no inner dot has the empty suffix and
      is refused. */
  lemma NoExtensionRefused(fs: FileSystem, path: string)
    requires path in fs
    requires forall k :: 0 < k < |Name(path)| ==> Name(path)[k] != '.'
    ensures Dispatch(fs, path) == Failure(UnsupportedFormat(""))
  {
    NoSuffixWithoutInnerDot(Name(path));
    assert Lower("") == "";
  }

  /** `split_text_into_chunks`: one document per chunk text, in order, each
      carrying the given metadata or, for `None`, the empty dictionary. */
  function SplitTextIntoChunks(text: string, metadata: Option<Metadata>, split: Splitter): (chunks: seq<Document>)
  {
    var pieces := split(text);
    seq(|pieces|, i requires 0 <= i < |pieces| => Document(pieces[i], metadata.GetOr(EmptyMetadata)))
  }

  /** Every chunk carries the same metadata: the given one, or `{}` when it
      is `None`; the chunk texts are the splitter's, in order. */
  lemma ChunksCarryMetadata(text: string, metadata: Option<Metadata>, split: Splitter)
    ensures var chunks := SplitTextIntoChunks(text, metadata, split);
      && |chunks| == |split(text)|
      && (forall i :: 0 <= i < |chunks| ==> chunks[i].pageContent == split(text)[i])
      && (forall c :: c in chunks ==> c.metadata == metadata.GetOr(EmptyMetadata))
      && (metadata.None? ==> forall c :: c in chunks ==> c.metadata == EmptyMetadata)
  {
  }

  /** The metadata `process_document` attaches: the path as given, its
      final component, its suffix with the case kept, and its size. */
  function FileMetadata(path: string, size: nat): Metadata {
    Metadata(Some(path), Some(Name(path)), Some(Suffix(Name(path))), Some(size), None, None)
  }

  /** The file type is recorded with its original case, unlike the
      lower-cased extension used for dispatch. */
  lemma FileTypeKeepsCase(path: string, stem: string, ext: string, size: nat)
    requires stem != "" && ext != "" && '.' !in ext
    requires Name(path) == stem + "." + ext
    ensures FileMetadata(path, size).filename == Some(stem + "." + ext)
    ensures FileMetadata(path, size).fileType == Some("." + ext)
  {
    SuffixOfStemExt(stem, ext);
  }

  /** `process_document`: extraction errors propagate unchanged; otherwise
      the chunks of the extracted text, each with exactly the four metadata
      keys of the file (no chunk index, no score). */
  method ProcessDocument(fs: FileSystem, path: string, split: Splitter) returns (r: Result<seq<Document>, Error>)
    ensures FileText(fs, path).Failure? ==> r == Failure(FileText(fs, path).error)
    ensures FileText(fs, path).Success? ==>
      && path in fs
      && r.Success?
      && |r.value| == |split(FileText(fs, path).value)|
      && (forall i :: 0 <= i < |r.value| ==> r.value[i].pageContent == split(FileText(fs, path).value)[i])
      && (forall c :: c in r.value ==> c.metadata == FileMetadata(path, fs[path].size))
  {
    var text := ExtractTextFromFile(fs, path);
    match text
    case Failure(e) =>
      r := Failure(e);
    case Success(t) =>
      var metadata := FileMetadata(path, fs[path].size);
      var chunks := SplitTextIntoChunks(t, Some(metadata), split);
      ChunksCarryMetadata(t, Some(metadata), split);
      r := Success(chunks);
  }
}
