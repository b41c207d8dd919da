/**
 The drop target of the converter window, without its widgets: a dropped
 local file with an accepted name is announced on the status label and
 converted next to itself, under a name no existing file has. The file system
 is a map from paths to what the files hold; the PDF and Word libraries and
 the external Word-to-PDF converter are a `Library` of answers per path.
 */
module Gui {
  import opened Paths
  import opened Naming
  import opened Dispatch
  import opened Paragraphs

  datatype Option<T> = None | Some(value: T)

  /** What a file holds, as far as the converter is concerned. */
  datatype Content =
    | Other                           // a file the converter did not write
    | WordDocument(paragraphs: seq<string>)
    | BlankPdf                        // the placeholder page written before converting
    | ConvertedPdf(source: string)    // the external converter's rendering of a Word file

  /** Which dialog a conversion ends with: "success" or "unknown error". */
  datatype Outcome = Success | Failure

  /** The status label under the drop area. */
  datatype Status = Blank | DroppedFile(name: string) | UnsupportedNotice

  function LabelText(s: Status): string
  {
    match s
    case Blank => " "
    case DroppedFile(name) => "已拖入文件: " + name
    case UnsupportedNotice => "只能转换为 Word 或 PDF 文件！"
  }

  /** The label tells the three states apart, and a dropped file's label
      ends with its name. */
  lemma LabelTextDistinct(a: Status, b: Status)
    ensures LabelText(a) == LabelText(b) ==> a == b
    ensures a.DroppedFile? ==> EndsWith(LabelText(a), a.name)
  {
    var prefix := "已拖入文件: ";
    if a.DroppedFile? {
      assert LabelText(a)[|prefix|..] == a.name;
    }
    if a.DroppedFile? && !b.DroppedFile? {
      assert LabelText(a)[0] != LabelText(b)[0];
    }
    if b.DroppedFile? && !a.DroppedFile? {
      assert LabelText(a)[0] != LabelText(b)[0];
    }
    if LabelText(a) == LabelText(b) && a.DroppedFile? && b.DroppedFile? {
      assert a.name == LabelText(a)[|prefix|..] == LabelText(b)[|prefix|..] == b.name;
    }
  }

  /** The answers of the libraries the converter calls, per source path:
      the text of the first page of a PDF (None when opening, parsing,
      taking page 0 or extracting fails), whether a Word file opens, has a
      first section and that section has a page width and height, and
      whether the external converter succeeds. */
  datatype Library = Library(
    pdfText: string -> Option<string>,
    opensAsWord: string -> bool,
    convertsToPdf: string -> bool)

  /** The files on disk and the status label. */
  datatype World = World(files: map<string, Content>, status: Status)

  /** Every file that existed is still there, with the same content. */
  ghost predicate KeepsFiles(before: map<string, Content>, after: map<string, Content>)
  {
    forall p :: p in before ==> p in after && after[p] == before[p]
  }

  /** `to_word`: read the first page's text, then save one paragraph per
      line under the first free name derived from the source. */
  function ToWordEffect(f: Flavour, files: map<string, Content>, pdfFile: string,
                        extracted: Option<string>): (map<string, Content>, Outcome)
  {
    match extracted
    case None => (files, Failure)
    case Some(text) =>
      var docxFile := FreeName(f, files.Keys, OutputBase(f, pdfFile, PdfToWord));
      (files[docxFile := WordDocument(Split(text))], Success)
  }

  /** `to_pdf`: open the Word file, write a blank placeholder page under the
      first free name, then let the external converter write over it. When the
      converter fails, the placeholder stays. */
  function ToPdfEffect(f: Flavour, files: map<string, Content>, wordFile: string,
                       opens: bool, converts: bool): (map<string, Content>, Outcome)
  {
    if !opens then (files, Failure)
    else
      var pdfFile := FreeName(f, files.Keys, OutputBase(f, wordFile, WordToPdf));
      if converts then (files[pdfFile := ConvertedPdf(wordFile)], Success)
      else (files[pdfFile := BlankPdf], Failure)
  }

  /** `trigger_conversion`: the route decides which conversion runs; an
      unsupported name only changes the label. */
  function TriggerEffect(f: Flavour, w: World, file: string, lib: Library): (World, seq<Outcome>)
  {
    match Classify(file)
    case Convert(PdfToWord) =>
      var (files, outcome) := ToWordEffect(f, w.files, file, lib.pdfText(file));
      (w.(files := files), [outcome])
    case Convert(WordToPdf) =>
      var (files, outcome) := ToPdfEffect(f, w.files, file, lib.opensAsWord(file), lib.convertsToPdf(file));
      (w.(files := files), [outcome])
    case Unsupported =>
      (w.(status := UnsupportedNotice), [])
  }

  /** One URL of `dropEvent`: a local file with an accepted name is announced
      on the label and converted; anything else is skipped. */
  function DropOneEffect(f: Flavour, w: World, url: DroppedUrl, lib: Library): (World, seq<Outcome>)
  {
    if HandsOn(url) then
      TriggerEffect(f, w.(status := DroppedFile(Basename(f, url.localFile))), url.localFile, lib)
    else (w, [])
  }

  /** `dropEvent`: the URLs in order. */
  function DropEffect(f: Flavour, w: World, urls: seq<DroppedUrl>, lib: Library): (World, seq<Outcome>)
  {
    if urls == [] then (w, [])
    else
      var (mid, first) := DropEffect(f, w, urls[..|urls| - 1], lib);
      var (after, last) := DropOneEffect(f, mid, urls[|urls| - 1], lib);
      (after, first + last)
  }

  /** Converting a PDF never touches an existing file: on success exactly one
      file is added, under a name that did not exist, holding the page text
      line by line; on failure nothing is written. */
  lemma ToWordNeverOverwrites(f: Flavour, files: map<string, Content>, pdfFile: string,
                              extracted: Option<string>)
    ensures var (after, outcome) := ToWordEffect(f, files, pdfFile, extracted);
            && KeepsFiles(files, after)
            && (outcome == Success <==> extracted.Some?)
            && (extracted.None? ==> after == files)
            && (extracted.Some? ==>
                  var out := FreeName(f, files.Keys, OutputBase(f, pdfFile, PdfToWord));
                  && out !in files
                  && after.Keys == files.Keys + {out}
                  && after[out].WordDocument?
                  && Join(after[out].paragraphs) == extracted.value
                  && NoNewlines(after[out].paragraphs))
  {
    if extracted.Some? {
      var out := FreeName(f, files.Keys, OutputBase(f, pdfFile, PdfToWord));
      FreeNameIsFirstFree(f, files.Keys, OutputBase(f, pdfFile, PdfToWord));
      JoinSplit(extracted.value);
      SplitHasNoNewlines(extracted.value);
    }
  }

  /** Converting a Word file never touches an existing file: when the file
      opens, exactly one file is added under a name that did not exist; it
      holds the converted document on success and the blank placeholder when
      the converter fails. */
  lemma ToPdfNeverOverwrites(f: Flavour, files: map<string, Content>, wordFile: string,
                             opens: bool, converts: bool)
    ensures var (after, outcome) := ToPdfEffect(f, files, wordFile, opens, converts);
            && KeepsFiles(files, after)
            && (outcome == Success <==> opens && converts)
            && (!opens ==> after == files)
            && (opens ==>
                  var out := FreeName(f, files.Keys, OutputBase(f, wordFile, WordToPdf));
                  && out !in files
                  && after.Keys == files.Keys + {out}
                  && after[out] == (if converts then ConvertedPdf(wordFile) else BlankPdf))
  {
    if opens {
      FreeNameIsFirstFree(f, files.Keys, OutputBase(f, wordFile, WordToPdf));
    }
  }

  /** A conversion runs exactly for accepted names, and then the label is left
      alone; any other name only gets the "unsupported" notice. */
  lemma TriggerConvertsIffAccepted(f: Flavour, w: World, file: string, lib: Library)
    ensures var (after, outcomes) := TriggerEffect(f, w, file, lib);
            && (|outcomes| == 1 <==> Accepted(file))
            && (Accepted(file) ==> after.status == w.status && KeepsFiles(w.files, after.files))
            && (!Accepted(file) ==> after == w.(status := UnsupportedNotice) && outcomes == [])
  {
    ClassifyRoutes(file);
    if Classify(file) == Convert(PdfToWord) {
      ToWordNeverOverwrites(f, w.files, file, lib.pdfText(file));
    } else if Classify(file) == Convert(WordToPdf) {
      ToPdfNeverOverwrites(f, w.files, file, lib.opensAsWord(file), lib.convertsToPdf(file));
    }
  }

  /** How many of the URLs `dropEvent` converts. */
  function HandedOnCount(urls: seq<DroppedUrl>): nat
  {
    if urls == [] then 0
    else HandedOnCount(urls[..|urls| - 1]) + (if HandsOn(urls[|urls| - 1]) then 1 else 0)
  }

  /** The last URL `dropEvent` converts, if any. */
  function LastHandedOn(urls: seq<DroppedUrl>): Option<string>
  {
    if urls == [] then None
    else if HandsOn(urls[|urls| - 1]) then Some(urls[|urls| - 1].localFile)
    else LastHandedOn(urls[..|urls| - 1])
  }

  /** No URL is converted exactly when there is no last converted one. */
  lemma {:induction false} NoneHandedOn(urls: seq<DroppedUrl>)
    ensures HandedOnCount(urls) == 0 <==> LastHandedOn(urls).None?
  {
    if urls != [] {
      NoneHandedOn(urls[..|urls| - 1]);
    }
  }

  /** The status label after a drop: the base name of the last converted
      file, or the old label when nothing was converted. */
  function DropStatus(f: Flavour, old_status: Status, urls: seq<DroppedUrl>): Status
  {
    match LastHandedOn(urls)
    case None => old_status
    case Some(file) => DroppedFile(Basename(f, file))
  }

  /** However many URLs are dropped, no existing file changes, exactly the
      local files with an accepted name are converted, one conversion each,
      and the label ends on the base name of the last of them. A drop with
      no such URL changes nothing at all. */
  lemma {:induction false} DropNeverOverwrites(f: Flavour, w: World, urls: seq<DroppedUrl>, lib: Library)
    ensures var (after, outcomes) := DropEffect(f, w, urls, lib);
            && KeepsFiles(w.files, after.files)
            && |outcomes| == HandedOnCount(urls)
            && after.status == DropStatus(f, w.status, urls)
            && (HandedOnCount(urls) == 0 ==> after == w && outcomes == [])
  {
    if urls != [] {
      var init := urls[..|urls| - 1];
      var (mid, first) := DropEffect(f, w, init, lib);
      DropNeverOverwrites(f, w, init, lib);
      var url := urls[|urls| - 1];
      if HandsOn(url) {
        TriggerConvertsIffAccepted(f, mid.(status := DroppedFile(Basename(f, url.localFile))), url.localFile, lib);
      } else {
        assert DropEffect(f, w, urls, lib) == (mid, first + []);
        assert first + [] == first;
      }
    }
  }

  /** A drop the window lets in (one local file with an accepted name) runs
      exactly one conversion and shows the file's base name. */
  lemma DropOfAcceptedFile(f: Flavour, w: World, urls: seq<DroppedUrl>, lib: Library)
    requires DragEnterAccepts(urls)
    ensures var (after, outcomes) := DropEffect(f, w, urls, lib);
            && |outcomes| == 1
            && after.status == DroppedFile(Basename(f, urls[0].localFile))
  {
    var file := urls[0].localFile;
    assert urls[..0] == [];
    TriggerConvertsIffAccepted(f, w.(status := DroppedFile(Basename(f, file))), file, lib);
  }

  /** A corollary of ToWordNeverOverwrites in closed form: the whole map a
      successful `to_word` leaves, in terms of the name it picks. */
  lemma ToWordSaves(f: Flavour, files: map<string, Content>, pdfFile: string, text: string)
    ensures var out := FreeName(f, files.Keys, OutputBase(f, pdfFile, PdfToWord));
            && out !in files
            && ToWordEffect(f, files, pdfFile, Some(text)) == (files[out := WordDocument(Split(text))], Success)
  {
    FreeNameIsFirstFree(f, files.Keys, OutputBase(f, pdfFile, PdfToWord));
  }

  /** A corollary of ToWordNeverOverwrites: a successful `to_word` keeps
      every file and adds exactly one, counted. */
  lemma ToWordAddsOne(f: Flavour, files: map<string, Content>, pdfFile: string, text: string)
    ensures var after := ToWordEffect(f, files, pdfFile, Some(text)).0;
            KeepsFiles(files, after) && |after.Keys| == |files.Keys| + 1
  {
    ToWordNeverOverwrites(f, files, pdfFile, Some(text));
  }

  /** Dropping the same PDF twice keeps the first output and writes a
      second, different file: ToWordAddsOne applied to both runs. */
  lemma ToWordTwiceWritesTwoFiles(f: Flavour, files: map<string, Content>, pdfFile: string, text: string)
    ensures var once := ToWordEffect(f, files, pdfFile, Some(text)).0;
            var twice := ToWordEffect(f, once, pdfFile, Some(text)).0;
            KeepsFiles(files, once) && KeepsFiles(once, twice) && |twice.Keys| == |files.Keys| + 2
  {
    var once := ToWordEffect(f, files, pdfFile, Some(text)).0;
    ToWordAddsOne(f, files, pdfFile, text);
    ToWordAddsOne(f, once, pdfFile, text);
  }

  /** The names two conversions of the same PDF pick when the document name
      and its `_1` variant are free. */
  lemma DocxNamesTwice(f: Flavour, existing: set<string>, pdfFile: string)
    requires Accepted(pdfFile)
    requires var root := SplitExt(f, pdfFile).0;
             root + ".docx" !in existing && root + "_1.docx" !in existing
    ensures var root := SplitExt(f, pdfFile).0;
            var base := OutputBase(f, pdfFile, PdfToWord);
            && FreeName(f, existing, base) == root + ".docx"
            && FreeName(f, existing + {root + ".docx"}, base) == root + "_1.docx"
  {
    var root := SplitExt(f, pdfFile).0;
    var base := OutputBase(f, pdfFile, PdfToWord);
    OutputBaseRoundTrip(f, pdfFile, PdfToWord);
    assert root + "_1" + ".docx" == root + "_1.docx";
    SecondRunTakesNextName(f, existing, base);
  }

  /** The concrete case of dropping one PDF twice: when the document name
      and its `_1` variant were free, the two outputs are `root.docx` and
      `root_1.docx`, with the same paragraphs. */
  lemma ToWordTwiceNames(f: Flavour, files: map<string, Content>, pdfFile: string, text: string)
    requires Accepted(pdfFile)
    requires var root := SplitExt(f, pdfFile).0;
             root + ".docx" !in files && root + "_1.docx" !in files
    ensures var root := SplitExt(f, pdfFile).0;
            var once := files[root + ".docx" := WordDocument(Split(text))];
            && ToWordEffect(f, files, pdfFile, Some(text)) == (once, Success)
            && ToWordEffect(f, once, pdfFile, Some(text)) ==
               (once[root + "_1.docx" := WordDocument(Split(text))], Success)
  {
    var root := SplitExt(f, pdfFile).0;
    var once := files[root + ".docx" := WordDocument(Split(text))];
    DocxNamesTwice(f, files.Keys, pdfFile);
    assert once.Keys == files.Keys + {root + ".docx"};
    ToWordSaves(f, files, pdfFile, text);
    ToWordSaves(f, once, pdfFile, text);
  }

  lemma ReportName(f: Flavour)
    ensures Accepted("report.pdf") && SplitExt(f, "report.pdf") == ("report", ".pdf")
  {
    assert Lower("report.pdf") == "report.pdf";
    assert "report.pdf" == "report" + ".pdf";
    RFindIsLast("report", Separators(f), -1);
    assert "report"[0] != '.';
    TargetIsExtension(f, WordToPdf);
    SplitExtOfJoin(f, "report", ".pdf");
  }

  lemma HelloWorldLines()
    ensures Split("Hello\nWorld") == ["Hello", "World"]
  {
    assert Join(["Hello", "World"]) == "Hello\nWorld";
    assert NoNewlines(["Hello", "World"]);
    SplitJoin(["Hello", "World"]);
  }

  /** `report.pdf`, whose first page reads "Hello\nWorld", dropped twice
      into an empty folder: `report.docx` and then `report_1.docx`, each with
      the paragraphs "Hello" and "World". */
  lemma ReportDroppedTwice(f: Flavour)
    ensures var doc := WordDocument(["Hello", "World"]);
            && ToWordEffect(f, map[], "report.pdf", Some("Hello\nWorld")) ==
               (map["report.docx" := doc], Success)
            && ToWordEffect(f, map["report.docx" := doc], "report.pdf", Some("Hello\nWorld")) ==
               (map["report.docx" := doc, "report_1.docx" := doc], Success)
  {
    var doc := WordDocument(["Hello", "World"]);
    ReportName(f);
    assert "report" + ".docx" == "report.docx";
    assert "report" + "_1.docx" == "report_1.docx";
    assert WordDocument(Split("Hello\nWorld")) == doc by {
      HelloWorldLines();
    }
    ToWordTwiceNames(f, map[], "report.pdf", "Hello\nWorld");
    var once: map<string, Content> := map[]["report.docx" := doc];
    assert once == map["report.docx" := doc];
  }

  /** The file system as the converter sees it: `os.path.isfile` is
      membership, saving replaces or adds one entry. */
  class FileSystem {
    var files: map<string, Content>

    constructor (initial: map<string, Content>)
      ensures files == initial
    {
      files := initial;
    }

    method Save(path: string, content: Content)
      modifies this
      ensures files == old(files)[path := content]
    {
      files := files[path := content];
    }
  }

  /** The drop area of the window; its status label is the only state it
      changes. */
  class DragDropFrame {
    const platform: Flavour
    var status: Status

    constructor (platform: Flavour)
      ensures this.platform == platform && status == Blank
    {
      this.platform := platform;
      status := Blank;
    }

    method ToWord(fs: FileSystem, pdfFile: string, lib: Library) returns (outcome: Outcome)
      modifies fs
      ensures (fs.files, outcome) == ToWordEffect(platform, old(fs.files), pdfFile, lib.pdfText(pdfFile))
    {
      var extracted := lib.pdfText(pdfFile);
      if extracted.None? {
        return Failure;
      }
      var docxFile := OutputBase(platform, pdfFile, PdfToWord);
      var paragraphs := CopyPageText(extracted.value);
      docxFile := PickOutputPath(platform, fs.files.Keys, docxFile);
      fs.Save(docxFile, WordDocument(paragraphs));
      outcome := Success;
    }

    method ToPdf(fs: FileSystem, wordFile: string, lib: Library) returns (outcome: Outcome)
      modifies fs
      ensures (fs.files, outcome) ==
              ToPdfEffect(platform, old(fs.files), wordFile, lib.opensAsWord(wordFile), lib.convertsToPdf(wordFile))
    {
      ghost var before := fs.files;
      if !lib.opensAsWord(wordFile) {
        return Failure;
      }
      var pdfFile := OutputBase(platform, wordFile, WordToPdf);
      pdfFile := PickOutputPath(platform, fs.files.Keys, pdfFile);
      fs.Save(pdfFile, BlankPdf);
      if lib.convertsToPdf(wordFile) {
        fs.Save(pdfFile, ConvertedPdf(wordFile));
        assert fs.files == before[pdfFile := ConvertedPdf(wordFile)];
        outcome := Success;
      } else {
        outcome := Failure;
      }
    }

    method TriggerConversion(fs: FileSystem, file: string, lib: Library) returns (outcomes: seq<Outcome>)
      modifies this, fs
      ensures (World(fs.files, status), outcomes) == TriggerEffect(platform, World(old(fs.files), old(status)), file, lib)
    {
      var low := Lower(file);
      if EndsWith(low, ".pdf") {
        var outcome := ToWord(fs, file, lib);
        outcomes := [outcome];
      } else if EndsWith(low, ".doc") || EndsWith(low, ".docx") {
        var outcome := ToPdf(fs, file, lib);
        outcomes := [outcome];
      } else {
        status := UnsupportedNotice;
        outcomes := [];
      }
    }

    method DropEvent(fs: FileSystem, urls: seq<DroppedUrl>, lib: Library) returns (outcomes: seq<Outcome>)
      modifies this, fs
      ensures (World(fs.files, status), outcomes) == DropEffect(platform, World(old(fs.files), old(status)), urls, lib)
    {
      outcomes := [];
      for i := 0 to |urls|
        invariant (World(fs.files, status), outcomes) ==
                  DropEffect(platform, World(old(fs.files), old(status)), urls[..i], lib)
      {
        var url := urls[i];
        ghost var mid := World(fs.files, status);
        ghost var (after, last) := DropOneEffect(platform, mid, url, lib);
        assert urls[..i + 1][..i] == urls[..i];
        assert DropEffect(platform, World(old(fs.files), old(status)), urls[..i + 1], lib) ==
               (after, outcomes + last);
        if HandsOn(url) {
          var file := url.localFile;
          status := DroppedFile(Basename(platform, file));
          var converted := TriggerConversion(fs, file, lib);
          outcomes := outcomes + converted;
        } else {
          assert outcomes + last == outcomes;
        }
      }
      assert urls[..|urls|] == urls;
    }
  }
}
