/**
 Which dropped files the window accepts and which conversion each one gets:
 a case-insensitive suffix test against ".pdf", ".doc" and ".docx", and the
 path the converted file is meant to get before collisions are avoided.
 */
module Dispatch {
  import opened Paths

  datatype Conversion = PdfToWord | WordToPdf

  /** What `trigger_conversion` does with a file name. */
  datatype Route = Convert(conversion: Conversion) | Unsupported

  /** One URL of a drag-and-drop: whether it names a local file, and which. */
  datatype DroppedUrl = DroppedUrl(isLocalFile: bool, localFile: string)

  predicate IsPdfName(name: string)
  {
    EndsWith(Lower(name), ".pdf")
  }

  predicate IsWordName(name: string)
  {
    EndsWith(Lower(name), ".doc") || EndsWith(Lower(name), ".docx")
  }

  /** The test of `dragEnterEvent` and `dropEvent`: the lower-cased name ends
      with one of the three suffixes. */
  predicate Accepted(name: string)
  {
    IsPdfName(name) || IsWordName(name)
  }

  /** `trigger_conversion`: PDF names go to Word, Word names go to PDF, and
      anything else only gets the "unsupported" notice. */
  function Classify(file: string): Route
  {
    if IsPdfName(file) then Convert(PdfToWord)
    else if IsWordName(file) then Convert(WordToPdf)
    else Unsupported
  }

  /** `dragEnterEvent` lets a drag in only when it carries exactly one URL,
      that URL is a local file, and its name is accepted. */
  predicate DragEnterAccepts(urls: seq<DroppedUrl>)
  {
    |urls| == 1 && HandsOn(urls[0])
  }

  /** The test `dropEvent` applies to each URL before converting it: a local
      file with an accepted name. */
  predicate HandsOn(url: DroppedUrl)
  {
    url.isLocalFile && Accepted(url.localFile)
  }

  function TargetExtension(c: Conversion): string
  {
    match c
    case PdfToWord => ".docx"
    case WordToPdf => ".pdf"
  }

  /** The path before collisions are avoided: the splitext root of the source
      followed by the target extension. */
  function OutputBase(f: Flavour, source: string, c: Conversion): string
  {
    SplitExt(f, source).0 + TargetExtension(c)
  }

  /** The last character of a name that ends with `suffix`. */
  lemma LastCharOfSuffix(s: string, suffix: string)
    ensures EndsWith(s, suffix) && |suffix| >= 1 ==> s[|s| - 1] == suffix[|suffix| - 1]
  {
    if EndsWith(s, suffix) && |suffix| >= 1 {
      assert s[|s| - 1] == s[|s| - |suffix|..][|suffix| - 1];
    }
  }

  /** No name ends both in ".pdf" and in ".doc" or ".docx", so the order of
      the tests in `trigger_conversion` does not matter. */
  lemma SuffixesExclusive(s: string)
    ensures !(EndsWith(s, ".pdf") && (EndsWith(s, ".doc") || EndsWith(s, ".docx")))
  {
    LastCharOfSuffix(s, ".pdf");
    LastCharOfSuffix(s, ".doc");
    LastCharOfSuffix(s, ".docx");
  }

  /** A file converts exactly when the drop handlers accept its name. */
  lemma ClassifyConvertsIffAccepted(file: string)
    ensures Classify(file).Convert? <==> Accepted(file)
  {
  }

  /** Dispatch is exclusive and total: each name gets exactly one route, and
      each route is taken exactly for the names with its suffixes. */
  lemma ClassifyRoutes(file: string)
    ensures Classify(file) == Convert(PdfToWord) <==> IsPdfName(file)
    ensures Classify(file) == Convert(WordToPdf) <==> IsWordName(file)
    ensures Classify(file) == Unsupported <==> !Accepted(file)
  {
    SuffixesExclusive(Lower(file));
  }

  /** Case does not matter: a name and its lower-cased form take the same
      route. */
  lemma ClassifyIgnoresCase(file: string)
    ensures Classify(Lower(file)) == Classify(file)
  {
    LowerIdempotent(file);
  }

  /** An accepted name ends in a letter: 'f', 'c' or 'x' once lower-cased. */
  lemma AcceptedLastChar(name: string)
    requires Accepted(name)
    ensures |name| >= 1 && LowerChar(name[|name| - 1]) in {'f', 'c', 'x'}
  {
    var low := Lower(name);
    LastCharOfSuffix(low, ".pdf");
    LastCharOfSuffix(low, ".doc");
    LastCharOfSuffix(low, ".docx");
    assert low[|low| - 1] == LowerChar(name[|name| - 1]);
  }

  /** The splitext root of an accepted name always has a stem: its last
      component holds something other than dots. */
  lemma AcceptedRootHasStem(f: Flavour, source: string)
    requires Accepted(source)
    ensures HasStem(f, SplitExt(f, source).0)
  {
    SplitExtParts(f, source);
    if SplitExt(f, source).1 == [] {
      var n := |source|;
      AcceptedLastChar(source);
      var c := source[n - 1];
      assert c != '.' && c !in Separators(f);
      var sep := RFind(source, Separators(f));
      assert sep < n - 1;
      assert sep < n - 1 < n && source[n - 1] != '.';
    }
  }

  lemma TargetIsExtension(f: Flavour, c: Conversion)
    ensures IsExtension(f, TargetExtension(c))
  {
    var e := TargetExtension(c);
    forall j | 1 <= j < |e|
      ensures e[j] != '.' && e[j] !in Separators(f)
    {
      assert e[j] in {'p', 'd', 'f', 'o', 'c', 'x'};
    }
  }

  /** For an accepted source, splitting the output path again gives back the
      source's root and the target extension, so the collision suffix goes
      between the two. */
  lemma OutputBaseRoundTrip(f: Flavour, source: string, c: Conversion)
    requires Accepted(source)
    ensures SplitExt(f, OutputBase(f, source, c)) == (SplitExt(f, source).0, TargetExtension(c))
  {
    AcceptedRootHasStem(f, source);
    TargetIsExtension(f, c);
    SplitExtOfJoin(f, SplitExt(f, source).0, TargetExtension(c));
  }

  /** A directory ending in a separator has no stem: without the accepted
      suffix, the round trip above fails. */
  lemma OutputBaseNeedsStem(f: Flavour)
    ensures SplitExt(f, OutputBase(f, "dir/", PdfToWord)) == ("dir/.docx", "")
  {
    var p := "dir/.docx";
    assert SplitExt(f, "dir/") == ("dir/", "") by {
      RFindIsLast("dir/", Separators(f), 3);
    }
    assert OutputBase(f, "dir/", PdfToWord) == p;
    RFindIsLast(p, Separators(f), 3);
    RFindIsLast(p, {'.'}, 4);
    assert !NonDotBetween(p, 3, 4);
  }
}
