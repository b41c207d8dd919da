# word_pdf converter window, modelled in Dafny

`GUI.py` is a PyQt window with a drop area. The drop area accepts one local
file whose lower-cased name ends in `.pdf`, `.doc` or `.docx`. A PDF becomes a
Word document, with one paragraph per line of its first page's text. A Word
file becomes a PDF, made by the external `docx2pdf` converter. Either way, the
output goes next to the source under `root + ext`. If a file already has that
name, it goes under the first free name among `root_1 + ext`,
`root_2 + ext`, and so on, where `(root, ext)` is `os.path.splitext` of the
intended path.

The model has five modules:

- `Paths`: the Python string and path primitives the window relies on.
  - `str.rfind`, `str.lower` and `str.endswith`.
  - `os.path.splitext` and `os.path.basename`, for both the POSIX flavour
    (`'/'`) and the Windows flavour (`'/'` and `'\\'`).
  - Lemmas saying that `splitext` loses nothing, and that it is undone by
    appending a proper extension to a name with a stem.
- `Naming`: the collision-avoiding output name.
  - The decimal text of the counter, and its inverse.
  - The candidate names, and the fact that they are pairwise distinct.
  - The specification function `FreeName`: the first candidate no file has.
  - The probing `while` loop `PickOutputPath`, proved against `FreeName`.
  - Termination, from the fact that only as many candidates can be taken as
    there are files.
- `Dispatch`:
  - the suffix tests of `dragEnterEvent`, `dropEvent` and
    `trigger_conversion`;
  - a proof that dispatch is exclusive, total and case-blind;
  - the intended output path, and its round trip through `splitext`.
- `Paragraphs`:
  - `str.split("\n")` and its inverse `"\n".join`, with both round trips;
  - the count of pieces;
  - the loop that copies the lines into the document.
- `Gui`:
  - the file system, as a class holding a map from paths to contents;
  - the drop area, as a class whose status label is its state;
  - `to_word`, `to_pdf`, `trigger_conversion` and `dropEvent` as methods.
    Each is proved equal to an effect function on values.
  - The lemmas about those functions:
    - no existing file is ever overwritten;
    - each conversion that gets as far as writing adds exactly one file next
      to its source;
    - a drop converts exactly its local files with accepted names, and the
      label ends on the last one's base name;
    - converting the same PDF twice, when neither `root.docx` nor
      `root_1.docx` exists yet, yields `root.docx` and then `root_1.docx`.

The file system is a `map<string, Content>`, and `os.path.isfile` is
membership in its keys.

PyPDF2, python-docx and docx2pdf are replaced by a `Library` value. It gives,
per path:
- the first page's text, or `None` when opening, parsing, taking page 0 or
  extracting fails;
- whether the Word file opens, has a first section, and that section has a
  page width and height (a missing one makes `.inches` raise before anything
  is written);
- whether the external converter succeeds.

The status label is a `Status` value. `LabelText` gives the exact text it
shows.

## Model

| member | source | states |
|---|---|---|
| `Paths.SplitExt` | GUI.py:95 | definition of `os.path.splitext`; characterised by `SplitExtParts` and `SplitExtOfJoin` |
| `Paths.Lower` | GUI.py:72 | definition of `str.lower` on ASCII letters; `LowerIdempotent` and `Dispatch.ClassifyIgnoresCase` state what it guarantees |
| `Paths.EndsWith` | GUI.py:74 | definition of `str.endswith` with one suffix; used by the suffix tests, characterised by `Dispatch.LastCharOfSuffix` and `Dispatch.SuffixesExclusive` |
| `Paths.LowerIdempotent` | GUI.py:72-74 | lower-casing twice is lower-casing once |
| `Paths.RFind` | GUI.py:95 | the index `splitext` finds is that of a target character with no target character after it, or -1 when there is none |
| `Paths.SplitExtParts` | GUI.py:95 | root + ext is the whole path; a non-empty ext is a dot followed by no dot or separator, and its root has a non-dot character in its last component |
| `Paths.SplitExtOfJoin` | GUI.py:115-116 | appending a proper extension to a root with a stem is undone by `splitext`, which gives back exactly that root and extension |
| `Paths.Basename` | GUI.py:66 | the base name shown on the label is a suffix of the path, contains no separator, and is preceded by a separator unless it is the whole path |
| `Naming.Decimal` | GUI.py:98 | definition of the decimal text of the counter in the f-string: it is non-empty and all digits; `DecimalRoundTrip` proves it lossless |
| `Naming.Candidate` | GUI.py:95-98 | definition of the name probed after n collisions, `root + ext` first and then `f"{root}_{n}{ext}"`; characterised by `CandidateAffixes` and `CandidateInjective` |
| `Naming.FreeName` | GUI.py:95-99 | definition of the name the loop settles on, as the first free candidate; characterised by `FreeNameIsFirstFree` and `SecondRunTakesNextName`, and equal to `PickOutputPath`'s result |
| `Naming.DecimalRoundTrip` | GUI.py:98 | the counter's decimal text reads back as the counter |
| `Naming.CandidateAffixes` | GUI.py:98 | every probed name starts with the root and ends with the extension |
| `Naming.CandidateInjective` | GUI.py:95-99 | two probed names are equal only for the same counter, so the loop never probes a name twice |
| `Naming.TakenBound` | GUI.py:97-99 | if the first n candidates all exist, there are at least n files, so the probing loop stops |
| `Naming.FirstFreeFrom` | GUI.py:96-99 | counting up from a point where every earlier name is taken reaches a counter whose name is free, with every name before it taken |
| `Naming.FreeIndexUnique` | GUI.py:96-99 | the free counter whose predecessors are all taken is unique, so it is the one the loop stops at |
| `Naming.FreeNameIsFirstFree` | GUI.py:95-100 | the chosen name never exists; it is the intended path when that is free; otherwise it is `root_k + ext` for the least k >= 1 whose name is free |
| `Naming.SecondRunTakesNextName` | GUI.py:95-100 | after saving under the chosen name, the next choice differs from it and from every older file; with `base` and `root_1 + ext` free, the two choices are exactly those |
| `Naming.PickOutputPath` | GUI.py:95-99 | the `while os.path.isfile` loop ends with a name no file has, and that name is the first free candidate |
| `Dispatch.IsPdfName` | GUI.py:72 | definition of the test `file.lower().endswith('.pdf')`; characterised by `ClassifyRoutes` |
| `Dispatch.IsWordName` | GUI.py:74 | definition of the test `file.lower().endswith(('.doc', '.docx'))`; characterised by `ClassifyRoutes` |
| `Dispatch.TargetExtension` | GUI.py:82 | definition of the `.docx` / `.pdf` literal appended to the root (also line 115); characterised by `TargetIsExtension` and `OutputBaseRoundTrip` |
| `Dispatch.Accepted` | GUI.py:52 | definition of the suffix test of `dragEnterEvent` and `dropEvent` on the lower-cased name; `ClassifyConvertsIffAccepted` relates it to dispatch |
| `Dispatch.DragEnterAccepts` | GUI.py:50-52 | definition of when a drag is let in: exactly one URL, a local file, accepted name; `Gui.DropOfAcceptedFile` states what dropping it does |
| `Dispatch.HandsOn` | GUI.py:63-65 | definition of the test `dropEvent` applies before converting a URL; `Gui.DropNeverOverwrites` states what the drop does with it |
| `Dispatch.Classify` | GUI.py:71-77 | definition of the route `trigger_conversion` takes; characterised by `ClassifyRoutes`, `ClassifyConvertsIffAccepted` and `ClassifyIgnoresCase` |
| `Dispatch.OutputBase` | GUI.py:82 | definition of the intended output path (splitext root plus target extension); characterised by `OutputBaseRoundTrip` and `OutputBaseNeedsStem` |
| `Dispatch.LastCharOfSuffix` | GUI.py:72-74 | a name ending in a suffix ends in the suffix's last character |
| `Dispatch.SuffixesExclusive` | GUI.py:72-75 | no name ends both in `.pdf` and in `.doc` or `.docx`, so the order of the two tests does not matter |
| `Dispatch.ClassifyConvertsIffAccepted` | GUI.py:65-77 | `trigger_conversion` converts exactly the names the drop handler accepts |
| `Dispatch.ClassifyRoutes` | GUI.py:71-77 | dispatch is exclusive and total: a PDF name goes to Word, a Word name goes to PDF, and only an unaccepted name gets the notice, each in both directions |
| `Dispatch.ClassifyIgnoresCase` | GUI.py:72-74 | a name and its lower-cased form take the same route |
| `Dispatch.AcceptedLastChar` | GUI.py:52 | an accepted name ends in a letter that lower-cases to f, c or x |
| `Dispatch.AcceptedRootHasStem` | GUI.py:82 | the `splitext` root of an accepted source has a non-dot character in its last component |
| `Dispatch.TargetIsExtension` | GUI.py:82 | `.docx` and `.pdf` are proper extensions on both flavours |
| `Dispatch.OutputBaseRoundTrip` | GUI.py:115-116 | for an accepted source, splitting the intended output path gives back the source's root and the target extension, so the counter goes between them |
| `Dispatch.OutputBaseNeedsStem` | GUI.py:82 | without a stem the round trip fails: `dir/` gives `dir/.docx`, whose extension is empty |
| `Paragraphs.Split` | GUI.py:91 | definition of `str.split("\n")`; it gives at least one piece; characterised by `JoinSplit`, `SplitJoin`, `SplitHasNoNewlines` and `SplitCount` |
| `Paragraphs.Join` | GUI.py:91 | definition of `"\n".join`, the inverse `JoinSplit` and `SplitJoin` relate to `Split` |
| `Paragraphs.JoinSplit` | GUI.py:90-92 | joining the paragraphs with newlines gives back the page text |
| `Paragraphs.SplitHasNoNewlines` | GUI.py:91 | no paragraph holds a newline |
| `Paragraphs.SplitCount` | GUI.py:91 | there is one more paragraph than there are newlines in the text |
| `Paragraphs.SplitAppendLine` | GUI.py:91 | text without newlines extends the last piece |
| `Paragraphs.SplitNewLine` | GUI.py:91 | a newline followed by newline-free text adds that text as a new piece |
| `Paragraphs.SplitJoin` | GUI.py:91 | splitting joined newline-free pieces gives back the pieces, so the split is the only such decomposition |
| `Paragraphs.CopyPageText` | GUI.py:90-92 | the copying loop yields the split of the text, which joins back to the text, has no newlines and has one more entry than the text has newlines |
| `Gui.LabelText` | GUI.py:32 | definition of the label texts: blank, `已拖入文件: ` plus the base name (line 66), or the notice (line 77); characterised by `LabelTextDistinct` |
| `Gui.LabelTextDistinct` | GUI.py:66 | distinct statuses show distinct label texts, and a dropped file's label ends with its base name |
| `Gui.ToWordEffect` | GUI.py:79-103 | definition of what `to_word` does to the files and which dialog it ends with; characterised by `ToWordNeverOverwrites`, `ToWordSaves` and `ToWordAddsOne` |
| `Gui.ToPdfEffect` | GUI.py:105-134 | definition of what `to_pdf` does to the files and which dialog it ends with; characterised by `ToPdfNeverOverwrites` |
| `Gui.TriggerEffect` | GUI.py:71-77 | definition of the effect of `trigger_conversion`; characterised by `TriggerConvertsIffAccepted` |
| `Gui.DropOneEffect` | GUI.py:63-69 | definition of the effect of one URL of `dropEvent`; characterised, over whole drops, by `DropNeverOverwrites` |
| `Gui.DropEffect` | GUI.py:61-69 | definition of the effect of `dropEvent`, URL by URL in order; characterised by `DropNeverOverwrites` and `DropOfAcceptedFile` |
| `Gui.HandedOnCount` | GUI.py:62-65 | definition of the number of URLs `dropEvent` converts; `NoneHandedOn` relates it to `LastHandedOn` |
| `Gui.LastHandedOn` | GUI.py:62-66 | definition of the last URL `dropEvent` converts, whose base name the label ends on |
| `Gui.NoneHandedOn` | GUI.py:62-65 | no URL is converted exactly when there is no last converted one |
| `Gui.DropStatus` | GUI.py:66 | definition of the label after a drop: the last converted file's base name, or the old label |
| `Gui.ToWordNeverOverwrites` | GUI.py:79-103 | `to_word` keeps every file; it succeeds exactly when the text is extracted; on failure nothing changes; on success exactly one new file is added, under a name that did not exist, and its paragraphs join back to the page text |
| `Gui.ToPdfNeverOverwrites` | GUI.py:105-134 | `to_pdf` keeps every file; it succeeds exactly when the file opens and converts; when the file opens, one new file is added, holding the conversion, or the blank placeholder when the converter fails |
| `Gui.TriggerConvertsIffAccepted` | GUI.py:71-77 | one conversion runs exactly for accepted names, leaving the label and existing files alone; any other name only sets the notice |
| `Gui.DropNeverOverwrites` | GUI.py:61-69 | a drop of any number of URLs keeps every existing file, runs exactly one conversion per local URL with an accepted name, and ends with the label on the last such URL's base name (unchanged when there is none); a drop with no such URL changes nothing and runs no conversion |
| `Gui.DropOfAcceptedFile` | GUI.py:49-69 | a drop the window lets in runs exactly one conversion and shows the file's base name |
| `Gui.ToWordSaves` | GUI.py:95-100 | a successful `to_word` saves the split text under the chosen name, which did not exist |
| `Gui.ToWordAddsOne` | GUI.py:95-100 | a successful `to_word` keeps every file and adds exactly one |
| `Gui.ToWordTwiceWritesTwoFiles` | GUI.py:95-100 | converting the same PDF twice keeps all files and ends with two more files than at first |
| `Gui.DocxNamesTwice` | GUI.py:82-99 | with `root.docx` and `root_1.docx` free, two conversions of the same PDF pick those two names in that order |
| `Gui.ToWordTwiceNames` | GUI.py:82-100 | with those names free, the first conversion writes `root.docx` and the second `root_1.docx`, with the same paragraphs |
| `Gui.ReportName` | GUI.py:82 | `report.pdf` is accepted and splits into `report` and `.pdf` |
| `Gui.HelloWorldLines` | GUI.py:91 | `"Hello\nWorld"` splits into `"Hello"` and `"World"` |
| `Gui.ReportDroppedTwice` | GUI.py:79-100 | `report.pdf`, with page text `"Hello\nWorld"`, converted twice into an empty folder, writes `report.docx` and then `report_1.docx` |
| `Gui.FileSystem.Save` | GUI.py:100 | saving adds the path or replaces its content, and changes nothing else |
| `Gui.DragDropFrame.constructor` | GUI.py:32 | the label starts out blank |
| `Gui.DragDropFrame.ToWord` | GUI.py:79-103 | the method's new files and its outcome are those of the `to_word` effect, which the lemmas above characterise |
| `Gui.DragDropFrame.ToPdf` | GUI.py:105-134 | it writes the blank placeholder and then the conversion over it, ending in the files and outcome of the `to_pdf` effect |
| `Gui.DragDropFrame.TriggerConversion` | GUI.py:71-77 | its new files, label and outcomes are those of the dispatch effect |
| `Gui.DragDropFrame.DropEvent` | GUI.py:61-69 | the loop over the URLs ends in the files, label and outcomes of the drop effect |

## Left out

- Widgets, layout, style sheets, the gradient background and `MainWindow` are
  left out. They have no effect on files or names.
- The message boxes are left out. They are summarised as the `Outcome` of
  each conversion.
- PyPDF2, python-docx and docx2pdf are replaced by the three answers of
  `Library`. Their parsing and rendering are outside this model.
- The page geometry (`inches * 72`) is left out. It is floating point, and it
  only sizes the blank page.
- The temporary stub PDF of `to_pdf` is left out of `files`. Each run of
  `to_pdf` that gets past the naming loop creates it in the temporary
  directory with `delete=False`, so it stays there: such a run leaves two new
  files on disk, the output next to the source and this stub. The stub is
  reopened for `convert` without an explicit close, and it does not affect the
  output.
- Failures of `doc.save`, of the placeholder write, or of a library call part
  way through are not modelled. Every library failure happens before
  anything is written, except the converter's, which leaves the blank
  placeholder in place.
- The gap between the `os.path.isfile` probe and the write is not modelled.
  Another process creating the file in between is outside a single-threaded
  model.
- Paths are compared as exact strings, so `os.path.isfile` is exact key
  membership. On a case-insensitive file system such as Windows', where `/`
  and a backslash also name the same directory, the program sees `report.docx` as
  taken when `Report.docx` exists; the model does not.
- Directories and other non-file paths are not modelled. `os.path.isfile` is
  false for them, so the loop could pick a directory's name.
- `Paths.Lower` lower-cases ASCII letters only. Python's `str.lower` also
  maps other letters, but none of them maps onto a character of `.pdf`,
  `.doc` or `.docx`.
- `Paths.Basename` does not strip a Windows drive prefix such as `C:name`.
  `ntpath.basename` does, but that only changes the label text.
- The default `docx_file="output.docx"` parameter of `to_word` is not modelled.
  It is overwritten before use.
- The "only Word or PDF" notice of `trigger_conversion` cannot be reached
  from `dropEvent`, which only hands on accepted names.
  `TriggerConvertsIffAccepted` covers it for a direct call.
