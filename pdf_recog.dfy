/** The PDF pass over one directory: every PDF below it is handed to the
    PDF converter, which writes its markdown and pictures under one output
    directory named after the input directory. The converter is not
    modelled: what it does for a PDF and an output directory (raise, or
    return the markdown path and the picture directory) is given as a
    function, as is what `os.makedirs` does. */
module PdfRecog {
  import opened Base
  import opened Paths
  import Text
  import opened Walk

  /** The output directory of an input directory: "output/" followed by the
      last name of the normalised input path. */
  function OutputBase(inputDir: Path): Path
  {
    ["output", Basename(Normpath(inputDir))]
  }

  /** A trailing slash on the input directory does not change where its
      output goes. */
  lemma OutputBaseTrailingSlash(inputDir: Path)
    requires |inputDir| >= 1 && inputDir != [""]
    ensures OutputBase(inputDir + [""]) == OutputBase(inputDir)
  {
    NormpathTrailingSlash(inputDir);
  }

  /** Input directories with the same last name share an output directory. */
  lemma OutputBaseShared(a: Path, b: Path)
    requires Basename(Normpath(a)) == Basename(Normpath(b))
    ensures OutputBase(a) == OutputBase(b)
    ensures Dirname(OutputBase(a)) == ["output"]
  {
    assert OutputBase(a)[..1] == ["output"];
    assert DropTrailingEmpty(["output"]) == ["output"];
  }

  /** A PDF: the lower-cased name ends with ".pdf". */
  predicate IsPdfName(name: string)
  {
    Text.EndsWith(Text.Lower(name), ".pdf")
  }

  /** Any case of the suffix counts; only the suffix counts. */
  lemma PdfNameExamples()
    ensures IsPdfName("Report.PDF") && IsPdfName("a.pdf")
    ensures !IsPdfName("a.pdf.txt") && !IsPdfName("pdf")
  {
    UpperPdfName();
    LowerPdfNames();
  }

  lemma UpperPdfName()
    ensures IsPdfName("Report.PDF")
  {
    assert Text.Lower("Report.PDF") == "report.pdf";
    assert "report.pdf"[6..] == ".pdf";
  }

  lemma LowerPdfNames()
    ensures IsPdfName("a.pdf") && !IsPdfName("a.pdf.txt") && !IsPdfName("pdf")
  {
    assert Text.Lower("a.pdf") == "a.pdf";
    assert "a.pdf"[1..] == ".pdf";
    assert Text.Lower("a.pdf.txt") == "a.pdf.txt";
    assert "a.pdf.txt"[5..] != ".pdf";
  }

  /** One call of the converter: the PDF, the output directory it was given
      and what the call did. */
  datatype PdfCall = PdfCall(pdfPath: Path, outputDir: Path, outcome: Attempt<(Path, Path)>)

  /** The converter calls for the PDFs `pdfs`, in order, all into `out`. */
  function Calls(pdfs: seq<Path>, out: Path, convert: (Path, Path) -> Attempt<(Path, Path)>): (r: seq<PdfCall>)
    ensures |r| == |pdfs|
    decreases |pdfs|
  {
    if pdfs == [] then []
    else
      var n := |pdfs| - 1;
      Calls(pdfs[..n], out, convert) + [PdfCall(pdfs[n], out, convert(pdfs[n], out))]
  }

  /** One more PDF adds one more call, for it, at the end. */
  lemma CallsSnoc(pdfs: seq<Path>, p: Path, out: Path, convert: (Path, Path) -> Attempt<(Path, Path)>)
    ensures Calls(pdfs + [p], out, convert) == Calls(pdfs, out, convert) + [PdfCall(p, out, convert(p, out))]
  {
    assert (pdfs + [p])[..|pdfs|] == pdfs;
  }

  /** Every PDF is converted once, in order, into the same directory, and
      each call's outcome is the converter's for it: an exception in one
      call does not stop the next. */
  lemma {:induction false} CallsEach(pdfs: seq<Path>, out: Path, convert: (Path, Path) -> Attempt<(Path, Path)>, i: nat)
    requires i < |pdfs|
    ensures Calls(pdfs, out, convert)[i] == PdfCall(pdfs[i], out, convert(pdfs[i], out))
    decreases |pdfs|
  {
    var n := |pdfs| - 1;
    if i < n {
      CallsEach(pdfs[..n], out, convert, i);
      assert pdfs[..n][i] == pdfs[i];
    }
  }

  /** What `process_directory` comes to: it raises only when the output
      directory cannot be made (the converter's exceptions are caught);
      otherwise it converts every PDF of the walk. */
  function DirectoryOutcome(inputDir: Path, walk: seq<WalkDir>, makedirs: Path -> Attempt<()>,
                            convert: (Path, Path) -> Attempt<(Path, Path)>): Attempt<seq<PdfCall>>
  {
    var out := OutputBase(inputDir);
    if makedirs(out).Raised? then Raised(makedirs(out).message)
    else Returned(Calls(Select(inputDir, walk, IsPdfName), out, convert))
  }

  /** The inner loop of `process_directory` over the files of one walked
      directory `d`: one converter call per PDF, appended to `calls`, the
      calls made so far for the PDFs `found`. */
  method ConvertFiles(inputDir: Path, d: WalkDir, out: Path, convert: (Path, Path) -> Attempt<(Path, Path)>,
                      calls: seq<PdfCall>, ghost found: seq<Path>)
    returns (calls': seq<PdfCall>)
    requires calls == Calls(found, out, convert)
    ensures calls' == Calls(found + SelectIn(inputDir, d, d.files, IsPdfName), out, convert)
  {
    calls' := calls;
    var root := WalkRoot(inputDir, d.sub);
    ghost var here := [];
    assert found + here == found;
    for j := 0 to |d.files|
      invariant here == SelectIn(inputDir, d, d.files[..j], IsPdfName)
      invariant calls' == Calls(found + here, out, convert)
    {
      SelectInStep(inputDir, d, j, IsPdfName);
      var f := d.files[j];
      if IsPdfName(f) {
        var pdfPath := Join(root, [f]);
        var outcome := convert(pdfPath, out);
        CallsSnoc(found + here, pdfPath, out, convert);
        assert found + (here + [pdfPath]) == (found + here) + [pdfPath];
        here := here + [pdfPath];
        calls' := calls' + [PdfCall(pdfPath, out, outcome)];
      }
    }
    assert d.files[..|d.files|] == d.files;
  }

  /** `process_directory`. The walk of `inputDir` is given as `walk`. */
  method ProcessDirectory(inputDir: Path, walk: seq<WalkDir>, makedirs: Path -> Attempt<()>,
                          convert: (Path, Path) -> Attempt<(Path, Path)>)
    returns (r: Attempt<seq<PdfCall>>)
    ensures r == DirectoryOutcome(inputDir, walk, makedirs, convert)
  {
    var out := OutputBase(inputDir);
    var made := makedirs(out);
    if made.Raised? {
      return Raised(made.message);
    }
    var calls := [];
    ghost var found := [];
    for i := 0 to |walk|
      invariant found == Select(inputDir, walk[..i], IsPdfName)
      invariant calls == Calls(found, out, convert)
    {
      calls := ConvertFiles(inputDir, walk[i], out, convert, calls, found);
      SelectStep(inputDir, walk, i, IsPdfName);
      found := found + SelectIn(inputDir, walk[i], walk[i].files, IsPdfName);
    }
    assert walk[..|walk|] == walk;
    r := Returned(calls);
  }

  /** The run raises exactly when the output directory cannot be made;
      otherwise it makes one call per PDF of the walk, the `i`-th for the
      `i`-th PDF found, into the output directory. */
  lemma DirectoryOutcomeCases(inputDir: Path, walk: seq<WalkDir>, makedirs: Path -> Attempt<()>,
                              convert: (Path, Path) -> Attempt<(Path, Path)>, i: nat)
    ensures DirectoryOutcome(inputDir, walk, makedirs, convert).Raised? <==> makedirs(OutputBase(inputDir)).Raised?
    ensures var r := DirectoryOutcome(inputDir, walk, makedirs, convert);
      r.Returned? ==> |r.value| == Count(walk, IsPdfName)
    ensures var r := DirectoryOutcome(inputDir, walk, makedirs, convert);
      r.Returned? && i < |r.value| ==>
        var pdf := Select(inputDir, walk, IsPdfName)[i];
        r.value[i] == PdfCall(pdf, OutputBase(inputDir), convert(pdf, OutputBase(inputDir)))
  {
    SelectCount(inputDir, walk, IsPdfName);
    var r := DirectoryOutcome(inputDir, walk, makedirs, convert);
    if r.Returned? && i < |r.value| {
      CallsEach(Select(inputDir, walk, IsPdfName), OutputBase(inputDir), convert, i);
    }
  }
}
