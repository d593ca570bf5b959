/** The image pass: every picture under an input directory is recognised in
    a task of its own, the texts of each are saved to a text file named
    after the picture in the output directory, and a record of every task is
    kept for the report. The worker pool, the pause between attempts and
    the JSON encoding of the report are not modelled; what building a
    recogniser does at each attempt, whether a path exists and whether a
    file can be written are given as functions. */
module ImageOcrParallel {
  import opened Base
  import opened Paths
  import Text
  import opened Walk
  import opened ImageOcr

  // ---------------------------------------------------------------------
  // Output file names

  /** `get_output_path`: the picture's name without its extension, with
      ".txt" added, in the output directory. */
  function GetOutputPath(imagePath: Path, outputDir: Path): Path
  {
    Join(outputDir, [Stem(Basename(imagePath)) + ".txt"])
  }

  /** The text file sits directly in the output directory and is named
      after the picture's stem. */
  lemma OutputPathShape(imagePath: Path, outputDir: Path)
    requires |outputDir| >= 1 && outputDir[|outputDir| - 1] != ""
    ensures Dirname(GetOutputPath(imagePath, outputDir)) == outputDir
    ensures Basename(GetOutputPath(imagePath, outputDir)) == Stem(Basename(imagePath)) + ".txt"
  {
    DirnameOfJoin(outputDir, Stem(Basename(imagePath)) + ".txt");
  }

  /** Pictures with the same stem, whatever their extension or directory,
      are given the same text file: the later one overwrites the earlier. */
  lemma OutputPathCollides(p: Path, q: Path, outputDir: Path)
    requires Stem(Basename(p)) == Stem(Basename(q))
    ensures GetOutputPath(p, outputDir) == GetOutputPath(q, outputDir)
  {
  }

  /** For instance "scan.png" at the top and "sub/scan.jpg" below it. */
  lemma OutputPathCollisionExample(outputDir: Path)
    ensures GetOutputPath(["in", "scan.png"], outputDir) == GetOutputPath(["in", "sub", "scan.jpg"], outputDir)
  {
    SplitExtDotted("scan", "png");
    SplitExtDotted("scan", "jpg");
    assert "scan" + "." + "png" == "scan.png";
    assert "scan" + "." + "jpg" == "scan.jpg";
  }

  // ---------------------------------------------------------------------
  // Finding the pictures

  /** The extensions, in lower case, of the pictures the pass recognises. */
  const ImageExtensions: set<string> := {".jpg", ".jpeg", ".png", ".bmp", ".tiff", ".gif"}

  /** A picture: the extension of the lower-cased name is one of the six. */
  predicate IsImageName(name: string)
  {
    Ext(Text.Lower(name)) in ImageExtensions
  }

  /** Upper-case extensions count; a name that is only an extension, or
      whose extension is not one of the six, does not. */
  lemma ImageNameExamples()
    ensures IsImageName("A.PNG")
    ensures !IsImageName(".png")
    ensures !IsImageName("a.webp")
  {
    UpperImageName();
    HiddenImageName();
    WebpImageName();
  }

  lemma UpperImageName()
    ensures IsImageName("A.PNG")
  {
    assert Text.Lower("A.PNG") == "a.png";
    assert LastIndex("a.png", '.') == Some(1);
    assert "a.png"[0] != '.';
    assert Ext("a.png") == ".png";
  }

  lemma HiddenImageName()
    ensures !IsImageName(".png")
  {
    assert Text.Lower(".png") == ".png";
    assert LastIndex(".png", '.') == Some(0);
    assert Ext(".png") == "";
  }

  lemma WebpImageName()
    ensures !IsImageName("a.webp")
  {
    assert Text.Lower("a.webp") == "a.webp";
    assert LastIndex("a.webp", '.') == Some(1);
    assert "a.webp"[0] != '.';
    assert Ext("a.webp") == ".webp";
  }

  /** `get_image_files`: the joined path of every picture, in the order of
      the walk and, inside a directory, of its listing. */
  method GetImageFiles(top: Path, walk: seq<WalkDir>) returns (files: seq<Path>)
    ensures files == Select(top, walk, IsImageName)
  {
    files := [];
    for i := 0 to |walk|
      invariant files == Select(top, walk[..i], IsImageName)
    {
      SelectStep(top, walk, i, IsImageName);
      files := ImageFilesIn(top, walk[i], files);
    }
    assert walk[..|walk|] == walk;
  }

  /** The inner loop of `get_image_files` over the files of one walked
      directory `d`: the pictures among them, appended to `files`. */
  method ImageFilesIn(top: Path, d: WalkDir, files: seq<Path>) returns (files': seq<Path>)
    ensures files' == files + SelectIn(top, d, d.files, IsImageName)
  {
    files' := files;
    var root := WalkRoot(top, d.sub);
    for j := 0 to |d.files|
      invariant files' == files + SelectIn(top, d, d.files[..j], IsImageName)
    {
      SelectInStep(top, d, j, IsImageName);
      var f := d.files[j];
      if IsImageName(f) {
        files' := files' + [Join(root, [f])];
      }
    }
    assert d.files[..|d.files|] == d.files;
  }

  /** Every path found names a picture. */
  lemma FoundAreImages(top: Path, walk: seq<WalkDir>, p: Path)
    requires p in Select(top, walk, IsImageName)
    ensures Ext(Text.Lower(Basename(p))) in ImageExtensions
  {
    SelectKeeps(top, walk, IsImageName, p);
  }

  // ---------------------------------------------------------------------
  // Saving the texts

  /** The content of a text file holding `texts`: each text followed by a
      line break. */
  function FileText(texts: seq<string>): string
    decreases |texts|
  {
    if texts == [] then "" else FileText(texts[..|texts| - 1]) + texts[|texts| - 1] + "\n"
  }

  /** The content is the texts joined by line breaks, with one more line
      break at the end. */
  lemma {:induction false} FileTextJoin(texts: seq<string>)
    ensures FileText(texts) == Text.Join(texts + [""], "\n")
    decreases |texts|
  {
    if texts == [] {
      assert texts + [""] == [""];
    } else {
      var n := |texts| - 1;
      if n == 0 {
        Text.JoinSnoc(texts, "", "\n");
        assert texts == [texts[0]];
      } else {
        var init := texts[..n];
        FileTextJoin(init);
        FileTextSnoc(init, texts[n]);
        assert init + [texts[n]] == texts;
      }
    }
  }

  /** One more text adds it and a line break to the joined content. */
  lemma FileTextSnoc(init: seq<string>, x: string)
    requires |init| >= 1 && FileText(init) == Text.Join(init + [""], "\n")
    ensures FileText(init + [x]) == Text.Join(init + [x] + [""], "\n")
  {
    var all := init + [x];
    var b := Text.Join(init, "\n") + "\n";
    assert all[..|all| - 1] == init;
    Text.JoinSnoc(init, "", "\n");
    assert b + "" == b;
    Text.JoinSnoc(init, x, "\n");
    var c := Text.Join(all, "\n") + "\n";
    Text.JoinSnoc(all, "", "\n");
    assert c + "" == c;
  }

  /** Read back and split at its line breaks, a saved file gives the texts
      again (and the empty piece after the last break), provided no text
      holds a line break itself. */
  lemma FileTextLines(texts: seq<string>)
    requires forall i :: 0 <= i < |texts| ==> '\n' !in texts[i]
    ensures Text.Split(FileText(texts), '\n') == texts + [""]
  {
    var parts := texts + [""];
    FileTextJoin(texts);
    forall i | 0 <= i < |parts| ensures '\n' !in parts[i] {
      if i < |texts| {
        assert parts[i] == texts[i];
      }
    }
    assert "\n" == ['\n'];
    Text.SplitJoin(parts, '\n');
  }

  /** `save_result_to_txt`: the file's content, written text by text; any
      failure to create the directory or open the file is caught and only
      reported, so nothing is written then and nothing is raised.
      `writable` says whether creating the directory and opening the file
      succeed. */
  method SaveResultToTxt(texts: seq<string>, outputPath: Path, writable: Path -> bool)
    returns (saved: Option<(Path, string)>)
    ensures writable(outputPath) ==> saved == Some((outputPath, FileText(texts)))
    ensures !writable(outputPath) ==> saved == None
  {
    if !writable(outputPath) {
      return None;
    }
    var content := "";
    for i := 0 to |texts|
      invariant content == FileText(texts[..i])
    {
      assert texts[..i + 1][..i] == texts[..i];
      content := content + texts[i] + "\n";
    }
    assert texts[..|texts|] == texts;
    saved := Some((outputPath, content));
  }

  // ---------------------------------------------------------------------
  // One picture, with retries

  /** The record of one task: recognised texts, no text found, or an error
      after the last attempt. */
  datatype ImageResult =
    | Success(imagePath: Path, outputPath: Path, texts: seq<string>)
    | NoTextFound(imagePath: Path, outputPath: Path)
    | Error(imagePath: Path, outputPath: Path, error: string)

  /** The record's "status" field. */
  function Status(r: ImageResult): string
  {
    match r
    case Success(_, _, _) => "success"
    case NoTextFound(_, _) => "no_text_found"
    case Error(_, _, _) => "error"
  }

  /** The record's "texts" field: the texts of a success, the empty list
      for no text, absent from an error. */
  function TextsField(r: ImageResult): Option<seq<string>>
  {
    match r
    case Success(_, _, texts) => Some(texts)
    case NoTextFound(_, _) => Some([])
    case Error(_, _, _) => None
  }

  /** The record's "error" field, present only in an error. */
  function ErrorField(r: ImageResult): Option<string>
  {
    if r.Error? then Some(r.error) else None
  }

  /** A record has exactly one of the "texts" and "error" fields, and the
      "error" field exactly when its status is "error". */
  lemma RecordFields(r: ImageResult)
    ensures TextsField(r).Some? <==> ErrorField(r).None?
    ensures ErrorField(r).Some? <==> Status(r) == "error"
    ensures Status(r) == "no_text_found" ==> TextsField(r) == Some([])
  {
  }

  /** The record `process_image_with_retry` returns: at attempt `k` a new
      recogniser is built (`build(k)`); the first attempt whose build does
      not raise decides success or no text; when every build raises, the
      last one's message is the error; with no attempt at all there is no
      record. */
  function ImageOutcome(imagePath: Path, outputDir: Path, build: nat -> Attempt<Ocr>,
                        onDisk: Path -> bool, maxRetries: int): Option<ImageResult>
  {
    var outputPath := GetOutputPath(imagePath, outputDir);
    if maxRetries <= 0 then None
    else match FirstReturn(build, maxRetries)
      case Some(k) =>
        var texts := GetTextOnly(build(k).value, imagePath, onDisk);
        if texts.Some? && |texts.value| > 0 then Some(Success(imagePath, outputPath, texts.value))
        else Some(NoTextFound(imagePath, outputPath))
      case None => Some(Error(imagePath, outputPath, build(maxRetries - 1).message))
  }

  /** The number of recognisers the task builds. */
  function ImageAttempts(build: nat -> Attempt<Ocr>, maxRetries: int): nat
  {
    match FirstReturn(build, maxRetries)
    case Some(k) => k + 1
    case None => RangeSize(maxRetries)
  }

  /** The text file the task writes: the texts of a success, when the file
      can be written. */
  function ImageSaved(imagePath: Path, outputDir: Path, build: nat -> Attempt<Ocr>, onDisk: Path -> bool,
                      writable: Path -> bool, maxRetries: int): Option<(Path, string)>
  {
    match ImageOutcome(imagePath, outputDir, build, onDisk, maxRetries)
    case Some(Success(_, outputPath, texts)) =>
      if writable(outputPath) then Some((outputPath, FileText(texts))) else None
    case _ => None
  }

  /** `process_image_with_retry`. Only building the recogniser can raise:
      `get_text_only` catches the engine's exceptions and the save catches
      its own. */
  method ProcessImageWithRetry(imagePath: Path, outputDir: Path, build: nat -> Attempt<Ocr>,
                               onDisk: Path -> bool, writable: Path -> bool, maxRetries: int)
    returns (result: Option<ImageResult>, attempts: nat, saved: Option<(Path, string)>)
    ensures result == ImageOutcome(imagePath, outputDir, build, onDisk, maxRetries)
    ensures attempts == ImageAttempts(build, maxRetries)
    ensures saved == ImageSaved(imagePath, outputDir, build, onDisk, writable, maxRetries)
  {
    var outputPath := GetOutputPath(imagePath, outputDir);
    attempts := 0;
    saved := None;
    for attempt := 0 to RangeSize(maxRetries)
      invariant attempts == attempt && saved == None
      invariant maxRetries > 0 ==> attempt < maxRetries
      invariant forall j :: 0 <= j < attempt ==> build(j).Raised?
    {
      attempts := attempts + 1;
      var built := build(attempt);
      if built.Returned? {
        FirstReturnAt(build, maxRetries, attempt);
        var texts := GetTextOnly(built.value, imagePath, onDisk);
        if texts.Some? && |texts.value| > 0 {
          saved := SaveResultToTxt(texts.value, outputPath, writable);
          result := Some(Success(imagePath, outputPath, texts.value));
        } else {
          result := Some(NoTextFound(imagePath, outputPath));
        }
        return;
      } else if attempt == maxRetries - 1 {
        result := Some(Error(imagePath, outputPath, built.message));
        return;
      }
    }
    result := None;
  }

  /** The cases of a task's record: none without attempts; an error exactly
      when every build raised; success exactly when a build returned and
      gave a non-empty list of texts, which is then the record's; and the
      record always names the picture and its text file. */
  lemma ImageOutcomeCases(imagePath: Path, outputDir: Path, build: nat -> Attempt<Ocr>,
                          onDisk: Path -> bool, maxRetries: int)
    ensures var r := ImageOutcome(imagePath, outputDir, build, onDisk, maxRetries);
      && (r.None? <==> maxRetries <= 0)
      && (r.Some? ==> r.value.imagePath == imagePath && r.value.outputPath == GetOutputPath(imagePath, outputDir))
      && (r.Some? && r.value.Error? <==> maxRetries > 0 && forall j :: 0 <= j < maxRetries ==> build(j).Raised?)
      && (r.Some? && r.value.Success? ==>
            var k := FirstReturn(build, maxRetries).value;
            GetTextOnly(build(k).value, imagePath, onDisk) == Some(r.value.texts) && |r.value.texts| > 0)
  {
  }

  /** The status of a record a task returns is "success" exactly when its
      texts are not empty and "no_text_found" exactly when they are empty. */
  lemma RecordStatus(imagePath: Path, outputDir: Path, build: nat -> Attempt<Ocr>,
                     onDisk: Path -> bool, maxRetries: int)
    ensures var r := ImageOutcome(imagePath, outputDir, build, onDisk, maxRetries);
      r.Some? ==>
        && (Status(r.value) == "success" <==> TextsField(r.value).Some? && |TextsField(r.value).value| > 0)
        && (Status(r.value) == "no_text_found" <==> TextsField(r.value) == Some([]))
  {
  }

  /** A task makes at least one attempt and at most `maxRetries`, and makes
      them all exactly when every build but possibly the last raised. */
  lemma ImageAttemptsBound(build: nat -> Attempt<Ocr>, maxRetries: int)
    requires maxRetries > 0
    ensures 1 <= ImageAttempts(build, maxRetries) <= maxRetries
    ensures ImageAttempts(build, maxRetries) == maxRetries <==> forall j :: 0 <= j < maxRetries - 1 ==> build(j).Raised?
  {
    if forall j :: 0 <= j < maxRetries - 1 ==> build(j).Raised? {
      if build(maxRetries - 1).Returned? {
        FirstReturnAt(build, maxRetries, maxRetries - 1);
      }
    }
  }

  /** When the first `k` builds raise and build `k` returns, the task makes
      `k + 1` attempts and its record is decided by the recogniser built at
      attempt `k` alone: each attempt builds its own. */
  lemma ImageStopsAtFirstBuild(imagePath: Path, outputDir: Path, build: nat -> Attempt<Ocr>,
                               onDisk: Path -> bool, maxRetries: int, k: nat)
    requires k < maxRetries
    requires forall j :: 0 <= j < k ==> build(j).Raised?
    requires build(k).Returned?
    ensures ImageAttempts(build, maxRetries) == k + 1
    ensures var texts := GetTextOnly(build(k).value, imagePath, onDisk);
      ImageOutcome(imagePath, outputDir, build, onDisk, maxRetries) ==
        if texts.Some? && |texts.value| > 0 then Some(Success(imagePath, GetOutputPath(imagePath, outputDir), texts.value))
        else Some(NoTextFound(imagePath, GetOutputPath(imagePath, outputDir)))
  {
    FirstReturnAt(build, maxRetries, k);
  }

  /** A text file is written only for a success, under the picture's text
      file name, holding exactly the record's texts. */
  lemma SavedOnlyOnSuccess(imagePath: Path, outputDir: Path, build: nat -> Attempt<Ocr>, onDisk: Path -> bool,
                           writable: Path -> bool, maxRetries: int)
    ensures var saved := ImageSaved(imagePath, outputDir, build, onDisk, writable, maxRetries);
      var r := ImageOutcome(imagePath, outputDir, build, onDisk, maxRetries);
      saved.Some? <==> r.Some? && r.value.Success? && writable(GetOutputPath(imagePath, outputDir))
    ensures var saved := ImageSaved(imagePath, outputDir, build, onDisk, writable, maxRetries);
      var r := ImageOutcome(imagePath, outputDir, build, onDisk, maxRetries);
      saved.Some? ==> saved.value == (GetOutputPath(imagePath, outputDir), FileText(r.value.texts))
  {
  }

  // ---------------------------------------------------------------------
  // All pictures

  /** The number of attempts the pass gives every picture. */
  const MaxRetries := 3

  /** The records the pass keeps: those of the tasks that returned one. */
  function Collect(files: seq<Path>, outputDir: Path, build: Path -> nat -> Attempt<Ocr>, onDisk: Path -> bool): (r: seq<ImageResult>)
    ensures |r| <= |files|
    decreases |files|
  {
    if files == [] then []
    else
      var n := |files| - 1;
      var o := ImageOutcome(files[n], outputDir, build(files[n]), onDisk, MaxRetries);
      Collect(files[..n], outputDir, build, onDisk) + (if o.Some? then [o.value] else [])
  }

  /** With three attempts a task always returns a record. */
  lemma ImageOutcomeSome(imagePath: Path, outputDir: Path, build: nat -> Attempt<Ocr>, onDisk: Path -> bool)
    ensures ImageOutcome(imagePath, outputDir, build, onDisk, MaxRetries).Some?
  {
  }

  /** With three attempts every task returns a record, so the records
      kept are as many as the tasks, in the order the tasks complete. */
  lemma {:induction false} CollectAll(files: seq<Path>, outputDir: Path, build: Path -> nat -> Attempt<Ocr>,
                                      onDisk: Path -> bool, i: nat)
    requires i < |files|
    ensures |Collect(files, outputDir, build, onDisk)| == |files|
    ensures Some(Collect(files, outputDir, build, onDisk)[i]) == ImageOutcome(files[i], outputDir, build(files[i]), onDisk, MaxRetries)
    decreases |files|
  {
    var n := |files| - 1;
    var prev := Collect(files[..n], outputDir, build, onDisk);
    var o := ImageOutcome(files[n], outputDir, build(files[n]), onDisk, MaxRetries);
    ImageOutcomeSome(files[n], outputDir, build(files[n]), onDisk);
    var all := prev + [o.value];
    assert Collect(files, outputDir, build, onDisk) == all;
    if i < n {
      CollectAll(files[..n], outputDir, build, onDisk, i);
      assert files[..n][i] == files[i];
      assert all[i] == prev[i];
    } else {
      if n > 0 {
        CollectAll(files[..n], outputDir, build, onDisk, 0);
      }
      assert all[i] == o.value;
    }
  }

  /** Whatever the order in which the tasks complete, the report holds the
      record of every picture. */
  lemma ReportHoldsEveryPicture(files: seq<Path>, order: seq<nat>, outputDir: Path,
                                build: Path -> nat -> Attempt<Ocr>, onDisk: Path -> bool, j: nat)
    requires IsOrder(order, |files|) && j < |files|
    ensures |Collect(Reorder(files, order), outputDir, build, onDisk)| == |files|
    ensures exists i ::
              && 0 <= i < |files|
              && Some(Collect(Reorder(files, order), outputDir, build, onDisk)[i]) == ImageOutcome(files[j], outputDir, build(files[j]), onDisk, MaxRetries)
  {
    assert j in order;
    var i :| 0 <= i < |order| && order[i] == j;
    CollectAll(Reorder(files, order), outputDir, build, onDisk, i);
  }

  /** The text files the pass writes, in the order the tasks complete. */
  function SavedFiles(files: seq<Path>, outputDir: Path, build: Path -> nat -> Attempt<Ocr>,
                      onDisk: Path -> bool, writable: Path -> bool): (r: seq<(Path, string)>)
    ensures |r| <= |files|
    decreases |files|
  {
    if files == [] then []
    else
      var n := |files| - 1;
      var s := ImageSaved(files[n], outputDir, build(files[n]), onDisk, writable, MaxRetries);
      SavedFiles(files[..n], outputDir, build, onDisk, writable) + (if s.Some? then [s.value] else [])
  }

  /** One more task adds its record, and its text file when it saved one. */
  lemma CollectStep(files: seq<Path>, i: nat, outputDir: Path, build: Path -> nat -> Attempt<Ocr>,
                    onDisk: Path -> bool, writable: Path -> bool)
    requires i < |files|
    ensures var o := ImageOutcome(files[i], outputDir, build(files[i]), onDisk, MaxRetries);
      Collect(files[..i + 1], outputDir, build, onDisk) ==
        Collect(files[..i], outputDir, build, onDisk) + (if o.Some? then [o.value] else [])
    ensures var w := ImageSaved(files[i], outputDir, build(files[i]), onDisk, writable, MaxRetries);
      SavedFiles(files[..i + 1], outputDir, build, onDisk, writable) ==
        SavedFiles(files[..i], outputDir, build, onDisk, writable) + (if w.Some? then [w.value] else [])
  {
    assert files[..i + 1][..i] == files[..i];
  }

  /** How the pass ends: without pictures it does nothing; when the output
      directory cannot be made it raises before any task; otherwise it
      collects the records and writes the report. */
  datatype ImagesRun =
    | NoImages
    | Aborted(message: string)
    | Processed(results: seq<ImageResult>, saved: seq<(Path, string)>, reportPath: Path)

  /** The name of the report in the output directory. */
  const ReportName := "processing_report.json"

  /** `process_images_parallel`. The tasks are run one after the other in
      the order in which they complete, `order` (the `i`-th to complete is
      the one for picture `order[i]`); `build(p)` is what building a
      recogniser does at each attempt of the task for `p`. */
  method ProcessImagesParallel(inputDir: Path, outputDir: Path, walk: seq<WalkDir>, order: seq<nat>,
                               build: Path -> nat -> Attempt<Ocr>, onDisk: Path -> bool,
                               writable: Path -> bool, makedirs: Path -> Attempt<()>)
    returns (run: ImagesRun)
    requires IsOrder(order, |Select(inputDir, walk, IsImageName)|)
    ensures var files := Select(inputDir, walk, IsImageName);
      run == if files == [] then NoImages
             else if makedirs(outputDir).Raised? then Aborted(makedirs(outputDir).message)
             else
               var completed := Reorder(files, order);
               Processed(Collect(completed, outputDir, build, onDisk), SavedFiles(completed, outputDir, build, onDisk, writable),
                         Join(outputDir, [ReportName]))
  {
    var files := GetImageFiles(inputDir, walk);
    if files == [] {
      return NoImages;
    }
    var made := makedirs(outputDir);
    if made.Raised? {
      return Aborted(made.message);
    }
    ghost var completed := Reorder(files, order);
    var results := [];
    var saved := [];
    for i := 0 to |order|
      invariant results == Collect(completed[..i], outputDir, build, onDisk)
      invariant saved == SavedFiles(completed[..i], outputDir, build, onDisk, writable)
    {
      var imagePath := files[order[i]];
      assert imagePath == completed[i];
      CollectStep(completed, i, outputDir, build, onDisk, writable);
      var result, _, written := ProcessImageWithRetry(imagePath, outputDir, build(imagePath), onDisk, writable, MaxRetries);
      if result.Some? {
        results := results + [result.value];
      }
      if written.Some? {
        saved := saved + [written.value];
      }
    }
    assert completed[..|order|] == completed;
    run := Processed(results, saved, Join(outputDir, [ReportName]));
  }
}
