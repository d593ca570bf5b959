/** The markdown pass: every markdown document under an input directory is
    written again under an output directory at the same relative place, with
    the recognised text of each picture it links put in a block just before
    the picture's link. Reading files, copying them and the worker pool are
    not modelled: a document is given as its lines (as `readlines` returns
    them, each with its line break), whether a path exists and what
    `os.makedirs` does are given as functions, and the outcome of each
    document is returned as a value. */
module MarkdownImages {
  import opened Base
  import opened Paths
  import Text
  import opened Walk
  import opened ImageOcr
  import opened MarkdownScan

  // ---------------------------------------------------------------------
  // Finding the documents

  /** A markdown document: its name ends with ".md", case and all. */
  predicate IsMarkdownName(name: string)
  {
    Text.EndsWith(name, ".md")
  }

  /** The test is case-sensitive and wants exactly the ".md" suffix. */
  lemma MarkdownNameExamples()
    ensures IsMarkdownName("notes.md") && IsMarkdownName(".md")
    ensures !IsMarkdownName("NOTES.MD") && !IsMarkdownName("notes.markdown") && !IsMarkdownName("md")
  {
    assert "notes.md"[5..] == ".md";
  }

  /** `find_markdown_files`: the joined path of every markdown file, in the
      order of the walk and, inside a directory, of its listing. */
  method FindMarkdownFiles(top: Path, walk: seq<WalkDir>) returns (files: seq<Path>)
    ensures files == Select(top, walk, IsMarkdownName)
  {
    files := [];
    for i := 0 to |walk|
      invariant files == Select(top, walk[..i], IsMarkdownName)
    {
      SelectStep(top, walk, i, IsMarkdownName);
      files := MarkdownFilesIn(top, walk[i], files);
    }
    assert walk[..|walk|] == walk;
  }

  /** The inner loop of `find_markdown_files` over the files of one walked
      directory `d`: the markdown files among them, appended to `files`. */
  method MarkdownFilesIn(top: Path, d: WalkDir, files: seq<Path>) returns (files': seq<Path>)
    ensures files' == files + SelectIn(top, d, d.files, IsMarkdownName)
  {
    files' := files;
    var root := WalkRoot(top, d.sub);
    for j := 0 to |d.files|
      invariant files' == files + SelectIn(top, d, d.files[..j], IsMarkdownName)
    {
      SelectInStep(top, d, j, IsMarkdownName);
      var f := d.files[j];
      if IsMarkdownName(f) {
        files' := files' + [Join(root, [f])];
      }
    }
    assert d.files[..|d.files|] == d.files;
  }

  /** Every path found names a markdown file. */
  lemma FoundAreMarkdown(top: Path, walk: seq<WalkDir>, p: Path)
    requires p in Select(top, walk, IsMarkdownName)
    ensures Text.EndsWith(Basename(p), ".md")
  {
    SelectKeeps(top, walk, IsMarkdownName, p);
  }

  // ---------------------------------------------------------------------
  // Where a document goes

  /** `get_new_output_path`: the document's path relative to the input
      directory, joined to the output directory. `os.path.relpath` raises
      for an empty path, shown as None. */
  function GetNewOutputPath(markdownPath: Path, inputBase: Path, outputBase: Path, cwd: Path): (r: Option<Path>)
    ensures r.None? <==> markdownPath == [] || markdownPath == [""]
  {
    match RelPath(markdownPath, inputBase, cwd)
    case None => None
    case Some(rel) => Some(Join(outputBase, rel))
  }

  /** A document found by walking the input directory goes to the same
      sub-directories and file name below the output directory. */
  lemma OutputMirrorsInput(top: Path, outputBase: Path, d: WalkDir, f: string, cwd: Path)
    requires |top| >= 1 && top != [""]
    requires AllNormal(d.sub) && NormalName(f)
    requires IsAbs(cwd)
    ensures GetNewOutputPath(FilePath(top, d, f), top, outputBase, cwd) == Some(Join(outputBase, d.sub + [f]))
  {
    RelPathOfWalkedFile(top, d.sub, f, cwd);
  }

  /** Every document found by `find_markdown_files` on an ordinary tree has
      an output path mirroring where it was found. */
  lemma FoundDocumentsMirrored(top: Path, outputBase: Path, walk: seq<WalkDir>, cwd: Path, p: Path)
    requires |top| >= 1 && top != [""] && IsAbs(cwd) && Ordinary(walk)
    requires p in Select(top, walk, IsMarkdownName)
    ensures exists i, j ::
              && 0 <= i < |walk| && 0 <= j < |walk[i].files|
              && p == FilePath(top, walk[i], walk[i].files[j])
              && GetNewOutputPath(p, top, outputBase, cwd) == Some(Join(outputBase, walk[i].sub + [walk[i].files[j]]))
  {
    SelectMembers(top, walk, IsMarkdownName, p);
    var i :| 0 <= i < |walk| && FoundIn(top, walk[i], IsMarkdownName, p);
    var j :| 0 <= j < |walk[i].files| && IsMarkdownName(walk[i].files[j]) && p == FilePath(top, walk[i], walk[i].files[j]);
    OutputMirrorsInput(top, outputBase, walk[i], walk[i].files[j], cwd);
  }

  // ---------------------------------------------------------------------
  // Recognising one picture, with retries

  /** The number of attempts `process_image_with_retry` makes by default. */
  const MaxRetries := 3

  /** What the loop keeps of a returned answer: the texts when the list is
      present and not empty, otherwise the empty list. */
  function TextsOrEmpty(t: Option<seq<string>>): (r: seq<string>)
    ensures |r| > 0 <==> t.Some? && |t.value| > 0
    ensures |r| > 0 ==> r == t.value
  {
    if t.Some? && |t.value| > 0 then t.value else []
  }

  /** The texts `process_image_with_retry` returns when attempt `k` calls
      `call(k)`: what the first attempt that does not raise gives, or the
      empty list when every one of the attempts raises. */
  function RetryTexts(call: nat -> Attempt<Option<seq<string>>>, maxRetries: int): seq<string>
  {
    match FirstReturn(call, maxRetries)
    case None => []
    case Some(k) => TextsOrEmpty(call(k).value)
  }

  /** The number of calls `process_image_with_retry` makes. */
  function RetryCalls(call: nat -> Attempt<Option<seq<string>>>, maxRetries: int): nat
  {
    match FirstReturn(call, maxRetries)
    case None => RangeSize(maxRetries)
    case Some(k) => k + 1
  }

  /** `process_image_with_retry`: never raises; stops at the first attempt
      that returns, with its texts (or [] when they are empty); gives []
      after `maxRetries` attempts that all raised, and makes no attempt at
      all when `maxRetries` is not positive. The pause between attempts is
      not modelled. */
  method ProcessImageWithRetry(call: nat -> Attempt<Option<seq<string>>>, maxRetries: int)
    returns (texts: seq<string>, calls: nat)
    ensures texts == RetryTexts(call, maxRetries)
    ensures calls == RetryCalls(call, maxRetries)
  {
    calls := 0;
    for attempt := 0 to RangeSize(maxRetries)
      invariant calls == attempt
      invariant forall j :: 0 <= j < attempt ==> call(j).Raised?
    {
      calls := calls + 1;
      var outcome := call(attempt);
      if outcome.Returned? {
        FirstReturnAt(call, maxRetries, attempt);
        texts := TextsOrEmpty(outcome.value);
        return;
      }
    }
    texts := [];
  }

  /** The retry loop never makes more calls than `range(maxRetries)` has
      elements, and makes all of them exactly when every call raises. */
  lemma RetryCallsBound(call: nat -> Attempt<Option<seq<string>>>, maxRetries: int)
    ensures RetryCalls(call, maxRetries) <= RangeSize(maxRetries)
    ensures (forall j :: 0 <= j < maxRetries ==> call(j).Raised?) ==>
      RetryCalls(call, maxRetries) == RangeSize(maxRetries) && RetryTexts(call, maxRetries) == []
  {
  }

  /** When the first `k` calls raise and call `k` returns, the loop makes
      `k + 1` calls and keeps that answer. */
  lemma RetryStopsAtFirstAnswer(call: nat -> Attempt<Option<seq<string>>>, maxRetries: int, k: nat)
    requires k < maxRetries
    requires forall j :: 0 <= j < k ==> call(j).Raised?
    requires call(k).Returned?
    ensures RetryCalls(call, maxRetries) == k + 1
    ensures RetryTexts(call, maxRetries) == TextsOrEmpty(call(k).value)
  {
    FirstReturnAt(call, maxRetries, k);
  }

  /** The texts kept for a picture: those `get_text_only` gives, or none. */
  function OcrTexts(ocr: Ocr, imagePath: Path, onDisk: Path -> bool): seq<string>
  {
    TextsOrEmpty(GetTextOnly(ocr, imagePath, onDisk))
  }

  /** `get_text_only` catches every exception of the engine, so with a
      recogniser that exists the retry loop makes exactly one call and keeps
      its texts. */
  lemma OcrRetryMakesOneCall(ocr: Ocr, imagePath: Path, onDisk: Path -> bool,
                             call: nat -> Attempt<Option<seq<string>>>, maxRetries: int)
    requires maxRetries >= 1
    requires forall k :: call(k) == Returned(GetTextOnly(ocr, imagePath, onDisk))
    ensures RetryCalls(call, maxRetries) == 1
    ensures RetryTexts(call, maxRetries) == OcrTexts(ocr, imagePath, onDisk)
  {
    FirstReturnAt(call, maxRetries, 0);
  }

  // ---------------------------------------------------------------------
  // Rewriting the lines

  /** The text put before a picture's link: the recognised texts, one per
      line, between two marker lines. */
  function BlockHead(texts: seq<string>): string
  {
    "\"\"\"图片\n" + Text.Join(texts, "\n") + "\n图片\"\"\"\n"
  }

  /** The text block contains no '!' when the texts contain none. */
  lemma BlockHeadAvoids(texts: seq<string>)
    requires forall k :: 0 <= k < |texts| ==> '!' !in texts[k]
    ensures '!' !in BlockHead(texts)
  {
    Text.JoinAvoids(texts, "\n", '!');
  }

  /** `n` copies of `h`, one after the other. */
  function Stack(h: string, n: nat): string
  {
    if n == 0 then "" else Stack(h, n - 1) + h
  }

  lemma {:induction false} StackAvoids(h: string, n: nat, c: char)
    requires c !in h
    ensures c !in Stack(h, n)
  {
    if n > 0 {
      StackAvoids(h, n - 1, c);
    }
  }

  /** One iteration of the update loop on the line of `ref`: with texts,
      every occurrence of the link's text in the line gets the block put
      before it; without, the line stays. */
  function StepLine(line: string, ref: ImageRef, texts: seq<string>): string
  {
    if |texts| == 0 then line else Text.ReplaceAll(line, ref.text, BlockHead(texts) + ref.text)
  }

  /** Every record names a line of the document. */
  predicate InRange(lines: seq<string>, images: seq<ImageRef>)
  {
    forall i :: 0 <= i < |images| ==> images[i].line < |lines|
  }

  /** The lines after the update loop has handled `images`, in order. */
  function Rewrite(lines: seq<string>, images: seq<ImageRef>, ocr: Ocr, onDisk: Path -> bool): (r: seq<string>)
    requires InRange(lines, images)
    ensures |r| == |lines|
    decreases |images|
  {
    if images == [] then lines
    else
      var n := |images| - 1;
      var prev := Rewrite(lines, images[..n], ocr, onDisk);
      var ref := images[n];
      prev[ref.line := StepLine(prev[ref.line], ref, OcrTexts(ocr, ref.path, onDisk))]
  }

  /** The update loop, on the list of lines in place: every picture is
      recognised with retries and, when it gave texts, its line has the
      block put before each occurrence of the link. */
  method ApplyOcr(lines: array<string>, images: seq<ImageRef>, ocr: Ocr, onDisk: Path -> bool)
    requires InRange(lines[..], images)
    modifies lines
    ensures lines[..] == Rewrite(old(lines[..]), images, ocr, onDisk)
  {
    ghost var original := lines[..];
    for i := 0 to |images|
      invariant InRange(original, images[..i])
      invariant lines[..] == Rewrite(original, images[..i], ocr, onDisk)
    {
      assert images[..i + 1][..i] == images[..i];
      var ref := images[i];
      var call := (k: nat) => Returned(GetTextOnly(ocr, ref.path, onDisk));
      var texts, _ := ProcessImageWithRetry(call, MaxRetries);
      OcrRetryMakesOneCall(ocr, ref.path, onDisk, call, MaxRetries);
      if |texts| > 0 {
        lines[ref.line] := Text.ReplaceAll(lines[ref.line], ref.text, BlockHead(texts) + ref.text);
      }
    }
    assert images[..|images|] == images;
  }

  /** A line none of whose pictures gave texts (in particular a line with
      no recorded picture) is written as it was read. */
  lemma {:induction false} RewriteKeepsLine(lines: seq<string>, images: seq<ImageRef>, ocr: Ocr, onDisk: Path -> bool, ln: nat)
    requires InRange(lines, images) && ln < |lines|
    requires forall i :: 0 <= i < |images| && images[i].line == ln ==> OcrTexts(ocr, images[i].path, onDisk) == []
    ensures Rewrite(lines, images, ocr, onDisk)[ln] == lines[ln]
    decreases |images|
  {
    if images != [] {
      var n := |images| - 1;
      assert InRange(lines, images[..n]);
      RewriteKeepsLine(lines, images[..n], ocr, onDisk, ln);
    }
  }

  /** A record of another line leaves line `ln` as it was. */
  lemma RewriteOtherLine(lines: seq<string>, images: seq<ImageRef>, ocr: Ocr, onDisk: Path -> bool, ln: nat)
    requires InRange(lines, images) && |images| > 0 && ln < |lines|
    requires images[|images| - 1].line != ln
    ensures InRange(lines, images[..|images| - 1])
    ensures Rewrite(lines, images, ocr, onDisk)[ln] == Rewrite(lines, images[..|images| - 1], ocr, onDisk)[ln]
  {
    assert InRange(lines, images[..|images| - 1]);
  }

  /** Record `i` is the only record of its line. */
  predicate AloneOnLine(images: seq<ImageRef>, i: nat)
  {
    i < |images| && forall j :: 0 <= j < |images| && images[j].line == images[i].line ==> j == i
  }

  /** The last record, alone on its line and whose link occurs there once,
      splices the block in just before the link. */
  lemma RewriteLastSingle(lines: seq<string>, images: seq<ImageRef>, ocr: Ocr, onDisk: Path -> bool, q: nat)
    requires InRange(lines, images) && |images| > 0 && AloneOnLine(images, |images| - 1)
    requires var ref := images[|images| - 1];
      && |ref.text| > 0 && OcrTexts(ocr, ref.path, onDisk) != []
      && Text.OccursOnlyAt(lines[ref.line], ref.text, q)
    ensures var ref := images[|images| - 1];
      var s := lines[ref.line];
      Rewrite(lines, images, ocr, onDisk)[ref.line] ==
        s[..q] + (BlockHead(OcrTexts(ocr, ref.path, onDisk)) + ref.text) + s[q + |ref.text|..]
  {
    var n := |images| - 1;
    var ref := images[n];
    var s := lines[ref.line];
    var texts := OcrTexts(ocr, ref.path, onDisk);
    var h := BlockHead(texts);
    RewriteBeforeAlone(lines, images, ocr, onDisk);
    var prev := Rewrite(lines, images[..n], ocr, onDisk);
    assert Rewrite(lines, images, ocr, onDisk)[ref.line] == StepLine(prev[ref.line], ref, texts);
    Text.ReplaceSingle(s, ref.text, h + ref.text, q);
  }

  /** The records before the last leave the last one's line, which none of
      them names, as it was. */
  lemma RewriteBeforeAlone(lines: seq<string>, images: seq<ImageRef>, ocr: Ocr, onDisk: Path -> bool)
    requires InRange(lines, images) && |images| > 0 && AloneOnLine(images, |images| - 1)
    ensures InRange(lines, images[..|images| - 1])
    ensures var ln := images[|images| - 1].line;
      Rewrite(lines, images[..|images| - 1], ocr, onDisk)[ln] == lines[ln]
  {
    var n := |images| - 1;
    var ln := images[n].line;
    assert InRange(lines, images[..n]);
    forall j | 0 <= j < n ensures images[..n][j].line != ln {
      assert images[..n][j] == images[j];
    }
    RewriteKeepsLine(lines, images[..n], ocr, onDisk, ln);
  }

  /** A line with one recorded picture that gave texts, whose link occurs
      once in the line, gets the block spliced in just before the link and
      keeps everything else. */
  lemma {:induction false} RewriteSingle(lines: seq<string>, images: seq<ImageRef>, ocr: Ocr, onDisk: Path -> bool, i: nat, q: nat)
    requires InRange(lines, images) && AloneOnLine(images, i)
    requires |images[i].text| > 0 && OcrTexts(ocr, images[i].path, onDisk) != []
    requires Text.OccursOnlyAt(lines[images[i].line], images[i].text, q)
    ensures var s := lines[images[i].line];
      Rewrite(lines, images, ocr, onDisk)[images[i].line] ==
        s[..q] + (BlockHead(OcrTexts(ocr, images[i].path, onDisk)) + images[i].text) + s[q + |images[i].text|..]
    decreases |images|
  {
    var n := |images| - 1;
    if i == n {
      RewriteLastSingle(lines, images, ocr, onDisk, q);
    } else {
      var ref := images[i];
      assert images[n].line != ref.line;
      RewriteOtherLine(lines, images, ocr, onDisk, ref.line);
      assert images[..n][i] == ref;
      assert AloneOnLine(images[..n], i) by {
        forall j | 0 <= j < n && images[..n][j].line == ref.line ensures j == i {
          assert images[..n][j] == images[j];
        }
      }
      RewriteSingle(lines, images[..n], ocr, onDisk, i, q);
    }
  }

  /** The number of records of line `ln`. */
  function CountOn(images: seq<ImageRef>, ln: nat): (c: nat)
    ensures c <= |images|
    decreases |images|
  {
    if images == [] then 0
    else CountOn(images[..|images| - 1], ln) + (if images[|images| - 1].line == ln then 1 else 0)
  }

  /** Every record of line `ln` is `ref`. */
  predicate OnlyRefOn(images: seq<ImageRef>, ln: nat, ref: ImageRef)
  {
    forall i :: 0 <= i < |images| && images[i].line == ln ==> images[i] == ref
  }

  /** The same link appearing several times on a line is recorded once per
      occurrence, and each record replaces every occurrence again: with
      `c` records of the link on its line, each occurrence ends up with `c`
      copies of the block of its texts `texts` before it. The line is written as `pieces`
      separated by the link; the pieces and the texts contain no '!', with
      which every link starts. */
  lemma {:induction false} RewriteRepeated(lines: seq<string>, images: seq<ImageRef>, ocr: Ocr, onDisk: Path -> bool,
                                           ln: nat, ref: ImageRef, pieces: seq<string>, texts: seq<string>)
    requires InRange(lines, images) && ln < |lines|
    requires OnlyRefOn(images, ln, ref)
    requires |pieces| >= 1 && lines[ln] == Text.Join(pieces, ref.text)
    requires |ref.text| > 0 && ref.text[0] == '!'
    requires forall k :: 0 <= k < |pieces| ==> '!' !in pieces[k]
    requires texts == OcrTexts(ocr, ref.path, onDisk) && texts != []
    requires forall k :: 0 <= k < |texts| ==> '!' !in texts[k]
    ensures Rewrite(lines, images, ocr, onDisk)[ln] == Text.Join(pieces, Stack(BlockHead(texts), CountOn(images, ln)) + ref.text)
    decreases |images|
  {
    var h := BlockHead(texts);
    if images == [] {
      assert Stack(h, 0) + ref.text == ref.text;
    } else {
      var n := |images| - 1;
      assert InRange(lines, images[..n]);
      assert OnlyRefOn(images[..n], ln, ref) by {
        forall i | 0 <= i < n ensures images[..n][i] == images[i] { }
      }
      RewriteRepeated(lines, images[..n], ocr, onDisk, ln, ref, pieces, texts);
      RepeatedStep(lines, images, ocr, onDisk, ln, ref, pieces, texts);
    }
  }

  /** The last record of the link adds one block before every occurrence;
      a record of another line leaves the line as it was. */
  lemma RepeatedStep(lines: seq<string>, images: seq<ImageRef>, ocr: Ocr, onDisk: Path -> bool,
                     ln: nat, ref: ImageRef, pieces: seq<string>, texts: seq<string>)
    requires InRange(lines, images) && images != [] && ln < |lines|
    requires images[|images| - 1].line == ln ==> images[|images| - 1] == ref
    requires |pieces| >= 1 && |ref.text| > 0 && ref.text[0] == '!'
    requires forall k :: 0 <= k < |pieces| ==> '!' !in pieces[k]
    requires texts == OcrTexts(ocr, ref.path, onDisk) && texts != []
    requires forall k :: 0 <= k < |texts| ==> '!' !in texts[k]
    requires var n := |images| - 1;
      && InRange(lines, images[..n])
      && Rewrite(lines, images[..n], ocr, onDisk)[ln] == Text.Join(pieces, Stack(BlockHead(texts), CountOn(images[..n], ln)) + ref.text)
    ensures Rewrite(lines, images, ocr, onDisk)[ln] == Text.Join(pieces, Stack(BlockHead(texts), CountOn(images, ln)) + ref.text)
  {
    var n := |images| - 1;
    if images[n].line == ln {
      BlockHeadAvoids(texts);
      RepeatedSame(lines, images, ocr, onDisk, ln, ref, pieces, texts);
    } else {
      RewriteOtherLine(lines, images, ocr, onDisk, ln);
      assert CountOn(images, ln) == CountOn(images[..n], ln);
    }
  }

  lemma RepeatedSame(lines: seq<string>, images: seq<ImageRef>, ocr: Ocr, onDisk: Path -> bool,
                     ln: nat, ref: ImageRef, pieces: seq<string>, texts: seq<string>)
    requires InRange(lines, images) && images != [] && ln < |lines|
    requires images[|images| - 1] == ref && ref.line == ln
    requires |pieces| >= 1 && |ref.text| > 0
    requires forall k :: 0 <= k < |pieces| ==> ref.text[0] !in pieces[k]
    requires texts == OcrTexts(ocr, ref.path, onDisk) && texts != [] && ref.text[0] !in BlockHead(texts)
    requires var n := |images| - 1;
      && InRange(lines, images[..n])
      && Rewrite(lines, images[..n], ocr, onDisk)[ln] == Text.Join(pieces, Stack(BlockHead(texts), CountOn(images[..n], ln)) + ref.text)
    ensures Rewrite(lines, images, ocr, onDisk)[ln] == Text.Join(pieces, Stack(BlockHead(texts), CountOn(images, ln)) + ref.text)
  {
    RewriteLastOnLine(lines, images, ocr, onDisk);
    StackOnce(pieces, BlockHead(texts), CountOn(images[..|images| - 1], ln), ref.text);
  }

  /** The last record rewrites its own line and is one more record of it. */
  lemma RewriteLastOnLine(lines: seq<string>, images: seq<ImageRef>, ocr: Ocr, onDisk: Path -> bool)
    requires InRange(lines, images) && images != []
    ensures InRange(lines, images[..|images| - 1])
    ensures var n := |images| - 1;
      var ref := images[n];
      var texts := OcrTexts(ocr, ref.path, onDisk);
      && CountOn(images, ref.line) == CountOn(images[..n], ref.line) + 1
      && (texts != [] ==>
            Rewrite(lines, images, ocr, onDisk)[ref.line] ==
              Text.ReplaceAll(Rewrite(lines, images[..n], ocr, onDisk)[ref.line], ref.text, BlockHead(texts) + ref.text))
  {
    assert InRange(lines, images[..|images| - 1]);
  }

  /** The last record changes its own line only. */
  lemma RewriteLast(lines: seq<string>, images: seq<ImageRef>, ocr: Ocr, onDisk: Path -> bool, ln: nat)
    requires InRange(lines, images) && images != [] && ln < |lines|
    ensures var n := |images| - 1;
      assert InRange(lines, images[..n]);
      var prev := Rewrite(lines, images[..n], ocr, onDisk);
      Rewrite(lines, images, ocr, onDisk)[ln] ==
        if images[n].line == ln then StepLine(prev[ln], images[n], OcrTexts(ocr, images[n].path, onDisk)) else prev[ln]
  {
  }

  /** One more replacement adds one more block before every link. */
  lemma StackOnce(pieces: seq<string>, h: string, c: nat, x: string)
    requires |pieces| >= 1 && |x| > 0
    requires forall k :: 0 <= k < |pieces| ==> x[0] !in pieces[k]
    requires x[0] !in h
    ensures Text.ReplaceAll(Text.Join(pieces, Stack(h, c) + x), x, h + x) == Text.Join(pieces, Stack(h, c + 1) + x)
  {
    StackAvoids(h, c, x[0]);
    Text.ReplaceInJoin(pieces, Stack(h, c), x, h + x);
    assert Stack(h, c) + (h + x) == Stack(h, c + 1) + x;
  }

  /** Records of two runs of lines add up. */
  lemma {:induction false} CountOnAppend(a: seq<ImageRef>, b: seq<ImageRef>, ln: nat)
    ensures CountOn(a + b, ln) == CountOn(a, ln) + CountOn(b, ln)
    decreases |b|
  {
    if b == [] {
      assert a + b == a;
    } else {
      var n := |b| - 1;
      assert (a + b)[..|a + b| - 1] == a + b[..n];
      CountOnAppend(a, b[..n], ln);
    }
  }

  /** Records all of line `m` count on line `m` only. */
  lemma {:induction false} CountOnOneLine(rs: seq<ImageRef>, m: nat, ln: nat)
    requires forall q :: 0 <= q < |rs| ==> rs[q].line == m
    ensures CountOn(rs, ln) == if m == ln then |rs| else 0
    decreases |rs|
  {
    if rs != [] {
      CountOnOneLine(rs[..|rs| - 1], m, ln);
    }
  }

  /** The records of line `ln` are those its own matches give. */
  lemma {:induction false} CountOnLines(dir: Path, lines: seq<string>, onDisk: Path -> bool, ln: nat)
    ensures CountOn(ExtractLines(dir, lines, onDisk), ln) ==
      if ln < |lines| then |LineRefs(dir, lines[ln], ln, Scan(lines[ln]), onDisk)| else 0
    decreases |lines|
  {
    if lines != [] {
      var n := |lines| - 1;
      var prev := ExtractLines(dir, lines[..n], onDisk);
      var here := LineRefs(dir, lines[n], n, Scan(lines[n]), onDisk);
      assert ExtractLines(dir, lines, onDisk) == prev + here;
      CountOnAppend(prev, here, ln);
      CountOnOneLine(here, n, ln);
      CountOnLines(dir, lines[..n], onDisk, ln);
      if ln < n {
        assert lines[..n][ln] == lines[ln];
      }
    }
  }

  /** A line that is `pieces` separated by one link `x` and has no other '!'
      holds `|pieces| - 1` occurrences of `x`; when its file exists each of
      them is recorded, and nothing else on that line is. */
  lemma RepeatedLinkRecords(markdownPath: Path, lines: seq<string>, onDisk: Path -> bool,
                            ln: nat, pieces: seq<string>, x: string)
    requires ln < |lines| && |pieces| >= 1 && lines[ln] == Text.Join(pieces, x)
    requires WholeMatch(x)
    requires forall k :: 0 <= k < |pieces| ==> '!' !in pieces[k]
    requires onDisk(RefOf(Dirname(markdownPath), x, MatchAt(x, 0).value, ln).path)
    ensures var images := ExtractImages(markdownPath, lines, onDisk);
      var ref := RefOf(Dirname(markdownPath), x, MatchAt(x, 0).value, ln);
      && CountOn(images, ln) == |pieces| - 1
      && OnlyRefOn(images, ln, ref)
      && ref.text == x
  {
    var dir := Dirname(markdownPath);
    var s := lines[ln];
    var ref := RefOf(dir, x, MatchAt(x, 0).value, ln);
    var images := ExtractImages(markdownPath, lines, onDisk);
    forall k | 0 <= k < |Scan(s)| ensures RefOf(dir, s, Scan(s)[k], ln) == ref {
      ScanJoinRefs(dir, s, ln, pieces, x, k);
    }
    ScanJoinRefs(dir, s, ln, pieces, x, 0);
    LineRefsSame(dir, s, ln, Scan(s), onDisk, ref);
    CountOnLines(dir, lines, onDisk, ln);
    forall q | 0 <= q < |images| && images[q].line == ln ensures images[q] == ref {
      ExtractedFromScan(dir, lines, onDisk, q);
    }
    assert x[0..|x|] == x;
  }

  /** A link that occurs `n` times on its line, and nowhere else starts a
      match there, gets `n` blocks of its texts before each occurrence: it
      is recorded once per occurrence, and each record replaces every
      occurrence again. */
  lemma RepeatedLinkBlocks(markdownPath: Path, lines: seq<string>, ocr: Ocr, onDisk: Path -> bool,
                           ln: nat, pieces: seq<string>, x: string)
    requires ln < |lines| && |pieces| >= 1 && lines[ln] == Text.Join(pieces, x)
    requires WholeMatch(x)
    requires forall k :: 0 <= k < |pieces| ==> '!' !in pieces[k]
    requires onDisk(RefOf(Dirname(markdownPath), x, MatchAt(x, 0).value, ln).path)
    requires var texts := OcrTexts(ocr, RefOf(Dirname(markdownPath), x, MatchAt(x, 0).value, ln).path, onDisk);
      texts != [] && forall k :: 0 <= k < |texts| ==> '!' !in texts[k]
    ensures var texts := OcrTexts(ocr, RefOf(Dirname(markdownPath), x, MatchAt(x, 0).value, ln).path, onDisk);
      Rewrite(lines, ExtractImages(markdownPath, lines, onDisk), ocr, onDisk)[ln] ==
        Text.Join(pieces, Stack(BlockHead(texts), |pieces| - 1) + x)
  {
    var ref := RefOf(Dirname(markdownPath), x, MatchAt(x, 0).value, ln);
    RepeatedLinkRecords(markdownPath, lines, onDisk, ln, pieces, x);
    RepeatedCounted(lines, ExtractImages(markdownPath, lines, onDisk), ocr, onDisk, ln, ref, pieces, OcrTexts(ocr, ref.path, onDisk));
  }

  /** `RewriteRepeated` with the number of records known. */
  lemma RepeatedCounted(lines: seq<string>, images: seq<ImageRef>, ocr: Ocr, onDisk: Path -> bool,
                        ln: nat, ref: ImageRef, pieces: seq<string>, texts: seq<string>)
    requires forall q :: 0 <= q < |images| ==> images[q].line < |lines|
    requires ln < |lines| && OnlyRefOn(images, ln, ref) && CountOn(images, ln) == |pieces| - 1
    requires |pieces| >= 1 && lines[ln] == Text.Join(pieces, ref.text)
    requires |ref.text| > 0 && ref.text[0] == '!'
    requires forall k :: 0 <= k < |pieces| ==> '!' !in pieces[k]
    requires texts == OcrTexts(ocr, ref.path, onDisk) && texts != []
    requires forall k :: 0 <= k < |texts| ==> '!' !in texts[k]
    ensures Rewrite(lines, images, ocr, onDisk)[ln] == Text.Join(pieces, Stack(BlockHead(texts), |pieces| - 1) + ref.text)
  {
    RewriteRepeated(lines, images, ocr, onDisk, ln, ref, pieces, texts);
  }

  // ---------------------------------------------------------------------
  // One document

  /** What handling one document comes to: an exception (with its message),
      a verbatim copy to `dest` because no picture was found, or the
      rewritten lines written to `dest`. */
  datatype MarkdownOutcome =
    | Failed(message: string)
    | Copied(dest: Path, lines: seq<string>)
    | Written(dest: Path, lines: seq<string>)

  /** The outcome of `update_markdown_with_ocr` for the document at
      `markdownPath` whose lines are `lines`; `makedirs` is what creating a
      directory does, `built` what constructing the recogniser does. */
  function Update(markdownPath: Path, outputBase: Path, inputBase: Path, cwd: Path, lines: seq<string>,
                  onDisk: Path -> bool, makedirs: Path -> Attempt<()>, built: Attempt<Ocr>): MarkdownOutcome
  {
    match GetNewOutputPath(markdownPath, inputBase, outputBase, cwd)
    case None => Failed("no path specified")
    case Some(dest) =>
      if makedirs(Dirname(dest)).Raised? then Failed(makedirs(Dirname(dest)).message)
      else
        var images := ExtractImages(markdownPath, lines, onDisk);
        if images == [] then Copied(dest, lines)
        else if built.Raised? then Failed(built.message)
        else Written(dest, Rewrite(lines, images, built.value, onDisk))
  }

  /** `update_markdown_with_ocr`: the output path, its directory, the
      pictures; a copy when there are none, otherwise one recogniser and the
      update loop over a mutable list of the lines. */
  method UpdateMarkdownWithOcr(markdownPath: Path, outputBase: Path, inputBase: Path, cwd: Path, lines: seq<string>,
                               onDisk: Path -> bool, makedirs: Path -> Attempt<()>, built: Attempt<Ocr>)
    returns (outcome: MarkdownOutcome)
    ensures outcome == Update(markdownPath, outputBase, inputBase, cwd, lines, onDisk, makedirs, built)
  {
    var newPath := GetNewOutputPath(markdownPath, inputBase, outputBase, cwd);
    if newPath.None? {
      return Failed("no path specified");
    }
    var dest := newPath.value;
    var made := makedirs(Dirname(dest));
    if made.Raised? {
      return Failed(made.message);
    }
    var images := ExtractImagesFromMarkdown(markdownPath, lines, onDisk);
    if images == [] {
      return Copied(dest, lines);
    }
    if built.Raised? {
      return Failed(built.message);
    }
    var buffer := new string[|lines|](i requires 0 <= i < |lines| => lines[i]);
    assert buffer[..] == lines;
    ApplyOcr(buffer, images, built.value, onDisk);
    outcome := Written(dest, buffer[..]);
  }

  /** A document fails exactly when its path is empty, when its output
      directory cannot be made, or when it has pictures and the recogniser
      cannot be built. */
  lemma UpdateFailureCases(markdownPath: Path, outputBase: Path, inputBase: Path, cwd: Path, lines: seq<string>,
                           onDisk: Path -> bool, makedirs: Path -> Attempt<()>, built: Attempt<Ocr>)
    ensures var dest := GetNewOutputPath(markdownPath, inputBase, outputBase, cwd);
      Update(markdownPath, outputBase, inputBase, cwd, lines, onDisk, makedirs, built).Failed? <==>
        || dest.None?
        || makedirs(Dirname(dest.value)).Raised?
        || (ExtractImages(markdownPath, lines, onDisk) != [] && built.Raised?)
  {
  }

  /** A document without a picture whose file exists is copied unchanged,
      and the recogniser is never built for it. */
  lemma UpdateCopiesWithoutPictures(markdownPath: Path, outputBase: Path, inputBase: Path, cwd: Path, lines: seq<string>,
                                    onDisk: Path -> bool, makedirs: Path -> Attempt<()>, built: Attempt<Ocr>, other: Attempt<Ocr>)
    requires ExtractImages(markdownPath, lines, onDisk) == []
    requires GetNewOutputPath(markdownPath, inputBase, outputBase, cwd).Some?
    requires makedirs(Dirname(GetNewOutputPath(markdownPath, inputBase, outputBase, cwd).value)).Returned?
    ensures Update(markdownPath, outputBase, inputBase, cwd, lines, onDisk, makedirs, built) ==
      Copied(GetNewOutputPath(markdownPath, inputBase, outputBase, cwd).value, lines)
    ensures Update(markdownPath, outputBase, inputBase, cwd, lines, onDisk, makedirs, built) ==
      Update(markdownPath, outputBase, inputBase, cwd, lines, onDisk, makedirs, other)
  {
  }

  /** A rewritten document has as many lines as it had, and every line
      without a recorded picture is written as it was read. */
  lemma UpdateKeepsOtherLines(markdownPath: Path, outputBase: Path, inputBase: Path, cwd: Path, lines: seq<string>,
                              onDisk: Path -> bool, makedirs: Path -> Attempt<()>, built: Attempt<Ocr>, ln: nat)
    requires Update(markdownPath, outputBase, inputBase, cwd, lines, onDisk, makedirs, built).Written?
    ensures |Update(markdownPath, outputBase, inputBase, cwd, lines, onDisk, makedirs, built).lines| == |lines|
    ensures ln < |lines| && (forall q :: 0 <= q < |ExtractImages(markdownPath, lines, onDisk)| ==>
                              ExtractImages(markdownPath, lines, onDisk)[q].line != ln) ==>
      Update(markdownPath, outputBase, inputBase, cwd, lines, onDisk, makedirs, built).lines[ln] == lines[ln]
  {
    var images := ExtractImages(markdownPath, lines, onDisk);
    if ln < |lines| && forall q :: 0 <= q < |images| ==> images[q].line != ln {
      RewriteKeepsLine(lines, images, built.value, onDisk, ln);
    }
  }

  // ---------------------------------------------------------------------
  // All documents

  /** What the task for one document does: update it with its own lines
      and its own recogniser. */
  function Handler(outputDir: Path, inputDir: Path, cwd: Path, contents: Path -> seq<string>, onDisk: Path -> bool,
                   makedirs: Path -> Attempt<()>, built: Path -> Attempt<Ocr>): Path -> MarkdownOutcome
  {
    md => Update(md, outputDir, inputDir, cwd, contents(md), onDisk, makedirs, built(md))
  }

  /** The outcomes of handling the documents `mds` one after the other. */
  function Outcomes(mds: seq<Path>, handle: Path -> MarkdownOutcome): (r: seq<MarkdownOutcome>)
    ensures |r| == |mds|
    decreases |mds|
  {
    if mds == [] then [] else Outcomes(mds[..|mds| - 1], handle) + [handle(mds[|mds| - 1])]
  }

  /** The `k`-th outcome is that of the `k`-th document handled. */
  lemma {:induction false} OutcomesAt(mds: seq<Path>, handle: Path -> MarkdownOutcome, k: nat)
    requires k < |mds|
    ensures Outcomes(mds, handle)[k] == handle(mds[k])
    decreases |mds|
  {
    var n := |mds| - 1;
    if k < n {
      OutcomesAt(mds[..n], handle, k);
      assert mds[..n][k] == mds[k];
    }
  }

  /** Handling one more document adds its outcome at the end. */
  lemma OutcomesStep(mds: seq<Path>, handle: Path -> MarkdownOutcome, i: nat)
    requires i < |mds|
    ensures Outcomes(mds[..i + 1], handle) == Outcomes(mds[..i], handle) + [handle(mds[i])]
  {
    assert mds[..i + 1][..i] == mds[..i];
  }

  /** `process_markdown_parallel`: every document found is handled once,
      with its own recogniser, and an exception in one does not stop the
      others. The tasks are run one after the other in the order in which
      they complete, `order` (the `i`-th to complete is the one for document
      `order[i]`); `contents` gives the lines of each document and `built`
      what constructing a recogniser does in its task. */
  method ProcessMarkdownParallel(inputDir: Path, outputDir: Path, cwd: Path, walk: seq<WalkDir>, order: seq<nat>,
                                 contents: Path -> seq<string>, onDisk: Path -> bool,
                                 makedirs: Path -> Attempt<()>, built: Path -> Attempt<Ocr>)
    returns (outcomes: seq<MarkdownOutcome>)
    requires IsOrder(order, |Select(inputDir, walk, IsMarkdownName)|)
    ensures outcomes == Outcomes(Reorder(Select(inputDir, walk, IsMarkdownName), order),
                                 Handler(outputDir, inputDir, cwd, contents, onDisk, makedirs, built))
  {
    var files := FindMarkdownFiles(inputDir, walk);
    ghost var completed := Reorder(files, order);
    ghost var handle := Handler(outputDir, inputDir, cwd, contents, onDisk, makedirs, built);
    outcomes := [];
    for i := 0 to |order|
      invariant outcomes == Outcomes(completed[..i], handle)
    {
      var md := files[order[i]];
      assert md == completed[i];
      OutcomesStep(completed, handle, i);
      var outcome := UpdateMarkdownWithOcr(md, outputDir, inputDir, cwd, contents(md), onDisk, makedirs, built(md));
      outcomes := outcomes + [outcome];
    }
    assert completed[..|order|] == completed;
  }

  /** Whatever the order in which the tasks complete, there is one outcome
      per document found, and the `i`-th is the update of document
      `order[i]` alone; so every document's update is reported. */
  lemma ParallelOutcomes(inputDir: Path, outputDir: Path, cwd: Path, walk: seq<WalkDir>, order: seq<nat>,
                         contents: Path -> seq<string>, onDisk: Path -> bool,
                         makedirs: Path -> Attempt<()>, built: Path -> Attempt<Ocr>, j: nat)
    requires IsOrder(order, |Select(inputDir, walk, IsMarkdownName)|)
    requires j < |Select(inputDir, walk, IsMarkdownName)|
    ensures var outcomes := Outcomes(Reorder(Select(inputDir, walk, IsMarkdownName), order),
                                     Handler(outputDir, inputDir, cwd, contents, onDisk, makedirs, built));
      && |outcomes| == |Select(inputDir, walk, IsMarkdownName)|
      && (forall i :: 0 <= i < |outcomes| ==>
            var md := Select(inputDir, walk, IsMarkdownName)[order[i]];
            outcomes[i] == Update(md, outputDir, inputDir, cwd, contents(md), onDisk, makedirs, built(md)))
      && exists i ::
           var md := Select(inputDir, walk, IsMarkdownName)[j];
           && 0 <= i < |outcomes|
           && order[i] == j
           && outcomes[i] == Update(md, outputDir, inputDir, cwd, contents(md), onDisk, makedirs, built(md))
  {
    var files := Select(inputDir, walk, IsMarkdownName);
    var completed := Reorder(files, order);
    var handle := Handler(outputDir, inputDir, cwd, contents, onDisk, makedirs, built);
    forall i | 0 <= i < |order|
      ensures Outcomes(completed, handle)[i] == handle(files[order[i]])
    {
      OutcomesAt(completed, handle, i);
    }
    assert j in order;
    var i :| 0 <= i < |order| && order[i] == j;
  }
}
