/** The PDF pass over several directories: after checking that every input
    directory exists and counting their PDFs, each directory is run through
    the one-directory pass with retries, in a task of its own. The worker
    pool and the pause between attempts are not modelled; whether a path
    exists, the walk of each directory and what each attempt of the
    one-directory pass does are given as functions. */
module PdfRecogParallel {
  import opened Base
  import opened Paths
  import opened Walk
  import PdfRecog

  /** `get_output_dir`: the output directory named after the input one. */
  function GetOutputDir(inputDir: Path): Path
  {
    ["output", Basename(Normpath(inputDir))]
  }

  /** The directory announced for an input directory is the one the
      one-directory pass writes into. */
  lemma OutputDirAgrees(inputDir: Path)
    ensures GetOutputDir(inputDir) == PdfRecog.OutputBase(inputDir)
    ensures |inputDir| >= 1 && inputDir != [""] ==> GetOutputDir(inputDir + [""]) == GetOutputDir(inputDir)
  {
    if |inputDir| >= 1 && inputDir != [""] {
      PdfRecog.OutputBaseTrailingSlash(inputDir);
    }
  }

  // ---------------------------------------------------------------------
  // One directory, with retries

  /** What `process_with_retry` returns when attempt `k` of the
      one-directory pass does `call(k)`: True at the first attempt that
      does not raise, False once every attempt has raised, nothing when
      there is no attempt. */
  function RetryResult(call: nat -> Attempt<()>, maxRetries: int): Option<bool>
  {
    if maxRetries <= 0 then None
    else Some(FirstReturn(call, maxRetries).Some?)
  }

  /** The number of attempts `process_with_retry` makes. */
  function RetryAttempts(call: nat -> Attempt<()>, maxRetries: int): nat
  {
    match FirstReturn(call, maxRetries)
    case Some(k) => k + 1
    case None => RangeSize(maxRetries)
  }

  /** `process_with_retry`. */
  method ProcessWithRetry(call: nat -> Attempt<()>, maxRetries: int) returns (result: Option<bool>, attempts: nat)
    ensures result == RetryResult(call, maxRetries)
    ensures attempts == RetryAttempts(call, maxRetries)
  {
    attempts := 0;
    for attempt := 0 to RangeSize(maxRetries)
      invariant attempts == attempt
      invariant maxRetries > 0 ==> attempt < maxRetries
      invariant forall j :: 0 <= j < attempt ==> call(j).Raised?
    {
      attempts := attempts + 1;
      var outcome := call(attempt);
      if outcome.Returned? {
        FirstReturnAt(call, maxRetries, attempt);
        return Some(true), attempts;
      } else if attempt == maxRetries - 1 {
        return Some(false), attempts;
      }
    }
    result := None;
  }

  /** True exactly when some attempt within the limit returns, and then
      after the first such attempt; False exactly when every attempt raised,
      after all of them. */
  lemma RetryResultCases(call: nat -> Attempt<()>, maxRetries: int)
    ensures RetryResult(call, maxRetries) == Some(true) <==> exists k :: 0 <= k < maxRetries && call(k).Returned?
    ensures RetryResult(call, maxRetries) == Some(false) <==>
      maxRetries > 0 && forall k :: 0 <= k < maxRetries ==> call(k).Raised?
    ensures RetryResult(call, maxRetries) == None <==> maxRetries <= 0
    ensures RetryAttempts(call, maxRetries) <= RangeSize(maxRetries)
    ensures RetryResult(call, maxRetries) == Some(false) ==> RetryAttempts(call, maxRetries) == maxRetries
  {
  }

  /** The one-directory pass raises only when its output directory cannot
      be made; when that is the same at every attempt, a retry either
      succeeds at once or fails every time. */
  lemma RetrySameEveryTime(call: nat -> Attempt<()>, maxRetries: int)
    requires maxRetries > 0
    requires forall k :: call(k) == call(0)
    ensures call(0).Returned? ==> RetryResult(call, maxRetries) == Some(true) && RetryAttempts(call, maxRetries) == 1
    ensures call(0).Raised? ==> RetryResult(call, maxRetries) == Some(false) && RetryAttempts(call, maxRetries) == maxRetries
  {
    if call(0).Returned? {
      FirstReturnAt(call, maxRetries, 0);
    }
  }

  /** One attempt of the one-directory pass as the retry loop sees it:
      whether it raised, and with what message. */
  function AttemptOf(outcome: Attempt<seq<PdfRecog.PdfCall>>): (r: Attempt<()>)
    ensures r.Raised? <==> outcome.Raised?
  {
    match outcome
    case Raised(m) => Raised(m)
    case Returned(_) => Returned(())
  }

  /** Retrying the one-directory pass of `inputDir`, where attempt `k` sees
      `makedirs(k)`: the result is True exactly when, within the limit, some
      attempt could make the output directory, and the attempts stop at the
      first such one. */
  lemma DirectoryRetry(inputDir: Path, walk: seq<WalkDir>, makedirs: nat -> Path -> Attempt<()>,
                       convert: (Path, Path) -> Attempt<(Path, Path)>, k: nat)
    requires k < MaxRetries && makedirs(k)(GetOutputDir(inputDir)).Returned?
    requires forall j :: 0 <= j < k ==> makedirs(j)(GetOutputDir(inputDir)).Raised?
    ensures var call := (j: nat) => AttemptOf(PdfRecog.DirectoryOutcome(inputDir, walk, makedirs(j), convert));
      RetryResult(call, MaxRetries) == Some(true) && RetryAttempts(call, MaxRetries) == k + 1
  {
    var call := (j: nat) => AttemptOf(PdfRecog.DirectoryOutcome(inputDir, walk, makedirs(j), convert));
    forall j | 0 <= j < k ensures call(j).Raised? {
      PdfRecog.DirectoryOutcomeCases(inputDir, walk, makedirs(j), convert, 0);
      OutputDirAgrees(inputDir);
    }
    PdfRecog.DirectoryOutcomeCases(inputDir, walk, makedirs(k), convert, 0);
    OutputDirAgrees(inputDir);
    FirstReturnAt(call, MaxRetries, k);
  }

  // ---------------------------------------------------------------------
  // Counting

  /** The number of PDFs in all the input directories. */
  function TotalPdfs(dirs: seq<Path>, walkOf: Path -> seq<WalkDir>): nat
    decreases |dirs|
  {
    if dirs == [] then 0
    else TotalPdfs(dirs[..|dirs| - 1], walkOf) + Count(walkOf(dirs[|dirs| - 1]), PdfRecog.IsPdfName)
  }

  /** `count_pdf_files`: for every directory and every directory of its
      walk, the number of its file names that are PDFs. */
  method CountPdfFiles(dirs: seq<Path>, walkOf: Path -> seq<WalkDir>) returns (count: nat)
    ensures count == TotalPdfs(dirs, walkOf)
  {
    count := 0;
    for i := 0 to |dirs|
      invariant count == TotalPdfs(dirs[..i], walkOf)
    {
      assert dirs[..i + 1][..i] == dirs[..i];
      var walk := walkOf(dirs[i]);
      ghost var before := count;
      for j := 0 to |walk|
        invariant count == before + Count(walk[..j], PdfRecog.IsPdfName)
      {
        assert walk[..j + 1][..j] == walk[..j];
        count := count + CountIn(walk[j].files, PdfRecog.IsPdfName);
      }
      assert walk[..|walk|] == walk;
    }
    assert dirs[..|dirs|] == dirs;
  }

  /** The total is the number of PDFs the one-directory passes convert,
      summed over the directories. */
  lemma {:induction false} TotalIsConverted(dirs: seq<Path>, walkOf: Path -> seq<WalkDir>)
    ensures TotalPdfs(dirs, walkOf) == SumFound(dirs, walkOf)
    decreases |dirs|
  {
    if dirs != [] {
      var n := |dirs| - 1;
      TotalIsConverted(dirs[..n], walkOf);
      SelectCount(dirs[n], walkOf(dirs[n]), PdfRecog.IsPdfName);
    }
  }

  /** The sum, over the directories, of the number of PDFs each walk finds. */
  function SumFound(dirs: seq<Path>, walkOf: Path -> seq<WalkDir>): nat
    decreases |dirs|
  {
    if dirs == [] then 0
    else
      var d := dirs[|dirs| - 1];
      SumFound(dirs[..|dirs| - 1], walkOf) + |Select(d, walkOf(d), PdfRecog.IsPdfName)|
  }

  /** A directory given twice is counted twice. */
  lemma DuplicateCountedTwice(d: Path, walkOf: Path -> seq<WalkDir>)
    ensures TotalPdfs([d, d], walkOf) == 2 * Count(walkOf(d), PdfRecog.IsPdfName)
  {
    assert [d, d][..1] == [d];
    assert [d][..0] == [];
    assert TotalPdfs([d], walkOf) == Count(walkOf(d), PdfRecog.IsPdfName);
  }

  /** Counting two lists of directories one after the other gives the sum. */
  lemma {:induction false} TotalAppend(a: seq<Path>, b: seq<Path>, walkOf: Path -> seq<WalkDir>)
    ensures TotalPdfs(a + b, walkOf) == TotalPdfs(a, walkOf) + TotalPdfs(b, walkOf)
    decreases |b|
  {
    if b == [] {
      assert a + b == a;
    } else {
      var n := |b| - 1;
      assert (a + b)[..|a + b| - 1] == a + b[..n];
      assert (a + b)[|a + b| - 1] == b[n];
      TotalAppend(a, b[..n], walkOf);
    }
  }

  // ---------------------------------------------------------------------
  // All directories

  /** The number of attempts each directory is given. */
  const MaxRetries := 3

  /** How the pass ends: at the first input directory that does not exist,
      before counting or starting anything; or with the PDF count and one
      report per completed task, in the order of completion: the directory
      the report names and the result it gives. */
  datatype ParallelRun =
    | Missing(dir: Path)
    | Ran(total: nat, reports: seq<(Path, Option<bool>)>)

  /** The index of the first directory that does not exist, if any. */
  function FirstMissing(dirs: seq<Path>, onDisk: Path -> bool): (r: Option<nat>)
    ensures r.Some? ==> r.value < |dirs| && !onDisk(dirs[r.value])
    ensures r.Some? ==> forall j :: 0 <= j < r.value ==> onDisk(dirs[j])
    ensures r.None? ==> forall j :: 0 <= j < |dirs| ==> onDisk(dirs[j])
    decreases |dirs|
  {
    if dirs == [] then None
    else if !onDisk(dirs[0]) then Some(0)
    else match FirstMissing(dirs[1..], onDisk)
      case None => None
      case Some(k) => Some(k + 1)
  }

  /** The outcome of `process_parallel` when the tasks complete in the order
      `order`. The `i`-th completed task is paired with the `i`-th input
      directory, whichever directory that task ran on. */
  function ParallelOutcome(dirs: seq<Path>, order: seq<nat>, onDisk: Path -> bool, walkOf: Path -> seq<WalkDir>,
                           run: Path -> nat -> Attempt<()>): ParallelRun
    requires IsOrder(order, |dirs|)
  {
    match FirstMissing(dirs, onDisk)
    case Some(k) => Missing(dirs[k])
    case None =>
      Ran(TotalPdfs(dirs, walkOf),
          seq(|dirs|, i requires 0 <= i < |dirs| => (dirs[i], RetryResult(run(dirs[order[i]]), MaxRetries))))
  }

  /** `process_parallel`. The tasks are run one after the other in the order
      in which they complete, `order` (the `i`-th to complete is the one for
      directory `order[i]`); `run(d)` is what each attempt of the
      one-directory pass does for `d`. */
  method ProcessParallel(dirs: seq<Path>, order: seq<nat>, onDisk: Path -> bool, walkOf: Path -> seq<WalkDir>,
                         run: Path -> nat -> Attempt<()>)
    returns (outcome: ParallelRun)
    requires IsOrder(order, |dirs|)
    ensures outcome == ParallelOutcome(dirs, order, onDisk, walkOf, run)
  {
    for i := 0 to |dirs|
      invariant forall j :: 0 <= j < i ==> onDisk(dirs[j])
    {
      if !onDisk(dirs[i]) {
        assert FirstMissing(dirs, onDisk) == Some(i) by {
          FirstMissingAt(dirs, onDisk, i);
        }
        return Missing(dirs[i]);
      }
    }
    var total := CountPdfFiles(dirs, walkOf);
    var reports := [];
    for i := 0 to |dirs|
      invariant |reports| == i
      invariant forall j :: 0 <= j < i ==> reports[j] == (dirs[j], RetryResult(run(dirs[order[j]]), MaxRetries))
    {
      var result, _ := ProcessWithRetry(run(dirs[order[i]]), MaxRetries);
      reports := reports + [(dirs[i], result)];
    }
    outcome := Ran(total, reports);
  }

  /** When the first `i` directories exist and directory `i` does not,
      it is the first missing one. */
  lemma {:induction false} FirstMissingAt(dirs: seq<Path>, onDisk: Path -> bool, i: nat)
    requires i < |dirs| && !onDisk(dirs[i])
    requires forall j :: 0 <= j < i ==> onDisk(dirs[j])
    ensures FirstMissing(dirs, onDisk) == Some(i)
    decreases i
  {
    if i > 0 {
      FirstMissingAt(dirs[1..], onDisk, i - 1);
    }
  }

  /** A missing directory stops the pass before any directory is counted
      or processed, and is the first missing one; when none is missing,
      every directory gets a task whose result is reported (under whichever
      directory it completed against), with three attempts every task
      answers True or False, and the count is that of all the PDFs. */
  lemma ParallelOutcomeCases(dirs: seq<Path>, order: seq<nat>, onDisk: Path -> bool, walkOf: Path -> seq<WalkDir>,
                             run: Path -> nat -> Attempt<()>)
    requires IsOrder(order, |dirs|)
    ensures var o := ParallelOutcome(dirs, order, onDisk, walkOf, run);
      o.Missing? <==> exists j :: 0 <= j < |dirs| && !onDisk(dirs[j])
    ensures var o := ParallelOutcome(dirs, order, onDisk, walkOf, run);
      o.Missing? ==> o.dir in dirs && !onDisk(o.dir)
    ensures var o := ParallelOutcome(dirs, order, onDisk, walkOf, run);
      o.Ran? ==> o.total == SumFound(dirs, walkOf) && |o.reports| == |dirs| && forall i :: 0 <= i < |dirs| ==> o.reports[i].1.Some?
    ensures var o := ParallelOutcome(dirs, order, onDisk, walkOf, run);
      o.Ran? ==> forall j :: 0 <= j < |dirs| ==> o.reports[Position(order, j)].1 == RetryResult(run(dirs[j]), MaxRetries)
  {
    TotalIsConverted(dirs, walkOf);
    var o := ParallelOutcome(dirs, order, onDisk, walkOf, run);
    if o.Ran? {
      forall j | 0 <= j < |dirs|
        ensures o.reports[Position(order, j)].1 == RetryResult(run(dirs[j]), MaxRetries)
      {
      }
    }
  }

  /** The reports name the right directories only when the tasks complete in
      the order they were submitted. */
  lemma ReportsInSubmissionOrder(dirs: seq<Path>, onDisk: Path -> bool, walkOf: Path -> seq<WalkDir>,
                                 run: Path -> nat -> Attempt<()>)
    requires forall j :: 0 <= j < |dirs| ==> onDisk(dirs[j])
    ensures IsOrder(seq(|dirs|, i => i), |dirs|)
    ensures var o := ParallelOutcome(dirs, seq(|dirs|, i => i), onDisk, walkOf, run);
      o.Ran? && forall i :: 0 <= i < |dirs| ==> o.reports[i] == (dirs[i], RetryResult(run(dirs[i]), MaxRetries))
  {
    var identity := seq(|dirs|, i => i);
    forall j | 0 <= j < |dirs| ensures j in identity {
      assert identity[j] == j;
    }
  }

  /** Two directories whose tasks complete in the opposite order: the
      report naming the first one, whose every attempt fails, says it
      succeeded, and the one naming the second says it failed. */
  lemma ReportsSwapped(a: Path, b: Path, onDisk: Path -> bool, walkOf: Path -> seq<WalkDir>, run: Path -> nat -> Attempt<()>)
    requires onDisk(a) && onDisk(b)
    requires forall k :: run(a)(k).Raised?
    requires forall k :: run(b)(k).Returned?
    ensures IsOrder([1, 0], 2)
    ensures RetryResult(run(a), MaxRetries) == Some(false)
    ensures ParallelOutcome([a, b], [1, 0], onDisk, walkOf, run).reports == [(a, Some(true)), (b, Some(false))]
  {
    assert 0 in [1, 0] && 1 in [1, 0];
    FirstReturnAt(run(b), MaxRetries, 0);
  }
}
