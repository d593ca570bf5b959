/** Directory discovery. `os.walk(top)` is not run: the directories it
    yields are given, each as its components below `top` together with the
    names of the files in it, in the order the walk yields them. The three
    discovery loops of the system (markdown, image and PDF files) all keep
    the files whose name passes a test and join them to their directory. */
module Walk {
  import opened Paths

  /** One directory the walk yields: `sub` are its components below the
      top (empty for the top itself) and `files` the names of its files. */
  datatype WalkDir = WalkDir(sub: seq<string>, files: seq<string>)

  /** `os.path.join(root, file)` for a file of directory `d`. */
  function FilePath(top: Path, d: WalkDir, f: string): Path
  {
    Join(WalkRoot(top, d.sub), [f])
  }

  /** The kept files of one directory, in order. */
  function SelectIn(top: Path, d: WalkDir, files: seq<string>, keep: string -> bool): (r: seq<Path>)
    ensures |r| <= |files|
    decreases |files|
  {
    if files == [] then []
    else
      var f := files[|files| - 1];
      SelectIn(top, d, files[..|files| - 1], keep) + (if keep(f) then [FilePath(top, d, f)] else [])
  }

  /** The kept files of the whole walk, directory by directory. */
  function Select(top: Path, walk: seq<WalkDir>, keep: string -> bool): seq<Path>
    decreases |walk|
  {
    if walk == [] then []
    else
      var d := walk[|walk| - 1];
      Select(top, walk[..|walk| - 1], keep) + SelectIn(top, d, d.files, keep)
  }

  /** Looking at one more file of a directory keeps it or not. */
  lemma SelectInStep(top: Path, d: WalkDir, j: nat, keep: string -> bool)
    requires j < |d.files|
    ensures SelectIn(top, d, d.files[..j + 1], keep) ==
      SelectIn(top, d, d.files[..j], keep) + (if keep(d.files[j]) then [FilePath(top, d, d.files[j])] else [])
  {
    assert d.files[..j + 1][..j] == d.files[..j];
  }

  /** Looking at one more directory adds its kept files. */
  lemma SelectStep(top: Path, walk: seq<WalkDir>, i: nat, keep: string -> bool)
    requires i < |walk|
    ensures Select(top, walk[..i + 1], keep) == Select(top, walk[..i], keep) + SelectIn(top, walk[i], walk[i].files, keep)
  {
    assert walk[..i + 1][..i] == walk[..i];
  }

  /** The number of kept names in one directory. */
  function CountIn(files: seq<string>, keep: string -> bool): nat
    decreases |files|
  {
    if files == [] then 0
    else CountIn(files[..|files| - 1], keep) + (if keep(files[|files| - 1]) then 1 else 0)
  }

  /** The number of kept names over the whole walk. */
  function Count(walk: seq<WalkDir>, keep: string -> bool): nat
    decreases |walk|
  {
    if walk == [] then 0
    else Count(walk[..|walk| - 1], keep) + CountIn(walk[|walk| - 1].files, keep)
  }

  /** A path is kept from a directory exactly when it is the joined path of
      one of its files whose name passes the test. */
  lemma {:induction false} SelectInMembers(top: Path, d: WalkDir, files: seq<string>, keep: string -> bool, p: Path)
    ensures p in SelectIn(top, d, files, keep) <==>
      exists j :: 0 <= j < |files| && keep(files[j]) && p == FilePath(top, d, files[j])
    decreases |files|
  {
    if files != [] {
      var n := |files| - 1;
      var f := files[n];
      var prev := SelectIn(top, d, files[..n], keep);
      assert SelectIn(top, d, files, keep) == prev + (if keep(f) then [FilePath(top, d, f)] else []);
      SelectInMembers(top, d, files[..n], keep, p);
      forall j | 0 <= j < n
        ensures files[..n][j] == files[j]
      {
      }
    }
  }

  /** `p` is the joined path of a kept file of directory `d`. */
  ghost predicate FoundIn(top: Path, d: WalkDir, keep: string -> bool, p: Path)
  {
    exists j :: 0 <= j < |d.files| && keep(d.files[j]) && p == FilePath(top, d, d.files[j])
  }

  /** A path is found by the walk exactly when it is the joined path of a
      file, in one of the walked directories, whose name passes the test. */
  lemma {:induction false} SelectMembers(top: Path, walk: seq<WalkDir>, keep: string -> bool, p: Path)
    ensures p in Select(top, walk, keep) <==> exists i :: 0 <= i < |walk| && FoundIn(top, walk[i], keep, p)
    decreases |walk|
  {
    if walk != [] {
      var n := |walk| - 1;
      var d := walk[n];
      var prev := Select(top, walk[..n], keep);
      var here := SelectIn(top, d, d.files, keep);
      assert Select(top, walk, keep) == prev + here;
      SelectMembers(top, walk[..n], keep, p);
      SelectInMembers(top, d, d.files, keep, p);
      assert p in here <==> FoundIn(top, walk[n], keep, p);
      forall i | 0 <= i < n
        ensures walk[..n][i] == walk[i]
      {
      }
    }
  }

  /** One path is found per kept name: the walk's list and its count agree. */
  lemma {:induction false} SelectCount(top: Path, walk: seq<WalkDir>, keep: string -> bool)
    ensures |Select(top, walk, keep)| == Count(walk, keep)
    decreases |walk|
  {
    if walk != [] {
      var n := |walk| - 1;
      SelectCount(top, walk[..n], keep);
      SelectInCount(top, walk[n], walk[n].files, keep);
    }
  }

  lemma {:induction false} SelectInCount(top: Path, d: WalkDir, files: seq<string>, keep: string -> bool)
    ensures |SelectIn(top, d, files, keep)| == CountIn(files, keep)
    decreases |files|
  {
    if files != [] {
      SelectInCount(top, d, files[..|files| - 1], keep);
    }
  }

  /** Walking several trees one after the other counts the sum of what each
      walk counts. */
  lemma {:induction false} CountAppend(a: seq<WalkDir>, b: seq<WalkDir>, keep: string -> bool)
    ensures Count(a + b, keep) == Count(a, keep) + Count(b, keep)
    decreases |b|
  {
    if b == [] {
      assert a + b == a;
    } else {
      var n := |b| - 1;
      assert (a + b)[..|a + b| - 1] == a + b[..n];
      assert (a + b)[|a + b| - 1] == b[n];
      CountAppend(a, b[..n], keep);
    }
  }

  /** A walk in which every directory below the top and every file name is
      an ordinary name (no "", "." or ".."): what `os.walk` yields. */
  predicate Ordinary(walk: seq<WalkDir>)
  {
    forall i :: 0 <= i < |walk| ==> AllNormal(walk[i].sub) && forall j :: 0 <= j < |walk[i].files| ==> NormalName(walk[i].files[j])
  }

  /** The last name of every found path passes the test. */
  lemma SelectKeeps(top: Path, walk: seq<WalkDir>, keep: string -> bool, p: Path)
    requires p in Select(top, walk, keep)
    ensures keep(Basename(p))
  {
    SelectMembers(top, walk, keep, p);
    var i :| 0 <= i < |walk| && FoundIn(top, walk[i], keep, p);
    var j :| 0 <= j < |walk[i].files| && keep(walk[i].files[j]) && p == FilePath(top, walk[i], walk[i].files[j]);
  }
}
