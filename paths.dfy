/** POSIX path strings as Python's `os.path` treats them, in the form of the
    pieces of the string split on '/': "a/b" is ["a", "b"], "/a" is
    ["", "a"], "a/" is ["a", ""] and the empty string is [""]. Symbolic
    links and the file system are not consulted by any of these. */
module Paths {
  import opened Base
  import Text

  type Path = seq<string>

  /** The pieces of some string split on '/'. */
  predicate ValidPath(p: Path)
  {
    |p| >= 1 && forall i :: 0 <= i < |p| ==> '/' !in p[i]
  }

  function FromString(s: string): (p: Path)
    ensures ValidPath(p)
  {
    Text.Split(s, '/')
  }

  function ToString(p: Path): string
  {
    Text.Join(p, "/")
  }

  /** The representation loses nothing: a string is its pieces joined by '/'. */
  lemma {:induction false} StringRoundTrip(s: string)
    ensures ToString(FromString(s)) == s
  {
    Text.JoinSplit(s, '/');
  }

  /** ... and the pieces of a valid path are recovered from its string. */
  lemma {:induction false} PathRoundTrip(p: Path)
    requires ValidPath(p)
    ensures FromString(ToString(p)) == p
  {
    Text.SplitJoin(p, '/');
  }

  /** `os.path.isabs`: the string starts with '/'. */
  predicate IsAbs(p: Path)
  {
    |p| >= 2 && p[0] == ""
  }

  /** A file or directory name that `os.path.normpath` keeps as it is. */
  predicate NormalName(c: string)
  {
    c != "" && c != "." && c != ".." && '/' !in c
  }

  predicate AllNormal(cs: seq<string>)
  {
    forall i :: 0 <= i < |cs| ==> NormalName(cs[i])
  }

  /** `os.path.join(a, b)`: an absolute `b` replaces `a`; otherwise `b` is
      appended after a '/', which is not doubled when `a` is empty or
      already ends with '/'. */
  function Join(a: Path, b: Path): Path
  {
    if IsAbs(b) then b
    else if |a| > 0 && a[|a| - 1] == "" then a[..|a| - 1] + b
    else a + b
  }

  /** Joining a relative path keeps its pieces as the tail of the result. */
  lemma JoinRelative(a: Path, b: Path)
    requires |b| >= 1 && b[0] != ""
    ensures exists a' :: Join(a, b) == a' + b && (a' == a || a' + [""] == a)
  {
    if |a| > 0 && a[|a| - 1] == "" {
      assert a[..|a| - 1] + [""] == a;
    } else {
      assert Join(a, b) == a + b;
    }
  }

  /** Joining a relative path keeps whether the result is absolute. */
  lemma JoinKeepsAbs(a: Path, b: Path)
    requires |b| >= 1 && b[0] != ""
    ensures IsAbs(Join(a, b)) == IsAbs(a)
  {
    if |a| > 0 && a[|a| - 1] == "" {
      if |a| >= 2 {
        assert Join(a, b)[0] == a[0];
      }
    } else if |a| > 0 {
      assert Join(a, b)[0] == a[0];
    }
  }

  /** `os.path.basename`: the text after the last '/'. */
  function Basename(p: Path): string
  {
    if |p| == 0 then "" else p[|p| - 1]
  }

  function DropTrailingEmpty(q: Path): (r: Path)
    ensures |r| <= |q| && r == q[..|r|]
    ensures |r| > 0 ==> r[|r| - 1] != ""
    ensures forall i :: |r| <= i < |q| ==> q[i] == ""
  {
    if |q| > 0 && q[|q| - 1] == "" then DropTrailingEmpty(q[..|q| - 1]) else q
  }

  /** `os.path.dirname`: everything before the last '/', without the
      trailing slashes unless it consists of slashes only. */
  function Dirname(p: Path): Path
  {
    if |p| <= 1 then [""]
    else
      var head := p[..|p| - 1];
      if forall i :: 0 <= i < |head| ==> head[i] == "" then head + [""]
      else DropTrailingEmpty(head)
  }

  /** A name appended to a directory that does not end in '/' has that
      directory as its `dirname` and the name as its `basename`. */
  lemma DirnameOfJoin(d: Path, f: string)
    requires |d| >= 1 && d[|d| - 1] != ""
    requires f != ""
    ensures Dirname(Join(d, [f])) == d
    ensures Basename(Join(d, [f])) == f
  {
    assert Join(d, [f]) == d + [f];
    assert (d + [f])[..|d|] == d;
  }

  /** `str.rfind(c)`: the last index of `c` in `s`, if any. */
  function LastIndex(s: string, c: char): (r: Option<nat>)
    ensures r.Some? ==> r.value < |s| && s[r.value] == c
    ensures r.Some? ==> forall j :: r.value < j < |s| ==> s[j] != c
    ensures r.None? ==> c !in s
  {
    if |s| == 0 then None
    else if s[|s| - 1] == c then Some(|s| - 1)
    else LastIndex(s[..|s| - 1], c)
  }

  /** `os.path.splitext` of a name without '/': the extension runs from the
      last '.', provided some character before that dot is not a dot. */
  function SplitExt(name: string): (string, string)
  {
    match LastIndex(name, '.')
    case None => (name, "")
    case Some(d) =>
      if exists j :: 0 <= j < d && name[j] != '.' then (name[..d], name[d..])
      else (name, "")
  }

  function Stem(name: string): string { SplitExt(name).0 }

  function Ext(name: string): string { SplitExt(name).1 }

  /** A name made of a dot-free base, a dot and a dot-free extension splits
      at that dot. */
  lemma SplitExtDotted(b: string, e: string)
    requires |b| > 0 && '.' !in b && '.' !in e
    ensures Stem(b + "." + e) == b && Ext(b + "." + e) == "." + e
  {
    var name := b + "." + e;
    assert name[|b|] == '.';
    forall j | 0 <= j < |name| && j != |b| ensures name[j] != '.' {
      if j < |b| {
        assert name[j] == b[j];
      } else {
        assert name[j] == e[j - |b| - 1];
      }
    }
    var d := LastIndex(name, '.').value;
    assert d == |b|;
    assert name[0] == b[0] != '.';
    assert name[..d] == b && name[d..] == "." + e;
  }

  /** The two halves of `splitext` put together give back the name; the
      extension is empty or is a '.' followed by no other '.', and it is
      never the whole name. */
  lemma SplitExtParts(name: string)
    ensures Stem(name) + Ext(name) == name
    ensures Ext(name) == "" || (Ext(name)[0] == '.' && '.' !in Ext(name)[1..])
    ensures Ext(name) != "" ==> |Stem(name)| > 0
  {
    match LastIndex(name, '.')
    case None =>
    case Some(d) =>
      if exists j :: 0 <= j < d && name[j] != '.' {
        assert name[..d] + name[d..] == name;
        var rest := name[d + 1..];
        forall k | 0 <= k < |rest| ensures rest[k] != '.' {
          assert rest[k] == name[d + 1 + k];
        }
        assert name[d..][1..] == name[d + 1..];
      }
  }

  // ---------------------------------------------------------------------
  // os.path.normpath

  /** One step of `normpath`'s loop over the pieces: empty pieces and "."
      vanish; ".." removes the previous name, except that it is kept when
      there is nothing to remove in a relative path or the previous piece is
      itself "..", and dropped at the root of an absolute path. */
  function NormStep(stack: seq<string>, comp: string, absolute: bool): seq<string>
  {
    if comp == "" || comp == "." then stack
    else if comp != ".." || (!absolute && |stack| == 0) || (|stack| > 0 && stack[|stack| - 1] == "..")
    then stack + [comp]
    else if |stack| > 0 then stack[..|stack| - 1]
    else stack
  }

  /** `normpath`'s loop over `comps`, starting from `stack`. */
  function NormFold(stack: seq<string>, comps: seq<string>, absolute: bool): seq<string>
    decreases |comps|
  {
    if |comps| == 0 then stack
    else NormFold(NormStep(stack, comps[0], absolute), comps[1..], absolute)
  }

  /** The loop over two lists of pieces is the loop over the first, then
      over the second. */
  lemma {:induction false} NormFoldAppend(st: seq<string>, xs: seq<string>, ys: seq<string>, absolute: bool)
    ensures NormFold(st, xs + ys, absolute) == NormFold(NormFold(st, xs, absolute), ys, absolute)
    decreases |xs|
  {
    if |xs| > 0 {
      assert (xs + ys)[1..] == xs[1..] + ys;
      assert (xs + ys)[0] == xs[0];
      NormFoldAppend(NormStep(st, xs[0], absolute), xs[1..], ys, absolute);
    } else {
      assert xs + ys == ys;
    }
  }

  /** Ordinary names are pushed as they are. */
  lemma {:induction false} NormFoldNormal(st: seq<string>, ys: seq<string>, absolute: bool)
    requires AllNormal(ys)
    ensures NormFold(st, ys, absolute) == st + ys
    decreases |ys|
  {
    if |ys| > 0 {
      NormFoldNormal(st + [ys[0]], ys[1..], absolute);
      assert st + [ys[0]] + ys[1..] == st + ys;
    }
  }

  /** The loop never leaves an empty piece on its stack. */
  lemma {:induction false} NormFoldNoEmpty(st: seq<string>, comps: seq<string>, absolute: bool)
    requires forall i :: 0 <= i < |st| ==> st[i] != ""
    ensures forall i :: 0 <= i < |NormFold(st, comps, absolute)| ==> NormFold(st, comps, absolute)[i] != ""
    decreases |comps|
  {
    if |comps| > 0 {
      NormFoldNoEmpty(NormStep(st, comps[0], absolute), comps[1..], absolute);
    }
  }

  /** Joining a relative path continues the loop of the directory it is
      joined to. */
  lemma NormFoldJoin(st: seq<string>, a: Path, b: Path, absolute: bool)
    requires |b| >= 1 && b[0] != ""
    ensures NormFold(st, Join(a, b), absolute) == NormFold(NormFold(st, a, absolute), b, absolute)
  {
    if |a| > 0 && a[|a| - 1] == "" {
      var a' := a[..|a| - 1];
      assert a == a' + [""];
      NormFoldAppend(st, a', [""], absolute);
      NormFoldAppend(st, a', b, absolute);
    } else {
      NormFoldAppend(st, a, b, absolute);
    }
  }

  function Repeat(s: string, n: nat): (r: seq<string>)
    ensures |r| == n && forall i :: 0 <= i < n ==> r[i] == s
  {
    if n == 0 then [] else [s] + Repeat(s, n - 1)
  }

  /** Leading slashes `normpath` keeps: one, or exactly two when the path
      starts with "//" but not with "///". */
  function InitialSlashes(p: Path): nat
  {
    if !IsAbs(p) then 0
    else if |p| >= 3 && p[1] == "" && !(|p| >= 4 && p[2] == "") then 2
    else 1
  }

  /** `os.path.normpath`. */
  function Normpath(p: Path): (r: Path)
    ensures |r| >= 1
  {
    var slashes := InitialSlashes(p);
    var comps := NormFold([], p, slashes > 0);
    if slashes == 0 then (if comps == [] then ["."] else comps)
    else Repeat("", slashes) + (if comps == [] then [""] else comps)
  }

  /** A trailing slash changes nothing that `normpath` keeps, save for the
      empty path (whose trailing slash makes it the root). */
  lemma NormpathTrailingSlash(p: Path)
    requires |p| >= 1 && p != [""]
    ensures Basename(Normpath(p + [""])) == Basename(Normpath(p))
  {
    var q := p + [""];
    assert IsAbs(q) == IsAbs(p);
    var abs := InitialSlashes(p) > 0;
    var c := NormFold([], p, abs);
    NormFoldAppend([], p, [""], abs);
    assert NormFold(c, [""], abs) == c;
    var tail := if c == [] then (if abs then [""] else ["."]) else c;
    assert Basename(Normpath(p)) == Basename(tail);
    assert Basename(Normpath(q)) == Basename(tail);
  }

  /** The pieces that are not empty: `[x for x in s.split('/') if x]`. */
  function NonEmpty(p: Path): (r: seq<string>)
    ensures forall i :: 0 <= i < |r| ==> r[i] != ""
  {
    if |p| == 0 then []
    else (if p[0] == "" then [] else [p[0]]) + NonEmpty(p[1..])
  }

  lemma {:induction false} NonEmptyAppend(a: Path, b: Path)
    ensures NonEmpty(a + b) == NonEmpty(a) + NonEmpty(b)
    decreases |a|
  {
    if |a| > 0 {
      assert (a + b)[1..] == a[1..] + b;
      NonEmptyAppend(a[1..], b);
    } else {
      assert a + b == b;
    }
  }

  lemma {:induction false} NonEmptyKeeps(p: Path)
    requires forall i :: 0 <= i < |p| ==> p[i] != ""
    ensures NonEmpty(p) == p
    decreases |p|
  {
    if |p| > 0 {
      NonEmptyKeeps(p[1..]);
      assert [p[0]] + p[1..] == p;
    }
  }

  lemma {:induction false} NonEmptyRepeat(n: nat)
    ensures NonEmpty(Repeat("", n)) == []
  {
    if n > 0 {
      assert Repeat("", n)[1..] == Repeat("", n - 1);
      NonEmptyRepeat(n - 1);
    }
  }

  // ---------------------------------------------------------------------
  // os.path.abspath and os.path.relpath

  /** `os.path.abspath` with the working directory `cwd`. */
  function AbsPath(p: Path, cwd: Path): Path
  {
    if IsAbs(p) then Normpath(p) else Normpath(Join(cwd, p))
  }

  /** The length of the common prefix of two lists of names, as
      `os.path.commonprefix` computes it on lists. */
  function CommonPrefixLen(a: seq<string>, b: seq<string>): (n: nat)
    ensures n <= |a| && n <= |b| && a[..n] == b[..n]
    ensures n < |a| && n < |b| ==> a[n] != b[n]
  {
    if |a| == 0 || |b| == 0 || a[0] != b[0] then 0
    else 1 + CommonPrefixLen(a[1..], b[1..])
  }

  /** `os.path.relpath(path, start)` with the working directory `cwd`: the
      ".." pieces that climb from `start` to the common ancestor, followed
      by the rest of `path`; "." when the two are the same. An empty `path`
      raises ValueError, shown as None. */
  function RelPath(path: Path, start: Path, cwd: Path): Option<Path>
  {
    if path == [] || path == [""] then None
    else
      var startList := NonEmpty(AbsPath(start, cwd));
      var pathList := NonEmpty(AbsPath(path, cwd));
      var i := CommonPrefixLen(startList, pathList);
      var rel := Repeat("..", |startList| - i) + pathList[i..];
      Some(if rel == [] then ["."] else rel)
  }

  /** The root `os.walk(top)` reports for the sub-directory names `sub`
      below `top`. */
  function WalkRoot(top: Path, sub: seq<string>): Path
  {
    if sub == [] then top else Join(top, sub)
  }

  /** The names of an absolute path, once normalised. */
  lemma AbsoluteNames(x: Path)
    requires IsAbs(x)
    ensures NonEmpty(Normpath(x)) == NormFold([], x, true)
  {
    var comps := NormFold([], x, true);
    var slashes := InitialSlashes(x);
    var tail := if comps == [] then [""] else comps;
    assert Normpath(x) == Repeat("", slashes) + tail;
    NonEmptyAppend(Repeat("", slashes), tail);
    NonEmptyRepeat(slashes);
    if comps == [] {
      assert NonEmpty([""]) == [];
    } else {
      NormFoldNoEmpty([], x, true);
      NonEmptyKeeps(comps);
    }
  }

  /** The names a walked file adds below its top directory. */
  lemma WalkedFileNames(st: seq<string>, top: Path, sub: seq<string>, f: string)
    requires AllNormal(sub) && NormalName(f)
    ensures NormFold(st, Join(WalkRoot(top, sub), [f]), true) == NormFold(st, top, true) + sub + [f]
    ensures IsAbs(Join(WalkRoot(top, sub), [f])) == IsAbs(top)
  {
    var root := WalkRoot(top, sub);
    NormFoldJoin(st, root, [f], true);
    assert AllNormal([f]);
    NormFoldNormal(NormFold(st, root, true), [f], true);
    JoinKeepsAbs(root, [f]);
    if sub != [] {
      NormFoldJoin(st, top, sub, true);
      NormFoldNormal(NormFold(st, top, true), sub, true);
      JoinKeepsAbs(top, sub);
    }
  }

  /** The names of `abspath(x)` when the working directory is absolute. */
  lemma AbsPathNames(x: Path, cwd: Path)
    requires IsAbs(cwd)
    requires |x| >= 1 && x != [""]
    ensures NonEmpty(AbsPath(x, cwd)) ==
      if IsAbs(x) then NormFold([], x, true) else NormFold(NormFold([], cwd, true), x, true)
  {
    if IsAbs(x) {
      AbsoluteNames(x);
    } else {
      JoinKeepsAbs(cwd, x);
      AbsoluteNames(Join(cwd, x));
      NormFoldJoin([], cwd, x, true);
    }
  }

  /** `relpath` of a path whose names extend those of `start` by `rest`. */
  lemma RelPathBelow(path: Path, start: Path, cwd: Path, c: seq<string>, rest: seq<string>)
    requires path != [] && path != [""] && rest != []
    requires NonEmpty(AbsPath(start, cwd)) == c
    requires NonEmpty(AbsPath(path, cwd)) == c + rest
    ensures RelPath(path, start, cwd) == Some(rest)
  {
    var i := CommonPrefixLen(c, c + rest);
    assert i == |c|;
    assert (c + rest)[i..] == rest;
    assert Repeat("..", 0) + rest == rest;
  }

  /** The absolute names of a file found by walking `top` are those of
      `top`, then the sub-directories walked through, then the file's name. */
  lemma WalkedFileAbsNames(top: Path, sub: seq<string>, f: string, cwd: Path)
    requires |top| >= 1 && top != [""]
    requires AllNormal(sub) && NormalName(f)
    requires IsAbs(cwd)
    ensures var md := Join(WalkRoot(top, sub), [f]);
      && |md| >= 1 && md[|md| - 1] == f
      && NonEmpty(AbsPath(md, cwd)) == NonEmpty(AbsPath(top, cwd)) + (sub + [f])
  {
    var md := Join(WalkRoot(top, sub), [f]);
    var base := if IsAbs(top) then [] else NormFold([], cwd, true);
    WalkedFileNames(base, top, sub, f);
    assert |md| >= 1 && md[|md| - 1] == f;
    AbsPathNames(top, cwd);
    AbsPathNames(md, cwd);
    var c := NormFold(base, top, true);
    assert NonEmpty(AbsPath(md, cwd)) == NormFold(base, md, true);
    Text.ConcatAssoc(c, sub, [f]);
  }

  /** The path of a file found by walking `top`, relative to `top`, names
      exactly the sub-directories walked through and the file's own name. */
  lemma RelPathOfWalkedFile(top: Path, sub: seq<string>, f: string, cwd: Path)
    requires |top| >= 1 && top != [""]
    requires AllNormal(sub) && NormalName(f)
    requires IsAbs(cwd)
    ensures RelPath(Join(WalkRoot(top, sub), [f]), top, cwd) == Some(sub + [f])
  {
    var md := Join(WalkRoot(top, sub), [f]);
    WalkedFileAbsNames(top, sub, f, cwd);
    RelPathBelow(md, top, cwd, NonEmpty(AbsPath(top, cwd)), sub + [f]);
  }
}
