/** The string operations the system relies on, with Python's meaning:
    `sep.join(parts)`, `s.split(c)`, `s.endswith(x)`, `s.lower()` (on ASCII
    letters) and `s.replace(old, new)`. */
module Text {

  /** `sep.join(parts)`. */
  function Join(parts: seq<string>, sep: string): string
  {
    if |parts| == 0 then ""
    else if |parts| == 1 then parts[0]
    else parts[0] + sep + Join(parts[1..], sep)
  }

  /** `s.split(c)` for a one-character separator: always at least one piece,
      and no piece contains the separator. */
  function Split(s: string, c: char): (r: seq<string>)
    ensures |r| >= 1
    ensures forall i :: 0 <= i < |r| ==> c !in r[i]
    decreases |s|
  {
    if |s| == 0 then [""]
    else
      var rest := Split(s[1..], c);
      if s[0] == c then [""] + rest else [[s[0]] + rest[0]] + rest[1..]
  }

  lemma JoinCons(p: string, parts: seq<string>, sep: string)
    requires |parts| >= 1
    ensures Join([p] + parts, sep) == p + sep + Join(parts, sep)
  {
    assert ([p] + parts)[1..] == parts;
  }

  /** Adding a last piece adds the separator and that piece at the end. */
  lemma {:induction false} JoinSnoc(parts: seq<string>, last: string, sep: string)
    requires |parts| >= 1
    ensures Join(parts + [last], sep) == Join(parts, sep) + sep + last
    decreases |parts|
  {
    if |parts| == 1 {
      assert (parts + [last])[1..] == [last];
    } else {
      JoinSnoc(parts[1..], last, sep);
      assert (parts + [last])[1..] == parts[1..] + [last];
    }
  }

  /** Splitting and joining again gives back the string. */
  lemma {:induction false} JoinSplit(s: string, c: char)
    ensures Join(Split(s, c), [c]) == s
    decreases |s|
  {
    if |s| > 0 {
      var rest := Split(s[1..], c);
      JoinSplit(s[1..], c);
      if s[0] == c {
        JoinCons("", rest, [c]);
      } else if |rest| == 1 {
        assert s == [s[0]] + s[1..];
      } else {
        JoinCons(rest[0], rest[1..], [c]);
        JoinCons([s[0]] + rest[0], rest[1..], [c]);
        assert [[s[0]] + rest[0]] + rest[1..] == [[s[0]] + rest[0]] + rest[1..];
        assert s == [s[0]] + s[1..];
      }
    }
  }

  /** Joining pieces that do not contain the separator and splitting again
      gives back the pieces. */
  lemma {:induction false} SplitJoin(parts: seq<string>, c: char)
    requires |parts| >= 1
    requires forall i :: 0 <= i < |parts| ==> c !in parts[i]
    ensures Split(Join(parts, [c]), c) == parts
    decreases |parts|, |parts[0]|
  {
    if |parts[0]| > 0 {
      var p := parts[0];
      var tailParts := [p[1..]] + parts[1..];
      SplitJoin(tailParts, c);
      var s := Join(parts, [c]);
      if |parts| == 1 {
        assert s[1..] == p[1..];
      } else {
        JoinCons(p[1..], parts[1..], [c]);
        assert s == p + [c] + Join(parts[1..], [c]);
        assert s[1..] == Join(tailParts, [c]);
      }
      assert s[0] == p[0];
      assert p == [p[0]] + p[1..];
    } else if |parts| > 1 {
      SplitJoin(parts[1..], c);
      var s := Join(parts, [c]);
      assert s[1..] == Join(parts[1..], [c]);
      assert [""] + parts[1..] == parts;
    }
  }

  /** `s.endswith(suffix)`. */
  predicate EndsWith(s: string, suffix: string)
  {
    |suffix| <= |s| && s[|s| - |suffix|..] == suffix
  }

  /** `s.startswith(prefix)`. */
  predicate StartsWith(s: string, prefix: string)
  {
    |prefix| <= |s| && s[..|prefix|] == prefix
  }

  /** `c.lower()` for the ASCII letters; other characters are unchanged. */
  function LowerChar(c: char): char
  {
    if 'A' <= c <= 'Z' then (c as int + 32) as char else c
  }

  /** `s.lower()`, character by character. */
  function Lower(s: string): string
  {
    seq(|s|, i requires 0 <= i < |s| => LowerChar(s[i]))
  }

  /** `x` occurs in `s` at index `j`. */
  predicate OccursAt(s: string, x: string, j: int)
  {
    0 <= j && j + |x| <= |s| && s[j..j + |x|] == x
  }

  /** `x` occurs in `s` at index `q` and nowhere else. */
  ghost predicate OccursOnlyAt(s: string, x: string, q: int)
  {
    OccursAt(s, x, q) && forall j :: OccursAt(s, x, j) ==> j == q
  }

  /** `''.join(parts)`: the text of a file written with `writelines`. */
  function Concat(parts: seq<string>): string
  {
    if |parts| == 0 then "" else parts[0] + Concat(parts[1..])
  }

  /** `s.replace(x, y)`: every occurrence of `x`, found left to right without
      overlap, is replaced by `y`. An empty `x` inserts `y` before every
      character and at the end, as Python does. */
  function ReplaceAll(s: string, x: string, y: string): string
    decreases |s|
  {
    if |x| == 0 then
      if |s| == 0 then y else y + [s[0]] + ReplaceAll(s[1..], x, y)
    else if |s| < |x| then s
    else if s[..|x|] == x then y + ReplaceAll(s[|x|..], x, y)
    else [s[0]] + ReplaceAll(s[1..], x, y)
  }

  /** Dropping the first character shifts every occurrence one place left. */
  lemma OccursShift(s: string, x: string, j: int)
    requires |s| > 0 && 0 <= j
    ensures OccursAt(s[1..], x, j) <==> OccursAt(s, x, j + 1)
  {
    if 0 <= j && j + |x| <= |s| - 1 {
      assert s[1..][j..j + |x|] == s[j + 1..j + 1 + |x|];
    }
  }

  /** Text in which `x` does not occur is left as it is. */
  lemma {:induction false} ReplaceAbsent(s: string, x: string, y: string)
    requires |x| > 0
    requires forall j :: !OccursAt(s, x, j)
    ensures ReplaceAll(s, x, y) == s
    decreases |s|
  {
    if |s| >= |x| {
      assert !OccursAt(s, x, 0);
      forall j | 0 <= j ensures !OccursAt(s[1..], x, j) {
        OccursShift(s, x, j);
      }
      ReplaceAbsent(s[1..], x, y);
      assert s == [s[0]] + s[1..];
    }
  }

  /** Where no occurrence starts, the first character is copied. */
  lemma ReplaceStep(s: string, x: string, y: string)
    requires |x| > 0 && |s| > 0 && !OccursAt(s, x, 0)
    ensures ReplaceAll(s, x, y) == [s[0]] + ReplaceAll(s[1..], x, y)
  {
    if |s| < |x| {
      assert s == [s[0]] + s[1..];
    } else {
      assert s[..|x|] != x;
    }
  }

  /** One step of `ReplaceSkipsPrefix`: a first character where no
      occurrence starts, followed by `n - 1` copied characters. */
  lemma ReplaceSkipsOne(s: string, n: nat, x: string, y: string)
    requires |x| > 0 && 0 < n <= |s| && !OccursAt(s, x, 0)
    requires ReplaceAll(s[1..], x, y) == s[1..n] + ReplaceAll(s[n..], x, y)
    ensures ReplaceAll(s, x, y) == s[..n] + ReplaceAll(s[n..], x, y)
  {
    ReplaceStep(s, x, y);
    assert s[..n] == [s[0]] + s[1..n];
    ConcatAssoc([s[0]], s[1..n], ReplaceAll(s[n..], x, y));
  }

  lemma ConcatAssoc<T>(a: seq<T>, b: seq<T>, c: seq<T>)
    ensures a + (b + c) == a + b + c
  {
  }

  /** The first `n` characters of `s`, where no occurrence of `x` starts, are
      copied unchanged. */
  lemma {:induction false} ReplaceSkipsPrefix(s: string, n: nat, x: string, y: string)
    requires |x| > 0 && n <= |s|
    requires forall j :: 0 <= j < n ==> !OccursAt(s, x, j)
    ensures ReplaceAll(s, x, y) == s[..n] + ReplaceAll(s[n..], x, y)
    decreases n
  {
    if n > 0 {
      var t := s[1..];
      forall j | 0 <= j < n - 1 ensures !OccursAt(t, x, j) {
        OccursShift(s, x, j);
      }
      ReplaceSkipsPrefix(t, n - 1, x, y);
      assert t[n - 1..] == s[n..] && t[..n - 1] == s[1..n];
      ReplaceSkipsOne(s, n, x, y);
    } else {
      assert s[..0] + s[0..] == s;
    }
  }

  /** A string that starts with `x` has that occurrence replaced. */
  lemma ReplaceAtStart(x: string, t: string, y: string)
    requires |x| > 0
    ensures ReplaceAll(x + t, x, y) == y + ReplaceAll(t, x, y)
  {
    assert (x + t)[..|x|] == x;
    assert (x + t)[|x|..] == t;
  }

  /** An occurrence in a suffix is an occurrence in the whole text. */
  lemma OccursInSuffix(s: string, x: string, m: nat, j: int)
    requires m <= |s| && OccursAt(s[m..], x, j)
    ensures OccursAt(s, x, m + j)
  {
    assert s[m..][j..j + |x|] == s[m + j..m + j + |x|];
  }

  /** When `x` occurs exactly once in `s`, at `q`, replacing it splices `y`
      into that one place and keeps everything around it. */
  lemma ReplaceSingle(s: string, x: string, y: string, q: nat)
    requires |x| > 0
    requires OccursAt(s, x, q)
    requires forall j :: OccursAt(s, x, j) ==> j == q
    ensures ReplaceAll(s, x, y) == s[..q] + y + s[q + |x|..]
  {
    var m := q + |x|;
    var suf := s[m..];
    forall j | 0 <= j ensures !OccursAt(suf, x, j) {
      if OccursAt(suf, x, j) {
        OccursInSuffix(s, x, m, j);
      }
    }
    ReplaceOnlyAtStart(x, suf, y);
    assert s[q..] == x + suf;
    ReplaceSkipsPrefix(s, q, x, y);
    ConcatAssoc(s[..q], y, suf);
  }

  /** `x` followed by text in which it does not occur: only the leading
      occurrence is replaced. */
  lemma ReplaceOnlyAtStart(x: string, t: string, y: string)
    requires |x| > 0
    requires forall j :: !OccursAt(t, x, j)
    ensures ReplaceAll(x + t, x, y) == y + t
  {
    ReplaceAtStart(x, t, y);
    ReplaceAbsent(t, x, y);
  }

  /** `x` does not occur where the text differs from its first character. */
  lemma MismatchAt(s: string, x: string, j: nat)
    requires |x| > 0 && j < |s| && s[j] != x[0]
    ensures !OccursAt(s, x, j)
  {
    if j + |x| <= |s| {
      assert s[j..j + |x|][0] == s[j];
    }
  }

  /** A character that is in neither the separator nor any piece is not in
      their join. */
  lemma {:induction false} JoinAvoids(parts: seq<string>, sep: string, c: char)
    requires c !in sep
    requires forall i :: 0 <= i < |parts| ==> c !in parts[i]
    ensures c !in Join(parts, sep)
    decreases |parts|
  {
    if |parts| >= 2 {
      JoinAvoids(parts[1..], sep, c);
    }
  }

  /** Text free of the first character of `x`, followed by `x`: the
      occurrence at the end of the free part is the first one replaced. */
  lemma ReplaceAfterFree(a: string, x: string, t: string, y: string)
    requires |x| > 0 && x[0] !in a
    ensures ReplaceAll(a + (x + t), x, y) == a + y + ReplaceAll(t, x, y)
  {
    var s := a + (x + t);
    forall j | 0 <= j < |a| ensures !OccursAt(s, x, j) {
      assert s[j] == a[j];
      MismatchAt(s, x, j);
    }
    ReplaceSkipsPrefix(s, |a|, x, y);
    assert s[..|a|] == a;
    assert s[|a|..] == x + t;
    ReplaceAtStart(x, t, y);
  }

  /** In a join of pieces that do not contain the first character of `x`,
      and with a separator `p + x` where `p` does not contain it either,
      every occurrence of `x` is the tail of a separator, so replacing `x`
      by `y` replaces every separator `p + x` by `p + y`. */
  lemma {:induction false} ReplaceInJoin(pieces: seq<string>, p: string, x: string, y: string)
    requires |pieces| >= 1 && |x| > 0
    requires forall i :: 0 <= i < |pieces| ==> x[0] !in pieces[i]
    requires x[0] !in p
    ensures ReplaceAll(Join(pieces, p + x), x, y) == Join(pieces, p + y)
    decreases |pieces|
  {
    var p0 := pieces[0];
    if |pieces| == 1 {
      forall j ensures !OccursAt(p0, x, j) {
        if 0 <= j < |p0| {
          MismatchAt(p0, x, j);
        }
      }
      ReplaceAbsent(p0, x, y);
    } else {
      var rest := pieces[1..];
      var tail := Join(rest, p + x);
      JoinCons(p0, rest, p + x);
      assert pieces == [p0] + rest;
      assert Join(pieces, p + x) == (p0 + p) + (x + tail);
      ReplaceAfterFree(p0 + p, x, tail, y);
      ReplaceInJoin(rest, p, x, y);
      JoinCons(p0, rest, p + y);
    }
  }
}
