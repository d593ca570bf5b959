/** Finding image references in markdown: the pattern `!\[.*?\]\((.*?)\)`
    as Python's `re.finditer` applies it to one line, and the collection of
    `(joined path, matched text, line index)` records over a whole document
    done by `extract_images_from_markdown`. */
module MarkdownScan {
  import opened Base
  import opened Paths
  import Text

  /** One match of the pattern in a line: the whole match is
      `line[start..end]` and its group 1, the image path, is
      `line[pathStart..end - 1]`. */
  datatype Span = Span(start: nat, pathStart: nat, end: nat)

  /** No newline in `s[lo..hi]`. */
  predicate NoNewline(s: string, lo: int, hi: int)
    requires 0 <= lo && hi <= |s|
  {
    forall c :: lo <= c < hi ==> s[c] != '\n'
  }

  /** The pattern matches at `i` with its "](" at `k` and its closing ")" at
      `m`; `.` does not match a newline, so none may occur in between. */
  ghost predicate PatternAt(s: string, i: int, k: int, m: int)
  {
    && 0 <= i && i + 1 < |s| && s[i] == '!' && s[i + 1] == '['
    && i + 2 <= k && LinkOpenAt(s, k)
    && k + 2 <= m && m < |s| && s[m] == ')'
    && NoNewline(s, i, m + 1)
  }

  /** "](" occurs at `k`. */
  predicate LinkOpenAt(s: string, k: int)
  {
    0 <= k && k + 1 < |s| && s[k] == ']' && s[k + 1] == '('
  }

  /** The first "](" at or after `j`, unless a newline comes first. */
  function FindLinkOpen(s: string, j: nat): (r: Option<nat>)
    ensures r.Some? ==> j <= r.value && LinkOpenAt(s, r.value)
    decreases |s| - j
  {
    if j >= |s| || s[j] == '\n' then None
    else if LinkOpenAt(s, j) then Some(j)
    else FindLinkOpen(s, j + 1)
  }

  /** The first ")" at or after `j`, unless a newline comes first. */
  function FindClose(s: string, j: nat): (r: Option<nat>)
    ensures r.Some? ==> j <= r.value < |s| && s[r.value] == ')'
    decreases |s| - j
  {
    if j >= |s| || s[j] == '\n' then None
    else if s[j] == ')' then Some(j)
    else FindClose(s, j + 1)
  }

  /** Before the "](" found from `j` there is neither a newline nor an
      earlier "](". */
  lemma {:induction false} LinkOpenFirst(s: string, j: nat, p: nat)
    requires FindLinkOpen(s, j).Some? && j <= p < FindLinkOpen(s, j).value
    ensures s[p] != '\n' && !LinkOpenAt(s, p)
    decreases p - j
  {
    assert FindLinkOpen(s, j) == FindLinkOpen(s, j + 1);
    if j < p {
      LinkOpenFirst(s, j + 1, p);
    }
  }

  /** Before the ")" found from `j` there is neither a newline nor an
      earlier ")". */
  lemma {:induction false} CloseFirst(s: string, j: nat, w: nat)
    requires FindClose(s, j).Some? && j <= w < FindClose(s, j).value
    ensures s[w] != '\n' && s[w] != ')'
    decreases w - j
  {
    assert FindClose(s, j) == FindClose(s, j + 1);
    if j < w {
      CloseFirst(s, j + 1, w);
    }
  }

  /** When no "](" is found from `j`, a newline comes before every "](". */
  lemma {:induction false} LinkOpenNotFound(s: string, j: nat, k: nat)
    requires FindLinkOpen(s, j).None? && j <= k && LinkOpenAt(s, k)
    ensures exists u :: j <= u < k && s[u] == '\n'
    decreases k - j
  {
    if s[j] != '\n' {
      assert !LinkOpenAt(s, j) && FindLinkOpen(s, j) == FindLinkOpen(s, j + 1);
      LinkOpenNotFound(s, j + 1, k);
    }
  }

  /** When no ")" is found from `j`, a newline comes before every ")". */
  lemma {:induction false} CloseNotFound(s: string, j: nat, m: nat)
    requires FindClose(s, j).None? && j <= m < |s| && s[m] == ')'
    ensures exists v :: j <= v < m && s[v] == '\n'
    decreases m - j
  {
    if s[j] != '\n' {
      assert s[j] != ')' && FindClose(s, j) == FindClose(s, j + 1);
      CloseNotFound(s, j + 1, m);
    }
  }

  /** The match the pattern makes when tried at `i`, if any: "![" at `i`,
      then the first "](" after it, then the first ")" after that, with no
      newline on the way. */
  function MatchAt(s: string, i: nat): (r: Option<Span>)
    ensures r.Some? ==> r.value.start == i && ValidSpan(s, r.value)
  {
    if !(i + 1 < |s| && s[i] == '!' && s[i + 1] == '[') then None
    else
      var open := FindLinkOpen(s, i + 2);
      if open.None? then None
      else
        var close := FindClose(s, open.value + 2);
        if close.None? then None
        else Some(Span(i, open.value + 2, close.value + 1))
  }

  /** `MatchAt` is what the pattern does: both `.*?` are lazy, so among all
      ways of matching at `i` the match is the one whose "](" comes first
      and, for that, whose ")" comes first; and there is none when there is
      no way of matching at all. */
  lemma MatchAtIsLeftmostLazy(s: string, i: nat)
    ensures MatchAt(s, i).Some? ==>
      PatternAt(s, i, MatchAt(s, i).value.pathStart - 2, MatchAt(s, i).value.end - 1)
    ensures MatchAt(s, i).Some? ==> forall k, m :: PatternAt(s, i, k, m) ==>
      MatchAt(s, i).value.pathStart - 2 < k ||
      (k == MatchAt(s, i).value.pathStart - 2 && MatchAt(s, i).value.end - 1 <= m)
    ensures MatchAt(s, i).None? ==> forall k, m :: !PatternAt(s, i, k, m)
  {
    if i + 1 < |s| && s[i] == '!' && s[i + 1] == '[' {
      var open := FindLinkOpen(s, i + 2);
      if open.None? {
        forall k, m ensures !PatternAt(s, i, k, m) {
          if PatternAt(s, i, k, m) {
            LinkOpenNotFound(s, i + 2, k);
          }
        }
      } else {
        var o := open.value;
        var close := FindClose(s, o + 2);
        forall k, m | PatternAt(s, i, k, m) ensures o <= k {
          if k < o {
            LinkOpenFirst(s, i + 2, k);
          }
        }
        if close.None? {
          forall k, m ensures !PatternAt(s, i, k, m) {
            if PatternAt(s, i, k, m) {
              CloseNotFound(s, o + 2, m);
            }
          }
        } else {
          var c := close.value;
          assert NoNewline(s, i, c + 1) by {
            forall t | i <= t < c + 1 ensures s[t] != '\n' {
              if i + 2 <= t < o {
                LinkOpenFirst(s, i + 2, t);
              } else if o + 2 <= t < c {
                CloseFirst(s, o + 2, t);
              }
            }
          }
          forall k, m | PatternAt(s, i, k, m) && k == o ensures c <= m {
            if m < c {
              CloseFirst(s, o + 2, m);
            }
          }
        }
      }
    }
  }

  /** A match's text: `match.group(0)`. */
  function MatchText(s: string, sp: Span): string
    requires sp.start <= sp.end <= |s|
  {
    s[sp.start..sp.end]
  }

  /** A match's image path: `match.group(1)`. */
  function Capture(s: string, sp: Span): string
    requires sp.pathStart <= sp.end - 1 && sp.end <= |s|
  {
    s[sp.pathStart..sp.end - 1]
  }

  /** A span the pattern produced on `s`. */
  predicate ValidSpan(s: string, sp: Span)
  {
    && sp.start + 4 <= sp.pathStart && sp.pathStart <= sp.end - 1 && sp.end <= |s|
    && s[sp.start] == '!' && s[sp.start + 1] == '[' && s[sp.end - 1] == ')'
  }

  /** The matches `re.finditer` yields from index `i` on: try the pattern at
      each index; after a match, go on at its end. Each is the match the
      pattern makes at its own start. */
  function ScanFrom(s: string, i: nat): (r: seq<Span>)
    ensures forall k :: 0 <= k < |r| ==> i <= r[k].start
    ensures forall k :: 0 <= k < |r| ==> ValidSpan(s, r[k])
    decreases |s| - i
  {
    if i >= |s| then []
    else if MatchAt(s, i).None? then ScanFrom(s, i + 1)
    else
      var sp := MatchAt(s, i).value;
      [sp] + ScanFrom(s, sp.end)
  }

  /** Each span ends before the next one starts. */
  predicate Ordered(r: seq<Span>)
  {
    forall k :: 0 <= k < |r| - 1 ==> r[k].end <= r[k + 1].start
  }

  /** The matches come left to right and do not overlap. */
  lemma {:induction false} ScanOrdered(s: string, i: nat)
    ensures Ordered(ScanFrom(s, i))
    decreases |s| - i
  {
    if i < |s| {
      if MatchAt(s, i).None? {
        assert ScanFrom(s, i) == ScanFrom(s, i + 1);
        ScanOrdered(s, i + 1);
      } else {
        var sp := MatchAt(s, i).value;
        ScanOrdered(s, sp.end);
        var rest := ScanFrom(s, sp.end);
        var r := [sp] + rest;
        assert ScanFrom(s, i) == r;
        forall k | 0 <= k < |r| - 1 ensures r[k].end <= r[k + 1].start {
          if k == 0 {
            assert r[0] == sp && r[1] == rest[0];
            assert sp.end <= rest[0].start;
          } else {
            assert r[k] == rest[k - 1] && r[k + 1] == rest[k];
          }
        }
      }
    }
  }

  /** Every span found from `i` on is the match the pattern makes at the
      span's own start. */
  lemma {:induction false} ScanMatchesAt(s: string, i: nat, k: nat)
    requires k < |ScanFrom(s, i)|
    ensures MatchAt(s, ScanFrom(s, i)[k].start) == Some(ScanFrom(s, i)[k])
    decreases |s| - i
  {
    if MatchAt(s, i).None? {
      assert ScanFrom(s, i) == ScanFrom(s, i + 1);
      ScanMatchesAt(s, i + 1, k);
    } else {
      var sp := MatchAt(s, i).value;
      var rest := ScanFrom(s, sp.end);
      assert ScanFrom(s, i) == [sp] + rest;
      if k > 0 {
        ScanMatchesAt(s, sp.end, k - 1);
        assert ScanFrom(s, i)[k] == rest[k - 1];
      }
    }
  }

  /** Index `j` lies inside one of the spans. */
  predicate Covered(r: seq<Span>, j: int)
  {
    exists k :: 0 <= k < |r| && r[k].start <= j < r[k].end
  }

  /** Nothing is skipped: every index from `i` on at which the pattern could
      match lies inside one of the matches found, so the matches found are
      the leftmost ones. */
  lemma {:induction false} ScanCovers(s: string, i: nat, j: nat)
    requires i <= j < |s| && MatchAt(s, j).Some?
    ensures Covered(ScanFrom(s, i), j)
    decreases |s| - i
  {
    var r := ScanFrom(s, i);
    if MatchAt(s, i).None? {
      assert r == ScanFrom(s, i + 1);
      ScanCovers(s, i + 1, j);
    } else {
      var sp := MatchAt(s, i).value;
      var rest := ScanFrom(s, sp.end);
      assert r == [sp] + rest;
      if j < sp.end {
        assert r[0] == sp && sp.start == i;
        assert r[0].start <= j < r[0].end;
      } else {
        ScanCovers(s, sp.end, j);
        var k :| 0 <= k < |rest| && rest[k].start <= j < rest[k].end;
        assert r[k + 1] == rest[k];
      }
    }
  }

  /** `re.finditer(pattern, line)`. */
  function Scan(s: string): seq<Span>
  {
    ScanFrom(s, 0)
  }

  /** What `extract_images_from_markdown` records for one match. */
  datatype ImageRef = ImageRef(path: Path, text: string, line: nat)

  /** The record for match `sp` on line `ln`: the path joined to the
      document's directory, the literal match, the line index. */
  function RefOf(dir: Path, s: string, sp: Span, ln: nat): ImageRef
    requires ValidSpan(s, sp)
  {
    ImageRef(Join(dir, FromString(Capture(s, sp))), MatchText(s, sp), ln)
  }

  /** The records of one line: those of its matches whose joined path
      exists, in the order of the matches. */
  function LineRefs(dir: Path, s: string, ln: nat, spans: seq<Span>, onDisk: Path -> bool): (r: seq<ImageRef>)
    requires forall k :: 0 <= k < |spans| ==> ValidSpan(s, spans[k])
    ensures |r| <= |spans|
    ensures forall q :: 0 <= q < |r| ==> r[q].line == ln && onDisk(r[q].path)
    decreases |spans|
  {
    if spans == [] then []
    else
      var prev := LineRefs(dir, s, ln, spans[..|spans| - 1], onDisk);
      var ref := RefOf(dir, s, spans[|spans| - 1], ln);
      if onDisk(ref.path) then prev + [ref] else prev
  }

  /** Every match of a line whose joined path exists is recorded. */
  lemma {:induction false} LineRefsComplete(dir: Path, s: string, ln: nat, spans: seq<Span>, onDisk: Path -> bool, k: nat)
    requires forall k :: 0 <= k < |spans| ==> ValidSpan(s, spans[k])
    requires k < |spans| && onDisk(RefOf(dir, s, spans[k], ln).path)
    ensures RefOf(dir, s, spans[k], ln) in LineRefs(dir, s, ln, spans, onDisk)
    decreases |spans|
  {
    var n := |spans| - 1;
    var prev := LineRefs(dir, s, ln, spans[..n], onDisk);
    var ref := RefOf(dir, s, spans[n], ln);
    assert LineRefs(dir, s, ln, spans, onDisk) == if onDisk(ref.path) then prev + [ref] else prev;
    if k < n {
      assert spans[..n][k] == spans[k];
      LineRefsComplete(dir, s, ln, spans[..n], onDisk, k);
    }
  }

  /** Every record of a line is the record of one of its matches. */
  lemma {:induction false} LineRefsFromSpans(dir: Path, s: string, ln: nat, spans: seq<Span>, onDisk: Path -> bool, q: nat)
    requires forall k :: 0 <= k < |spans| ==> ValidSpan(s, spans[k])
    requires q < |LineRefs(dir, s, ln, spans, onDisk)|
    ensures exists k :: 0 <= k < |spans| && LineRefs(dir, s, ln, spans, onDisk)[q] == RefOf(dir, s, spans[k], ln)
    decreases |spans|
  {
    var n := |spans| - 1;
    var prev := LineRefs(dir, s, ln, spans[..n], onDisk);
    if q < |prev| {
      LineRefsFromSpans(dir, s, ln, spans[..n], onDisk, q);
      var k :| 0 <= k < n && prev[q] == RefOf(dir, s, spans[..n][k], ln);
      assert spans[..n][k] == spans[k];
    } else {
      assert LineRefs(dir, s, ln, spans, onDisk)[q] == RefOf(dir, s, spans[n], ln);
    }
  }

  /** Two records of a line come from two matches in the same order. */
  lemma {:induction false} LineRefsOrder(dir: Path, s: string, ln: nat, spans: seq<Span>, onDisk: Path -> bool, q: nat, q': nat)
    requires forall k :: 0 <= k < |spans| ==> ValidSpan(s, spans[k])
    requires q < q' < |LineRefs(dir, s, ln, spans, onDisk)|
    ensures var r := LineRefs(dir, s, ln, spans, onDisk);
      exists k, k' :: 0 <= k < k' < |spans| && r[q] == RefOf(dir, s, spans[k], ln) && r[q'] == RefOf(dir, s, spans[k'], ln)
    decreases |spans|
  {
    var n := |spans| - 1;
    var prev := LineRefs(dir, s, ln, spans[..n], onDisk);
    var r := LineRefs(dir, s, ln, spans, onDisk);
    LineRefsInit(dir, s, ln, spans, onDisk);
    if q' < |prev| {
      LineRefsOrder(dir, s, ln, spans[..n], onDisk, q, q');
      var k, k' :| 0 <= k < k' < n && prev[q] == RefOf(dir, s, spans[..n][k], ln) && prev[q'] == RefOf(dir, s, spans[..n][k'], ln);
      assert spans[..n][k] == spans[k] && spans[..n][k'] == spans[k'];
    } else {
      LineRefsFromSpans(dir, s, ln, spans[..n], onDisk, q);
      var k :| 0 <= k < n && prev[q] == RefOf(dir, s, spans[..n][k], ln);
      assert spans[..n][k] == spans[k];
    }
  }

  /** The records of a line begin with those of all its matches but the
      last, followed at most by the last one's. */
  lemma LineRefsInit(dir: Path, s: string, ln: nat, spans: seq<Span>, onDisk: Path -> bool)
    requires forall k :: 0 <= k < |spans| ==> ValidSpan(s, spans[k])
    requires |spans| > 0
    ensures var n := |spans| - 1;
      var prev := LineRefs(dir, s, ln, spans[..n], onDisk);
      var r := LineRefs(dir, s, ln, spans, onDisk);
      && (forall q :: 0 <= q < |prev| ==> r[q] == prev[q])
      && |prev| <= |r| <= |prev| + 1
      && (|r| > |prev| ==> r[|prev|] == RefOf(dir, s, spans[n], ln))
  {
  }

  /** In ordered spans, an earlier span ends before a later one starts. */
  lemma {:induction false} OrderedApart(s: string, r: seq<Span>, k: nat, k': nat)
    requires Ordered(r) && forall k :: 0 <= k < |r| ==> ValidSpan(s, r[k])
    requires k < k' < |r|
    ensures r[k].end <= r[k'].start
    decreases k' - k
  {
    if k + 1 < k' {
      OrderedApart(s, r, k + 1, k');
    }
  }

  /** The records of a line come left to right: two records come from two
      matches of the line in the same order, the earlier ending before the
      later starts. */
  lemma LineRefsLeftToRight(dir: Path, s: string, ln: nat, onDisk: Path -> bool, q: nat, q': nat)
    requires q < q' < |LineRefs(dir, s, ln, Scan(s), onDisk)|
    ensures var r := LineRefs(dir, s, ln, Scan(s), onDisk);
      exists k, k' :: 0 <= k < k' < |Scan(s)| && r[q] == RefOf(dir, s, Scan(s)[k], ln) && r[q'] == RefOf(dir, s, Scan(s)[k'], ln)
        && Scan(s)[k].end <= Scan(s)[k'].start
  {
    var r := LineRefs(dir, s, ln, Scan(s), onDisk);
    LineRefsOrder(dir, s, ln, Scan(s), onDisk, q, q');
    var k, k' :| 0 <= k < k' < |Scan(s)| && r[q] == RefOf(dir, s, Scan(s)[k], ln) && r[q'] == RefOf(dir, s, Scan(s)[k'], ln);
    ScanOrdered(s, 0);
    OrderedApart(s, Scan(s), k, k');
  }

  /** The records of a whole document, line by line. */
  function ExtractLines(dir: Path, lines: seq<string>, onDisk: Path -> bool): (r: seq<ImageRef>)
    ensures forall q :: 0 <= q < |r| ==> r[q].line < |lines| && onDisk(r[q].path)
    decreases |lines|
  {
    if lines == [] then []
    else
      var n := |lines| - 1;
      ExtractLines(dir, lines[..n], onDisk) + LineRefs(dir, lines[n], n, Scan(lines[n]), onDisk)
  }

  /** The records come in the order of their lines. */
  lemma {:induction false} ExtractLinesSorted(dir: Path, lines: seq<string>, onDisk: Path -> bool, q: nat, q': nat)
    requires q < q' < |ExtractLines(dir, lines, onDisk)|
    ensures ExtractLines(dir, lines, onDisk)[q].line <= ExtractLines(dir, lines, onDisk)[q'].line
    decreases |lines|
  {
    var n := |lines| - 1;
    var prev := ExtractLines(dir, lines[..n], onDisk);
    var here := LineRefs(dir, lines[n], n, Scan(lines[n]), onDisk);
    assert ExtractLines(dir, lines, onDisk) == prev + here;
    if q' < |prev| {
      ExtractLinesSorted(dir, lines[..n], onDisk, q, q');
    } else if q < |prev| {
      assert prev[q].line < n;
      assert here[q' - |prev|].line == n;
    } else {
      assert here[q - |prev|].line == n && here[q' - |prev|].line == n;
    }
  }

  /** `ref` is the record of one of the matches on line `ln`, whose text is
      `s`. */
  ghost predicate MatchedOn(dir: Path, s: string, ln: nat, ref: ImageRef)
  {
    exists k :: 0 <= k < |Scan(s)| && ref == RefOf(dir, s, Scan(s)[k], ln)
  }

  /** Every record comes from a match on the line it names. */
  lemma {:induction false} ExtractedFromScan(dir: Path, lines: seq<string>, onDisk: Path -> bool, q: nat)
    requires q < |ExtractLines(dir, lines, onDisk)|
    ensures var r := ExtractLines(dir, lines, onDisk)[q];
      r.line < |lines| && MatchedOn(dir, lines[r.line], r.line, r)
    decreases |lines|
  {
    var n := |lines| - 1;
    var prev := ExtractLines(dir, lines[..n], onDisk);
    var here := LineRefs(dir, lines[n], n, Scan(lines[n]), onDisk);
    assert ExtractLines(dir, lines, onDisk) == prev + here;
    if q < |prev| {
      ExtractedFromScan(dir, lines[..n], onDisk, q);
      assert lines[..n][prev[q].line] == lines[prev[q].line];
    } else {
      LineRefsFromSpans(dir, lines[n], n, Scan(lines[n]), onDisk, q - |prev|);
    }
  }

  /** `extract_images_from_markdown` over the document's lines, for the
      document at `markdownPath`. */
  function ExtractImages(markdownPath: Path, lines: seq<string>, onDisk: Path -> bool): seq<ImageRef>
  {
    ExtractLines(Dirname(markdownPath), lines, onDisk)
  }

  /** The text of a match starts with "![", ends with ")" and occurs in the
      line at the match's start. */
  lemma MatchTextShape(s: string, sp: Span)
    requires ValidSpan(s, sp)
    ensures var text := MatchText(s, sp);
      |text| >= 5 && text[0] == '!' && text[1] == '[' && text[|text| - 1] == ')' && Text.OccursAt(s, text, sp.start)
  {
  }

  /** A recorded match is a substring of its line that starts with "![" and
      ends with ")", and its path exists. */
  lemma RecordedRefShape(markdownPath: Path, lines: seq<string>, onDisk: Path -> bool, q: nat)
    requires q < |ExtractImages(markdownPath, lines, onDisk)|
    ensures var r := ExtractImages(markdownPath, lines, onDisk)[q];
      && r.line < |lines|
      && onDisk(r.path)
      && |r.text| >= 5 && r.text[0] == '!' && r.text[1] == '[' && r.text[|r.text| - 1] == ')'
      && exists j :: Text.OccursAt(lines[r.line], r.text, j)
  {
    var dir := Dirname(markdownPath);
    var r := ExtractImages(markdownPath, lines, onDisk)[q];
    ExtractedFromScan(dir, lines, onDisk, q);
    MatchedShape(dir, lines[r.line], r.line, r);
  }

  /** The record of a match of line `s` has the text of a link found in `s`. */
  lemma MatchedShape(dir: Path, s: string, ln: nat, r: ImageRef)
    requires MatchedOn(dir, s, ln, r)
    ensures |r.text| >= 5 && r.text[0] == '!' && r.text[1] == '[' && r.text[|r.text| - 1] == ')'
    ensures exists j :: Text.OccursAt(s, r.text, j)
  {
    var k :| 0 <= k < |Scan(s)| && r == RefOf(dir, s, Scan(s)[k], ln);
    var sp := Scan(s)[k];
    MatchTextShape(s, sp);
    assert Text.OccursAt(s, r.text, sp.start);
  }

  /** Every match whose joined path exists is recorded. */
  lemma ExistingMatchRecorded(markdownPath: Path, lines: seq<string>, onDisk: Path -> bool, ln: nat, k: nat)
    requires ln < |lines| && k < |Scan(lines[ln])|
    requires onDisk(RefOf(Dirname(markdownPath), lines[ln], Scan(lines[ln])[k], ln).path)
    ensures RefOf(Dirname(markdownPath), lines[ln], Scan(lines[ln])[k], ln) in ExtractImages(markdownPath, lines, onDisk)
  {
    ExistingMatchRecordedUpTo(Dirname(markdownPath), lines, onDisk, ln, k);
  }

  lemma {:induction false} ExistingMatchRecordedUpTo(dir: Path, lines: seq<string>, onDisk: Path -> bool, ln: nat, k: nat)
    requires ln < |lines| && k < |Scan(lines[ln])|
    requires onDisk(RefOf(dir, lines[ln], Scan(lines[ln])[k], ln).path)
    ensures RefOf(dir, lines[ln], Scan(lines[ln])[k], ln) in ExtractLines(dir, lines, onDisk)
    decreases |lines|
  {
    var n := |lines| - 1;
    var ref := RefOf(dir, lines[ln], Scan(lines[ln])[k], ln);
    var prev := ExtractLines(dir, lines[..n], onDisk);
    var here := LineRefs(dir, lines[n], n, Scan(lines[n]), onDisk);
    assert ExtractLines(dir, lines, onDisk) == prev + here;
    if ln < n {
      assert ref in prev by {
        assert lines[..n][ln] == lines[ln];
        ExistingMatchRecordedUpTo(dir, lines[..n], onDisk, ln, k);
      }
    } else {
      assert ln == n;
      LineRefsComplete(dir, lines[n], n, Scan(lines[n]), onDisk, k);
    }
  }

  // ---------------------------------------------------------------------
  // A link repeated on a line

  /** `x` is, by itself, one whole match of the pattern. */
  predicate WholeMatch(x: string)
  {
    MatchAt(x, 0).Some? && MatchAt(x, 0).value.end == |x|
  }

  /** Inside an occurrence of `x` at `i`, the search for "](" finds what it
      finds in `x` alone, shifted by `i`. */
  lemma {:induction false} FindLinkOpenIn(s: string, i: nat, x: string, j: nat)
    requires Text.OccursAt(s, x, i) && FindLinkOpen(x, j).Some?
    ensures FindLinkOpen(s, i + j) == Some(i + FindLinkOpen(x, j).value)
    decreases |x| - j
  {
    assert s[i..i + |x|][j] == s[i + j];
    if !LinkOpenAt(x, j) {
      assert FindLinkOpen(x, j) == FindLinkOpen(x, j + 1);
      assert s[i..i + |x|][j + 1] == s[i + j + 1];
      FindLinkOpenIn(s, i, x, j + 1);
    } else {
      assert s[i..i + |x|][j + 1] == s[i + j + 1];
    }
  }

  /** Inside an occurrence of `x` at `i`, the search for ")" finds what it
      finds in `x` alone, shifted by `i`. */
  lemma {:induction false} FindCloseIn(s: string, i: nat, x: string, j: nat)
    requires Text.OccursAt(s, x, i) && FindClose(x, j).Some?
    ensures FindClose(s, i + j) == Some(i + FindClose(x, j).value)
    decreases |x| - j
  {
    assert s[i..i + |x|][j] == s[i + j];
    if x[j] != ')' {
      FindCloseIn(s, i, x, j + 1);
    }
  }

  /** Where a whole match `x` occurs in a line, the pattern matches exactly
      that occurrence. */
  lemma MatchAtIn(s: string, i: nat, x: string)
    requires Text.OccursAt(s, x, i) && WholeMatch(x)
    ensures MatchAt(s, i) == Some(Span(i, i + MatchAt(x, 0).value.pathStart, i + |x|))
  {
    var o := FindLinkOpen(x, 2).value;
    assert s[i..i + |x|][0] == s[i] && s[i..i + |x|][1] == s[i + 1];
    FindLinkOpenIn(s, i, x, 2);
    FindCloseIn(s, i, x, o + 2);
  }

  /** Scanning over text without '!' finds nothing: every match starts
      with one. */
  lemma {:induction false} ScanFree(s: string, i: nat, j: nat)
    requires i <= j <= |s|
    requires forall c :: i <= c < j ==> s[c] != '!'
    ensures ScanFrom(s, i) == ScanFrom(s, j)
    decreases j - i
  {
    if i < j {
      assert MatchAt(s, i).None?;
      ScanFree(s, i + 1, j);
    }
  }

  /** Every span of `r` is a match of `s` with the text and the path of the
      whole match `x`. */
  predicate CopiesOf(s: string, r: seq<Span>, x: string)
  {
    && WholeMatch(x)
    && forall k :: 0 <= k < |r| ==>
         ValidSpan(s, r[k]) && MatchText(s, r[k]) == x && Capture(s, r[k]) == Capture(x, MatchAt(x, 0).value)
  }

  lemma CopiesAppend(s: string, a: seq<Span>, b: seq<Span>, x: string)
    requires CopiesOf(s, a, x) && CopiesOf(s, b, x)
    ensures CopiesOf(s, a + b, x)
  {
    forall k | |a| <= k < |a + b| ensures (a + b)[k] == b[k - |a|] { }
  }

  /** A piece without '!' at `t` is passed over. */
  lemma ScanPiece(s: string, t: nat, p: string)
    requires t + |p| <= |s| && s[t..t + |p|] == p && '!' !in p
    ensures ScanFrom(s, t) == ScanFrom(s, t + |p|)
  {
    forall c | t <= c < t + |p| ensures s[c] != '!' {
      assert s[c] == s[t..t + |p|][c - t];
    }
    ScanFree(s, t, t + |p|);
  }

  /** An occurrence of the whole match `x` at `i` is matched, and scanning
      goes on after it. */
  lemma ScanLink(s: string, i: nat, x: string)
    requires Text.OccursAt(s, x, i) && WholeMatch(x)
    ensures ScanFrom(s, i) == [Span(i, i + MatchAt(x, 0).value.pathStart, i + |x|)] + ScanFrom(s, i + |x|)
  {
    MatchAtIn(s, i, x);
    ScanAtMatch(s, i);
  }

  /** That match has the text and the path of `x`. */
  lemma LinkCopy(s: string, i: nat, x: string)
    requires Text.OccursAt(s, x, i) && WholeMatch(x)
    ensures CopiesOf(s, [Span(i, i + MatchAt(x, 0).value.pathStart, i + |x|)], x)
  {
    MatchAtIn(s, i, x);
    var ps := MatchAt(x, 0).value.pathStart;
    var sp := Span(i, i + ps, i + |x|);
    assert MatchText(s, sp) == x;
    SliceIn(s, i, x, ps, |x| - 1);
  }

  /** Scanning from a match takes it and goes on after it. */
  lemma ScanAtMatch(s: string, i: nat)
    requires MatchAt(s, i).Some?
    ensures ScanFrom(s, i) == [MatchAt(s, i).value] + ScanFrom(s, MatchAt(s, i).value.end)
  {
  }

  /** A slice of an occurrence of `x` is the same slice of `x`. */
  lemma SliceIn(s: string, i: nat, x: string, a: nat, b: nat)
    requires Text.OccursAt(s, x, i) && a <= b <= |x|
    ensures s[i + a..i + b] == x[a..b]
  {
    forall c | 0 <= c < b - a ensures s[i + a..i + b][c] == x[a..b][c] {
      assert s[i..i + |x|][a + c] == s[i + a + c];
    }
  }

  /** The first piece and the first link of a joined line. */
  lemma JoinHead(s: string, t: nat, pieces: seq<string>, x: string)
    requires |pieces| >= 2 && t <= |s| && s[t..] == Text.Join(pieces, x)
    ensures var i := t + |pieces[0]|;
      && i + |x| <= |s|
      && s[t..i] == pieces[0]
      && Text.OccursAt(s, x, i)
      && s[i + |x|..] == Text.Join(pieces[1..], x)
  {
    var u := s[t..];
    var p0 := pieces[0];
    var i := t + |p0|;
    assert u == p0 + x + Text.Join(pieces[1..], x);
    assert s[t..i] == u[..|p0|];
    assert s[i..i + |x|] == u[|p0|..|p0| + |x|];
    assert s[i + |x|..] == u[|p0| + |x|..];
  }

  /** No piece contains '!'. */
  predicate BangFree(pieces: seq<string>)
  {
    forall k :: 0 <= k < |pieces| ==> '!' !in pieces[k]
  }

  /** `s` from `t` on is `pieces`, free of '!', separated by `x`. */
  predicate JoinedAt(s: string, t: nat, pieces: seq<string>, x: string)
    decreases |pieces|
  {
    && |pieces| >= 1 && t + |pieces[0]| <= |s| && s[t..t + |pieces[0]|] == pieces[0] && '!' !in pieces[0]
    && if |pieces| == 1 then t + |pieces[0]| == |s|
       else Text.OccursAt(s, x, t + |pieces[0]|) && JoinedAt(s, t + |pieces[0]| + |x|, pieces[1..], x)
  }

  /** A joined suffix is laid out piece by piece. */
  lemma {:induction false} JoinedAtJoin(s: string, t: nat, pieces: seq<string>, x: string)
    requires |pieces| >= 1 && BangFree(pieces)
    requires t <= |s| && s[t..] == Text.Join(pieces, x)
    ensures JoinedAt(s, t, pieces, x)
    decreases |pieces|
  {
    if |pieces| == 1 {
      assert s[t..t + |pieces[0]|] == s[t..];
    } else {
      JoinHead(s, t, pieces, x);
      var tail := pieces[1..];
      assert BangFree(tail) by {
        forall k | 0 <= k < |tail| ensures '!' !in tail[k] {
          assert tail[k] == pieces[k + 1];
        }
      }
      JoinedAtJoin(s, t + |pieces[0]| + |x|, tail, x);
    }
  }

  /** Scanning from `t` yields `n` matches, all copies of `x`. */
  predicate ScanCopies(s: string, t: nat, n: nat, x: string)
  {
    |ScanFrom(s, t)| == n && CopiesOf(s, ScanFrom(s, t), x)
  }

  /** The first piece of a joined line, which ends at `i`, adds no match. */
  lemma PieceCopies(s: string, t: nat, i: nat, pieces: seq<string>, n: nat, x: string)
    requires JoinedAt(s, t, pieces, x) && i == t + |pieces[0]|
    requires ScanCopies(s, i, n, x)
    ensures ScanCopies(s, t, n, x)
  {
    ScanPiece(s, t, pieces[0]);
  }

  /** An occurrence of `x` from `i` to `j`, before `n` copies, adds one. */
  lemma LinkCopies(s: string, i: nat, j: nat, n: nat, x: string)
    requires Text.OccursAt(s, x, i) && WholeMatch(x) && j == i + |x|
    requires ScanCopies(s, j, n, x)
    ensures ScanCopies(s, i, n + 1, x)
  {
    LinkAt(s, i, n, x);
  }

  /** An occurrence of `x` at `i` before `n` copies adds one. */
  lemma LinkAt(s: string, i: nat, n: nat, x: string)
    requires Text.OccursAt(s, x, i) && WholeMatch(x)
    requires ScanCopies(s, i + |x|, n, x)
    ensures ScanCopies(s, i, n + 1, x)
  {
    ScanLink(s, i, x);
    LinkCopy(s, i, x);
    CopiesAppend(s, [Span(i, i + MatchAt(x, 0).value.pathStart, i + |x|)], ScanFrom(s, i + |x|), x);
  }

  /** The end of a joined line, at `i`, adds no match. */
  lemma EndCopies(s: string, t: nat, i: nat, pieces: seq<string>, x: string)
    requires WholeMatch(x) && JoinedAt(s, t, pieces, x) && |pieces| == 1 && i == t + |pieces[0]|
    ensures ScanCopies(s, i, 0, x)
  {
    assert i == |s|;
  }

  /** After the first piece, which ends at `i`, comes `x`, which ends at `j`,
      and the rest of the line is joined too. */
  lemma JoinedTail(s: string, t: nat, i: nat, j: nat, pieces: seq<string>, x: string)
    requires JoinedAt(s, t, pieces, x) && |pieces| >= 2 && i == t + |pieces[0]| && j == i + |x|
    ensures Text.OccursAt(s, x, i)
    ensures JoinedAt(s, j, pieces[1..], x)
  {
  }

  /** A line laid out as `pieces` separated by a whole match `x` has one
      match per occurrence of `x`, each with the text and the path of `x`. */
  lemma {:induction false} ScanJoin(s: string, t: nat, pieces: seq<string>, x: string)
    requires WholeMatch(x) && JoinedAt(s, t, pieces, x)
    ensures ScanCopies(s, t, |pieces| - 1, x)
    decreases |pieces|
  {
    var i := t + |pieces[0]|;
    if |pieces| == 1 {
      EndCopies(s, t, i, pieces, x);
    } else {
      var j := i + |x|;
      var rest := pieces[1..];
      JoinedTail(s, t, i, j, pieces, x);
      ScanJoin(s, j, rest, x);
      LinkCopies(s, i, j, |rest| - 1, x);
      assert |rest| - 1 + 1 == |pieces| - 1;
    }
    PieceCopies(s, t, i, pieces, |pieces| - 1, x);
  }

  /** On such a line every match gives the same record: that of `x`. */
  lemma ScanJoinRefs(dir: Path, s: string, ln: nat, pieces: seq<string>, x: string, k: nat)
    requires WholeMatch(x) && |pieces| >= 1 && BangFree(pieces)
    requires s == Text.Join(pieces, x)
    ensures |Scan(s)| == |pieces| - 1
    ensures k < |Scan(s)| ==> RefOf(dir, s, Scan(s)[k], ln) == RefOf(dir, x, MatchAt(x, 0).value, ln)
  {
    assert s[0..] == s;
    JoinedAtJoin(s, 0, pieces, x);
    ScanJoin(s, 0, pieces, x);
    if k < |Scan(s)| {
      assert MatchText(s, Scan(s)[k]) == MatchText(x, MatchAt(x, 0).value);
    }
  }

  /** When every match gives the same existing record, each is recorded. */
  lemma {:induction false} LineRefsSame(dir: Path, s: string, ln: nat, spans: seq<Span>, onDisk: Path -> bool, ref: ImageRef)
    requires forall k :: 0 <= k < |spans| ==> ValidSpan(s, spans[k])
    requires forall k :: 0 <= k < |spans| ==> RefOf(dir, s, spans[k], ln) == ref
    requires onDisk(ref.path)
    ensures |LineRefs(dir, s, ln, spans, onDisk)| == |spans|
    decreases |spans|
  {
    if spans != [] {
      var n := |spans| - 1;
      assert RefOf(dir, s, spans[n], ln) == ref;
      LineRefsSame(dir, s, ln, spans[..n], onDisk, ref);
    }
  }

  /** The records of one more line follow those of the lines before it. */
  lemma ExtractLinesStep(dir: Path, lines: seq<string>, onDisk: Path -> bool, ln: nat)
    requires ln < |lines|
    ensures ExtractLines(dir, lines[..ln + 1], onDisk) ==
      ExtractLines(dir, lines[..ln], onDisk) + LineRefs(dir, lines[ln], ln, Scan(lines[ln]), onDisk)
  {
    assert lines[..ln + 1][..ln] == lines[..ln];
  }

  /** One more match of a line adds its record when its path exists. */
  lemma LineRefsStep(dir: Path, s: string, ln: nat, spans: seq<Span>, onDisk: Path -> bool, j: nat)
    requires forall k :: 0 <= k < |spans| ==> ValidSpan(s, spans[k])
    requires j < |spans|
    ensures LineRefs(dir, s, ln, spans[..j + 1], onDisk) ==
      LineRefs(dir, s, ln, spans[..j], onDisk) + (if onDisk(RefOf(dir, s, spans[j], ln).path) then [RefOf(dir, s, spans[j], ln)] else [])
  {
    assert spans[..j + 1][..j] == spans[..j];
  }

  /** The inner loop of `extract_images_from_markdown`, over the matches
      `matches` of line `ln`: it appends the records of that line. */
  method ExtractLine(dir: Path, line: string, ln: nat, matches: seq<Span>, onDisk: Path -> bool, images: seq<ImageRef>)
    returns (images': seq<ImageRef>)
    requires forall k :: 0 <= k < |matches| ==> ValidSpan(line, matches[k])
    ensures images' == images + LineRefs(dir, line, ln, matches, onDisk)
  {
    images' := images;
    for j := 0 to |matches|
      invariant images' == images + LineRefs(dir, line, ln, matches[..j], onDisk)
    {
      images' := ExtractMatch(dir, line, ln, matches, onDisk, j, images, images');
    }
    assert matches[..|matches|] == matches;
  }

  /** The body of that loop for match `j`: its record is appended when its
      joined path exists. */
  method ExtractMatch(dir: Path, line: string, ln: nat, matches: seq<Span>, onDisk: Path -> bool, j: nat,
                      ghost images: seq<ImageRef>, acc: seq<ImageRef>)
    returns (acc': seq<ImageRef>)
    requires forall k :: 0 <= k < |matches| ==> ValidSpan(line, matches[k])
    requires j < |matches| && acc == images + LineRefs(dir, line, ln, matches[..j], onDisk)
    ensures acc' == images + LineRefs(dir, line, ln, matches[..j + 1], onDisk)
  {
    LineRefsStep(dir, line, ln, matches, onDisk, j);
    var ref := RefOf(dir, line, matches[j], ln);
    acc' := acc;
    if onDisk(ref.path) {
      Text.ConcatAssoc(images, LineRefs(dir, line, ln, matches[..j], onDisk), [ref]);
      acc' := acc + [ref];
    }
  }

  /** `extract_images_from_markdown`: the loop over the lines, each line's
      matches handled by the inner loop. */
  method ExtractImagesFromMarkdown(markdownPath: Path, lines: seq<string>, onDisk: Path -> bool)
    returns (images: seq<ImageRef>)
    ensures images == ExtractImages(markdownPath, lines, onDisk)
  {
    var dir := Dirname(markdownPath);
    images := [];
    for ln := 0 to |lines|
      invariant images == ExtractLines(dir, lines[..ln], onDisk)
    {
      ExtractLinesStep(dir, lines, onDisk, ln);
      images := ExtractLine(dir, lines[ln], ln, Scan(lines[ln]), onDisk, images);
    }
    assert lines[..|lines|] == lines;
  }
}
