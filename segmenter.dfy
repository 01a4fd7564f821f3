/** The segmenter (`process_new_txt`): a cursor walks the lines of the input,
    groups an entry's start line with at most two following lines, and hands
    every complete group to the parser and the emitter.

    The loop looks at a line only to ask whether it starts an entry and
    whether it is blank, so the segmentation is stated over the sequence of
    line kinds: `SegmentsFrom` gives what the loop collects, one segment per
    start line it meets, and `ProcessNewTxt` is the loop itself, proved
    against it. */
module Segmenter {
  import opened Text
  import opened Publication
  import opened IndexMd

  /** What the loop learns about a line. */
  datatype LineKind = StartLine | BlankLine | OtherLine

  /** The start test (`^\d+\.` or `^\s*[一二三四五六七八九十]+：` on the
      stripped line), then the blank test. A line is blank exactly when
      stripping leaves nothing, so a blank line is never a start. */
  function Classify(line: string): (k: LineKind)
    ensures k == BlankLine <==> Strip(line) == []
  {
    var s := Strip(line);
    if MatchesArabicStart(s) || MatchesChineseStart(s) then StartLine
    else if s == "" then BlankLine
    else OtherLine
  }

  /** The kind of every line of the input, in order. */
  function Kinds(lines: seq<string>): (kinds: seq<LineKind>)
    ensures |kinds| == |lines|
  {
    if lines == [] then [] else [Classify(lines[0])] + Kinds(lines[1..])
  }

  /** Each line has its own kind. Kept out of `Kinds`' contract so that the
      segmentation proofs never look inside a line. */
  lemma {:induction false} KindsAt(lines: seq<string>, k: nat)
    requires k < |lines|
    ensures Kinds(lines)[k] == Classify(lines[k])
  {
    if k > 0 {
      KindsAt(lines[1..], k - 1);
    }
  }

  /** A stripped line that begins with neither a digit nor a numeral glyph
      is a body line. */
  lemma PlainLineIsOther(line: string)
    requires line != [] && IsStripped(line)
    requires !IsDigit(line[0]) && !IsGlyph(line[0])
    ensures Classify(line) == OtherLine
  {
    StrippedIsFixpoint(line);
    SpanIs(IsDigit, line, 0);
    SpanIs(IsSpace, line, 0);
    assert line[0..] == line;
    SpanIs(IsGlyph, line, 0);
  }

  // ---------------------------------------------------------------------
  // Segmentation of a sequence of line kinds

  /** Where collection for an entry starting at `i` stops: at the first start
      line among the two that follow, else at the end of the window or of the
      input. */
  function Stop(kinds: seq<LineKind>, i: nat): (j: nat)
    requires i < |kinds|
    ensures i < j <= |kinds| && j <= i + 3
    ensures forall k :: i < k < j ==> kinds[k] != StartLine
    ensures j == |kinds| || j == i + 3 || kinds[j] == StartLine
  {
    if i + 1 < |kinds| && kinds[i + 1] == StartLine then i + 1
    else if i + 2 < |kinds| && kinds[i + 2] == StartLine then i + 2
    else if i + 3 <= |kinds| then i + 3
    else |kinds|
  }

  /** The indices of the non-blank lines strictly between `i` and `j`, for a
      window that ends at `j`. */
  function BodyBefore(kinds: seq<LineKind>, i: nat, j: nat): (body: seq<nat>)
    requires j <= |kinds| && j <= i + 3
    decreases j
    ensures body == [] || |body| < j - i
    ensures forall x :: 0 <= x < |body| ==> i < body[x] < j && kinds[body[x]] != BlankLine
    ensures forall k :: i < k < j && kinds[k] != BlankLine ==> k in body
    ensures forall x, y :: 0 <= x < y < |body| ==> body[x] < body[y]
  {
    if j <= i + 1 then []
    else BodyBefore(kinds, i, j - 1) + (if kinds[j - 1] != BlankLine then [j - 1] else [])
  }

  /** An entry's lines as the loop collects them: the start line, the
      indices of the body lines, and the index where collection stopped. */
  datatype Segment = Segment(start: nat, body: seq<nat>, stop: nat)

  /** The segment the loop collects for a start line at `i`: a window of at
      most two further lines, cut short by the next start line; its blank
      lines are skipped, and every other line in it is kept. */
  function SegmentAt(kinds: seq<LineKind>, i: nat): (s: Segment)
    requires i < |kinds|
    ensures s.start == i && i < s.stop <= |kinds| && s.stop <= i + 3
    ensures s.stop == |kinds| || s.stop == i + 3 || kinds[s.stop] == StartLine
    ensures |s.body| <= 2
    ensures forall x :: 0 <= x < |s.body| ==> i < s.body[x] < s.stop && kinds[s.body[x]] == OtherLine
    ensures forall k :: i < k < s.stop && kinds[k] == OtherLine ==> k in s.body
    ensures forall x, y :: 0 <= x < y < |s.body| ==> s.body[x] < s.body[y]
  {
    var j := Stop(kinds, i);
    Segment(i, BodyBefore(kinds, i, j), j)
  }

  /** A segment the loop can produce: it is collected at a start line. */
  predicate ValidSegment(kinds: seq<LineKind>, s: Segment) {
    s.start < |kinds| && kinds[s.start] == StartLine && s == SegmentAt(kinds, s.start)
  }

  predicate AllValid(kinds: seq<LineKind>, segs: seq<Segment>) {
    forall a :: 0 <= a < |segs| ==> ValidSegment(kinds, segs[a])
  }

  /** The lines a segment names exist in an input of `n` lines. */
  predicate Within(s: Segment, n: nat) {
    s.start < n && |s.body| <= 2 && forall x :: 0 <= x < |s.body| ==> s.body[x] < n
  }

  predicate AllWithin(segs: seq<Segment>, n: nat) {
    forall a :: 0 <= a < |segs| ==> Within(segs[a], n)
  }

  lemma AllWithinAppend(segs: seq<Segment>, s: Segment, n: nat)
    requires AllWithin(segs, n) && Within(s, n)
    ensures AllWithin(segs + [s], n)
  {
    forall a | 0 <= a < |segs| + 1 ensures Within((segs + [s])[a], n) {
      if a < |segs| {
        assert (segs + [s])[a] == segs[a];
      }
    }
  }

  /** The segments of `kinds[i..]`, in the order the loop meets them. */
  function SegmentsFrom(kinds: seq<LineKind>, i: nat): (segs: seq<Segment>)
    decreases |kinds| - i
    ensures forall a :: 0 <= a < |segs| ==> i <= segs[a].start < |kinds|
  {
    if i >= |kinds| then []
    else if kinds[i] == StartLine then
      var s := SegmentAt(kinds, i);
      [s] + SegmentsFrom(kinds, s.stop)
    else SegmentsFrom(kinds, i + 1)
  }

  /** Every segment is one the loop collects at a start line. */
  lemma {:induction false} SegmentsValid(kinds: seq<LineKind>, i: nat)
    decreases |kinds| - i
    ensures AllValid(kinds, SegmentsFrom(kinds, i))
    ensures AllWithin(SegmentsFrom(kinds, i), |kinds|)
  {
    if i < |kinds| {
      var segs := SegmentsFrom(kinds, i);
      if kinds[i] == StartLine {
        var s := SegmentAt(kinds, i);
        var rest := SegmentsFrom(kinds, s.stop);
        assert segs == [s] + rest;
        SegmentsValid(kinds, s.stop);
        forall a | 0 <= a < |segs| ensures ValidSegment(kinds, segs[a]) && Within(segs[a], |kinds|) {
          if a > 0 {
            assert segs[a] == rest[a - 1];
          }
        }
      } else {
        SegmentsValid(kinds, i + 1);
      }
    }
  }

  /** Every segment holds at least its start line. */
  lemma SegmentNonEmpty(kinds: seq<LineKind>, i: nat, a: nat)
    requires a < |SegmentsFrom(kinds, i)|
    ensures SegmentsFrom(kinds, i)[a].start < SegmentsFrom(kinds, i)[a].stop
  {
    SegmentsValid(kinds, i);
    assert ValidSegment(kinds, SegmentsFrom(kinds, i)[a]);
  }

  /** Line `k` is the start line or a body line of `s`. */
  predicate Covers(s: Segment, k: nat) {
    k == s.start || k in s.body
  }

  /** Segments follow each other: each ends at or before the start of the
      next, so no line lies in two windows and the starts increase. */
  lemma {:induction false} SegmentsOrdered(kinds: seq<LineKind>, i: nat)
    decreases |kinds| - i
    ensures forall a, b :: 0 <= a < b < |SegmentsFrom(kinds, i)| ==> SegmentsFrom(kinds, i)[a].stop <= SegmentsFrom(kinds, i)[b].start
  {
    if i < |kinds| {
      if kinds[i] == StartLine {
        var s := SegmentAt(kinds, i);
        var rest := SegmentsFrom(kinds, s.stop);
        var segs := SegmentsFrom(kinds, i);
        assert segs == [s] + rest;
        SegmentsOrdered(kinds, s.stop);
        forall a, b | 0 <= a < b < |segs| ensures segs[a].stop <= segs[b].start {
          assert segs[b] == rest[b - 1];
          if a > 0 {
            assert segs[a] == rest[a - 1];
          }
        }
      } else {
        SegmentsOrdered(kinds, i + 1);
      }
    }
  }

  /** A start line at or after the cursor opens a segment, even one met
      inside the window of an earlier start line. */
  lemma {:induction false} StartLineOpens(kinds: seq<LineKind>, i: nat, k: nat) returns (a: nat)
    requires i <= k < |kinds| && kinds[k] == StartLine
    decreases |kinds| - i
    ensures a < |SegmentsFrom(kinds, i)| && SegmentsFrom(kinds, i)[a].start == k
  {
    var segs := SegmentsFrom(kinds, i);
    if kinds[i] == StartLine {
      var s := SegmentAt(kinds, i);
      var rest := SegmentsFrom(kinds, s.stop);
      assert segs == [s] + rest;
      if k == i {
        a := 0;
      } else {
        var a' := StartLineOpens(kinds, s.stop, k);
        a := a' + 1;
        assert segs[a] == rest[a'];
      }
    } else {
      a := StartLineOpens(kinds, i + 1, k);
    }
  }

  /** The lines that open segments are exactly the start lines. */
  lemma StartsAreSegmented(kinds: seq<LineKind>, i: nat, k: nat)
    requires i <= k < |kinds|
    ensures kinds[k] == StartLine
            <==> exists a :: 0 <= a < |SegmentsFrom(kinds, i)| && SegmentsFrom(kinds, i)[a].start == k
  {
    SegmentsValid(kinds, i);
    if kinds[k] == StartLine {
      var a := StartLineOpens(kinds, i, k);
    }
  }

  /** No line belongs to two segments. */
  lemma NoLineTwice(kinds: seq<LineKind>, a: nat, b: nat, k: nat)
    requires a < |SegmentsFrom(kinds, 0)| && b < |SegmentsFrom(kinds, 0)|
    requires Covers(SegmentsFrom(kinds, 0)[a], k) && Covers(SegmentsFrom(kinds, 0)[b], k)
    ensures a == b
  {
    var segs := SegmentsFrom(kinds, 0);
    SegmentsValid(kinds, 0);
    SegmentsOrdered(kinds, 0);
    assert segs[a].start <= k < segs[a].stop;
    assert segs[b].start <= k < segs[b].stop;
  }

  /** A start line met inside a window ends that window, and the next
      segment begins at that very line. */
  lemma ResumesAtStop(kinds: seq<LineKind>, a: nat)
    requires a < |SegmentsFrom(kinds, 0)|
    requires SegmentsFrom(kinds, 0)[a].stop < |kinds| && kinds[SegmentsFrom(kinds, 0)[a].stop] == StartLine
    ensures a + 1 < |SegmentsFrom(kinds, 0)|
    ensures SegmentsFrom(kinds, 0)[a + 1].start == SegmentsFrom(kinds, 0)[a].stop
  {
    var segs := SegmentsFrom(kinds, 0);
    var j := segs[a].stop;
    SegmentsOrdered(kinds, 0);
    var b := StartLineOpens(kinds, 0, j);
    SegmentNonEmpty(kinds, 0, a);
    SegmentNonEmpty(kinds, 0, b);
    if a + 1 < |segs| {
      SegmentNonEmpty(kinds, 0, a + 1);
    }
  }

  /** A line that is not a start and lies just past a full window is part
      of no segment. */
  lemma PastFullWindowUnused(kinds: seq<LineKind>, a: nat)
    requires a < |SegmentsFrom(kinds, 0)|
    requires SegmentsFrom(kinds, 0)[a].stop == SegmentsFrom(kinds, 0)[a].start + 3
    requires SegmentsFrom(kinds, 0)[a].stop < |kinds| && kinds[SegmentsFrom(kinds, 0)[a].stop] != StartLine
    ensures forall b :: 0 <= b < |SegmentsFrom(kinds, 0)| ==> !Covers(SegmentsFrom(kinds, 0)[b], SegmentsFrom(kinds, 0)[a].stop)
  {
    var segs := SegmentsFrom(kinds, 0);
    var k := segs[a].stop;
    SegmentsValid(kinds, 0);
    SegmentsOrdered(kinds, 0);
    forall b | 0 <= b < |segs| ensures !Covers(segs[b], k) {
      if b < a {
        assert segs[b].stop <= segs[a].start;
      } else if b > a {
        assert segs[a].stop <= segs[b].start;
        assert segs[b].start != k;
      }
    }
  }

  /** A line at the cursor that is not a start is stepped over and belongs
      to no segment. */
  lemma SkippedLineUnused(kinds: seq<LineKind>, i: nat)
    requires i < |kinds| && kinds[i] != StartLine
    ensures SegmentsFrom(kinds, i) == SegmentsFrom(kinds, i + 1)
    ensures forall a :: 0 <= a < |SegmentsFrom(kinds, i)| ==> !Covers(SegmentsFrom(kinds, i)[a], i)
  {
    var segs := SegmentsFrom(kinds, i + 1);
    SegmentsValid(kinds, i + 1);
    forall a | 0 <= a < |segs| ensures !Covers(segs[a], i) {
      assert i < segs[a].start;
    }
  }

  /** A window holds two body lines exactly when both lines after the start
      exist and are neither blank nor a start. */
  lemma FullWindows(kinds: seq<LineKind>, s: Segment)
    requires ValidSegment(kinds, s)
    ensures |s.body| == 2
            <==> s.start + 2 < |kinds| && kinds[s.start + 1] == OtherLine && kinds[s.start + 2] == OtherLine
  {
    if |s.body| == 2 {
      assert s.body[0] < s.body[1];
    }
    if s.start + 2 < |kinds| && kinds[s.start + 1] == OtherLine && kinds[s.start + 2] == OtherLine {
      assert s.start + 1 in s.body && s.start + 2 in s.body;
    }
  }

  // ---------------------------------------------------------------------
  // Parsing and emitting the segments of an input

  /** The segments the loop collects from the lines of an input. */
  function Segments(lines: seq<string>): seq<Segment> {
    SegmentsFrom(Kinds(lines), 0)
  }

  /** The lines at the given indices. */
  function Pick(lines: seq<string>, ids: seq<nat>): (r: seq<string>)
    requires forall x :: 0 <= x < |ids| ==> ids[x] < |lines|
    ensures |r| == |ids| && forall x :: 0 <= x < |ids| ==> r[x] == lines[ids[x]]
  {
    seq(|ids|, x requires 0 <= x < |ids| => lines[ids[x]])
  }

  lemma PickAppend(lines: seq<string>, a: seq<nat>, b: seq<nat>)
    requires forall x :: 0 <= x < |a| ==> a[x] < |lines|
    requires forall x :: 0 <= x < |b| ==> b[x] < |lines|
    ensures Pick(lines, a + b) == Pick(lines, a) + Pick(lines, b)
  {
  }

  lemma PickOne(lines: seq<string>, ids: seq<nat>, k: nat)
    requires forall x :: 0 <= x < |ids| ==> ids[x] < |lines|
    requires k < |lines|
    ensures Pick(lines, ids + [k]) == Pick(lines, ids) + [lines[k]]
  {
    PickAppend(lines, ids, [k]);
  }

  /** `entry_lines`: the raw start line followed by the raw body lines. */
  function Group(lines: seq<string>, s: Segment): (g: seq<string>)
    requires Within(s, |lines|)
    ensures |g| == 1 + |s.body| && g[0] == lines[s.start]
    ensures forall x :: 0 <= x < |s.body| ==> g[x + 1] == lines[s.body[x]]
  {
    [lines[s.start]] + Pick(lines, s.body)
  }

  /** A group holds at most three lines: a start line, then only lines that
      are neither blank nor a start. */
  lemma GroupLines(lines: seq<string>, s: Segment)
    requires s in Segments(lines)
    ensures Within(s, |lines|)
    ensures var g := Group(lines, s);
            |g| <= 3 && g[0] == lines[s.start] && Classify(g[0]) == StartLine
            && forall x :: 1 <= x < |g| ==>
                 Strip(g[x]) != [] && !MatchesArabicStart(Strip(g[x])) && !MatchesChineseStart(Strip(g[x]))
  {
    var kinds := Kinds(lines);
    var segs := Segments(lines);
    SegmentsValid(kinds, 0);
    var a :| 0 <= a < |segs| && segs[a] == s;
    assert ValidSegment(kinds, s) && Within(s, |lines|);
    KindsAt(lines, s.start);
    var g := Group(lines, s);
    forall x | 1 <= x < |g|
      ensures Strip(g[x]) != [] && !MatchesArabicStart(Strip(g[x])) && !MatchesChineseStart(Strip(g[x]))
    {
      assert g[x] == lines[s.body[x - 1]];
      assert kinds[s.body[x - 1]] == OtherLine;
      KindsAt(lines, s.body[x - 1]);
    }
  }

  /** What a segment produces: an entry when it has three lines and they
      parse, nothing otherwise. */
  function Outcome(lines: seq<string>, s: Segment): (r: Option<Entry>)
    requires Within(s, |lines|)
    ensures r.Some? ==> |s.body| == 2
  {
    var g := Group(lines, s);
    if |g| >= 3 then ParseEntry(g) else None
  }

  /** Only a group of three lines reaches the parser: one whose two lines
      after the start exist and are neither blank nor a start. */
  lemma OnlyFullGroupsParsed(lines: seq<string>, kinds: seq<LineKind>, s: Segment)
    requires |kinds| == |lines| && ValidSegment(kinds, s)
    ensures Within(s, |lines|)
    ensures Outcome(lines, s).Some?
            <==> s.start + 2 < |lines| && kinds[s.start + 1] == OtherLine
                 && kinds[s.start + 2] == OtherLine && ParseEntry(Group(lines, s)).Some?
  {
    FullWindows(kinds, s);
  }

  /** An emitted entry and the index of the line that started it. */
  datatype Record = Record(line: nat, entry: Entry)

  /** The record one segment produces, if any. */
  function RecordAt(lines: seq<string>, s: Segment): seq<Record>
    requires Within(s, |lines|)
  {
    match Outcome(lines, s)
    case Some(e) => [Record(s.start, e)]
    case None => []
  }

  /** The records the segments produce, in order. */
  function RecordsOf(lines: seq<string>, segs: seq<Segment>): seq<Record>
    requires AllWithin(segs, |lines|)
  {
    if segs == [] then [] else RecordAt(lines, segs[0]) + RecordsOf(lines, segs[1..])
  }

  /** Everything the script emits for an input, in emission order. Every
      record names a start line of the input. */
  function Emitted(lines: seq<string>): (recs: seq<Record>)
    ensures forall x :: 0 <= x < |recs| ==> recs[x].line < |lines| && Classify(lines[recs[x].line]) == StartLine
  {
    SegmentsValid(Kinds(lines), 0);
    RecordsAtStarts(lines, Segments(lines));
    RecordsOf(lines, Segments(lines))
  }

  lemma RecordsAtStarts(lines: seq<string>, segs: seq<Segment>)
    requires AllWithin(segs, |lines|) && AllValid(Kinds(lines), segs)
    ensures forall x :: 0 <= x < |RecordsOf(lines, segs)| ==>
              RecordsOf(lines, segs)[x].line < |lines| && Classify(lines[RecordsOf(lines, segs)[x].line]) == StartLine
  {
    var recs := RecordsOf(lines, segs);
    forall x | 0 <= x < |recs| ensures recs[x].line < |lines| && Classify(lines[recs[x].line]) == StartLine {
      RecordsOfExactly(lines, segs, recs[x]);
      var a :| 0 <= a < |segs| && segs[a].start == recs[x].line && Outcome(lines, segs[a]) == Some(recs[x].entry);
      assert ValidSegment(Kinds(lines), segs[a]);
      KindsAt(lines, segs[a].start);
    }
  }

  function EntriesOf(recs: seq<Record>): (es: seq<Entry>)
    ensures |es| == |recs| && forall x :: 0 <= x < |recs| ==> es[x] == recs[x].entry
  {
    seq(|recs|, x requires 0 <= x < |recs| => recs[x].entry)
  }

  /** A segment produces a record exactly when its outcome is an entry, and
      every record comes from such a segment. */
  lemma {:induction false} RecordsOfExactly(lines: seq<string>, segs: seq<Segment>, r: Record)
    requires AllWithin(segs, |lines|)
    ensures r in RecordsOf(lines, segs)
            <==> exists a :: 0 <= a < |segs| && segs[a].start == r.line && Outcome(lines, segs[a]) == Some(r.entry)
  {
    if segs != [] {
      RecordsOfExactly(lines, segs[1..], r);
      if r in RecordsOf(lines, segs[1..]) {
        var a :| 0 <= a < |segs[1..]| && segs[1..][a].start == r.line && Outcome(lines, segs[1..][a]) == Some(r.entry);
        assert segs[a + 1] == segs[1..][a];
      }
      if exists a :: 0 <= a < |segs| && segs[a].start == r.line && Outcome(lines, segs[a]) == Some(r.entry) {
        var a :| 0 <= a < |segs| && segs[a].start == r.line && Outcome(lines, segs[a]) == Some(r.entry);
        if a > 0 {
          assert segs[1..][a - 1] == segs[a];
        }
      }
    }
  }

  /** Records come out in increasing order of their start lines when the
      segments do. */
  lemma {:induction false} RecordsInOrder(lines: seq<string>, segs: seq<Segment>)
    requires AllWithin(segs, |lines|)
    requires forall a, b :: 0 <= a < b < |segs| ==> segs[a].start < segs[b].start
    ensures forall x, y :: 0 <= x < y < |RecordsOf(lines, segs)| ==> RecordsOf(lines, segs)[x].line < RecordsOf(lines, segs)[y].line
  {
    if segs != [] {
      var tail := RecordsOf(lines, segs[1..]);
      RecordsInOrder(lines, segs[1..]);
      forall y | 0 <= y < |tail| ensures segs[0].start < tail[y].line {
        RecordsOfExactly(lines, segs[1..], tail[y]);
        var a :| 0 <= a < |segs[1..]| && segs[1..][a].start == tail[y].line && Outcome(lines, segs[1..][a]) == Some(tail[y].entry);
        assert segs[1..][a] == segs[a + 1];
      }
    }
  }

  /** The script emits entries strictly in the order of their start lines. */
  lemma EmittedInOrder(lines: seq<string>)
    ensures forall x, y :: 0 <= x < y < |Emitted(lines)| ==> Emitted(lines)[x].line < Emitted(lines)[y].line
  {
    var segs := Segments(lines);
    SegmentsValid(Kinds(lines), 0);
    SegmentsOrdered(Kinds(lines), 0);
    forall a, b | 0 <= a < b < |segs| ensures segs[a].start < segs[b].start {
      assert segs[a].start < segs[a].stop <= segs[b].start;
    }
    RecordsInOrder(lines, segs);
  }

  /** An entry a group of text lines parses to renders and reads back. */
  lemma OutcomeReadBack(lines: seq<string>, s: Segment, e: Entry)
    requires forall k :: 0 <= k < |lines| ==> IsTextLine(lines[k])
    requires Within(s, |lines|) && Outcome(lines, s) == Some(e)
    ensures Renderable(e)
    ensures ReadIndexMd(Render(e)) == Some(MetadataOf(e))
  {
    var g := Group(lines, s);
    forall k | 0 <= k < |g| ensures IsTextLine(g[k]) {
      if k > 0 {
        assert g[k] == lines[s.body[k - 1]];
      }
    }
    ParsedSingleLine(g);
    RenderReadBack(e);
  }

  /** Every emitted entry fits the template line by line, so its document
      reads back to its fields, provided the input lines are lines as
      `readlines()` yields them. */
  lemma EmittedReadBack(lines: seq<string>, r: Record)
    requires forall k :: 0 <= k < |lines| ==> IsTextLine(lines[k])
    requires r in Emitted(lines)
    ensures Renderable(r.entry)
    ensures ReadIndexMd(Render(r.entry)) == Some(MetadataOf(r.entry))
  {
    var segs := Segments(lines);
    SegmentsValid(Kinds(lines), 0);
    RecordsOfExactly(lines, segs, r);
    var a :| 0 <= a < |segs| && segs[a].start == r.line && Outcome(lines, segs[a]) == Some(r.entry);
    OutcomeReadBack(lines, segs[a], r.entry);
  }

  lemma {:induction false} RecordsOfAppend(lines: seq<string>, segs: seq<Segment>, s: Segment)
    requires AllWithin(segs, |lines|) && Within(s, |lines|)
    ensures RecordsOf(lines, segs + [s]) == RecordsOf(lines, segs) + RecordAt(lines, s)
  {
    if segs != [] {
      var rest := segs[1..];
      assert (segs + [s])[0] == segs[0];
      assert (segs + [s])[1..] == rest + [s];
      RecordsOfAppend(lines, rest, s);
      AppendAssoc(RecordAt(lines, segs[0]), RecordsOf(lines, rest), RecordAt(lines, s));
    } else {
      assert segs + [s] == [s];
      assert [s][1..] == [];
      assert RecordAt(lines, s) + [] == RecordAt(lines, s);
    }
  }

  lemma EntriesOfAppend(recs: seq<Record>, more: seq<Record>)
    ensures EntriesOf(recs + more) == EntriesOf(recs) + EntriesOf(more)
  {
  }

  /** Writing the entries of one record more, or of none. */
  lemma WriteAllRecords(files: map<string, string>, before: seq<Record>, more: seq<Record>)
    requires |more| <= 1
    ensures WriteAll(files, EntriesOf(before + more))
            == if more == [] then WriteAll(files, EntriesOf(before))
               else Written(WriteAll(files, EntriesOf(before)), more[0].entry)
  {
    EntriesOfAppend(before, more);
    var es := EntriesOf(before) + EntriesOf(more);
    if more == [] {
      assert es == EntriesOf(before);
    } else {
      assert es[..|es| - 1] == EntriesOf(before);
    }
  }

  /** Processing one more segment writes its entry, if it has one, after
      everything written before. */
  lemma EmitStep(files: map<string, string>, lines: seq<string>, done: seq<Segment>, s: Segment)
    requires AllWithin(done, |lines|) && Within(s, |lines|)
    ensures WriteAll(files, EntriesOf(RecordsOf(lines, done + [s])))
            == match Outcome(lines, s)
               case Some(e) => Written(WriteAll(files, EntriesOf(RecordsOf(lines, done))), e)
               case None => WriteAll(files, EntriesOf(RecordsOf(lines, done)))
  {
    RecordsOfAppend(lines, done, s);
    WriteAllRecords(files, RecordsOf(lines, done), RecordAt(lines, s));
  }

  // ---------------------------------------------------------------------
  // The loop

  lemma AppendAssoc<T>(a: seq<T>, b: seq<T>, c: seq<T>)
    ensures (a + b) + c == a + (b + c)
  {
  }

  /** The lines the inner loop holds once it has looked at every line of the
      window before `j`. */
  function CollectedUpTo(lines: seq<string>, kinds: seq<LineKind>, i: nat, j: nat): seq<string>
    requires i < j <= |lines| && |kinds| == |lines|
    decreases j
  {
    if j == i + 1 then [lines[i]]
    else CollectedUpTo(lines, kinds, i, j - 1) + (if kinds[j - 1] != BlankLine then [lines[j - 1]] else [])
  }

  lemma {:induction false} CollectedIsPick(lines: seq<string>, kinds: seq<LineKind>, i: nat, j: nat)
    requires i < j <= |lines| && |kinds| == |lines| && j <= i + 3
    decreases j
    ensures CollectedUpTo(lines, kinds, i, j) == [lines[i]] + Pick(lines, BodyBefore(kinds, i, j))
  {
    if j > i + 1 {
      CollectedIsPick(lines, kinds, i, j - 1);
      CollectStep(lines, kinds, i, j);
    } else {
      assert BodyBefore(kinds, i, j) == [];
    }
  }

  lemma CollectStep(lines: seq<string>, kinds: seq<LineKind>, i: nat, j: nat)
    requires i + 1 < j <= |lines| && |kinds| == |lines| && j <= i + 3
    requires CollectedUpTo(lines, kinds, i, j - 1) == [lines[i]] + Pick(lines, BodyBefore(kinds, i, j - 1))
    ensures CollectedUpTo(lines, kinds, i, j) == [lines[i]] + Pick(lines, BodyBefore(kinds, i, j))
  {
    var b := BodyBefore(kinds, i, j - 1);
    if kinds[j - 1] != BlankLine {
      PickOne(lines, b, j - 1);
      AppendAssoc([lines[i]], Pick(lines, b), [lines[j - 1]]);
    } else {
      assert b + [] == b;
    }
  }

  /** When the inner loop exits, it has stopped where the segment stops and
      holds the segment's group. */
  lemma CollectedIsGroup(lines: seq<string>, kinds: seq<LineKind>, i: nat, j: nat)
    requires i < j <= |lines| && |kinds| == |lines| && j <= i + 3
    requires forall k :: i < k < j ==> kinds[k] != StartLine
    requires j == |kinds| || j == i + 3 || kinds[j] == StartLine
    ensures SegmentAt(kinds, i) == Segment(i, BodyBefore(kinds, i, j), j)
    ensures CollectedUpTo(lines, kinds, i, j) == [lines[i]] + Pick(lines, SegmentAt(kinds, i).body)
  {
    CollectedIsPick(lines, kinds, i, j);
  }

  /** The two tests the loop makes on line `j`: `strip()` it, match the two
      start patterns, and test for emptiness. */
  method LineKindAt(lines: seq<string>, j: nat) returns (kind: LineKind)
    requires j < |lines|
    ensures kind == Kinds(lines)[j]
  {
    KindsAt(lines, j);
    var s := Strip(lines[j]);
    if MatchesArabicStart(s) || MatchesChineseStart(s) {
      kind := StartLine;
    } else if s != "" {
      kind := OtherLine;
    } else {
      kind := BlankLine;
    }
  }

  /** The inner loop of `process_new_txt`: collects the start line at `i`
      and the non-blank lines after it, up to two lines on and no further
      than the next start line. */
  method CollectEntry(lines: seq<string>, i: nat) returns (entryLines: seq<string>, j: nat)
    requires i < |lines|
    ensures j == SegmentAt(Kinds(lines), i).stop
    ensures entryLines == [lines[i]] + Pick(lines, SegmentAt(Kinds(lines), i).body)
  {
    ghost var kinds := Kinds(lines);
    entryLines := [lines[i]];
    j := i + 1;
    while j < |lines| && j < i + 3
      invariant i + 1 <= j <= |lines| && j <= i + 3
      invariant j > i + 1 ==> kinds[i + 1] != StartLine
      invariant j > i + 2 ==> kinds[i + 2] != StartLine
      invariant entryLines == CollectedUpTo(lines, kinds, i, j)
      decreases i + 3 - j
    {
      var kind := LineKindAt(lines, j);
      if kind == StartLine {
        break;
      }
      if kind == OtherLine {
        entryLines := entryLines + [lines[j]];
      } else {
        assert entryLines + [] == entryLines;
      }
      j := j + 1;
    }
    CollectedIsGroup(lines, kinds, i, j);
  }

  /** `process_new_txt` after the file is read: the cursor `i` moves over
      the lines, every start line has its group collected, and every
      complete group that parses is written to the output tree. */
  method ProcessNewTxt(lines: seq<string>, out: OutputTree)
    modifies out
    ensures out.files == WriteAll(old(out.files), EntriesOf(Emitted(lines)))
  {
    ghost var kinds := Kinds(lines);
    ghost var done: seq<Segment> := [];
    var i := 0;
    while i < |lines|
      invariant i <= |lines|
      invariant AllWithin(done, |lines|)
      invariant SegmentsFrom(kinds, 0) == done + SegmentsFrom(kinds, i)
      invariant out.files == WriteAll(old(out.files), EntriesOf(RecordsOf(lines, done)))
      decreases |lines| - i
    {
      var line := Strip(lines[i]);
      KindsAt(lines, i);
      if MatchesArabicStart(line) || MatchesChineseStart(line) {
        assert kinds[i] == StartLine;
        var entryLines, j := CollectEntry(lines, i);
        ghost var s := SegmentAt(kinds, i);
        assert entryLines == Group(lines, s);
        EmitStep(old(out.files), lines, done, s);
        if |entryLines| >= 3 {
          var entry := ParseEntry(entryLines);
          if entry.Some? {
            out.CreateIndexMd(entry.value);
          }
        }
        assert SegmentsFrom(kinds, i) == [s] + SegmentsFrom(kinds, j);
        AppendAssoc(done, [s], SegmentsFrom(kinds, j));
        AllWithinAppend(done, s, |lines|);
        done := done + [s];
        i := j;
      } else {
        assert kinds[i] != StartLine;
        i := i + 1;
      }
    }
    assert done == Segments(lines);
  }

  // ---------------------------------------------------------------------
  // Examples

  /** A blank line inside the window takes a place in it: the second entry
      keeps one body line, and the line after its window is dropped. */
  lemma BlankLineShortensWindow()
    ensures SegmentsFrom([StartLine, OtherLine, StartLine, OtherLine, BlankLine, OtherLine], 0)
            == [Segment(0, [1], 2), Segment(2, [3], 5)]
  {
    BlankInWindow([StartLine, OtherLine, StartLine, OtherLine, BlankLine, OtherLine]);
  }

  lemma BlankInWindow(kinds: seq<LineKind>)
    requires |kinds| == 6 && kinds[0] == StartLine && kinds[1] == OtherLine && kinds[2] == StartLine
    requires kinds[3] == OtherLine && kinds[4] == BlankLine && kinds[5] == OtherLine
    ensures SegmentsFrom(kinds, 0) == [Segment(0, [1], 2), Segment(2, [3], 5)]
  {
    assert Stop(kinds, 0) == 2;
    assert BodyBefore(kinds, 0, 1) == [];
    assert BodyBefore(kinds, 0, 2) == [1];
    assert Stop(kinds, 2) == 5;
    assert BodyBefore(kinds, 2, 3) == [];
    assert BodyBefore(kinds, 2, 4) == [3];
    assert BodyBefore(kinds, 2, 5) == [3];
    assert SegmentsFrom(kinds, 5) == [];
    assert SegmentsFrom(kinds, 2) == [Segment(2, [3], 5)] + SegmentsFrom(kinds, 5);
  }

  /** A start line the parser rejects, such as `3.Title`, still takes its
      window, so the next segment begins after it, but it produces no
      record. */
  lemma RejectedStartConsumesWindow(lines: seq<string>, a: nat)
    requires a < |Segments(lines)|
    requires ParseEntry([lines[Segments(lines)[a].start]]) == None
    ensures Within(Segments(lines)[a], |lines|) && RecordAt(lines, Segments(lines)[a]) == []
    ensures forall b :: a < b < |Segments(lines)| ==> Segments(lines)[a].stop <= Segments(lines)[b].start
  {
    var kinds := Kinds(lines);
    var segs := Segments(lines);
    SegmentsValid(kinds, 0);
    SegmentsOrdered(kinds, 0);
    var s := segs[a];
    assert Within(s, |lines|);
    var g := Group(lines, s);
    ParseDecidedByFirst(g);
  }
  // ---------------------------------------------------------------------
  // A two-entry input, end to end

  /** A stripped line that passes a start test is a start line once its
      newline is added. */
  lemma HeadingLineIsStart(t: string)
    requires t != [] && IsStripped(t) && (MatchesArabicStart(t) || MatchesChineseStart(t))
    ensures Classify(t + "\n") == StartLine
  {
    StripLineEnd(t);
  }

  /** A stripped line led by neither a digit nor a glyph is a body line
      once its newline is added. */
  lemma BodyLineIsOther(t: string)
    requires t != [] && IsStripped(t) && !IsDigit(t[0]) && !IsGlyph(t[0])
    ensures Classify(t + "\n") == OtherLine
  {
    StripLineEnd(t);
    PlainLineIsOther(t);
    assert Classify(t + "\n") == Classify(t);
  }

  lemma KindsOfThree(ls: seq<string>)
    requires |ls| == 3
    ensures Kinds(ls) == [Classify(ls[0]), Classify(ls[1]), Classify(ls[2])]
  {
    KindsAt(ls, 0);
    KindsAt(ls, 1);
    KindsAt(ls, 2);
  }

  lemma {:induction false} KindsAppend(a: seq<string>, b: seq<string>)
    ensures Kinds(a + b) == Kinds(a) + Kinds(b)
  {
    if a != [] {
      assert (a + b)[1..] == a[1..] + b;
      KindsAppend(a[1..], b);
    } else {
      assert a + b == b;
    }
  }

  /** A group of three lines whose heading has Arabic shape. */
  lemma ParseArabicGroup(g: seq<string>, n: string, t: string, a: string, o: string)
    requires |g| == 3 && ArabicShape(Strip(g[0]), n, t)
    requires Strip(g[1]) == a && Strip(g[2]) == o
    ensures ParseEntry(g) == Some(Entry(n, t, a, o, YearOf(o), English))
  {
    ParseArabic(g, n, t);
  }

  /** A group of three lines whose heading has Chinese shape. */
  lemma ParseChineseGroup(g: seq<string>, gl: string, t: string, a: string, o: string)
    requires |g| == 3 && gl != [] && AllGlyphs(gl) && ChineseShape(Strip(g[0]), gl, t)
    requires Strip(g[1]) == a && Strip(g[2]) == o
    ensures ParseEntry(g) == Some(Entry(ChineseNumber(gl), t, a, o, YearOf(o), Chinese))
  {
    ParseChinese(g, gl, t);
  }

  /** A segment with both window lines kept groups three consecutive lines. */
  lemma FullGroup(lines: seq<string>, s: Segment)
    requires s.start + 3 <= |lines| && s.body == [s.start + 1, s.start + 2]
    ensures Within(s, |lines|)
    ensures Group(lines, s) == [lines[s.start], lines[s.start + 1], lines[s.start + 2]]
  {
    assert Pick(lines, s.body) == [lines[s.start + 1], lines[s.start + 2]];
  }

  /** The records of an input of two segments. */
  lemma EmittedOfTwo(lines: seq<string>, s1: Segment, s2: Segment)
    requires Segments(lines) == [s1, s2] && Within(s1, |lines|) && Within(s2, |lines|)
    ensures Emitted(lines) == RecordAt(lines, s1) + RecordAt(lines, s2)
  {
    var segs := [s1, s2];
    assert AllWithin(segs, |lines|);
    assert segs[1..] == [s2];
    assert [s2][1..] == [];
    assert RecordsOf(lines, [s2]) == RecordAt(lines, s2) + [];
  }
}
