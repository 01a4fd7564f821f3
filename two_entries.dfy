/** A worked input of two entries, one English and one Chinese, followed
    from its lines through segmentation and parsing to the output tree. */
module TwoEntryInput {
  import opened Text
  import opened Publication
  import opened IndexMd
  import opened Segmenter

  /** An English entry numbered `1`, then a Chinese entry numbered `二`. */
  const EnglishLines: seq<string> := ["1. A\n", "B\n", "C (2021)\n"]
  const ChineseLines: seq<string> := ["二：D\n", "E\n", "F（2018）\n"]
  const TwoEntries: seq<string> := EnglishLines + ChineseLines

  const EnglishEntry: Entry := Entry("1", "A", "B", "C (2021)", "2021", English)
  const ChineseEntry: Entry := Entry("c2", "D", "E", "F（2018）", "2018", Chinese)

  lemma ArabicHeadingMatches()
    ensures MatchesArabicStart("1. A")
  {
    assert ArabicStartShape("1. A", "1", " A");
    ArabicStartMatchesShape("1. A");
  }

  lemma ChineseHeadingMatches()
    ensures MatchesChineseStart("二：D")
  {
    ChineseShapeStarts("二：D", "", "二", "D");
  }

  lemma EnglishHeadingIsStart()
    ensures Classify("1. A\n") == StartLine
  {
    ArabicHeadingMatches();
    HeadingLineIsStart("1. A");
  }

  lemma ChineseHeadingIsStart()
    ensures Classify("二：D\n") == StartLine
  {
    ChineseHeadingMatches();
    HeadingLineIsStart("二：D");
  }

  lemma EnglishBodyLines()
    ensures Classify("B\n") == OtherLine && Classify("C (2021)\n") == OtherLine
  {
    BodyLineIsOther("B");
    BodyLineIsOther("C (2021)");
  }

  lemma ChineseBodyLines()
    ensures Classify("E\n") == OtherLine && Classify("F（2018）\n") == OtherLine
  {
    BodyLineIsOther("E");
    BodyLineIsOther("F（2018）");
  }

  lemma EnglishLinesKinds()
    ensures Kinds(EnglishLines) == [StartLine, OtherLine, OtherLine]
  {
    EnglishHeadingIsStart();
    EnglishBodyLines();
    KindsOfThree(EnglishLines);
  }

  lemma ChineseLinesKinds()
    ensures Kinds(ChineseLines) == [StartLine, OtherLine, OtherLine]
  {
    ChineseHeadingIsStart();
    ChineseBodyLines();
    KindsOfThree(ChineseLines);
  }

  /** A start line followed by two body lines makes a full window. */
  lemma FullWindowAt(kinds: seq<LineKind>, i: nat)
    requires i + 3 <= |kinds| && kinds[i] == StartLine
    requires kinds[i + 1] == OtherLine && kinds[i + 2] == OtherLine
    ensures SegmentAt(kinds, i) == Segment(i, [i + 1, i + 2], i + 3)
  {
    assert Stop(kinds, i) == i + 3;
    assert BodyBefore(kinds, i, i + 1) == [];
    assert BodyBefore(kinds, i, i + 2) == [i + 1];
  }

  /** Two start lines, each followed by two body lines. */
  lemma TwoFullWindows(kinds: seq<LineKind>)
    requires |kinds| == 6 && kinds[0] == StartLine && kinds[1] == OtherLine && kinds[2] == OtherLine
    requires kinds[3] == StartLine && kinds[4] == OtherLine && kinds[5] == OtherLine
    ensures SegmentsFrom(kinds, 0) == [Segment(0, [1, 2], 3), Segment(3, [4, 5], 6)]
  {
    FullWindowAt(kinds, 0);
    LastFullWindow(kinds);
  }

  lemma LastFullWindow(kinds: seq<LineKind>)
    requires |kinds| == 6 && kinds[3] == StartLine && kinds[4] == OtherLine && kinds[5] == OtherLine
    ensures SegmentsFrom(kinds, 3) == [Segment(3, [4, 5], 6)]
  {
    FullWindowAt(kinds, 3);
    assert SegmentsFrom(kinds, 6) == [];
  }

  lemma EnglishLinesStripped()
    ensures Strip(EnglishLines[0]) == "1. A" && Strip(EnglishLines[1]) == "B"
            && Strip(EnglishLines[2]) == "C (2021)"
  {
    StripLineEnd("1. A");
    StripLineEnd("B");
    StripLineEnd("C (2021)");
  }

  lemma ChineseLinesStripped()
    ensures Strip(ChineseLines[0]) == "二：D" && Strip(ChineseLines[1]) == "E"
            && Strip(ChineseLines[2]) == "F（2018）"
  {
    StripLineEnd("二：D");
    StripLineEnd("E");
    StripLineEnd("F（2018）");
  }

  lemma EnglishHeadingShape()
    ensures ArabicShape("1. A", "1", "A")
  {
    var f := "1. A";
    assert f[2..3] == " ";
    assert f == "1" + "." + " " + "A";
  }

  lemma YearOf2021()
    ensures YearOf("C (2021)") == "2021"
  {
    var s := "C (2021)";
    assert AllDigits(s[3..7]) by { assert s[3..7] == "2021"; }
    assert FindYear(s, 2) == Some(2);
  }

  lemma YearOf2018()
    ensures YearOf("F（2018）") == "2018"
  {
    var s := "F（2018）";
    assert AllDigits(s[2..6]) by { assert s[2..6] == "2018"; }
    assert FindYear(s, 1) == Some(1);
  }

  lemma EnglishLinesParse()
    ensures ParseEntry(EnglishLines) == Some(EnglishEntry)
  {
    EnglishLinesStripped();
    EnglishHeadingShape();
    YearOf2021();
    ParseArabicGroup(EnglishLines, "1", "A", "B", "C (2021)");
  }

  lemma ChineseLinesParse()
    ensures ParseEntry(ChineseLines) == Some(ChineseEntry)
  {
    ChineseLinesStripped();
    assert ChineseShape("二：D", "二", "D");
    assert ChineseNumber("二") == "c2";
    YearOf2018();
    ParseChineseGroup(ChineseLines, "二", "D", "E", "F（2018）");
  }

  /** An input of two full windows emits the entries its two groups parse
      to, in order. */
  lemma TwoGroupsEmitted(lines: seq<string>, e1: Entry, e2: Entry)
    requires |lines| == 6
    requires Segments(lines) == [Segment(0, [1, 2], 3), Segment(3, [4, 5], 6)]
    requires ParseEntry([lines[0], lines[1], lines[2]]) == Some(e1)
    requires ParseEntry([lines[3], lines[4], lines[5]]) == Some(e2)
    ensures Emitted(lines) == [Record(0, e1), Record(3, e2)]
  {
    var s1, s2 := Segment(0, [1, 2], 3), Segment(3, [4, 5], 6);
    FullGroup(lines, s1);
    FullGroup(lines, s2);
    EmittedOfTwo(lines, s1, s2);
  }

  /** Two groups of a start line and two body lines, one after the other,
      emit the entries they parse to, in order. */
  lemma HalvesEmitted(a: seq<string>, b: seq<string>, e1: Entry, e2: Entry)
    requires |a| == 3 && |b| == 3
    requires Kinds(a) == [StartLine, OtherLine, OtherLine]
    requires Kinds(b) == [StartLine, OtherLine, OtherLine]
    requires ParseEntry(a) == Some(e1) && ParseEntry(b) == Some(e2)
    ensures Emitted(a + b) == [Record(0, e1), Record(3, e2)]
  {
    HalvesSegments(a, b);
    HalvesSplit(a, b);
    TwoGroupsEmitted(a + b, e1, e2);
  }

  lemma HalvesSegments(a: seq<string>, b: seq<string>)
    requires Kinds(a) == [StartLine, OtherLine, OtherLine]
    requires Kinds(b) == [StartLine, OtherLine, OtherLine]
    ensures Segments(a + b) == [Segment(0, [1, 2], 3), Segment(3, [4, 5], 6)]
  {
    KindsAppend(a, b);
    TwoFullWindows(Kinds(a + b));
  }

  lemma HalvesSplit(a: seq<string>, b: seq<string>)
    requires |a| == 3 && |b| == 3
    ensures [(a + b)[0], (a + b)[1], (a + b)[2]] == a
    ensures [(a + b)[3], (a + b)[4], (a + b)[5]] == b
  {
  }

  /** The two entries come out in order, into directories `1` and `c2`,
      with the years their venue lines give. */
  lemma TwoEntriesEmitted()
    ensures Emitted(TwoEntries) == [Record(0, EnglishEntry), Record(3, ChineseEntry)]
  {
    EnglishLinesKinds();
    ChineseLinesKinds();
    EnglishLinesParse();
    ChineseLinesParse();
    HalvesEmitted(EnglishLines, ChineseLines, EnglishEntry, ChineseEntry);
  }

  lemma WriteTwo(files: map<string, string>, a: Entry, b: Entry)
    ensures WriteAll(files, [a, b]) == Written(Written(files, a), b)
  {
    assert [a, b][..1] == [a];
    assert [a][..0] == [];
    assert WriteAll(files, [a]) == Written(WriteAll(files, []), a);
  }

  lemma TwoEntriesEntries()
    ensures EntriesOf(Emitted(TwoEntries)) == [EnglishEntry, ChineseEntry]
  {
    TwoEntriesEmitted();
  }

  /** Processing that input writes the English entry and then the Chinese
      one to the output tree. */
  lemma TwoEntriesWritten(files: map<string, string>)
    ensures WriteAll(files, EntriesOf(Emitted(TwoEntries)))
            == Written(Written(files, EnglishEntry), ChineseEntry)
  {
    TwoEntriesEntries();
    WriteTwo(files, EnglishEntry, ChineseEntry);
  }
}
