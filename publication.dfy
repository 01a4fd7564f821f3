/** The entry parser: turns the one to three raw lines of a bibliography
    entry into a record (`parse_publication_entry`). The two regular
    expressions it uses are written out over character sequences. */
module Publication {
  import opened Text

  /** The coarse language tag of an entry, chosen by its numbering style. */
  datatype Kind = English | Chinese

  /** The tag as written into `publication_types`. */
  function KindName(k: Kind): (s: string)
    ensures s != [] && '\n' !in s
  {
    match k
    case English => "English"
    case Chinese => "中文"
  }

  /** A parsed entry; `number` names its output directory. */
  datatype Entry = Entry(
    number: string,
    title: string,
    authorText: string,
    otherText: string,
    year: string,
    kind: Kind)

  /** The ten numeral glyphs of the character class `[一二三四五六七八九十]`. */
  predicate IsGlyph(c: char) {
    c in "一二三四五六七八九十"
  }

  predicate AllGlyphs(s: string) {
    forall k :: 0 <= k < |s| ==> IsGlyph(s[k])
  }

  /** The full-width colon that ends a Chinese numeral. */
  const FullWidthColon: char := '：'

  /** The lookup table of the script: a single glyph to a `c`-prefixed
      decimal name. */
  const ChineseNumerals: map<string, string> :=
    map["一" := "c1", "二" := "c2", "三" := "c3", "四" := "c4", "五" := "c5",
        "六" := "c6", "七" := "c7", "八" := "c8", "九" := "c9", "十" := "c10"]

  /** The directory name for a Chinese numeral: the table entry, or `c`
      followed by the glyphs themselves when the table has none. */
  function ChineseNumber(glyphs: string): (r: string)
    ensures |r| >= 2 || (glyphs == [] && r == "c")
    ensures r[0] == 'c'
  {
    if glyphs in ChineseNumerals then ChineseNumerals[glyphs] else "c" + glyphs
  }

  /** Distinct numerals get distinct directory names: no table value can be
      confused with the fallback form, whose second character is a glyph. */
  lemma ChineseNumberInjective(g1: string, g2: string)
    requires g1 != [] && AllGlyphs(g1)
    requires g2 != [] && AllGlyphs(g2)
    requires ChineseNumber(g1) == ChineseNumber(g2)
    ensures g1 == g2
  {
    ChineseNumberTail(g1);
    ChineseNumberTail(g2);
    assert IsGlyph(g1[0]) && IsGlyph(g2[0]);
  }

  /** After the `c`, a table value holds digits and a fallback the glyphs. */
  lemma ChineseNumberTail(g: string)
    ensures g in ChineseNumerals ==> AllDigits(ChineseNumber(g)[1..])
    ensures g !in ChineseNumerals ==> ChineseNumber(g)[1..] == g
  {
  }

  // ---------------------------------------------------------------------
  // The loose start tests used by the segmenter

  /** `re.match(r'^\d+\.', s)`: such a line begins with a digit and holds
      a dot. */
  predicate MatchesArabicStart(s: string)
    ensures MatchesArabicStart(s) ==> s != [] && IsDigit(s[0]) && '.' in s
  {
    var d := Span(IsDigit, s);
    0 < d < |s| && s[d] == '.'
  }

  /** `re.match(r'^\s*[一二三四五六七八九十]+：', s)`: such a line holds a
      full-width colon, and begins with a glyph once stripped. */
  predicate MatchesChineseStart(s: string)
    ensures MatchesChineseStart(s) ==> FullWidthColon in s
    ensures MatchesChineseStart(s) && IsStripped(s) ==> s != [] && IsGlyph(s[0])
  {
    var w := Span(IsSpace, s);
    var g := Span(IsGlyph, s[w..]);
    0 < g && w + g < |s| && s[w + g] == FullWidthColon
  }

  /** A line of the form digits, `.`, anything. */
  predicate ArabicStartShape(s: string, n: string, r: string) {
    s == n + "." + r && n != [] && AllDigits(n)
  }

  /** A line of the form whitespace, glyphs, `：`, anything. */
  predicate ChineseStartShape(s: string, w: string, g: string, r: string) {
    s == w + g + [FullWidthColon] + r && AllSpace(w) && g != [] && AllGlyphs(g)
  }

  /** The loose Arabic start test accepts exactly the lines of that shape. */
  lemma ArabicStartMatchesShape(s: string)
    ensures MatchesArabicStart(s) <==> exists n, r :: ArabicStartShape(s, n, r)
  {
    if MatchesArabicStart(s) {
      var d := Span(IsDigit, s);
      DigitRun(s);
      assert s == s[..d] + [s[d]] + s[d + 1..];
      assert ArabicStartShape(s, s[..d], s[d + 1..]);
    }
    if exists n, r :: ArabicStartShape(s, n, r) {
      var n, r :| ArabicStartShape(s, n, r);
      forall k | 0 <= k < |n| ensures IsDigit(s[k]) {
        assert s[k] == n[k];
      }
      assert s[|n|] == '.';
      SpanIs(IsDigit, s, |n|);
    }
  }

  /** The loose Chinese start test accepts exactly the lines of that shape. */
  lemma ChineseStartMatchesShape(s: string)
    ensures MatchesChineseStart(s) <==> exists w, g, r :: ChineseStartShape(s, w, g, r)
  {
    if MatchesChineseStart(s) {
      ChineseStartIsShape(s);
    }
    if exists w, g, r :: ChineseStartShape(s, w, g, r) {
      var w, g, r :| ChineseStartShape(s, w, g, r);
      ChineseShapeStarts(s, w, g, r);
    }
  }

  lemma ChineseStartIsShape(s: string)
    requires MatchesChineseStart(s)
    ensures exists w, g, r :: ChineseStartShape(s, w, g, r)
  {
    var w := Span(IsSpace, s);
    var u := s[w..];
    var g := Span(IsGlyph, u);
    SpaceRun(s);
    GlyphRun(u);
    ChineseStartPieces(s, w, g);
  }

  lemma ChineseStartPieces(s: string, w: nat, g: nat)
    requires w + g < |s| && 0 < g && s[w + g] == FullWidthColon
    requires AllSpace(s[..w]) && AllGlyphs(s[w..][..g])
    ensures ChineseStartShape(s, s[..w], s[w..][..g], s[w..][g + 1..])
  {
    var u := s[w..];
    var ws, gs, rest := s[..w], u[..g], u[g + 1..];
    assert u[g] == FullWidthColon;
    assert u == gs + [FullWidthColon] + rest;
    assert s == ws + u;
    AppendAssoc4(s, ws, gs, rest);
  }

  /** The glyphs a greedy `[一二三四五六七八九十]+` consumes. */
  lemma GlyphRun(u: string)
    ensures AllGlyphs(u[..Span(IsGlyph, u)])
  {
    var g := Span(IsGlyph, u);
    SpanFacts(IsGlyph, u);
    forall k | 0 <= k < g ensures IsGlyph(u[..g][k]) {
      assert u[..g][k] == u[k];
    }
  }

  lemma AppendAssoc4(s: string, ws: string, gs: string, rest: string)
    requires s == ws + (gs + [FullWidthColon] + rest)
    ensures s == ws + gs + [FullWidthColon] + rest
  {
  }

  lemma ChineseShapeStarts(s: string, w: string, g: string, r: string)
    requires ChineseStartShape(s, w, g, r)
    ensures MatchesChineseStart(s)
  {
    forall k | 0 <= k < |w| ensures IsSpace(s[k]) {
      assert s[k] == w[k];
    }
    assert s[|w|] == g[0];
    SpanIs(IsSpace, s, |w|);
    var u := s[|w|..];
    assert u == g + [FullWidthColon] + r;
    forall k | 0 <= k < |g| ensures IsGlyph(u[k]) {
      assert u[k] == g[k];
    }
    assert u[|g|] == FullWidthColon;
    SpanIs(IsGlyph, u, |g|);
  }

  // ---------------------------------------------------------------------
  // The full heading patterns used by the parser

  /** `re.match(r'^(\d+)\.\s+(.+)$', first)`, giving the two groups. It is
      applied only to a stripped line, where the greedy reading below and
      the backtracking regex agree: the line cannot end in whitespace or a
      newline, so `\s+` keeps its longest run and `(.+)$` takes the rest,
      which must hold no newline. */
  function MatchArabic(first: string): (r: Option<(string, string)>)
    ensures r.Some? ==> r.value.0 != [] && r.value.1 != [] && '\n' !in r.value.1
  {
    var d := Span(IsDigit, first);
    if 0 < d < |first| && first[d] == '.' then
      var rest := first[d + 1..];
      var w := Span(IsSpace, rest);
      var tail := rest[w..];
      if 0 < w && tail != [] && '\n' !in tail then Some((first[..d], tail)) else None
    else None
  }

  /** `re.match(r'^\s*([一二三四五六七八九十]+)：(.+)$', first)`, giving
      the two groups. The title is everything after the colon, untrimmed. */
  function MatchChinese(first: string): (r: Option<(string, string)>)
    ensures r.Some? ==> r.value.0 != [] && r.value.1 != [] && '\n' !in r.value.1
  {
    var w := Span(IsSpace, first);
    var g := Span(IsGlyph, first[w..]);
    if 0 < g && w + g < |first| && first[w + g] == FullWidthColon then
      var tail := first[w + g + 1..];
      if tail != [] && '\n' !in tail then Some((first[w..w + g], tail)) else None
    else None
  }

  /** A first line of the form digits, `.`, whitespace, title. */
  predicate ArabicShape(first: string, n: string, t: string) {
    |n| + 2 + |t| <= |first|
    && var w := first[|n| + 1..|first| - |t|];
       first == n + "." + w + t
       && n != [] && AllDigits(n) && AllSpace(w)
       && t != [] && !IsSpace(t[0]) && '\n' !in t
  }

  /** A first line of the form glyphs, `：`, title. */
  predicate ChineseShape(first: string, g: string, t: string) {
    first == g + [FullWidthColon] + t
    && g != [] && AllGlyphs(g) && t != [] && '\n' !in t
  }

  /** The Arabic pattern matches exactly the lines of Arabic shape, and its
      groups are the digits and the title after the whitespace. */
  lemma ArabicMatchShape(first: string, n: string, t: string)
    requires IsStripped(first)
    ensures MatchArabic(first) == Some((n, t)) <==> ArabicShape(first, n, t)
  {
    if ArabicShape(first, n, t) {
      ArabicShapeMatches(first, n, t);
    }
    if MatchArabic(first) == Some((n, t)) {
      ArabicMatchIsShape(first, n, t);
    }
  }

  lemma ArabicShapeMatches(first: string, n: string, t: string)
    requires IsStripped(first) && ArabicShape(first, n, t)
    ensures MatchArabic(first) == Some((n, t))
  {
      var w := first[|n| + 1..|first| - |t|];
      forall k | 0 <= k < |n| ensures IsDigit(first[k]) {
        assert first[k] == n[k];
      }
      SpanIs(IsDigit, first, |n|);
      var rest := first[|n| + 1..];
      assert rest == w + t;
      forall k | 0 <= k < |w| ensures IsSpace(rest[k]) {
        assert rest[k] == w[k];
      }
      assert rest[|w|] == t[0];
      SpanIs(IsSpace, rest, |w|);
      assert rest[|w|..] == t;
      assert first[..|n|] == n;
  }

  lemma ArabicMatchIsShape(first: string, n: string, t: string)
    requires IsStripped(first) && MatchArabic(first) == Some((n, t))
    ensures ArabicShape(first, n, t)
  {
    var d := Span(IsDigit, first);
    var rest := first[d + 1..];
    var w := Span(IsSpace, rest);
    DigitRun(first);
    SpaceRun(rest);
    assert n == first[..d];
    assert t == rest[w..];
    var ws := rest[..w];
    assert t[0] == rest[w];
    assert rest == ws + t;
    assert first == first[..d] + [first[d]] + rest;
    assert first == n + "." + ws + t;
    MiddleOf(first, n + ".", ws, t);
  }

  /** The Chinese pattern matches exactly the lines of Chinese shape. */
  lemma ChineseMatchShape(first: string, g: string, t: string)
    requires IsStripped(first)
    ensures MatchChinese(first) == Some((g, t)) <==> ChineseShape(first, g, t)
  {
    if ChineseShape(first, g, t) {
      ChineseShapeMatches(first, g, t);
    }
    if MatchChinese(first) == Some((g, t)) {
      ChineseMatchIsShape(first, g, t);
    }
  }

  lemma ChineseShapeMatches(first: string, g: string, t: string)
    requires IsStripped(first) && ChineseShape(first, g, t)
    ensures MatchChinese(first) == Some((g, t))
  {
    assert first[0] == g[0];
    SpanIs(IsSpace, first, 0);
    assert first[0..] == first;
    forall k | 0 <= k < |g| ensures IsGlyph(first[k]) {
      assert first[k] == g[k];
    }
    SpanIs(IsGlyph, first, |g|);
    assert first[|g|] == FullWidthColon;
    assert first[|g| + 1..] == t;
    assert first[0..|g|] == g;
  }

  lemma ChineseMatchIsShape(first: string, g: string, t: string)
    requires IsStripped(first) && MatchChinese(first) == Some((g, t))
    ensures ChineseShape(first, g, t)
  {
    assert Span(IsSpace, first) == 0;
    assert first[0..] == first;
    var k := Span(IsGlyph, first);
    SpanFacts(IsGlyph, first);
    assert g == first[..k];
    assert t == first[k + 1..];
    assert first == first[..k] + [first[k]] + first[k + 1..];
  }

  /** No line has both shapes, so trying the Arabic pattern first decides
      nothing on its own. */
  lemma ShapesExclusive(first: string, n: string, t: string, g: string, u: string)
    requires ArabicShape(first, n, t)
    ensures !ChineseShape(first, g, u)
  {
    assert first[0] == n[0] && IsDigit(first[0]);
  }

  // ---------------------------------------------------------------------
  // The year

  predicate IsOpenParen(c: char) { c == '(' || c == '（' }

  predicate IsCloseParen(c: char) { c == ')' || c == '）' }

  /** `[(（](\d{4})[)）]` matches at index `k`; bracket styles may mix. */
  predicate YearAt(s: string, k: nat) {
    k + 6 <= |s| && IsOpenParen(s[k]) && AllDigits(s[k + 1..k + 5]) && IsCloseParen(s[k + 5])
  }

  /** `re.search` for that pattern from `from` onwards: the leftmost match. */
  function FindYear(s: string, from: nat): (r: Option<nat>)
    decreases |s| - from
    ensures r.Some? ==> from <= r.value && YearAt(s, r.value)
    ensures forall k: nat :: from <= k && (r.None? || k < r.value) ==> !YearAt(s, k)
  {
    if |s| < from + 6 then None
    else if YearAt(s, from) then Some(from)
    else FindYear(s, from + 1)
  }

  /** The year used when the venue line holds no bracketed year. */
  const FallbackYear: string := "2015"

  predicate IsYear(y: string) {
    |y| == 4 && AllDigits(y)
  }

  /** The year of an entry: the four digits of the leftmost bracketed year
      in the venue line, or the fallback. */
  function YearOf(other: string): (y: string)
    ensures IsYear(y)
  {
    match FindYear(other, 0)
    case Some(k) => other[k + 1..k + 5]
    case None => FallbackYear
  }

  /** The year is taken from the leftmost match and from no later one. */
  lemma YearOfLeftmost(s: string, k: nat)
    requires YearAt(s, k)
    requires forall j: nat :: j < k ==> !YearAt(s, j)
    ensures YearOf(s) == s[k + 1..k + 5]
  {
  }

  /** Without any match the year falls back to 2015. */
  lemma YearOfFallback(s: string)
    requires forall k: nat :: !YearAt(s, k)
    ensures YearOf(s) == FallbackYear
  {
  }

  // ---------------------------------------------------------------------
  // The parser

  /** The second line, stripped, or empty when the entry has only one. */
  function AuthorText(lines: seq<string>): string {
    if |lines| > 1 then Strip(lines[1]) else ""
  }

  /** The third line, stripped, or empty when the entry has fewer. */
  function OtherText(lines: seq<string>): string {
    if |lines| > 2 then Strip(lines[2]) else ""
  }

  /** `parse_publication_entry`: `None` when the stripped first line fits
      neither heading pattern. An entry has a number, and its year is the
      four digits its venue text gives. */
  function ParseEntry(lines: seq<string>): (r: Option<Entry>)
    requires |lines| >= 1
    ensures r.Some? ==> r.value.number != [] && r.value.year == YearOf(r.value.otherText)
  {
    var first := Strip(lines[0]);
    var author := AuthorText(lines);
    var other := OtherText(lines);
    match MatchArabic(first)
    case Some((number, title)) =>
      Some(Entry(number, title, author, other, YearOf(other), English))
    case None =>
      match MatchChinese(first)
      case Some((glyphs, title)) =>
        Some(Entry(ChineseNumber(glyphs), title, author, other, YearOf(other), Chinese))
      case None => None
  }

  /** Every entry has a non-empty number and a four-digit year; an Arabic
      number is a digit string and a Chinese one starts with `c`. */
  lemma ParsedFields(lines: seq<string>)
    requires |lines| >= 1 && ParseEntry(lines).Some?
    ensures ParseEntry(lines).value.number != [] && IsYear(ParseEntry(lines).value.year)
    ensures ParseEntry(lines).value.kind == English ==> AllDigits(ParseEntry(lines).value.number)
    ensures ParseEntry(lines).value.kind == Chinese ==> ParseEntry(lines).value.number[0] == 'c'
  {
    SpanFacts(IsDigit, Strip(lines[0]));
  }

  /** An entry parsed from lines as `readlines()` yields them has no newline
      in any field it renders: the patterns keep the title on one line and
      stripping drops the newline that ends a line. */
  lemma ParsedSingleLine(lines: seq<string>)
    requires |lines| >= 1 && ParseEntry(lines).Some?
    requires forall k :: 0 <= k < |lines| ==> IsTextLine(lines[k])
    ensures var e := ParseEntry(lines).value;
            '\n' !in e.title && '\n' !in e.authorText && '\n' !in e.otherText && '\n' !in e.year
  {
    var e := ParseEntry(lines).value;
    if |lines| > 1 {
      StripTextLine(lines[1]);
    }
    if |lines| > 2 {
      StripTextLine(lines[2]);
    }
    assert IsYear(e.year);
    assert forall k :: 0 <= k < |e.year| ==> e.year[k] != '\n';
  }

  /** An Arabic heading gives its digit string as the number and the text
      after the whitespace as the title, with the English tag; and only such
      a heading gives that entry. */
  lemma ParseArabic(lines: seq<string>, n: string, t: string)
    requires |lines| >= 1
    ensures ArabicShape(Strip(lines[0]), n, t)
            <==> ParseEntry(lines) == Some(Entry(n, t, AuthorText(lines), OtherText(lines),
                                                 YearOf(OtherText(lines)), English))
  {
    ArabicMatchShape(Strip(lines[0]), n, t);
  }

  /** A Chinese heading gives the mapped numeral and the text after the
      colon as the title, with the Chinese tag; and only such a heading
      gives that entry. */
  lemma ParseChinese(lines: seq<string>, g: string, t: string)
    requires |lines| >= 1
    requires g != [] && AllGlyphs(g)
    ensures ChineseShape(Strip(lines[0]), g, t)
            <==> ParseEntry(lines) == Some(Entry(ChineseNumber(g), t, AuthorText(lines), OtherText(lines),
                                                 YearOf(OtherText(lines)), Chinese))
  {
    var first := Strip(lines[0]);
    ChineseMatchShape(first, g, t);
    if ChineseShape(first, g, t) {
      match MatchArabic(first)
      case Some((n, u)) =>
        ArabicMatchShape(first, n, u);
        ShapesExclusive(first, n, u, g, t);
      case None =>
    }
    var r := ParseEntry(lines);
    if r == Some(Entry(ChineseNumber(g), t, AuthorText(lines), OtherText(lines),
                       YearOf(OtherText(lines)), Chinese)) {
      match MatchChinese(first)
      case Some((g', u)) =>
        ChineseMatchShape(first, g', u);
        ChineseNumberInjective(g, g');
      case None =>
    }
  }

  /** The strict patterns accept only lines the loose start tests accept. */
  lemma ParseImpliesStart(lines: seq<string>)
    requires |lines| >= 1
    requires ParseEntry(lines).Some?
    ensures MatchesArabicStart(Strip(lines[0])) || MatchesChineseStart(Strip(lines[0]))
  {
    var first := Strip(lines[0]);
    if MatchArabic(first).None? {
      assert MatchChinese(first).Some?;
    }
  }

  /** No entry comes out exactly when the stripped first line has neither
      heading shape. */
  lemma ParseNone(lines: seq<string>)
    requires |lines| >= 1
    ensures ParseEntry(lines).None?
            <==> (forall n, t :: !ArabicShape(Strip(lines[0]), n, t))
                 && (forall g, t :: !ChineseShape(Strip(lines[0]), g, t))
  {
    var first := Strip(lines[0]);
    forall n, t ensures MatchArabic(first) == Some((n, t)) <==> ArabicShape(first, n, t) {
      ArabicMatchShape(first, n, t);
    }
    forall g, t ensures MatchChinese(first) == Some((g, t)) <==> ChineseShape(first, g, t) {
      ChineseMatchShape(first, g, t);
    }
  }

  /** Whether a group parses is decided by its first line alone. */
  lemma ParseDecidedByFirst(lines: seq<string>)
    requires |lines| >= 1
    ensures ParseEntry(lines).None? <==> ParseEntry([lines[0]]).None?
  {
    assert [lines[0]][0] == lines[0];
  }

  /** A line that passes the loose Arabic start test but has no whitespace
      after the dot is rejected. */
  lemma ParseRejectsNoSpace()
    ensures MatchesArabicStart("3.Title") && ParseEntry(["3.Title"]) == None
  {
    var first := "3.Title";
    StrippedIsFixpoint(first);
    SpanIs(IsDigit, first, 1);
    SpanIs(IsSpace, first[2..], 0);
    SpanIs(IsSpace, first, 0);
    SpanIs(IsGlyph, first, 0);
  }

  /** A number with nothing after the dot is rejected. */
  lemma ParseRejectsBareNumber()
    ensures ParseEntry(["3."]) == None
  {
  }

  /** A line with no number at all is rejected. */
  lemma ParseRejectsUnnumbered()
    ensures ParseEntry(["Title"]) == None
  {
  }

  /** Arabic numbers are digit strings and Chinese numbers start with `c`,
      so entries of the two kinds never share a directory. */
  lemma NumbersDisjoint(a: seq<string>, b: seq<string>)
    requires |a| >= 1 && |b| >= 1
    requires ParseEntry(a).Some? && ParseEntry(b).Some?
    requires ParseEntry(a).value.kind != ParseEntry(b).value.kind
    ensures ParseEntry(a).value.number != ParseEntry(b).value.number
  {
    ParsedFields(a);
    ParsedFields(b);
    var ea, eb := ParseEntry(a).value, ParseEntry(b).value;
    if ea.kind == English {
      assert IsDigit(ea.number[0]);
    } else {
      assert IsDigit(eb.number[0]);
    }
  }

  /** Every glyph has its table entry; a longer numeral such as 十一 falls
      back to `c` followed by its glyphs. */
  lemma ChineseNumberExamples()
    ensures ChineseNumber("一") == "c1" && ChineseNumber("三") == "c3" && ChineseNumber("十") == "c10"
    ensures ChineseNumber("十一") == "c十一"
  {
  }

  /** Half-width, full-width and mixed brackets all give the year. */
  lemma YearOfHalfWidth()
    ensures YearOf("Journal X (2020)") == "2020"
  {
    var s := "Journal X (2020)";
    assert AllDigits(s[11..15]) by { assert s[11..15] == "2020"; }
    assert FindYear(s, 10) == Some(10);
  }

  lemma YearOfFullWidth()
    ensures YearOf("期刊（2019）") == "2019"
  {
    var u := "期刊（2019）";
    assert AllDigits(u[3..7]) by { assert u[3..7] == "2019"; }
    assert FindYear(u, 2) == Some(2);
  }

  lemma YearOfMixedBrackets()
    ensures YearOf("Venue (2020）") == "2020"
  {
    var s := "Venue (2020）";
    assert AllDigits(s[7..11]) by { assert s[7..11] == "2020"; }
    assert FindYear(s, 6) == Some(6);
  }

  /** No bracketed year, or five digits in the brackets: the fallback. */
  lemma YearOfNoBrackets()
    ensures YearOf("Journal, no year") == FallbackYear
  {
  }

  lemma YearOfFiveDigits()
    ensures YearOf("(20201)") == FallbackYear
  {
  }
}
