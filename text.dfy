/** Character classes and the few string operations the publication script
    relies on: Python's `str.strip()`, the regex classes `\s` and `\d`, and
    splitting a document into newline-terminated lines. */
module Text {

  datatype Option<T> = None | Some(value: T)

  /** The characters CPython treats as whitespace, both in `str.strip()` with
      no argument and in the regex class `\s` of a `str` pattern. */
  predicate IsSpace(c: char) {
    ('\t' <= c <= '\r') || ('\U{1C}' <= c <= '\U{1F}') || c == ' '
    || c == '\U{85}' || c == '\U{A0}' || c == '\U{1680}'
    || ('\U{2000}' <= c <= '\U{200A}') || c == '\U{2028}' || c == '\U{2029}'
    || c == '\U{202F}' || c == '\U{205F}' || c == '\U{3000}'
  }

  /** The regex class `\d`, restricted to ASCII and full-width digits. */
  predicate IsDigit(c: char) {
    ('0' <= c <= '9') || ('\U{FF10}' <= c <= '\U{FF19}')
  }

  predicate AllDigits(s: string) {
    forall k :: 0 <= k < |s| ==> IsDigit(s[k])
  }

  predicate AllSpace(s: string) {
    forall k :: 0 <= k < |s| ==> IsSpace(s[k])
  }

  /** Length of the longest prefix of `s` whose characters all satisfy `p`:
      what a greedy `[...]*` consumes. */
  function Span(p: char -> bool, s: string): (n: nat)
    ensures n <= |s|
  {
    if |s| > 0 && p(s[0]) then 1 + Span(p, s[1..]) else 0
  }

  /** The span is a run of `p` characters that cannot be extended. Kept out
      of `Span`'s own contract so that callers pay for it only on demand. */
  lemma {:induction false} SpanFacts(p: char -> bool, s: string)
    ensures forall k :: 0 <= k < Span(p, s) ==> p(s[k])
    ensures Span(p, s) == |s| || !p(s[Span(p, s)])
  {
    if |s| > 0 && p(s[0]) {
      SpanFacts(p, s[1..]);
      forall k | 0 <= k < Span(p, s) ensures p(s[k]) {
        if k > 0 {
          assert s[k] == s[1..][k - 1];
        }
      }
    }
  }

  /** The digits a greedy `\d+` consumes. */
  lemma DigitRun(s: string)
    ensures AllDigits(s[..Span(IsDigit, s)])
  {
    var n := Span(IsDigit, s);
    SpanFacts(IsDigit, s);
    forall k | 0 <= k < n ensures IsDigit(s[..n][k]) {
      assert s[..n][k] == s[k];
    }
  }

  /** The whitespace a greedy `\s*` consumes, and the character that stops
      it. */
  lemma SpaceRun(s: string)
    ensures AllSpace(s[..Span(IsSpace, s)])
    ensures Span(IsSpace, s) == |s| || !IsSpace(s[Span(IsSpace, s)])
  {
    var n := Span(IsSpace, s);
    SpanFacts(IsSpace, s);
    forall k | 0 <= k < n ensures IsSpace(s[..n][k]) {
      assert s[..n][k] == s[k];
    }
  }

  /** `Span` is characterised by its two postconditions: any `n` meeting them
      is the span. */
  lemma {:induction false} SpanIs(p: char -> bool, s: string, n: nat)
    requires n <= |s|
    requires forall k :: 0 <= k < n ==> p(s[k])
    requires n == |s| || !p(s[n])
    ensures Span(p, s) == n
  {
    if n > 0 {
      assert p(s[0]);
      forall k | 0 <= k < n - 1 ensures p(s[1..][k]) {
        assert s[1..][k] == s[k + 1];
      }
      assert n - 1 == |s| - 1 || s[1..][n - 1] == s[n];
      SpanIs(p, s[1..], n - 1);
    }
  }

  /** Length of the longest suffix of `s` whose characters all satisfy `p`. */
  function SpanEnd(p: char -> bool, s: string): (n: nat)
    ensures n <= |s|
  {
    if |s| > 0 && p(s[|s| - 1]) then 1 + SpanEnd(p, s[..|s| - 1]) else 0
  }

  lemma {:induction false} SpanEndFacts(p: char -> bool, s: string)
    ensures forall k :: |s| - SpanEnd(p, s) <= k < |s| ==> p(s[k])
    ensures SpanEnd(p, s) == |s| || !p(s[|s| - SpanEnd(p, s) - 1])
  {
    if |s| > 0 && p(s[|s| - 1]) {
      var s' := s[..|s| - 1];
      SpanEndFacts(p, s');
      forall k | |s| - SpanEnd(p, s) <= k < |s| ensures p(s[k]) {
        if k < |s| - 1 {
          assert s[k] == s'[k];
        }
      }
      if SpanEnd(p, s) < |s| {
        assert s[|s| - SpanEnd(p, s) - 1] == s'[|s'| - SpanEnd(p, s') - 1];
      }
    }
  }

  /** A string `str.strip()` leaves unchanged. */
  predicate IsStripped(s: string) {
    s == [] || (!IsSpace(s[0]) && !IsSpace(s[|s| - 1]))
  }

  /** Python's `str.strip()`: drops leading and trailing whitespace. What
      it returns is stripped and no longer than its input. */
  function Strip(s: string): (r: string)
    ensures IsStripped(r) && |r| <= |s|
  {
    var t := s[Span(IsSpace, s)..];
    SpanFacts(IsSpace, s);
    SpanEndFacts(IsSpace, t);
    t[..|t| - SpanEnd(IsSpace, t)]
  }

  /** `Strip` keeps exactly a contiguous piece of its input and removes only
      whitespace around it. */
  lemma StripSlice(s: string)
    ensures var a := Span(IsSpace, s);
            a + |Strip(s)| <= |s| && Strip(s) == s[a..a + |Strip(s)|]
            && AllSpace(s[..a]) && AllSpace(s[a + |Strip(s)|..])
  {
    var a := Span(IsSpace, s);
    var t := s[a..];
    var b := SpanEnd(IsSpace, t);
    var r := t[..|t| - b];
    assert Strip(s) == r;
    SpanFacts(IsSpace, s);
    SpanEndFacts(IsSpace, t);
    forall k | 0 <= k < a ensures IsSpace(s[..a][k]) {
      assert s[..a][k] == s[k];
    }
    var tail := t[|t| - b..];
    assert s[a + |r|..] == tail;
    forall k | 0 <= k < b ensures IsSpace(tail[k]) {
      assert tail[k] == t[|t| - b + k];
    }
    assert s[a..a + |r|] == r;
  }

  /** Stripping twice is stripping once. */
  lemma StripIdempotent(s: string)
    ensures Strip(Strip(s)) == Strip(s)
  {
    StrippedIsFixpoint(Strip(s));
  }

  lemma StrippedIsFixpoint(s: string)
    requires IsStripped(s)
    ensures Strip(s) == s
  {
    if s != [] {
      assert Span(IsSpace, s) == 0;
      assert SpanEnd(IsSpace, s) == 0;
    }
  }

  /** A line as `readlines()` yields it: a newline can only be its last
      character. Stripping such a line leaves no newline at all. */
  predicate IsTextLine(l: string) {
    forall k :: 0 <= k < |l| - 1 ==> l[k] != '\n'
  }

  lemma StripTextLine(l: string)
    requires IsTextLine(l)
    ensures '\n' !in Strip(l)
  {
    StripSlice(l);
    var r := Strip(l);
    var a := Span(IsSpace, l);
    if r != [] {
      forall k | 0 <= k < |r| ensures r[k] != '\n' {
        assert r[k] == l[a + k];
        if k == |r| - 1 {
          assert !IsSpace(r[k]);
        } else {
          assert a + k < |l| - 1;
        }
      }
    }
  }

  /** Stripping a line as `readlines()` yields it drops just its newline
      when the text before it is already stripped. */
  lemma StripLineEnd(t: string)
    requires t != [] && IsStripped(t)
    ensures Strip(t + "\n") == t
  {
    var l := t + "\n";
    assert l[0] == t[0];
    SpanIs(IsSpace, l, 0);
    assert l[0..] == l;
    assert l[..|l| - 1] == t;
    assert SpanEnd(IsSpace, t) == 0;
    assert SpanEnd(IsSpace, l) == 1;
  }

  /** True when `s` begins with `p`. */
  predicate HasPrefix(s: string, p: string) {
    |p| <= |s| && s[..|p|] == p
  }

  /** The text between a known prefix and a known suffix, if `s` has both. */
  function Between(s: string, pre: string, post: string): (r: Option<string>)
    ensures r.Some? <==> |pre| + |post| <= |s| && HasPrefix(s, pre) && s[|s| - |post|..] == post
    ensures r.Some? ==> s == pre + r.value + post
  {
    if |pre| + |post| <= |s| && s[..|pre|] == pre && s[|s| - |post|..] == post
    then
      var inner := s[|pre|..|s| - |post|];
      assert s == s[..|pre|] + inner + s[|s| - |post|..];
      Some(inner)
    else None
  }

  lemma BetweenOf(pre: string, x: string, post: string)
    ensures Between(pre + x + post, pre, post) == Some(x)
  {
    var s := pre + x + post;
    assert s[..|pre|] == pre;
    assert s[|s| - |post|..] == post;
    assert s[|pre|..|s| - |post|] == x;
  }

  /** The piece of a concatenation between its outer parts. */
  lemma MiddleOf(s: string, a: string, m: string, b: string)
    requires s == a + m + b
    ensures s[|a|..|s| - |b|] == m
  {
  }

  /** Each line followed by a newline, the way a multi-line string literal
      spells a document. */
  function Join(ls: seq<string>): string {
    if ls == [] then "" else ls[0] + "\n" + Join(ls[1..])
  }

  predicate NotNewline(c: char) { c != '\n' }

  /** Splits a document into its lines; a final newline ends the last line
      rather than starting an empty one. */
  function SplitLines(s: string): seq<string>
    decreases |s|
  {
    if s == [] then []
    else
      var k := Span(NotNewline, s);
      if k == |s| then [s] else [s[..k]] + SplitLines(s[k + 1..])
  }

  /** Splitting undoes joining when no line has a newline of its own. */
  lemma {:induction false} SplitJoin(ls: seq<string>)
    requires forall k :: 0 <= k < |ls| ==> '\n' !in ls[k]
    ensures SplitLines(Join(ls)) == ls
  {
    if ls != [] {
      var s := Join(ls);
      var l := ls[0];
      assert s == l + ("\n" + Join(ls[1..]));
      var k := Span(NotNewline, s);
      SpanFacts(NotNewline, s);
      forall i | 0 <= i < |l| ensures NotNewline(s[i]) {
        assert s[i] == l[i];
      }
      assert s[|l|] == '\n';
      assert k == |l|;
      assert s[..k] == l;
      assert s[k + 1..] == Join(ls[1..]);
      SplitJoin(ls[1..]);
    }
  }
}
