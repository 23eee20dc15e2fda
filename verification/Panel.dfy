/**
  The text page of the panel: three lines of ten characters a page. A carriage return or line feed only ends
  a line.
 */
module Panel {
  import opened Bytes
  import opened Utf8

  const LINES_PER_PAGE := 3
  const LINE_CHARS := 10
  const PAGE_CHARS := 30
  const MAX_TEXT := 4096

  predicate IsBreak(c: Code) {
    c == 0x0D || c == 0x0A
  }

  datatype Line = Line(drawn: seq<Code>, rest: seq<Code>)

  /** What a line with room for n characters draws of `cs`, and what it leaves for the next line. */
  function DrawLine(cs: seq<Code>, n: nat): Line {
    if n == 0 || cs == [] then Line([], cs)
    else if IsBreak(cs[0]) then Line([], cs[1..])
    else
      var more := DrawLine(cs[1..], n - 1);
      Line([cs[0]] + more.drawn, more.rest)
  }

  function DrawLines(cs: seq<Code>, lines: nat): (r: seq<seq<Code>>)
    ensures |r| == lines
    decreases lines
  {
    if lines == 0 then []
    else
      var first := DrawLine(cs, LINE_CHARS);
      [first.drawn] + DrawLines(first.rest, lines - 1)
  }

  function From(cs: seq<Code>, start: nat): seq<Code> {
    if start <= |cs| then cs[start..] else []
  }

  /** The lines of page k: the text is entered at character 30 k, counting line breaks too. */
  function DrawPage(cs: seq<Code>, k: nat): seq<seq<Code>> {
    DrawLines(From(cs, PAGE_CHARS * k), LINES_PER_PAGE)
  }

  /** The fewest pages, one at least, that thirty characters each make room for. */
  function PageCount(n: nat): (k: nat)
    ensures k >= 1 && n <= PAGE_CHARS * k && (k > 1 ==> PAGE_CHARS * (k - 1) < n)
  {
    if n == 0 then 1 else (n + PAGE_CHARS - 1) / PAGE_CHARS
  }

  function Join(lines: seq<seq<Code>>): seq<Code> {
    if lines == [] then [] else lines[0] + Join(lines[1..])
  }

  /** Everything that paging from page 0 through page k - 1 draws. */
  function DrawnBefore(cs: seq<Code>, k: nat): seq<Code> {
    if k == 0 then [] else DrawnBefore(cs, k - 1) + Join(DrawPage(cs, k - 1))
  }

  // ---------- Pages partition text without line breaks ----------

  predicate NoBreaks(cs: seq<Code>) {
    forall i :: 0 <= i < |cs| ==> !IsBreak(cs[i])
  }

  function Min(a: nat, b: nat): nat {
    if a < b then a else b
  }

  lemma {:induction false} PlainLine(cs: seq<Code>, n: nat)
    requires NoBreaks(cs)
    ensures DrawLine(cs, n) == Line(cs[..Min(n, |cs|)], cs[Min(n, |cs|)..])
  {
    if n != 0 && cs != [] {
      PlainLine(cs[1..], n - 1);
      assert cs[..Min(n, |cs|)] == [cs[0]] + cs[1..][..Min(n - 1, |cs| - 1)];
    }
  }

  lemma {:induction false} PlainLines(cs: seq<Code>, lines: nat)
    requires NoBreaks(cs)
    ensures Join(DrawLines(cs, lines)) == cs[..Min(LINE_CHARS * lines, |cs|)]
  {
    if lines != 0 {
      var m := Min(LINE_CHARS, |cs|);
      PlainLine(cs, LINE_CHARS);
      PlainLines(cs[m..], lines - 1);
      assert DrawLines(cs, lines)[1..] == DrawLines(cs[m..], lines - 1);
      assert cs[..Min(LINE_CHARS * lines, |cs|)] == cs[..m] + cs[m..][..Min(LINE_CHARS * (lines - 1), |cs| - m)];
    }
  }

  lemma PageExtends(cs: seq<Code>, start: nat)
    ensures cs[..Min(start, |cs|)] + From(cs, start)[..Min(PAGE_CHARS, |From(cs, start)|)] ==
            cs[..Min(start + PAGE_CHARS, |cs|)]
  {
  }

  lemma {:induction false} PlainPrefix(cs: seq<Code>, k: nat)
    requires NoBreaks(cs)
    ensures DrawnBefore(cs, k) == cs[..Min(PAGE_CHARS * k, |cs|)]
  {
    hide DrawLines;
    if k != 0 {
      PlainPrefix(cs, k - 1);
      var start := PAGE_CHARS * (k - 1);
      PlainLines(From(cs, start), LINES_PER_PAGE);
      PageExtends(cs, start);
    }
  }

  lemma {:induction false} LineDrawsNoBreak(cs: seq<Code>, n: nat)
    ensures NoBreaks(DrawLine(cs, n).drawn)
  {
    if n != 0 && cs != [] {
      LineDrawsNoBreak(cs[1..], n - 1);
    }
  }

  lemma {:induction false} LinesDrawNoBreak(cs: seq<Code>, lines: nat)
    ensures NoBreaks(Join(DrawLines(cs, lines)))
    decreases lines
  {
    if lines != 0 {
      var first := DrawLine(cs, LINE_CHARS);
      LineDrawsNoBreak(cs, LINE_CHARS);
      LinesDrawNoBreak(first.rest, lines - 1);
      assert DrawLines(cs, lines)[1..] == DrawLines(first.rest, lines - 1);
    }
  }

  lemma {:induction false} DrawnHasNoBreak(cs: seq<Code>, k: nat)
    ensures NoBreaks(DrawnBefore(cs, k))
  {
    if k != 0 {
      DrawnHasNoBreak(cs, k - 1);
      LinesDrawNoBreak(From(cs, PAGE_CHARS * (k - 1)), LINES_PER_PAGE);
    }
  }

  /** Pages 0 .. page_count - 1 draw every character once and in order exactly when the text has no line break. */
  lemma PagesPartitionText(cs: seq<Code>)
    ensures DrawnBefore(cs, PageCount(|cs|)) == cs <==> NoBreaks(cs)
  {
    hide DrawnBefore;
    DrawnHasNoBreak(cs, PageCount(|cs|));
    if NoBreaks(cs) {
      PlainPrefix(cs, PageCount(|cs|));
      assert Min(PAGE_CHARS * PageCount(|cs|), |cs|) == |cs|;
    }
  }

  /** Well-formed UTF-8 of any code points but NUL, CR and LF: paging through shows exactly those code points. */
  lemma EncodedTextIsShownWhole(cs: seq<Code>)
    requires 0 !in cs && NoBreaks(cs)
    ensures var s := EncodeAll(cs) + [0];
            Codes(s, 0) == cs && DrawnBefore(Codes(s, 0), PageCount(|Codes(s, 0)|)) == cs
  {
    hide DrawnBefore, Codes;
    var s := EncodeAll(cs) + [0];
    assert s[0..] == s;
    RoundTrip(cs, s, 0);
    PagesPartitionText(cs);
  }

  // ---------- What line breaks cost ----------

  /** The characters that can be drawn at all. */
  function Visible(cs: seq<Code>): seq<Code> {
    if cs == [] then [] else (if IsBreak(cs[0]) then [] else [cs[0]]) + Visible(cs[1..])
  }

  lemma {:induction false} VisibleConcat(a: seq<Code>, b: seq<Code>)
    ensures Visible(a + b) == Visible(a) + Visible(b)
  {
    if a == [] {
      assert a + b == b;
    } else {
      assert (a + b)[1..] == a[1..] + b;
      VisibleConcat(a[1..], b);
    }
  }

  lemma {:induction false} PlainIsVisible(cs: seq<Code>)
    requires NoBreaks(cs)
    ensures Visible(cs) == cs
  {
    if cs != [] {
      PlainIsVisible(cs[1..]);
    }
  }

  /** What is left of `cs` after a number of lines. */
  function RestOf(cs: seq<Code>, lines: nat): seq<Code>
    decreases lines
  {
    if lines == 0 then cs else RestOf(DrawLine(cs, LINE_CHARS).rest, lines - 1)
  }

  /** A line ends right after the first break, or else when n codes are drawn or the text is at its end. */
  lemma {:induction false} LineEnds(cs: seq<Code>, n: nat)
    ensures var taken := |cs| - |DrawLine(cs, n).rest|;
            && 0 <= taken <= n
            && (forall i :: 0 <= i < taken - 1 ==> !IsBreak(cs[i]))
            && (taken < n && taken < |cs| ==> taken > 0 && IsBreak(cs[taken - 1]))
  {
    if n != 0 && cs != [] && !IsBreak(cs[0]) {
      LineEnds(cs[1..], n - 1);
    }
  }

  /** A line consumes at most n codes and draws the visible ones of those. */
  lemma {:induction false} LineConsumes(cs: seq<Code>, n: nat)
    ensures var line := DrawLine(cs, n);
            var taken := |cs| - |line.rest|;
            && 0 <= taken <= n && line.rest == cs[taken..] && line.drawn == Visible(cs[..taken])
  {
    if n != 0 && cs != [] {
      if IsBreak(cs[0]) {
        assert cs[..1][1..] == [];
      } else {
        LineConsumes(cs[1..], n - 1);
        var taken := |cs| - |DrawLine(cs, n).rest|;
        assert cs[..taken][1..] == cs[1..][..taken - 1];
      }
    }
  }

  lemma {:induction false} LinesConsume(cs: seq<Code>, lines: nat)
    ensures var taken := |cs| - |RestOf(cs, lines)|;
            && 0 <= taken <= LINE_CHARS * lines && RestOf(cs, lines) == cs[taken..]
            && Join(DrawLines(cs, lines)) == Visible(cs[..taken])
    decreases lines
  {
    hide DrawLine, Visible;
    if lines == 0 {
      PlainIsVisible([]);
    } else {
      var first := DrawLine(cs, LINE_CHARS);
      var mid, taken := |cs| - |first.rest|, |cs| - |RestOf(cs, lines)|;
      LineConsumes(cs, LINE_CHARS);
      LinesConsume(first.rest, lines - 1);
      assert DrawLines(cs, lines)[1..] == DrawLines(first.rest, lines - 1);
      assert cs[..taken] == cs[..mid] + first.rest[..taken - mid];
      VisibleConcat(cs[..mid], first.rest[..taken - mid]);
    }
  }

  /** The codes between the end of what page k consumes and the character where page k + 1 is entered. */
  function Gap(cs: seq<Code>, k: nat): seq<Code> {
    var page := From(cs, PAGE_CHARS * k);
    var taken := |page| - |RestOf(page, LINES_PER_PAGE)|;
    if 0 <= taken <= Min(PAGE_CHARS, |page|) then page[taken..Min(PAGE_CHARS, |page|)] else []
  }

  /** Each page consumes at most 30 codes, so it never repeats one, and what it skips is its gap. */
  lemma PageDraws(cs: seq<Code>, k: nat)
    ensures var page := From(cs, PAGE_CHARS * k);
            var taken := |page| - |RestOf(page, LINES_PER_PAGE)|;
            && 0 <= taken <= Min(PAGE_CHARS, |page|)
            && Join(DrawPage(cs, k)) == Visible(page[..taken])
            && page[..Min(PAGE_CHARS, |page|)] == page[..taken] + Gap(cs, k)
  {
    hide DrawLines, Visible, RestOf;
    LinesConsume(From(cs, PAGE_CHARS * k), LINES_PER_PAGE);
  }

  /** The number of visible characters that pages 0 to k - 1 skip. */
  function Lost(cs: seq<Code>, k: nat): nat {
    if k == 0 then 0 else Lost(cs, k - 1) + |Visible(Gap(cs, k - 1))|
  }

  /** A page draws the visible characters of its thirty codes, but for those in its gap. */
  lemma PageAccounts(cs: seq<Code>, k: nat)
    ensures var page := From(cs, PAGE_CHARS * k);
            Visible(page[..Min(PAGE_CHARS, |page|)]) == Join(DrawPage(cs, k)) + Visible(Gap(cs, k))
  {
    hide DrawPage, Gap, Visible, RestOf;
    var page := From(cs, PAGE_CHARS * k);
    PageDraws(cs, k);
    VisibleConcat(page[..|page| - |RestOf(page, LINES_PER_PAGE)|], Gap(cs, k));
  }

  lemma {:induction false} PagesAccount(cs: seq<Code>, k: nat)
    ensures |Visible(cs[..Min(PAGE_CHARS * k, |cs|)])| == |DrawnBefore(cs, k)| + Lost(cs, k)
    ensures Lost(cs, k) == 0 ==> DrawnBefore(cs, k) == Visible(cs[..Min(PAGE_CHARS * k, |cs|)])
  {
    hide DrawPage, Gap, Visible, Join, From;
    if k == 0 {
      PlainIsVisible([]);
    } else {
      var start := PAGE_CHARS * (k - 1);
      var page := From(cs, start);
      PagesAccount(cs, k - 1);
      PageAccounts(cs, k - 1);
      PageExtends(cs, start);
      VisibleConcat(cs[..Min(start, |cs|)], page[..Min(PAGE_CHARS, |page|)]);
    }
  }

  lemma {:induction false} LostSomewhere(cs: seq<Code>, k: nat)
    ensures Lost(cs, k) == 0 <==> forall i :: 0 <= i < k ==> Visible(Gap(cs, i)) == []
  {
    hide Gap, Visible;
    if k != 0 {
      LostSomewhere(cs, k - 1);
    }
  }

  /**
    Paging through a text draws every visible character, once and in order, exactly when no page leaves a visible
    character between what it consumes and where the next page is entered. Otherwise those are lost, and no others.
   */
  lemma PagesShowAllIff(cs: seq<Code>)
    ensures |Visible(cs)| == |DrawnBefore(cs, PageCount(|cs|))| + Lost(cs, PageCount(|cs|))
    ensures DrawnBefore(cs, PageCount(|cs|)) == Visible(cs) <==>
            forall k :: 0 <= k < PageCount(|cs|) ==> Visible(Gap(cs, k)) == []
  {
    hide DrawnBefore, Lost, Gap, Visible;
    var n := PageCount(|cs|);
    assert Min(PAGE_CHARS * n, |cs|) == |cs| && cs[..|cs|] == cs;
    PagesAccount(cs, n);
    LostSomewhere(cs, n);
  }

  lemma {:induction false} PlainRest(cs: seq<Code>, lines: nat)
    requires NoBreaks(cs)
    ensures RestOf(cs, lines) == cs[Min(LINE_CHARS * lines, |cs|)..]
  {
    if lines != 0 {
      PlainLine(cs, LINE_CHARS);
      PlainRest(cs[Min(LINE_CHARS, |cs|)..], lines - 1);
    }
  }

  lemma LaterIsPlain(cs: seq<Code>, a: nat, b: nat)
    requires a <= b && NoBreaks(From(cs, a))
    ensures NoBreaks(From(cs, b))
  {
    assert forall i :: 0 <= i < |From(cs, b)| ==> From(cs, b)[i] == From(cs, a)[b - a + i];
  }

  lemma {:induction false} PlainPagesLoseNothing(cs: seq<Code>, k: nat)
    requires k >= 1 && NoBreaks(From(cs, PAGE_CHARS))
    ensures Lost(cs, k) == |Visible(Gap(cs, 0))|
  {
    hide Visible, RestOf, NoBreaks;
    if k > 1 {
      PlainPagesLoseNothing(cs, k - 1);
      var page := From(cs, PAGE_CHARS * (k - 1));
      LaterIsPlain(cs, PAGE_CHARS, PAGE_CHARS * (k - 1));
      PlainRest(page, LINES_PER_PAGE);
      assert Gap(cs, k - 1) == [];
      PlainIsVisible([]);
    }
  }

  /**
    The failing family: a text whose only line break comes first loses its characters 21 to 29, as many of them
    as it has. Page 0 spends a line on the break and page 1 is entered at character 30 all the same.
   */
  lemma LeadingBreakLoses(cs: seq<Code>)
    requires cs != [] && IsBreak(cs[0]) && NoBreaks(cs[1..])
    ensures Lost(cs, PageCount(|cs|)) == if |cs| <= 21 then 0 else Min(PAGE_CHARS, |cs|) - 21
  {
    hide Lost, DrawLine, RestOf;
    var tail := cs[1..];
    FirstLineIsBlank(cs);
    PlainRest(tail, 2);
    assert From(cs, 0) == cs;
    var gap := Gap(cs, 0);
    assert |gap| == if |cs| <= 21 then 0 else Min(PAGE_CHARS, |cs|) - 21;
    assert forall i :: 0 <= i < |gap| ==> gap[i] == tail[20 + i];
    PlainIsVisible(gap);
    LaterIsPlain(cs, 1, PAGE_CHARS);
    PlainPagesLoseNothing(cs, PageCount(|cs|));
  }

  lemma FirstLineIsBlank(cs: seq<Code>)
    requires cs != [] && IsBreak(cs[0])
    ensures RestOf(cs, LINES_PER_PAGE) == RestOf(cs[1..], 2)
  {
    assert DrawLine(cs, LINE_CHARS).rest == cs[1..];
  }
}
