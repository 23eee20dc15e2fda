/**
  The panel's copy of the latest text message and the loops that draw a page of it.
 */
module TextPanels {
  import opened Bytes
  import opened Utf8
  import opened Panel

  const LAST_PAGE := 136

  /** Skip characters until the start of the page. */
  method SkipTo(s: seq<Byte>, start: nat) returns (offset: nat)
    requires CString(s)
    ensures offset < |s| && Codes(s, offset) == From(Codes(s, 0), start)
  {
    offset := 0;
    var index := 0;
    while s[offset] != 0 && index < start
      invariant offset < |s| && index <= start && index <= |Codes(s, 0)|
      invariant Codes(s, offset) == Codes(s, 0)[index..]
      decreases |s| - offset
    {
      var d := Next(s, offset);
      if d.code == 0 || d.consumed == 0 {
        break;
      }
      offset := offset + d.consumed;
      index := index + 1;
    }
  }

  /** The line so far, continued with `cs`. */
  function Continued(line: seq<Code>, cs: seq<Code>, n: nat): Line {
    var more := DrawLine(cs, n);
    Line(line + more.drawn, more.rest)
  }

  lemma LineTakes(c: Code, rest: seq<Code>, n: nat, line: seq<Code>)
    requires n > 0
    ensures Continued(line, [c] + rest, n) ==
            if IsBreak(c) then Line(line, rest) else Continued(line + [c], rest, n - 1)
  {
    assert ([c] + rest)[1..] == rest;
  }

  lemma LineStarts(cs: seq<Code>, n: nat)
    ensures Continued([], cs, n) == DrawLine(cs, n)
  {
  }

  lemma LineStops(cs: seq<Code>, n: nat, line: seq<Code>)
    requires n == 0 || cs == []
    ensures Continued(line, cs, n) == Line(line, cs)
  {
  }

  /** Draw one line from `offset`; a line break is consumed but not drawn. */
  method DrawOneLine(s: seq<Byte>, from: nat) returns (line: seq<Code>, offset: nat)
    requires CString(s) && from < |s|
    ensures offset < |s| && Line(line, Codes(s, offset)) == DrawLine(Codes(s, from), LINE_CHARS)
  {
    hide Next, DrawLine, Continued;
    LineStarts(Codes(s, from), LINE_CHARS);
    line := [];
    offset := from;
    while s[offset] != 0 && |line| < LINE_CHARS
      invariant offset < |s| && |line| <= LINE_CHARS
      invariant DrawLine(Codes(s, from), LINE_CHARS) == Continued(line, Codes(s, offset), LINE_CHARS - |line|)
      decreases |s| - offset
    {
      var d := Next(s, offset);
      if d.code == 0 || d.consumed == 0 {
        break;
      }
      LineTakes(d.code, Codes(s, offset + d.consumed), LINE_CHARS - |line|, line);
      offset := offset + d.consumed;
      if IsBreak(d.code) {
        return;
      }
      line := line + [d.code];
    }
    LineStops(Codes(s, offset), LINE_CHARS - |line|, line);
  }

  method DrawThreeLines(s: seq<Byte>, from: nat) returns (lines: seq<seq<Code>>)
    requires CString(s) && from < |s|
    ensures lines == DrawLines(Codes(s, from), LINES_PER_PAGE)
  {
    hide Codes, DrawLine;
    lines := [];
    var offset: nat := from;
    for line := 0 to LINES_PER_PAGE
      invariant |lines| == line <= LINES_PER_PAGE && offset < |s|
      invariant lines + DrawLines(Codes(s, offset), LINES_PER_PAGE - line) ==
                DrawLines(Codes(s, from), LINES_PER_PAGE)
    {
      ghost var todo := DrawLines(Codes(s, offset), LINES_PER_PAGE - line);
      var drawn;
      drawn, offset := DrawOneLine(s, offset);
      assert todo == [drawn] + DrawLines(Codes(s, offset), LINES_PER_PAGE - line - 1);
      assert lines + todo == lines + [drawn] + DrawLines(Codes(s, offset), LINES_PER_PAGE - line - 1);
      lines := lines + [drawn];
    }
    assert lines + [] == lines;
  }

  /** Count the characters of the whole text. */
  method CountCodes(s: seq<Byte>) returns (n: nat)
    requires CString(s)
    ensures n == |Codes(s, 0)| < |s|
  {
    n := 0;
    var offset := 0;
    CodesBounded(s, 0);
    while s[offset] != 0
      invariant offset < |s| && n + |Codes(s, offset)| == |Codes(s, 0)|
      decreases |s| - offset
    {
      var d := Next(s, offset);
      if d.code == 0 || d.consumed == 0 {
        break;
      }
      offset := offset + d.consumed;
      n := n + 1;
    }
  }

  lemma CountFits(n: nat)
    requires n <= MAX_TEXT
    ensures var k := ((n + PAGE_CHARS - 1) / PAGE_CHARS) % 0x1_0000;
            k <= LAST_PAGE + 1 && PageCount(n) == if k == 0 then 1 else k
  {
  }

  class TextPanel {
    var valid: bool
    var flag: Byte
    var kind: Byte
    var textLen: nat
    var text: array<Byte>
    var pageIndex: nat
    var pageCount: nat

    ghost predicate Valid()
      reads this, text
    {
      && text.Length == MAX_TEXT + 1
      && textLen <= MAX_TEXT && text[textLen] == 0
      && pageIndex <= LAST_PAGE && pageCount <= LAST_PAGE + 1
    }

    constructor ()
      ensures Valid() && fresh(text) && !valid
    {
      valid, flag, kind, textLen := false, 0, 0, 0;
      text := new Byte[MAX_TEXT + 1](_ => 0);
      pageIndex, pageCount := 0, 0;
    }

    /** The code points that the page loops see. */
    ghost function TextCodes(): seq<Code>
      reads this, text
      requires Valid()
    {
      Codes(text[..textLen + 1], 0)
    }

    method Update(flag: Byte, kind: Byte, utf8: seq<Byte>)
      requires Valid()
      modifies this, text
      ensures Valid() && text == old(text) && valid
      ensures this.flag == flag && this.kind == kind
      ensures textLen == Min(|utf8|, MAX_TEXT) && text[..textLen] == utf8[..textLen]
      ensures pageIndex == 0 && pageCount == 0
    {
      var copyLen := if |utf8| > MAX_TEXT then MAX_TEXT else |utf8|;
      valid := true;
      this.flag, this.kind := flag, kind;
      textLen := copyLen;
      for i := 0 to copyLen
        modifies text
        invariant forall j :: 0 <= j < i ==> text[j] == utf8[j]
      {
        text[i] := utf8[i];
      }
      text[copyLen] := 0;
      pageIndex, pageCount := 0, 0;
    }

    /** Draw the current page and refresh the page count; `lines` is empty when there is no text. */
    method Render() returns (lines: seq<seq<Code>>)
      requires Valid()
      modifies this`pageCount
      ensures Valid()
      ensures !valid || textLen == 0 ==> lines == [] && pageCount == old(pageCount)
      ensures valid && textLen != 0 ==> lines == DrawPage(TextCodes(), pageIndex)
      ensures valid && textLen != 0 ==> pageCount == PageCount(|TextCodes()|)
    {
      hide Codes, DrawLines, PageCount;
      if !valid || textLen == 0 {
        return [];
      }
      var s := text[..textLen + 1];
      var start := (pageIndex * LINES_PER_PAGE * LINE_CHARS) % 0x1_0000;
      var offset := SkipTo(s, start);
      lines := DrawThreeLines(s, offset);
      var n := CountCodes(s);
      CountFits(n);
      pageCount := ((n + PAGE_CHARS - 1) / PAGE_CHARS) % 0x1_0000;
      if pageCount == 0 {
        pageCount := 1;
      }
    }

    method NextPage()
      requires Valid()
      modifies this`pageIndex
      ensures Valid()
      ensures pageIndex == if old(pageIndex) + 1 < pageCount then old(pageIndex) + 1 else old(pageIndex)
    {
      if pageCount > 0 && pageIndex + 1 < pageCount {
        pageIndex := pageIndex + 1;
      }
    }

    method PreviousPage()
      requires Valid()
      modifies this`pageIndex
      ensures Valid()
      ensures pageIndex == if old(pageIndex) > 0 then old(pageIndex) - 1 else 0
    {
      if pageIndex > 0 {
        pageIndex := pageIndex - 1;
      }
    }
  }
}
