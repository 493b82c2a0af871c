/** The bounded display projection of `composition.rs`: preedit is spliced into a
    document without building the spliced document. Only the changed paragraph is
    rebuilt; every other line is read from the old snapshot at a shifted index. */
module Projection {
  import opened Wrappers
  import opened Text

  /** `DEFAULT_MAX_LINE_BYTES` of `alpine-text-layout`. */
  const MAX_LINE_BYTES := 1024 * 1024

  datatype RenderError = Domain | Text(error: TextError)

  datatype Composition = Composition(replacement: Range, text: string)

  datatype DisplayLine = DisplayLine(snapshot: string, local: nat, display: nat, baseUtf16: nat, source: Option<nat>)

  function Lift<T>(r: Result<T, TextError>): Result<T, RenderError> {
    match r
    case Ok(v) => Ok(v)
    case Err(e) => Err(Text(e))
  }

  /** The document that the projection pretends to be. */
  ghost function Spliced(source: string, c: Composition): string
    requires Position(source, c.replacement.start).Ok? && Position(source, c.replacement.end).Ok?
  {
    source[..Position(source, c.replacement.start).value]
    + c.text
    + source[Position(source, c.replacement.end).value..]
  }

  datatype Cut = Cut(firstLine: nat, lastLine: nat, firstByte: nat, lastByte: nat)

  datatype Projection = Projection(
    source: string, segment: string,
    firstLine: nat, afterSourceLine: nat, segmentLines: nat,
    baseUtf16: nat, sourceEndUtf16: nat, segmentUtf16: nat,
    replaced: Range, mark: Range)
  {
    static function New(source: string, c: Composition): Result<Projection, RenderError> {
      var start, end := c.replacement.start, c.replacement.end;
      if start > end then Err(Domain)
      else
        var cut :- FindCut(source, start, end);
        if start - cut.firstByte + Len(Utf8, c.text) + cut.lastByte - end > MAX_LINE_BYTES then Err(Domain)
        else
          var segment :- SegmentText(source, c, cut);
          var afterSourceLine := cut.lastLine + 1;
          var segmentLines :=
            Text.LineCount(segment) - if afterSourceLine < Text.LineCount(source) then 1 else 0;
          var kept :- Utf16Range(source, Range(cut.firstByte, cut.lastByte));
          var replaced :- Utf16Range(source, c.replacement);
          Ok(Projection(source, segment, cut.firstLine, afterSourceLine, segmentLines,
                        kept.start, kept.end, Len(Utf16, segment),
                        replaced, Range(replaced.start, replaced.start + Len(Utf16, c.text))))
    }

    /** The surviving boundary fragments around the preedit, and nothing else. */
    static function SegmentText(source: string, c: Composition, cut: Cut): Result<string, RenderError> {
      var before :- Lift(Slice(source, Range(cut.firstByte, c.replacement.start)));
      var after :- Lift(Slice(source, Range(c.replacement.end, cut.lastByte)));
      Ok(before + c.text + after)
    }

    static function Utf16Range(source: string, bytes: Range): Result<Range, RenderError> {
      var start :- Lift(Utf16OfByte(source, bytes.start));
      var end :- Lift(Utf16OfByte(source, bytes.end));
      Ok(Range(start, end))
    }

    /** The first half of `new`: which whole lines the segment replaces. */
    static function FindCut(source: string, start: nat, end: nat): Result<Cut, RenderError> {
      var startLine :- Lift(LineOfByte(source, start));
      var lastLine :- Lift(LineOfByte(source, end));
      var first :- FirstRebuiltLine(source, startLine);
      var lastBytes :- Lift(LineByteRange(source, lastLine));
      Ok(Cut(first.0, lastLine, first.1, lastBytes.end))
    }

    /** The line where the segment begins and its first byte. If a lone CR
        stands before the line, an LF shown first would make them one CRLF, so the line that the
        CR ends is rebuilt too. */
    static function FirstRebuiltLine(source: string, startLine: nat): Result<(nat, nat), RenderError> {
      var bytes :- Lift(LineByteRange(source, startLine));
      if bytes.start > 0 && Slice(source, Range(bytes.start - 1, bytes.start)) == Ok("\r") then
        LaterLineIsPositive(source, startLine);
        Ok((startLine - 1, ByteOfLine(source, startLine - 1)))
      else
        Ok((startLine, bytes.start))
    }

    /** How the fields cut the source: `source[..a]` and `source[z..]` are kept, and the
        segment is `source[a..i] + text + source[j..z]`. */
    ghost predicate Splits(a: nat, i: nat, j: nat, z: nat, text: string) {
      && a <= i <= j <= z <= |source|
      && segment == source[a..i] + text + source[j..z]
      && Breaks(source, a) == firstLine && (a == 0 || BreakAt(source, a))
      && (a > 0 && source[a - 1] == '\r' ==> a < i)
      && afterSourceLine == Breaks(source, j) + 1 <= Text.LineCount(source)
      && (afterSourceLine < Text.LineCount(source) ==>
            j < z && Breaks(source, z) == afterSourceLine && BreakAt(source, z))
      && (afterSourceLine == Text.LineCount(source) ==> z == |source|)
      && segmentLines == Text.LineCount(segment) - (if afterSourceLine < Text.LineCount(source) then 1 else 0)
      && baseUtf16 == Len(Utf16, source[..a])
      && sourceEndUtf16 == Len(Utf16, source[..z])
      && segmentUtf16 == Len(Utf16, segment)
      && replaced == Range(Len(Utf16, source[..i]), Len(Utf16, source[..j]))
      && mark == Range(replaced.start, replaced.start + Len(Utf16, text))
    }

    ghost predicate WellFormed() {
      exists a, i, j, z, text :: Splits(a, i, j, z, text)
    }

    function LineCount(): nat
      requires WellFormed()
    {
      firstLine + segmentLines + Text.LineCount(source) - afterSourceLine
    }

    function Line(display: nat): Result<DisplayLine, RenderError>
      requires WellFormed()
    {
      var after := firstLine + segmentLines;
      if display < firstLine then
        var bytes :- Lift(LineByteRange(source, display));
        var base :- Lift(Utf16OfByte(source, bytes.start));
        Ok(DisplayLine(source, display, display, base, Some(display)))
      else if display < after then
        var bytes :- Lift(LineByteRange(segment, display - firstLine));
        var base :- Lift(Utf16OfByte(segment, bytes.start));
        Ok(DisplayLine(segment, display - firstLine, display, base + baseUtf16, None))
      else
        var local := afterSourceLine + display - after;
        var bytes :- Lift(LineByteRange(source, local));
        var base :- Lift(Utf16OfByte(source, bytes.start));
        KeptLineIsPastSegment(this, local);
        Ok(DisplayLine(source, local, display,
                     base - sourceEndUtf16 + baseUtf16 + segmentUtf16, Some(local)))
    }

    /** The `display` index computed inside `line_at_utf16`. */
    function DisplayIndexAt(index: nat): Result<nat, RenderError>
      requires WellFormed()
    {
      var segmentEnd := baseUtf16 + segmentUtf16;
      if index < baseUtf16 then
        Lift(LineOfUtf16(source, index))
      else if index < segmentEnd || afterSourceLine == Text.LineCount(source) then
        var line :- Lift(LineOfUtf16(segment, index - baseUtf16));
        Ok(firstLine + line)
      else
        var sourceIndex := index - segmentEnd + sourceEndUtf16;
        var line :- Lift(LineOfUtf16(source, sourceIndex));
        LineAfterSegment(this, sourceIndex);
        Ok(firstLine + segmentLines + line - afterSourceLine)
    }

    function LineAtUtf16(index: nat): Result<DisplayLine, RenderError>
      requires WellFormed()
    {
      var display :- DisplayIndexAt(index);
      Line(display)
    }

    function SourceToDisplay(index: nat, downstream: bool): Option<nat> {
      if downstream && replaced.start >= replaced.end && index == replaced.start then Some(mark.end)
      else if index <= replaced.start then Some(index)
      else if index < replaced.end then None
      else Some(index - replaced.end + mark.end)
    }

    function DisplayToSource(index: nat): Option<nat> {
      if index <= mark.start then Some(index)
      else if index < mark.end then Some(replaced.start)
      else Some(index - mark.end + replaced.end)
    }
  }

  lemma Utf16At(s: string, k: nat)
    requires k <= |s|
    ensures Utf16OfByte(s, Len(Utf8, s[..k])) == Ok(Len(Utf16, s[..k]))
  {
    PositionIsPrefix(s, Len(Utf8, s[..k]), k);
  }

  lemma BreakCounts(s: string, k: nat)
    requires 0 < k <= |s| && BreakAt(s, k)
    ensures Breaks(s, k) == Breaks(s, k - 1) + 1
  {
  }

  lemma KeptLineIsPastSegment(p: Projection, local: nat)
    requires p.WellFormed() && p.afterSourceLine <= local < LineCount(p.source)
    ensures Utf16OfByte(p.source, ByteOfLine(p.source, local)).Ok?
    ensures Utf16OfByte(p.source, ByteOfLine(p.source, local)).value >= p.sourceEndUtf16
  {
    hide Len, LineStart, Utf16OfByte, Breaks, LineText;
    var a, i, j, z, text :| p.Splits(a, i, j, z, text);
    var k := LineStart(p.source, local);
    LineStartIsBoundary(p.source, local);
    if k < z {
      BreaksMonotone(p.source, k, z - 1);
      BreakCounts(p.source, z);
    }
    Utf16At(p.source, k);
    LenPrefix(Utf16, p.source, z, k);
  }

  lemma LineAfterSegment(p: Projection, index: nat)
    requires p.WellFormed() && index >= p.sourceEndUtf16 && p.afterSourceLine < LineCount(p.source)
    requires LineOfUtf16(p.source, index).Ok?
    ensures LineOfUtf16(p.source, index).value >= p.afterSourceLine
  {
    hide Len, IndexOf, Breaks, LineOfUtf16;
    var a, i, j, z, text :| p.Splits(a, i, j, z, text);
    LineOfUtf16Is(p.source, index);
    var k := IndexOf(Utf16, p.source, index).value;
    IndexOfIsInverse(Utf16, p.source, index, k);
    if k < z {
      LenPrefix(Utf16, p.source, k, z);
    }
    BreaksMonotone(p.source, z, k);
  }

  // ------------------------------------------------------------ construction

  lemma LaterLineIsPositive(source: string, line: nat)
    requires ByteOfLine(source, line) > 0
    ensures line > 0
  {
  }

  /** The test for a lone CR before a line. */
  lemma LoneCrTest(source: string, a: nat)
    requires 0 < a <= |source| && BreakAt(source, a)
    ensures var b := Len(Utf8, source[..a]);
            b > 0 && (Slice(source, Range(b - 1, b)) == Ok("\r") <==> source[a - 1] == '\r')
  {
    assert source[..a] == source[..a - 1] + [source[a - 1]];
    LenConcat(Utf8, source[..a - 1], [source[a - 1]]);
    SliceIsSubstring(source, a - 1, a);
  }

  /** The first rebuilt line: the one holding i, or the one before it when a lone CR
      separates the two. */
  ghost function FirstLineOf(source: string, i: nat): nat
    requires i <= |source|
  {
    var line := Breaks(source, i);
    var a := LineStart(source, line);
    if line > 0 && a > 0 && source[a - 1] == '\r' then line - 1 else line
  }

  /** The rebuilt part begins with the line that holds the replaced range's start, or with the
      line before that one exactly if a lone CR ends it. */
  lemma RebuiltFrom(source: string, i: nat, line: nat, start: nat)
    requires i <= |source| && line == Breaks(source, i) && start == LineStart(source, line)
    ensures FirstLineOf(source, i) == line || FirstLineOf(source, i) == line - 1
    ensures FirstLineOf(source, i) < line <==> start > 0 && start <= i && source[start - 1] == '\r'
  {
    PositionInLine(source, i);
    LineStartIsBoundary(source, line);
    if start > 0 {
      BackOneLine(source, line);
    }
  }

  /** The part of the source before the segment, in scalars. */
  ghost function KeptBefore(source: string, i: nat): nat
    requires i <= |source|
  {
    LineStart(source, FirstLineOf(source, i))
  }

  /** Where the part of the source after the segment begins. */
  ghost function KeptAfter(source: string, j: nat): nat
    requires j <= |source|
  {
    LineStart(source, Breaks(source, j) + 1)
  }

  lemma KeptBeforeFacts(source: string, i: nat)
    requires i <= |source|
    ensures var a := KeptBefore(source, i);
            && a <= i
            && Breaks(source, a) == FirstLineOf(source, i) < LineCount(source)
            && (a == 0 || BreakAt(source, a))
            && (a > 0 && source[a - 1] == '\r' ==> a < i)
  {
    var line := Breaks(source, i);
    PositionInLine(source, i);
    LineStartIsBoundary(source, line);
    if FirstLineOf(source, i) < line {
      BackOneLine(source, line);
    } else if LineStart(source, line) > 0 {
      BackOneLine(source, line);
    }
  }

  lemma BackOneLine(source: string, line: nat)
    requires line < LineCount(source) && LineStart(source, line) > 0
    ensures line > 0
    ensures var a := LineStart(source, line - 1);
            a < LineStart(source, line) && Breaks(source, a) == line - 1 && (a == 0 || BreakAt(source, a))
  {
    LineStartIsBoundary(source, line);
    if line > 0 {
      LineStartIsBoundary(source, line - 1);
      LineStartMonotone(source, line - 1);
    }
  }

  lemma KeptAfterFacts(source: string, j: nat)
    requires j <= |source|
    ensures var next := Breaks(source, j) + 1;
            var z := KeptAfter(source, j);
            && j <= z && next <= LineCount(source)
            && (next < LineCount(source) ==> j < z && Breaks(source, z) == next && BreakAt(source, z))
            && (next == LineCount(source) ==> z == |source|)
  {
    PositionInLine(source, j);
    var next := Breaks(source, j) + 1;
    if next < LineCount(source) {
      LineStartIsBoundary(source, next);
    } else {
      LineStartPastEnd(source, next);
    }
  }

  /** What `New` demands of its caller: an ordered pair of scalar boundaries, and a
      changed paragraph within the line budget. */
  ghost predicate Accepted(source: string, c: Composition) {
    && c.replacement.start <= c.replacement.end
    && Position(source, c.replacement.start).Ok?
    && Position(source, c.replacement.end).Ok?
    && var i, j := Position(source, c.replacement.start).value, Position(source, c.replacement.end).value;
    && KeptBefore(source, i) <= i
    && j <= KeptAfter(source, j)
    && Len(Utf8, source[KeptBefore(source, i)..i]) + Len(Utf8, c.text) + Len(Utf8, source[j..KeptAfter(source, j)])
       <= MAX_LINE_BYTES
  }

  lemma LenOfNothing(s: string)
    ensures Len(Utf8, s[..0]) == 0
  {
  }

  lemma FirstRebuiltLineIs(source: string, i: nat)
    requires i <= |source|
    ensures Projection.FirstRebuiltLine(source, Breaks(source, i))
            == Ok((FirstLineOf(source, i), Len(Utf8, source[..KeptBefore(source, i)])))
  {
    hide Len, Breaks, IndexOf, SearchStart;
    var line := Breaks(source, i);
    var a := LineStart(source, line);
    PositionInLine(source, i);
    LineStartIsBoundary(source, line);
    if a > 0 {
      LoneCrTest(source, a);
      BackOneLine(source, line);
    } else {
      LenOfNothing(source);
    }
  }

  /** `FindCut` on scalar boundaries. */
  lemma CutIsWholeLines(source: string, i: nat, j: nat)
    requires i <= j <= |source|
    ensures Projection.FindCut(source, Len(Utf8, source[..i]), Len(Utf8, source[..j]))
            == Ok(Cut(FirstLineOf(source, i), Breaks(source, j),
                      Len(Utf8, source[..KeptBefore(source, i)]), Len(Utf8, source[..KeptAfter(source, j)])))
  {
    hide Len, Breaks, IndexOf, SearchStart, KeptBefore, FirstLineOf, Projection.FirstRebuiltLine;
    var start, end := Len(Utf8, source[..i]), Len(Utf8, source[..j]);
    assert Lift(LineOfByte(source, start)) == Ok(Breaks(source, i)) by {
      PositionIsPrefix(source, start, i);
    }
    assert Lift(LineOfByte(source, end)) == Ok(Breaks(source, j)) by {
      PositionIsPrefix(source, end, j);
    }
    FirstRebuiltLineIs(source, i);
    var last := Lift(LineByteRange(source, Breaks(source, j)));
    assert last.Ok? && last.value.end == Len(Utf8, source[..KeptAfter(source, j)]) by {
      KeptAfterFacts(source, j);
    }
  }

  lemma SegmentTextIs(source: string, c: Composition, cut: Cut, a: nat, i: nat, j: nat, z: nat)
    requires a <= i <= j <= z <= |source|
    requires c.replacement == Range(Len(Utf8, source[..i]), Len(Utf8, source[..j]))
    requires cut.firstByte == Len(Utf8, source[..a]) && cut.lastByte == Len(Utf8, source[..z])
    ensures Projection.SegmentText(source, c, cut) == Ok(source[a..i] + c.text + source[j..z])
  {
    SliceIsSubstring(source, a, i);
    SliceIsSubstring(source, j, z);
  }

  lemma Utf16RangeIs(source: string, i: nat, j: nat)
    requires i <= |source| && j <= |source|
    ensures Projection.Utf16Range(source, Range(Len(Utf8, source[..i]), Len(Utf8, source[..j])))
            == Ok(Range(Len(Utf16, source[..i]), Len(Utf16, source[..j])))
  {
    PositionIsPrefix(source, Len(Utf8, source[..i]), i);
    PositionIsPrefix(source, Len(Utf8, source[..j]), j);
  }

  /** The projection `New` builds from a cut. */
  ghost function Built(source: string, first: nat, a: nat, i: nat, j: nat, z: nat, text: string): Projection
    requires a <= i <= j <= z <= |source|
  {
    var segment := source[a..i] + text + source[j..z];
    var start := Len(Utf16, source[..i]);
    Projection(source, segment, first, Breaks(source, j) + 1,
               LineCount(segment) - (if Breaks(source, j) + 1 < LineCount(source) then 1 else 0),
               Len(Utf16, source[..a]), Len(Utf16, source[..z]), Len(Utf16, segment),
               Range(start, Len(Utf16, source[..j])), Range(start, start + Len(Utf16, text)))
  }

  lemma NewFromCut(source: string, c: Composition, cut: Cut, a: nat, i: nat, j: nat, z: nat)
    requires a <= i <= j <= z <= |source|
    requires c.replacement == Range(Len(Utf8, source[..i]), Len(Utf8, source[..j]))
    requires Projection.FindCut(source, c.replacement.start, c.replacement.end) == Ok(cut)
    requires cut.firstByte == Len(Utf8, source[..a]) && cut.lastByte == Len(Utf8, source[..z])
    requires cut.lastLine == Breaks(source, j)
    ensures Projection.New(source, c) ==
            if Len(Utf8, source[a..i]) + Len(Utf8, c.text) + Len(Utf8, source[j..z]) > MAX_LINE_BYTES
            then Err(Domain) else Ok(Built(source, cut.firstLine, a, i, j, z, c.text))
  {
    hide Len, Breaks, IndexOf, SearchStart;
    var start, end := c.replacement.start, c.replacement.end;
    assert && start <= end
           && start - cut.firstByte == Len(Utf8, source[a..i])
           && cut.lastByte - end == Len(Utf8, source[j..z])
    by {
      LenPrefix(Utf8, source, a, i);
      LenPrefix(Utf8, source, i, j);
      LenPrefix(Utf8, source, j, z);
    }
    SegmentTextIs(source, c, cut, a, i, j, z);
    Utf16RangeIs(source, a, z);
    Utf16RangeIs(source, i, j);
  }

  lemma NewIsBuilt(source: string, i: nat, j: nat, text: string)
    requires i <= j <= |source|
    ensures var a, z := KeptBefore(source, i), KeptAfter(source, j);
            var c := Composition(Range(Len(Utf8, source[..i]), Len(Utf8, source[..j])), text);
            && a <= i && j <= z
            && Projection.New(source, c) ==
               if Len(Utf8, source[a..i]) + Len(Utf8, text) + Len(Utf8, source[j..z]) > MAX_LINE_BYTES
               then Err(Domain) else Ok(Built(source, FirstLineOf(source, i), a, i, j, z, text))
  {
    var a, z := KeptBefore(source, i), KeptAfter(source, j);
    var c := Composition(Range(Len(Utf8, source[..i]), Len(Utf8, source[..j])), text);
    KeptBeforeFacts(source, i);
    KeptAfterFacts(source, j);
    CutIsWholeLines(source, i, j);
    var cut := Projection.FindCut(source, c.replacement.start, c.replacement.end).value;
    NewFromCut(source, c, cut, a, i, j, z);
  }

  /** `New` accepts exactly the compositions that meet its demands. */
  lemma NewAccepts(source: string, c: Composition)
    ensures Projection.New(source, c).Ok? <==> Accepted(source, c)
  {
    var start, end := c.replacement.start, c.replacement.end;
    if start <= end && Position(source, start).Ok? && Position(source, end).Ok? {
      NewOnBoundaries(source, c);
    }
  }

  lemma NewOnBoundaries(source: string, c: Composition)
    requires c.replacement.start <= c.replacement.end
    requires Position(source, c.replacement.start).Ok? && Position(source, c.replacement.end).Ok?
    ensures var i, j := Position(source, c.replacement.start).value, Position(source, c.replacement.end).value;
            var a, z := KeptBefore(source, i), KeptAfter(source, j);
            && a <= i <= j <= z
            && Projection.New(source, c) ==
               if Len(Utf8, source[a..i]) + Len(Utf8, c.text) + Len(Utf8, source[j..z]) > MAX_LINE_BYTES
               then Err(Domain) else Ok(Built(source, FirstLineOf(source, i), a, i, j, z, c.text))
  {
    hide Len, Breaks, SearchStart;
    PositionBound(source, c.replacement.start);
    PositionBound(source, c.replacement.end);
    PositionOrder(source, c.replacement.start, c.replacement.end);
    var i, j := Position(source, c.replacement.start).value, Position(source, c.replacement.end).value;
    NewIsBuilt(source, i, j, c.text);
    assert c == Composition(Range(Len(Utf8, source[..i]), Len(Utf8, source[..j])), c.text);
  }

  /** It then cuts the source around whole lines, one line earlier after a lone CR. */
  lemma NewSplits(source: string, c: Composition) returns (p: Projection, a: nat, i: nat, j: nat, z: nat)
    requires Accepted(source, c)
    ensures Projection.New(source, c) == Ok(p) && p.source == source
    ensures p.Splits(a, i, j, z, c.text)
    ensures Position(source, c.replacement.start) == Ok(i) && Position(source, c.replacement.end) == Ok(j)
  {
    hide Len, Breaks, SearchStart;
    NewOnBoundaries(source, c);
    i, j := Position(source, c.replacement.start).value, Position(source, c.replacement.end).value;
    a, z := KeptBefore(source, i), KeptAfter(source, j);
    p := Built(source, FirstLineOf(source, i), a, i, j, z, c.text);
    BuiltSplits(source, i, j, c.text);
  }

  /** The same, with the ends of the rebuilt part named by the source. */
  lemma NewSplitsAround(source: string, c: Composition) returns (p: Projection, i: nat, j: nat)
    requires Accepted(source, c)
    ensures Projection.New(source, c) == Ok(p) && p.source == source
    ensures Position(source, c.replacement.start) == Ok(i) && Position(source, c.replacement.end) == Ok(j)
    ensures i <= j <= |source| && Spliced(source, c) == source[..i] + c.text + source[j..]
    ensures p.Splits(KeptBefore(source, i), i, j, KeptAfter(source, j), c.text)
    ensures p.firstLine == FirstLineOf(source, i) && p.afterSourceLine == Breaks(source, j) + 1
  {
    hide Len, Breaks, SearchStart;
    NewOnBoundaries(source, c);
    i, j := Position(source, c.replacement.start).value, Position(source, c.replacement.end).value;
    p := Built(source, FirstLineOf(source, i), KeptBefore(source, i), i, j, KeptAfter(source, j), c.text);
    BuiltSplits(source, i, j, c.text);
  }

  lemma BuiltSplits(source: string, i: nat, j: nat, text: string)
    requires i <= j <= |source|
    ensures var a, z := KeptBefore(source, i), KeptAfter(source, j);
            a <= i && j <= z && Built(source, FirstLineOf(source, i), a, i, j, z, text).Splits(a, i, j, z, text)
  {
    KeptBeforeFacts(source, i);
    KeptAfterFacts(source, j);
  }

  // -------------------------------------------------------------- refinement

  lemma SplitTexts(p: Projection, a: nat, i: nat, j: nat, z: nat, text: string)
    requires p.Splits(a, i, j, z, text)
    ensures p.source == p.source[..a] + p.source[a..]
    ensures p.source == p.source[..z] + p.source[z..]
    ensures p.source[..i] + text + p.source[j..] == p.source[..a] + (p.segment + p.source[z..])
  {
    hide Len, Breaks, SearchStart;
    var s := p.source;
    assert s[..i] == s[..a] + s[a..i];
    assert s[j..] == s[j..z] + s[z..];
    assert s[..a] + s[a..i] + text + (s[j..z] + s[z..]) == s[..a] + (s[a..i] + text + s[j..z] + s[z..]);
  }

  /** The joins around the cut create no new CRLF. */
  lemma SplitJoins(p: Projection, a: nat, i: nat, j: nat, z: nat, text: string)
    requires p.Splits(a, i, j, z, text)
    ensures var before, upTo, kept := p.source[..a], p.source[..z], p.source[z..];
            && Closed(before) && SafeJoin(before, p.source[a..])
            && SafeJoin(before, p.segment + kept)
            && (p.afterSourceLine < LineCount(p.source) ==>
                  Closed(p.segment) && SafeJoin(p.segment, kept) && Closed(upTo) && SafeJoin(upTo, kept))
            && (p.afterSourceLine == LineCount(p.source) ==> kept == [] && upTo == p.source)
  {
    hide Len, Breaks, SearchStart;
    if a > 0 {
      assert p.source[..a][a - 1] == p.source[a - 1];
    }
    if a < i {
      assert p.segment[0] == p.source[a];
    }
    if p.afterSourceLine < LineCount(p.source) {
      assert p.segment[|p.segment| - 1] == p.source[z - 1];
      assert p.source[..z][z - 1] == p.source[z - 1];
    }
  }

  /** Line numbers on either side of the cut. */
  lemma SplitLines(p: Projection, a: nat, i: nat, j: nat, z: nat, text: string)
    requires p.Splits(a, i, j, z, text)
    ensures var before, upTo := p.source[..a], p.source[..z];
            && Breaks(before, |before|) == p.firstLine
            && (p.afterSourceLine < LineCount(p.source) ==>
                  && Breaks(upTo, |upTo|) == p.afterSourceLine
                  && Breaks(p.segment, |p.segment|) == p.segmentLines)
            && (p.afterSourceLine == LineCount(p.source) ==> LineCount(p.segment) == p.segmentLines)
  {
    hide Len, Breaks, SearchStart;
    SplitTexts(p, a, i, j, z, text);
    SplitJoins(p, a, i, j, z, text);
    BreaksConcat(p.source[..a], p.source[a..], a);
    if p.afterSourceLine < LineCount(p.source) {
      BreaksConcat(p.source[..z], p.source[z..], z);
    }
  }

  lemma LineCountRefines(p: Projection, a: nat, i: nat, j: nat, z: nat, text: string)
    requires p.Splits(a, i, j, z, text)
    ensures p.WellFormed() && p.LineCount() == LineCount(p.source[..i] + text + p.source[j..])
  {
    hide Len, Breaks, SearchStart, SafeJoin, Closed;
    SplitTexts(p, a, i, j, z, text);
    SplitJoins(p, a, i, j, z, text);
    SplitLines(p, a, i, j, z, text);
    var before, kept := p.source[..a], p.source[z..];
    LineCountConcat(before, p.segment + kept);
    if p.afterSourceLine < LineCount(p.source) {
      LineCountConcat(p.segment, kept);
      LineCountConcat(p.source[..z], kept);
    } else {
      assert p.segment + kept == p.segment;
    }
  }

  /** The source line that a display line shows: counted from the front before the first
      rebuilt line, counted from the back after the last one, and none in between. */
  function SourceLineOf(first: nat, after: nat, sourceLines: nat, displayLines: nat, display: nat): Option<nat>
    requires display < displayLines && after <= sourceLines
  {
    if display < first then Some(display)
    else if displayLines - display <= sourceLines - after then Some(sourceLines - (displayLines - display))
    else None
  }

  /** What it means for `Line` to refine the spliced document at one index. */
  ghost predicate LineMatches(p: Projection, spliced: string, display: nat)
    requires p.WellFormed()
  {
    if display >= LineCount(spliced) then p.Line(display) == Err(Text(LineOutOfBounds))
    else
      var r := p.Line(display);
      && r.Ok?
      && var line := r.value;
      && line.display == display
      && line.local < LineCount(line.snapshot)
      && LineText(line.snapshot, line.local) == LineText(spliced, display)
      && line.baseUtf16 == LineUtf16(spliced, display)
      && line.source == SourceLineOf(p.firstLine, p.afterSourceLine, LineCount(p.source), LineCount(spliced), display)
      && (if line.source.Some? then line.snapshot == p.source && line.local == line.source.value
          else line.snapshot == p.segment && line.local == display - p.firstLine)
  }

  lemma SnapshotLine(s: string, l: nat)
    ensures l < LineCount(s) ==>
              && LineByteRange(s, l).Ok?
              && Utf16OfByte(s, LineByteRange(s, l).value.start) == Ok(LineUtf16(s, l))
    ensures l >= LineCount(s) ==> LineByteRange(s, l) == Err(LineOutOfBounds)
  {
    hide Len, Breaks, SearchStart;
    if l < LineCount(s) {
      Utf16At(s, LineStart(s, l));
    }
  }

  lemma LineBefore(p: Projection, a: nat, i: nat, j: nat, z: nat, text: string, display: nat)
    requires p.Splits(a, i, j, z, text) && display < p.firstLine
    ensures p.WellFormed() && LineMatches(p, p.source[..i] + text + p.source[j..], display)
  {
    hide Len, Breaks, SearchStart, LineStart, SafeJoin, Closed;
    SplitTexts(p, a, i, j, z, text);
    SplitJoins(p, a, i, j, z, text);
    SplitLines(p, a, i, j, z, text);
    var before := p.source[..a];
    LineLeft(before, p.source[a..], display);
    LineLeft(before, p.segment + p.source[z..], display);
    LineCountConcat(before, p.source[a..]);
    LineCountConcat(before, p.segment + p.source[z..]);
    SnapshotLine(p.source, display);
  }

  lemma SegmentLineIsShifted(p: Projection, a: nat, i: nat, j: nat, z: nat, text: string, display: nat)
    requires p.Splits(a, i, j, z, text) && p.firstLine <= display < p.firstLine + p.segmentLines
    ensures var spliced, local := p.source[..a] + (p.segment + p.source[z..]), display - p.firstLine;
            && local < LineCount(p.segment) && display < LineCount(spliced)
            && LineText(p.segment, local) == LineText(spliced, display)
            && LineUtf16(p.segment, local) + p.baseUtf16 == LineUtf16(spliced, display)
  {
    hide Len, Breaks, SearchStart, LineStart, SafeJoin, Closed, LineText, LineUtf16, LineCount;
    SplitJoins(p, a, i, j, z, text);
    SplitLines(p, a, i, j, z, text);
    var before, kept, local := p.source[..a], p.source[z..], display - p.firstLine;
    LineRight(before, p.segment + kept, display);
    if p.afterSourceLine < LineCount(p.source) {
      LineLeft(p.segment, kept, local);
      LineCountConcat(p.segment, kept);
    } else {
      assert p.segment + kept == p.segment;
    }
    LineCountConcat(before, p.segment + kept);
  }

  lemma LineInSegment(p: Projection, a: nat, i: nat, j: nat, z: nat, text: string, display: nat)
    requires p.Splits(a, i, j, z, text) && p.firstLine <= display < p.firstLine + p.segmentLines
    ensures p.WellFormed() && LineMatches(p, p.source[..i] + text + p.source[j..], display)
  {
    hide Len, Breaks, SearchStart, LineStart, BreakAt, LineText, LineUtf16, LineCount;
    SplitTexts(p, a, i, j, z, text);
    SegmentLineIsShifted(p, a, i, j, z, text, display);
    LineCountRefines(p, a, i, j, z, text);
    SnapshotLine(p.segment, display - p.firstLine);
  }

  lemma KeptLineExists(p: Projection, a: nat, i: nat, j: nat, z: nat, text: string, display: nat, local: nat)
    requires p.Splits(a, i, j, z, text)
    requires display == p.firstLine + p.segmentLines + (local - p.afterSourceLine) && local >= p.afterSourceLine
    ensures local < LineCount(p.source) <==> display < LineCount(p.source[..i] + text + p.source[j..])
  {
    hide Len, Breaks, BreakAt, LineCount;
    LineCountRefines(p, a, i, j, z, text);
  }

  lemma LineAfter(p: Projection, a: nat, i: nat, j: nat, z: nat, text: string, display: nat)
    requires p.Splits(a, i, j, z, text) && display >= p.firstLine + p.segmentLines
    ensures p.WellFormed() && LineMatches(p, p.source[..i] + text + p.source[j..], display)
  {
    hide Len, Breaks, BreakAt, LineText, LineUtf16, LineCount, LineByteRange, Utf16OfByte;
    var local := p.afterSourceLine + (display - p.firstLine - p.segmentLines);
    SplitTexts(p, a, i, j, z, text);
    KeptLineExists(p, a, i, j, z, text, display, local);
    LineCountRefines(p, a, i, j, z, text);
    SnapshotLine(p.source, local);
    if local < LineCount(p.source) {
      KeptLineIsShifted(p, a, i, j, z, text, display, local);
    }
  }

  lemma KeptLineIsShifted(p: Projection, a: nat, i: nat, j: nat, z: nat, text: string, display: nat, local: nat)
    requires p.Splits(a, i, j, z, text) && p.afterSourceLine < LineCount(p.source)
    requires display == p.firstLine + p.segmentLines + (local - p.afterSourceLine) && local >= p.afterSourceLine
    ensures var spliced := p.source[..a] + (p.segment + p.source[z..]);
            && LineText(p.source, local) == LineText(spliced, display)
            && LineUtf16(p.source, local) - p.sourceEndUtf16 + p.baseUtf16 + p.segmentUtf16
            == LineUtf16(spliced, display)
  {
    hide Len, Breaks, SearchStart, LineStart, SafeJoin, Closed, LineText, LineUtf16;
    SplitJoins(p, a, i, j, z, text);
    SplitLines(p, a, i, j, z, text);
    var kept := p.source[z..];
    assert p.source == p.source[..z] + kept;
    LineRight(p.source[..z], kept, local);
    LineRight(p.source[..a], p.segment + kept, display);
    LineRight(p.segment, kept, display - p.firstLine);
  }

  lemma LineRefines(p: Projection, a: nat, i: nat, j: nat, z: nat, text: string, display: nat)
    requires p.Splits(a, i, j, z, text)
    ensures p.WellFormed() && LineMatches(p, p.source[..i] + text + p.source[j..], display)
  {
    if display < p.firstLine {
      LineBefore(p, a, i, j, z, text, display);
    } else if display < p.firstLine + p.segmentLines {
      LineInSegment(p, a, i, j, z, text, display);
    } else {
      LineAfter(p, a, i, j, z, text, display);
    }
  }

  /** A display line that names a source line consists of that line's scalars, all of them
      kept: before the rebuilt part at the same place, or after it, shifted by the splice. */
  ghost predicate KeepsLine(source: string, a: nat, i: nat, j: nat, z: nat, text: string, display: nat, line: nat)
    requires i <= j <= |source|
  {
    var spliced := source[..i] + text + source[j..];
    var from, to := LineStart(source, line), LineStart(source, line + 1);
    var shownFrom, shownTo := LineStart(spliced, display), LineStart(spliced, display + 1);
    && line < LineCount(source)
    && (|| (to <= a && shownFrom == from && shownTo == to)
        || (from >= z && shownFrom == from - j + i + |text| && shownTo == to - j + i + |text|))
  }

  lemma KeptBeforeSegment(p: Projection, a: nat, i: nat, j: nat, z: nat, text: string, display: nat)
    requires p.Splits(a, i, j, z, text) && display < p.firstLine
    ensures KeepsLine(p.source, a, i, j, z, text, display, display)
  {
    hide Len, Breaks, SearchStart, LineStart, SafeJoin, Closed;
    SplitTexts(p, a, i, j, z, text);
    SplitJoins(p, a, i, j, z, text);
    SplitLines(p, a, i, j, z, text);
    var before, shown := p.source[..a], p.segment + p.source[z..];
    LineCountConcat(before, p.source[a..]);
    LineStartLeft(before, p.source[a..], display);
    LineStartLeft(before, p.source[a..], display + 1);
    LineStartLeft(before, shown, display);
    LineStartLeft(before, shown, display + 1);
  }

  lemma KeptAfterSegment(p: Projection, a: nat, i: nat, j: nat, z: nat, text: string, display: nat, local: nat)
    requires p.Splits(a, i, j, z, text) && p.afterSourceLine <= local < LineCount(p.source)
    requires display == p.firstLine + p.segmentLines + (local - p.afterSourceLine)
    ensures KeepsLine(p.source, a, i, j, z, text, display, local)
  {
    hide Len, Breaks, SearchStart, LineStart, SafeJoin, Closed, LineCount;
    SplitTexts(p, a, i, j, z, text);
    SplitJoins(p, a, i, j, z, text);
    SplitLines(p, a, i, j, z, text);
    var kept, past := p.source[z..], local - p.afterSourceLine;
    LineStartRight(p.source[..z], kept, local);
    LineStartRight(p.source[..z], kept, local + 1);
    LineStartRight(p.segment, kept, past + p.segmentLines);
    LineStartRight(p.segment, kept, past + 1 + p.segmentLines);
    LineStartRight(p.source[..a], p.segment + kept, display);
    LineStartRight(p.source[..a], p.segment + kept, display + 1);
  }

  lemma SourceLineOfSplit(p: Projection, a: nat, i: nat, j: nat, z: nat, text: string, display: nat)
    requires p.Splits(a, i, j, z, text) && display < LineCount(p.source[..i] + text + p.source[j..])
    ensures p.WellFormed() && p.Line(display).Ok? && p.afterSourceLine <= LineCount(p.source)
    ensures var line := p.Line(display).value.source;
            && line == SourceLineOf(p.firstLine, p.afterSourceLine, LineCount(p.source),
                                    LineCount(p.source[..i] + text + p.source[j..]), display)
            && (line.Some? ==> KeepsLine(p.source, a, i, j, z, text, display, line.value))
  {
    hide Len, Breaks, BreakAt, LineCount, LineText, LineUtf16, LineByteRange, Utf16OfByte, KeepsLine, Projection.Line;
    LineCountRefines(p, a, i, j, z, text);
    LineRefines(p, a, i, j, z, text, display);
    if display < p.firstLine {
      KeptBeforeSegment(p, a, i, j, z, text, display);
    } else if display >= p.firstLine + p.segmentLines {
      KeptAfterSegment(p, a, i, j, z, text, display, p.afterSourceLine + display - p.firstLine - p.segmentLines);
    }
  }

  /** Inside the rebuilt part a display line names no source line; any other names the line
      whose scalars it shows. */
  lemma SourceLineIsKept(source: string, c: Composition, display: nat)
    requires Accepted(source, c) && display < LineCount(Spliced(source, c))
    ensures Projection.New(source, c).Ok?
    ensures var i, j := Position(source, c.replacement.start).value, Position(source, c.replacement.end).value;
            var p := Projection.New(source, c).value;
            && p.WellFormed() && i <= j <= |source| && Breaks(source, j) < LineCount(source) && p.Line(display).Ok?
            && var line := p.Line(display).value.source;
            && line == SourceLineOf(FirstLineOf(source, i), Breaks(source, j) + 1, LineCount(source),
                                    LineCount(Spliced(source, c)), display)
            && (line.Some? ==>
                  KeepsLine(source, KeptBefore(source, i), i, j, KeptAfter(source, j), c.text, display, line.value))
  {
    hide *;
    var p, i, j := NewSplitsAround(source, c);
    SourceLineOfSplit(p, KeptBefore(source, i), i, j, KeptAfter(source, j), c.text, display);
  }

  lemma IndexBefore(p: Projection, a: nat, i: nat, j: nat, z: nat, text: string, index: nat)
    requires p.Splits(a, i, j, z, text) && index < p.baseUtf16
    ensures p.WellFormed()
    ensures p.DisplayIndexAt(index) == Lift(LineOfUtf16(p.source[..a] + (p.segment + p.source[z..]), index))
  {
    hide Len, Breaks, SearchStart, LineStart, SafeJoin, Closed, LineCount, LineOfUtf16;
    SplitTexts(p, a, i, j, z, text);
    SplitJoins(p, a, i, j, z, text);
    LineOfUtf16Concat(p.source[..a], p.segment + p.source[z..], index);
    LineOfUtf16Concat(p.source[..a], p.source[a..], index);
  }

  lemma IndexInLastSegment(p: Projection, a: nat, i: nat, j: nat, z: nat, text: string, index: nat)
    requires p.Splits(a, i, j, z, text) && index >= p.baseUtf16 && p.afterSourceLine == LineCount(p.source)
    ensures p.WellFormed()
    ensures p.DisplayIndexAt(index) == Lift(LineOfUtf16(p.source[..a] + (p.segment + p.source[z..]), index))
  {
    hide Len, Breaks, SearchStart, LineStart, SafeJoin, Closed, LineCount, LineOfUtf16;
    SplitJoins(p, a, i, j, z, text);
    SplitLines(p, a, i, j, z, text);
    assert p.segment + p.source[z..] == p.segment;
    LineOfUtf16Concat(p.source[..a], p.segment, index);
  }

  lemma IndexInSegment(p: Projection, a: nat, i: nat, j: nat, z: nat, text: string, index: nat)
    requires p.Splits(a, i, j, z, text) && p.afterSourceLine < LineCount(p.source)
    requires p.baseUtf16 <= index < p.baseUtf16 + p.segmentUtf16
    ensures p.WellFormed()
    ensures p.DisplayIndexAt(index) == Lift(LineOfUtf16(p.source[..a] + (p.segment + p.source[z..]), index))
  {
    hide Len, Breaks, SearchStart, LineStart, SafeJoin, Closed, LineCount, LineOfUtf16;
    SplitJoins(p, a, i, j, z, text);
    SplitLines(p, a, i, j, z, text);
    LineOfUtf16Concat(p.source[..a], p.segment + p.source[z..], index);
    LineOfUtf16Concat(p.segment, p.source[z..], index - p.baseUtf16);
  }

  lemma IndexAfterSegment(p: Projection, a: nat, i: nat, j: nat, z: nat, text: string, index: nat)
    requires p.Splits(a, i, j, z, text) && p.afterSourceLine < LineCount(p.source)
    requires index >= p.baseUtf16 + p.segmentUtf16
    ensures p.WellFormed()
    ensures p.DisplayIndexAt(index) == Lift(LineOfUtf16(p.source[..a] + (p.segment + p.source[z..]), index))
  {
    hide Len, Breaks, SearchStart, LineStart, SafeJoin, Closed, LineCount, LineOfUtf16;
    SplitJoins(p, a, i, j, z, text);
    SplitLines(p, a, i, j, z, text);
    var kept, past := p.source[z..], index - p.baseUtf16 - p.segmentUtf16;
    assert LineOfUtf16(p.source[..a] + (p.segment + kept), index) ==
           match LineOfUtf16(kept, past)
           case Err(e) => Err(e)
           case Ok(l) => Ok(p.firstLine + p.segmentLines + l)
    by {
      LineOfUtf16Concat(p.source[..a], p.segment + kept, index);
      LineOfUtf16Concat(p.segment, kept, index - p.baseUtf16);
    }
    assert p.source == p.source[..z] + kept;
    LineOfUtf16Concat(p.source[..z], kept, past + p.sourceEndUtf16);
  }

  lemma DisplayIndexRefines(p: Projection, a: nat, i: nat, j: nat, z: nat, text: string, index: nat)
    requires p.Splits(a, i, j, z, text)
    ensures p.WellFormed()
    ensures p.DisplayIndexAt(index) == Lift(LineOfUtf16(p.source[..i] + text + p.source[j..], index))
  {
    hide Len, Breaks, SearchStart, LineStart, SafeJoin, Closed, Projection.DisplayIndexAt, LineOfUtf16;
    SplitTexts(p, a, i, j, z, text);
    if index < p.baseUtf16 {
      IndexBefore(p, a, i, j, z, text, index);
    } else if p.afterSourceLine == LineCount(p.source) {
      IndexInLastSegment(p, a, i, j, z, text, index);
    } else if index < p.baseUtf16 + p.segmentUtf16 {
      IndexInSegment(p, a, i, j, z, text, index);
    } else {
      IndexAfterSegment(p, a, i, j, z, text, index);
    }
  }

  /** The projection of every accepted composition is the really spliced document: the
      same number of lines, every line with the same text, terminator and UTF-16 start,
      and the same errors past the end. */
  lemma ProjectionRefinesSplice(source: string, c: Composition, display: nat)
    requires Accepted(source, c)
    ensures Projection.New(source, c).Ok?
    ensures var p := Projection.New(source, c).value;
            && p.WellFormed()
            && p.LineCount() == LineCount(Spliced(source, c))
            && LineMatches(p, Spliced(source, c), display)
  {
    hide Projection.New, Position, LineMatches, Len, Breaks, SearchStart, LineCount, Projection.LineCount;
    var p, a, i, j, z := NewSplits(source, c);
    LineCountRefines(p, a, i, j, z, c.text);
    LineRefines(p, a, i, j, z, c.text, display);
  }

  /** `line_at_utf16` finds the line of the spliced document that holds the offset, and
      fails exactly where that document has no scalar boundary. */
  lemma LineAtRefinesSplice(source: string, c: Composition, index: nat)
    requires Accepted(source, c)
    ensures Projection.New(source, c).Ok?
    ensures var p := Projection.New(source, c).value;
            && p.WellFormed()
            && match LineOfUtf16(Spliced(source, c), index)
               case Err(e) => p.LineAtUtf16(index) == Err(Text(e))
               case Ok(l) =>
                 && l < LineCount(Spliced(source, c))
                 && p.LineAtUtf16(index) == p.Line(l)
                 && LineMatches(p, Spliced(source, c), l)
  {
    hide Projection.New, Position, LineMatches, Len, Breaks, SearchStart, IndexOf, LineOfUtf16, Projection.Line,
      Projection.DisplayIndexAt;
    var p, a, i, j, z := NewSplits(source, c);
    var spliced := Spliced(source, c);
    DisplayIndexRefines(p, a, i, j, z, c.text, index);
    LineOfUtf16Is(spliced, index);
    match IndexOf(Utf16, spliced, index)
    case None =>
    case Some(k) =>
      BreaksMonotone(spliced, k, |spliced|);
      LineRefines(p, a, i, j, z, c.text, Breaks(spliced, k));
  }

  // ------------------------------------------------------------- coordinates

  /** A position up to the replaced range stays where it is; at an empty range `downstream`
      would name the other side of the preedit. */
  lemma PositionBefore(p: Projection, a: nat, i: nat, j: nat, z: nat, text: string, k: nat, downstream: bool)
    requires p.Splits(a, i, j, z, text) && k <= i
    requires k < i || i < j || !downstream
    ensures var spliced := p.source[..i] + text + p.source[j..];
            p.SourceToDisplay(Len(Utf16, p.source[..k]), downstream) == Some(Len(Utf16, spliced[..k]))
  {
    hide Len, Breaks, BreakAt;
    var s := p.source;
    assert (s[..i] + text + s[j..])[..k] == s[..k];
    LenPrefix(Utf16, s, k, i);
    LenPrefix(Utf16, s, i, j);
  }

  /** A replaced scalar has no place in the display. */
  lemma PositionInside(p: Projection, a: nat, i: nat, j: nat, z: nat, text: string, k: nat, downstream: bool)
    requires p.Splits(a, i, j, z, text) && i < k < j
    ensures p.SourceToDisplay(Len(Utf16, p.source[..k]), downstream) == None
  {
    hide Len, Breaks, BreakAt;
    LenPrefix(Utf16, p.source, i, k);
    LenPrefix(Utf16, p.source, k, j);
  }

  /** The scalars from the end of the replaced range on follow the preedit. */
  lemma PositionAfter(p: Projection, a: nat, i: nat, j: nat, z: nat, text: string, k: nat, downstream: bool)
    requires p.Splits(a, i, j, z, text) && j <= k <= |p.source|
    requires j < k || i < j || downstream
    ensures var spliced := p.source[..i] + text + p.source[j..];
            p.SourceToDisplay(Len(Utf16, p.source[..k]), downstream)
            == Some(Len(Utf16, spliced[..i + |text| + (k - j)]))
  {
    hide Len, Breaks, BreakAt;
    LenPrefix(Utf16, p.source, i, j);
    LenPrefix(Utf16, p.source, j, k);
    SplicedPrefix(p.source, i, j, text, k);
  }

  lemma SplicedPrefix(s: string, i: nat, j: nat, text: string, k: nat)
    requires i <= j <= k <= |s|
    ensures Len(Utf16, (s[..i] + text + s[j..])[..i + |text| + (k - j)])
         == Len(Utf16, s[..i]) + Len(Utf16, text) + Len(Utf16, s[j..k])
  {
    hide Len;
    assert (s[..i] + text + s[j..])[..i + |text| + (k - j)] == s[..i] + text + s[j..k];
    LenConcat(Utf16, s[..i] + text, s[j..k]);
    LenConcat(Utf16, s[..i], text);
  }

  /** Both maps name the same scalars: a kept source position k maps to the position of
      the same scalar in the spliced document, and a replaced one to none. At an empty
      replacement `downstream` chooses the side of the preedit. */
  lemma SourceToDisplayIsSplicePosition(p: Projection, a: nat, i: nat, j: nat, z: nat, text: string, k: nat,
                                        downstream: bool)
    requires p.Splits(a, i, j, z, text) && k <= |p.source|
    ensures var spliced := p.source[..i] + text + p.source[j..];
            p.SourceToDisplay(Len(Utf16, p.source[..k]), downstream)
            == if k < i || (k == i && (i < j || !downstream)) then Some(Len(Utf16, spliced[..k]))
               else if k < j then None
               else Some(Len(Utf16, spliced[..i + |text| + (k - j)]))
  {
    hide Len, Breaks, BreakAt;
    if k < i || (k == i && (i < j || !downstream)) {
      PositionBefore(p, a, i, j, z, text, k, downstream);
    } else if k < j {
      PositionInside(p, a, i, j, z, text, k, downstream);
    } else {
      PositionAfter(p, a, i, j, z, text, k, downstream);
    }
  }

  /** The mark is where the spliced document shows the preedit. */
  lemma MarkShowsPreedit(p: Projection, a: nat, i: nat, j: nat, z: nat, text: string)
    requires p.Splits(a, i, j, z, text)
    ensures var spliced := p.source[..i] + text + p.source[j..];
            && spliced[i..i + |text|] == text
            && p.mark == Range(Len(Utf16, spliced[..i]), Len(Utf16, spliced[..i + |text|]))
  {
    hide Len, Breaks, BreakAt;
    var spliced := p.source[..i] + text + p.source[j..];
    assert spliced[..i] == p.source[..i] && spliced[..i + |text|] == p.source[..i] + text;
    LenConcat(Utf16, p.source[..i], text);
  }

  /** Going to the display and back is the identity except at the end of a deletion: an
      empty preedit leaves no room between the two ends of the replaced range. */
  lemma CoordinateRoundTrip(p: Projection, a: nat, i: nat, j: nat, z: nat, text: string, index: nat, downstream: bool)
    requires p.Splits(a, i, j, z, text)
    ensures p.SourceToDisplay(index, downstream) == None <==> p.replaced.start < index < p.replaced.end
    ensures var d := p.SourceToDisplay(index, downstream);
            d.Some? ==> (p.DisplayToSource(d.value) == Some(index)
                         <==> !(text == [] && i < j && index == p.replaced.end))
    ensures index <= p.mark.start ==>
              p.DisplayToSource(index).Some?
              && p.SourceToDisplay(p.DisplayToSource(index).value, false) == Some(index)
    ensures index >= p.mark.end && p.mark.start < index ==>
              p.DisplayToSource(index).Some?
              && p.SourceToDisplay(p.DisplayToSource(index).value, true) == Some(index)
    ensures p.mark.start < index < p.mark.end ==> p.DisplayToSource(index) == Some(p.replaced.start)
  {
    hide Breaks, BreakAt;
    LenPrefix(Utf16, p.source, i, j);
    if text != [] {
      LenPrefix(Utf16, text, 0, |text|);
      assert text[..|text|] == text;
    }
  }

  /** The one failing family is inhabited: deleting `x` from `x` maps source offset 1 to
      display offset 0, which maps back to 0. */
  lemma DeletionEndDoesNotRoundTrip()
    ensures Projection.New("x", Composition(Range(0, 1), "")).Ok?
    ensures var p := Projection.New("x", Composition(Range(0, 1), "")).value;
            && p.SourceToDisplay(1, false) == Some(0)
            && p.DisplayToSource(0) == Some(0)
  {
    var c := Composition(Range(0, 1), "");
    PositionIsPrefix("x", 0, 0);
    PositionIsPrefix("x", 1, 1);
    assert "x"[..0] == [] && "x"[..1] == "x";
    assert Len(Utf8, "x") == 1 && Len(Utf16, "x") == 1;
    var before := KeptBefore("x", 0);
    KeptBeforeFacts("x", 0);
    KeptAfterFacts("x", 1);
    assert Breaks("x", 1) == 0;
    assert "x"[1..] == [] && "x"[before..0] == [] && "x"[1..KeptAfter("x", 1)] == [];
    assert Accepted("x", c);
    var p, a, i, j, z := NewSplits("x", c);
  }
}
