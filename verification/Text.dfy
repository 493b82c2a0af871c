/** The immutable text snapshot of `alpine-text`: a sequence of Unicode scalars
    addressed by UTF-8 byte offsets, UTF-16 code-unit offsets and logical lines.
    Byte and unit offsets are translated to scalar indices once, by `IndexOf`. */
module Text {
  import opened Wrappers

  datatype Encoding = Utf8 | Utf16

  /** UTF-8 bytes (section 3 of RFC 3629) or UTF-16 code units (section 2.1 of
      RFC 2781) of one scalar. */
  function Width(e: Encoding, c: char): (w: nat)
    ensures 1 <= w <= 4
  {
    var v := c as int;
    match e
    case Utf8 => if v < 0x80 then 1 else if v < 0x800 then 2 else if v < 0x1_0000 then 3 else 4
    case Utf16 => if v < 0x1_0000 then 1 else 2
  }

  /** In UTF-16 a scalar of sixteen bits is one unit, and any other is a pair of surrogates, which
      hold ten bits each, section 2.1 of RFC 2781. */
  lemma Utf16Units(c: char)
    ensures Width(Utf16, c) == 1 <==> c as int < 0x1_0000
    ensures Width(Utf16, c) == 2 <==>
              exists high, low | 0 <= high < 0x400 && 0 <= low < 0x400 :: IsPair(c, high, low)
  {
    var v := c as int - 0x1_0000;
    if v >= 0 {
      assert IsPair(c, v / 0x400, v % 0x400);
    }
  }

  predicate IsPair(c: char, high: nat, low: nat) {
    c as int == 0x1_0000 + high * 0x400 + low
  }

  function Len(e: Encoding, s: string): nat {
    if s == [] then 0 else Width(e, s[0]) + Len(e, s[1..])
  }

  /** The scalar index at a code-unit offset, or None inside a scalar or past the end. */
  function IndexOf(e: Encoding, s: string, offset: nat): (r: Option<nat>)
    ensures r.Some? ==> r.value <= |s|
  {
    if offset == 0 then Some(0)
    else if s == [] || offset < Width(e, s[0]) then None
    else
      var k :- IndexOf(e, s[1..], offset - Width(e, s[0]));
      Some(k + 1)
  }

  lemma {:induction false} LenConcat(e: Encoding, a: string, b: string)
    ensures Len(e, a + b) == Len(e, a) + Len(e, b)
  {
    if a == [] {
      assert a + b == b;
    } else {
      assert (a + b)[1..] == a[1..] + b;
      LenConcat(e, a[1..], b);
    }
  }

  lemma LenPrefix(e: Encoding, s: string, j: nat, k: nat)
    requires j <= k <= |s|
    ensures Len(e, s[..k]) == Len(e, s[..j]) + Len(e, s[j..k])
    ensures j < k ==> Len(e, s[..j]) < Len(e, s[..k])
  {
    assert s[..k] == s[..j] + s[j..k];
    LenConcat(e, s[..j], s[j..k]);
  }

  /** `IndexOf` is exactly the inverse of measuring a prefix. */
  lemma {:induction false} IndexOfIsInverse(e: Encoding, s: string, offset: nat, k: nat)
    ensures IndexOf(e, s, offset) == Some(k) <==> k <= |s| && Len(e, s[..k]) == offset
  {
    if offset == 0 {
      if 0 < k <= |s| {
        LenPrefix(e, s, 0, k);
      }
    } else if s == [] {
    } else if k == 0 {
    } else {
      if k <= |s| {
        assert s[..k][1..] == s[1..][..k - 1];
      }
      if offset >= Width(e, s[0]) {
        IndexOfIsInverse(e, s[1..], offset - Width(e, s[0]), k - 1);
      }
    }
  }

  lemma IndexOfConcat(e: Encoding, a: string, b: string, offset: nat)
    ensures offset < Len(e, a) ==> IndexOf(e, a + b, offset) == IndexOf(e, a, offset)
    ensures offset >= Len(e, a) ==>
              IndexOf(e, a + b, offset) == Shift(IndexOf(e, b, offset - Len(e, a)), |a|)
  {
    hide Len, IndexOf;
    if offset < Len(e, a) {
      forall k: nat ensures IndexOf(e, a + b, offset) == Some(k) <==> IndexOf(e, a, offset) == Some(k) {
        IndexOfIsInverse(e, a + b, offset, k);
        IndexOfIsInverse(e, a, offset, k);
        if k <= |a + b| {
          PrefixOfConcat(e, a, b, k);
        }
      }
    } else {
      var rest := offset - Len(e, a);
      forall k: nat ensures IndexOf(e, a + b, offset) == Some(|a| + k) <==> IndexOf(e, b, rest) == Some(k) {
        IndexOfIsInverse(e, a + b, offset, |a| + k);
        IndexOfIsInverse(e, b, rest, k);
        if k <= |b| {
          PrefixOfConcat(e, a, b, |a| + k);
        }
      }
      match IndexOf(e, a + b, offset)
      case None =>
        if IndexOf(e, b, rest).Some? {
          assert IndexOf(e, b, rest) == Some(IndexOf(e, b, rest).value);
        }
      case Some(k) =>
        IndexOfIsInverse(e, a + b, offset, k);
        PrefixOfConcat(e, a, b, k);
        assert k >= |a|;
        assert IndexOf(e, a + b, offset) == Some(|a| + (k - |a|));
        assert IndexOf(e, b, rest) == Some(k - |a|);
    }
  }

  lemma PrefixOfConcat(e: Encoding, a: string, b: string, k: nat)
    requires k <= |a| + |b|
    ensures k <= |a| ==> Len(e, (a + b)[..k]) == Len(e, a[..k]) <= Len(e, a)
    ensures k < |a| ==> Len(e, (a + b)[..k]) < Len(e, a)
    ensures k >= |a| ==> Len(e, (a + b)[..k]) == Len(e, a) + Len(e, b[..k - |a|])
  {
    hide Len;
    if k <= |a| {
      assert (a + b)[..k] == a[..k];
      assert a[..|a|] == a;
      LenPrefix(e, a, k, |a|);
    }
    if k >= |a| {
      assert (a + b)[..k] == a + b[..k - |a|];
      LenConcat(e, a, b[..k - |a|]);
    }
  }

  function Shift(index: Option<nat>, distance: nat): Option<nat> {
    match index
    case None => None
    case Some(k) => Some(distance + k)
  }

  // ---------------------------------------------------------------- lines

  /** A line ends at scalar position k: after LF, or after a CR that no LF follows
      (section 5.8 of the Unicode Standard, restricted to LF, CR and CRLF). */
  predicate BreakAt(s: string, k: nat)
    requires 0 < k <= |s|
  {
    s[k - 1] == '\n' || (s[k - 1] == '\r' && (k == |s| || s[k] != '\n'))
  }

  /** How many lines end at or before position k, which is the line holding k. */
  function Breaks(s: string, k: nat): (n: nat)
    requires k <= |s|
    ensures n <= k
  {
    if k == 0 then 0 else Breaks(s, k - 1) + if BreakAt(s, k) then 1 else 0
  }

  function LineCount(s: string): nat {
    Breaks(s, |s|) + 1
  }

  /** The least position from k on with at least l line ends before it. */
  function SearchStart(s: string, l: nat, k: nat): (r: nat)
    requires k <= |s|
    ensures k <= r <= |s|
    decreases |s| - k
  {
    if k == |s| || Breaks(s, k) >= l then k else SearchStart(s, l, k + 1)
  }

  function LineStart(s: string, l: nat): (r: nat)
    ensures r <= |s|
  {
    SearchStart(s, l, 0)
  }

  /** The text of line l with its terminator. */
  function LineText(s: string, l: nat): string {
    LineStartMonotone(s, l);
    s[LineStart(s, l)..LineStart(s, l + 1)]
  }

  lemma {:induction false} BreaksMonotone(s: string, j: nat, k: nat)
    requires j <= k <= |s|
    ensures Breaks(s, j) <= Breaks(s, k)
  {
    if j < k {
      BreaksMonotone(s, j, k - 1);
    }
  }

  lemma {:induction false} SearchStartIsLeast(s: string, l: nat, k: nat, j: nat)
    requires k <= j <= |s|
    ensures var r := SearchStart(s, l, k);
            && (j < r ==> Breaks(s, j) < l)
            && (r < |s| ==> Breaks(s, r) >= l)
    decreases |s| - k
  {
    if k < |s| && Breaks(s, k) < l {
      SearchStartIsLeast(s, l, k + 1, if j == k then |s| else j);
    }
  }

  /** The start of line l is the only boundary with l line ends before it. */
  lemma LineStartAt(s: string, l: nat, k: nat)
    requires k <= |s| && Breaks(s, k) == l && (k == 0 || BreakAt(s, k))
    ensures LineStart(s, l) == k
  {
    var r := LineStart(s, l);
    SearchStartIsLeast(s, l, 0, k);
    if r < k {
      BreaksMonotone(s, r, k - 1);
    }
  }

  lemma LineStartIsBoundary(s: string, l: nat)
    requires l < LineCount(s)
    ensures var k := LineStart(s, l); Breaks(s, k) == l && (k == 0 || BreakAt(s, k))
  {
    var k := LineStart(s, l);
    if k > 0 {
      SearchStartIsLeast(s, l, 0, k - 1);
    } else {
      SearchStartIsLeast(s, l, 0, 0);
    }
  }

  lemma LineStartPastEnd(s: string, l: nat)
    requires l >= LineCount(s)
    ensures LineStart(s, l) == |s|
  {
    var k := LineStart(s, l);
    SearchStartIsLeast(s, l, 0, |s|);
    BreaksMonotone(s, k, |s|);
  }

  lemma LineStartMonotone(s: string, l: nat)
    ensures LineStart(s, l) <= LineStart(s, l + 1)
  {
    if l + 1 < LineCount(s) {
      LineStartIsBoundary(s, l);
      LineStartIsBoundary(s, l + 1);
      if LineStart(s, l + 1) < LineStart(s, l) {
        BreaksMonotone(s, LineStart(s, l + 1), LineStart(s, l));
      }
    } else {
      LineStartPastEnd(s, l + 1);
    }
  }

  /** A position lies inside the line that `Breaks` names. */
  lemma PositionInLine(s: string, k: nat)
    requires k <= |s|
    ensures var l := Breaks(s, k);
            && l < LineCount(s)
            && LineStart(s, l) <= k <= LineStart(s, l + 1)
            && (k == LineStart(s, l + 1) ==> k == |s| && l + 1 == LineCount(s))
  {
    hide Len, Breaks, SearchStart;
    var l := Breaks(s, k);
    BreaksMonotone(s, k, |s|);
    SearchStartIsLeast(s, l, 0, k);
    if l + 1 < LineCount(s) {
      LineStartIsBoundary(s, l + 1);
      if LineStart(s, l + 1) <= k {
        BreaksMonotone(s, LineStart(s, l + 1), k);
      }
    } else {
      LineStartPastEnd(s, l + 1);
    }
  }

  /** Lines partition the text: line l is `s[LineStart(l)..LineStart(l+1)]`, holds no
      terminator before its end, and every line but the last is closed by one. */
  lemma LinesPartition(s: string, l: nat, k: nat)
    requires l < LineCount(s)
    ensures LineStart(s, 0) == 0 && LineStart(s, LineCount(s)) == |s|
    ensures LineStart(s, l) < k < LineStart(s, l + 1) ==> !BreakAt(s, k)
    ensures l + 1 < LineCount(s) ==> LineStart(s, l) < LineStart(s, l + 1) && BreakAt(s, LineStart(s, l + 1))
    ensures l + 1 == LineCount(s) && LineStart(s, l) < |s| ==> !BreakAt(s, |s|)
  {
    LineStartPastEnd(s, LineCount(s));
    LineStartIsBoundary(s, l);
    var from, to := LineStart(s, l), LineStart(s, l + 1);
    if from < k < to {
      SearchStartIsLeast(s, l + 1, 0, k);
      BreaksMonotone(s, from, k - 1);
    }
    if l + 1 < LineCount(s) {
      LineStartMonotone(s, l);
      LineStartIsBoundary(s, l + 1);
    } else if from < |s| {
      BreaksMonotone(s, from, |s| - 1);
    }
  }

  // ------------------------------------------------- lines of concatenations

  /** Joining does not turn a trailing CR and a leading LF into one terminator. */
  predicate SafeJoin(a: string, b: string) {
    !(a != [] && a[|a| - 1] == '\r' && b != [] && b[0] == '\n')
  }

  /** The text is empty or ends with a complete terminator. */
  predicate Closed(a: string) {
    a == [] || BreakAt(a, |a|)
  }

  lemma {:induction false} BreaksConcat(a: string, b: string, k: nat)
    requires SafeJoin(a, b) && k <= |a| + |b|
    ensures k <= |a| ==> Breaks(a + b, k) == Breaks(a, k)
    ensures k >= |a| ==> Breaks(a + b, k) == Breaks(a, |a|) + Breaks(b, k - |a|)
  {
    if k > 0 {
      BreaksConcat(a, b, k - 1);
      var s := a + b;
      if k <= |a| {
        assert BreakAt(s, k) == BreakAt(a, k);
      } else {
        assert BreakAt(s, k) == BreakAt(b, k - |a|);
      }
    }
  }

  lemma LineCountConcat(a: string, b: string)
    requires SafeJoin(a, b)
    ensures LineCount(a + b) == Breaks(a, |a|) + LineCount(b)
  {
    BreaksConcat(a, b, |a| + |b|);
  }

  /** The text with every CRLF and every lone CR replaced by an LF. */
  function Normalized(s: string): string {
    if s == [] then []
    else if s[0] != '\r' then [s[0]] + Normalized(s[1..])
    else if |s| > 1 && s[1] == '\n' then "\n" + Normalized(s[2..])
    else "\n" + Normalized(s[1..])
  }

  function LineFeeds(s: string): nat {
    if s == [] then 0 else (if s[0] == '\n' then 1 else 0) + LineFeeds(s[1..])
  }

  /** There are as many line ends as line feeds once all terminators are made line feeds. */
  lemma {:induction false} LineEndsAreLineFeeds(s: string)
    ensures LineCount(s) == LineFeeds(Normalized(s)) + 1
  {
    if s != [] {
      var n := if s[0] == '\r' && |s| > 1 && s[1] == '\n' then 2 else 1;
      LineEndsAreLineFeeds(s[n..]);
      assert s == s[..n] + s[n..];
      FirstTerminator(s, n);
      LineCountConcat(s[..n], s[n..]);
      hide Breaks, LineCount;
      var rest := Normalized(s[n..]);
      var first := if s[0] == '\r' then '\n' else s[0];
      assert Normalized(s) == [first] + rest && ([first] + rest)[1..] == rest;
    }
  }

  lemma FirstTerminator(s: string, n: nat)
    requires s != [] && n == if s[0] == '\r' && |s| > 1 && s[1] == '\n' then 2 else 1
    ensures SafeJoin(s[..n], s[n..])
    ensures Breaks(s[..n], n) == if s[0] in {'\r', '\n'} then 1 else 0
  {
    assert Breaks(s[..n], 0) == 0;
    if n == 2 {
      assert Breaks(s[..n], 1) == 0;
    }
  }

  lemma LineStartLeft(a: string, b: string, l: nat)
    requires SafeJoin(a, b) && l <= Breaks(a, |a|)
    ensures LineStart(a + b, l) == LineStart(a, l)
  {
    hide Len, Breaks, SearchStart;
    LineStartIsBoundary(a, l);
    var k := LineStart(a, l);
    BreaksConcat(a, b, k);
    if k > 0 {
      assert BreakAt(a + b, k) == BreakAt(a, k);
    }
    LineStartAt(a + b, l, k);
  }

  lemma LineStartRight(a: string, b: string, l: nat)
    requires SafeJoin(a, b) && Closed(a) && l >= Breaks(a, |a|)
    ensures LineStart(a + b, l) == |a| + LineStart(b, l - Breaks(a, |a|))
  {
    var m := l - Breaks(a, |a|);
    LineCountConcat(a, b);
    if m >= LineCount(b) {
      LineStartPastEnd(a + b, l);
      LineStartPastEnd(b, m);
    } else {
      LineStartIsBoundary(b, m);
      LineStartShifted(a, b, l, LineStart(b, m));
    }
  }

  lemma LineStartShifted(a: string, b: string, l: nat, k: nat)
    requires SafeJoin(a, b) && Closed(a) && k <= |b| && (k == 0 || BreakAt(b, k))
    requires l == Breaks(a, |a|) + Breaks(b, k)
    ensures LineStart(a + b, l) == |a| + k
  {
    hide Len, Breaks, SearchStart;
    BreaksConcat(a, b, |a| + k);
    ClosedBreak(a, b, k);
    LineStartAt(a + b, l, |a| + k);
  }

  lemma ClosedBreak(a: string, b: string, k: nat)
    requires SafeJoin(a, b) && Closed(a) && k <= |b| && (k == 0 || BreakAt(b, k))
    ensures |a| + k == 0 || BreakAt(a + b, |a| + k)
  {
  }

  /** Where line l begins, in UTF-16 code units. */
  function LineUtf16(s: string, l: nat): nat {
    Len(Utf16, s[..LineStart(s, l)])
  }

  lemma LineLeft(a: string, b: string, l: nat)
    requires SafeJoin(a, b) && l < Breaks(a, |a|)
    ensures LineText(a + b, l) == LineText(a, l) && LineUtf16(a + b, l) == LineUtf16(a, l)
  {
    hide Len, Breaks, SearchStart, LineStart;
    LineStartLeft(a, b, l);
    LineStartLeft(a, b, l + 1);
    LineStartMonotone(a, l);
    var from, to := LineStart(a, l), LineStart(a, l + 1);
    assert (a + b)[from..to] == a[from..to];
    assert (a + b)[..from] == a[..from];
  }

  lemma LineRight(a: string, b: string, l: nat)
    requires SafeJoin(a, b) && Closed(a) && l >= Breaks(a, |a|)
    ensures var m := l - Breaks(a, |a|);
            && LineText(a + b, l) == LineText(b, m)
            && LineUtf16(a + b, l) == Len(Utf16, a) + LineUtf16(b, m)
  {
    hide Len, Breaks, SearchStart, LineStart, Closed, SafeJoin;
    var m := l - Breaks(a, |a|);
    LineStartRight(a, b, l);
    LineStartRight(a, b, l + 1);
    LineTextShifted(a, b, l, m);
    LineUtf16Shifted(a, b, l, m);
  }

  lemma LineTextShifted(a: string, b: string, l: nat, m: nat)
    requires LineStart(a + b, l) == |a| + LineStart(b, m)
    requires LineStart(a + b, l + 1) == |a| + LineStart(b, m + 1)
    ensures LineText(a + b, l) == LineText(b, m)
  {
    hide Len, Breaks, SearchStart, LineStart;
    LineStartMonotone(b, m);
    LineStartMonotone(a + b, l);
    ShiftedSlice(a, b, LineStart(b, m), LineStart(b, m + 1));
    assert LineText(b, m) == b[LineStart(b, m)..LineStart(b, m + 1)];
  }

  lemma LineUtf16Shifted(a: string, b: string, l: nat, m: nat)
    requires LineStart(a + b, l) == |a| + LineStart(b, m)
    ensures LineUtf16(a + b, l) == Len(Utf16, a) + LineUtf16(b, m)
  {
    hide Len, Breaks, SearchStart, LineStart;
    var from := LineStart(b, m);
    assert (a + b)[..|a| + from] == a + b[..from];
    LenConcat(Utf16, a, b[..from]);
  }

  lemma ShiftedSlice(a: string, b: string, from: nat, to: nat)
    requires from <= to <= |b|
    ensures (a + b)[|a| + from..|a| + to] == b[from..to]
  {
  }

  // ------------------------------------------------------ the snapshot's API

  datatype TextError =
    | ByteOutOfBounds
    | InvalidByteBoundary
    | InvalidEditRange
    | LineOutOfBounds
    | InvalidUtf16Boundary

  datatype Range = Range(start: nat, end: nat)

  /** `validate_offset`, keeping the scalar index it finds. */
  function Position(s: string, byte: nat): (r: Result<nat, TextError>)
    ensures r.Ok? ==> r.value <= |s|
  {
    if byte > Len(Utf8, s) then Err(ByteOutOfBounds)
    else
      match IndexOf(Utf8, s, byte)
      case None => Err(InvalidByteBoundary)
      case Some(k) => Ok(k)
  }

  /** `line_of_byte(byte_of_appkit_utf16(index))`: an error inside a surrogate pair or
      past the end. */
  function LineOfUtf16(s: string, index: nat): Result<nat, TextError> {
    var byte :- ByteOfUtf16(s, index);
    LineOfByte(s, byte)
  }

  /** A byte offset is accepted exactly when it measures a prefix. */
  lemma PositionIsPrefix(s: string, byte: nat, k: nat)
    ensures Position(s, byte) == Ok(k) <==> k <= |s| && Len(Utf8, s[..k]) == byte
  {
    IndexOfIsInverse(Utf8, s, byte, k);
    if k <= |s| {
      LenPrefix(Utf8, s, k, |s|);
      assert s[..|s|] == s;
    }
  }

  /** Which error each bad argument is answered with. */
  lemma TextRefusals(s: string, byte: nat, range: Range, line: nat, offset: nat)
    ensures Position(s, byte) == Err(ByteOutOfBounds) <==> byte > Len(Utf8, s)
    ensures Position(s, byte) == Err(InvalidByteBoundary)
            <==> byte <= Len(Utf8, s) && forall k: nat | k <= |s| :: Len(Utf8, s[..k]) != byte
    ensures LineByteRange(s, line) == Err(LineOutOfBounds) <==> line >= LineCount(s)
    ensures ByteOfUtf16(s, offset) == Err(InvalidUtf16Boundary)
            <==> forall k: nat | k <= |s| :: Len(Utf16, s[..k]) != offset
    ensures Slice(s, range) == Err(InvalidEditRange) <==> range.start > range.end
  {
    if Position(s, byte).Ok? {
      PositionBound(s, byte);
    }
    forall k: nat | k <= |s| ensures Len(Utf8, s[..k]) == byte ==> Position(s, byte) == Ok(k) {
      PositionIsPrefix(s, byte, k);
    }
    forall k: nat ensures IndexOf(Utf16, s, offset) == Some(k) <==> k <= |s| && Len(Utf16, s[..k]) == offset {
      IndexOfIsInverse(Utf16, s, offset, k);
    }
  }

  lemma PositionBound(s: string, byte: nat)
    requires Position(s, byte).Ok?
    ensures var k := Position(s, byte).value; k <= |s| && Len(Utf8, s[..k]) == byte
  {
    PositionIsPrefix(s, byte, Position(s, byte).value);
  }

  lemma PositionOrder(s: string, b1: nat, b2: nat)
    requires b1 <= b2 && Position(s, b1).Ok? && Position(s, b2).Ok?
    ensures Position(s, b1).value <= Position(s, b2).value
  {
    PositionBound(s, b1);
    PositionBound(s, b2);
    var k1, k2 := Position(s, b1).value, Position(s, b2).value;
    if k2 < k1 {
      LenPrefix(Utf8, s, k2, k1);
    }
  }

  function LineOfByte(s: string, byte: nat): Result<nat, TextError> {
    var k :- Position(s, byte);
    Ok(Breaks(s, k))
  }

  function ByteOfLine(s: string, l: nat): nat {
    Len(Utf8, s[..LineStart(s, l)])
  }

  function LineByteRange(s: string, l: nat): Result<Range, TextError> {
    if l >= LineCount(s) then Err(LineOutOfBounds)
    else Ok(Range(ByteOfLine(s, l), ByteOfLine(s, l + 1)))
  }

  function Slice(s: string, range: Range): Result<string, TextError> {
    if range.start > range.end then Err(InvalidEditRange)
    else
      var from :- Position(s, range.start);
      var to :- Position(s, range.end);
      PositionOrder(s, range.start, range.end);
      Ok(s[from..to])
  }

  function Utf16OfByte(s: string, byte: nat): Result<nat, TextError> {
    var k :- Position(s, byte);
    Ok(Len(Utf16, s[..k]))
  }

  function ByteOfUtf16(s: string, offset: nat): Result<nat, TextError> {
    match IndexOf(Utf16, s, offset)
    case None => Err(InvalidUtf16Boundary)
    case Some(k) => Ok(Len(Utf8, s[..k]))
  }

  lemma SliceIsSubstring(s: string, from: nat, to: nat)
    requires from <= to <= |s|
    ensures Slice(s, Range(Len(Utf8, s[..from]), Len(Utf8, s[..to]))) == Ok(s[from..to])
  {
    PositionIsPrefix(s, Len(Utf8, s[..from]), from);
    PositionIsPrefix(s, Len(Utf8, s[..to]), to);
    LenPrefix(Utf8, s, from, to);
  }

  lemma LineOfUtf16Is(s: string, index: nat)
    ensures LineOfUtf16(s, index) ==
            match IndexOf(Utf16, s, index)
            case None => Err(InvalidUtf16Boundary)
            case Some(k) => Ok(Breaks(s, k))
  {
    hide Len, Breaks, IndexOf;
    match IndexOf(Utf16, s, index)
    case None =>
    case Some(k) => PositionIsPrefix(s, Len(Utf8, s[..k]), k);
  }

  lemma LineOfUtf16Concat(x: string, y: string, index: nat)
    requires SafeJoin(x, y)
    ensures index < Len(Utf16, x) ==> LineOfUtf16(x + y, index) == LineOfUtf16(x, index)
    ensures index >= Len(Utf16, x) ==>
              LineOfUtf16(x + y, index) ==
              match LineOfUtf16(y, index - Len(Utf16, x))
              case Err(e) => Err(e)
              case Ok(l) => Ok(Breaks(x, |x|) + l)
  {
    hide Len, Breaks, IndexOf, LineOfUtf16;
    LineOfUtf16Is(x + y, index);
    IndexOfConcat(Utf16, x, y, index);
    if index < Len(Utf16, x) {
      LineOfUtf16Is(x, index);
      match IndexOf(Utf16, x, index)
      case None =>
      case Some(k) => BreaksConcat(x, y, k);
    } else {
      LineOfUtf16Is(y, index - Len(Utf16, x));
      match IndexOf(Utf16, y, index - Len(Utf16, x))
      case None =>
      case Some(k) => BreaksConcat(x, y, |x| + k);
    }
  }
}
