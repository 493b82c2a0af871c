/** The text half of `commands.rs`: how a query matches a command's title and search terms.
    Queries and titles are Unicode strings; matching works on their UTF-8 bytes. */
module Matching {
  import opened Characters
  import opened Machine
  import opened Wrappers
  import Text

  type Byte = n: int | 0 <= n < 256

  /** UTF-8, section 3 of RFC 3629. */
  function EncodeChar(c: char): (bytes: seq<Byte>)
    ensures bytes != [] && (bytes[0] == c as int || bytes[0] >= 0xC0)
  {
    var n := c as int;
    if n < 0x80 then [n]
    else if n < 0x800 then [0xC0 + n / 0x40, 0x80 + n % 0x40]
    else if n < 0x10000 then [0xE0 + n / 0x1000, 0x80 + n / 0x40 % 0x40, 0x80 + n % 0x40]
    else [0xF0 + n / 0x40000, 0x80 + n / 0x1000 % 0x40, 0x80 + n / 0x40 % 0x40, 0x80 + n % 0x40]
  }

  function Encode(text: string): seq<Byte> {
    if text == "" then [] else EncodeChar(text[0]) + Encode(text[1..])
  }

  function Lower(b: Byte): Byte {
    if 'A' as int <= b <= 'Z' as int then b + 32 else b
  }

  /** Equality that ignores the case of ASCII letters. */
  predicate Same(a: Byte, b: Byte) {
    Lower(a) == Lower(b)
  }

  /** ASCII white space, which leaves out the vertical tab. */
  predicate IsSpace(b: Byte) {
    b in {0x20, 0x09, 0x0A, 0x0C, 0x0D}
  }

  /** The six bits that a continuation byte adds, section 3 of RFC 3629. */
  function Extended(value: int, b: int): int {
    value * 0x40 + (b - 0x80)
  }

  /** Decoding gives the scalar back, from as many bytes as its place in the text takes. */
  lemma EncodesAsUtf8(c: char)
    ensures var b := EncodeChar(c);
            && |b| == Text.Width(Text.Utf8, c)
            && (forall k | 1 <= k < |b| :: 0x80 <= b[k] < 0xC0)
            && (|b| == 1 ==> c as int == b[0] < 0x80)
            && (|b| == 2 ==> 0xC0 <= b[0] < 0xE0 && c as int == Extended(b[0] as int - 0xC0, b[1]))
            && (|b| == 3 ==> 0xE0 <= b[0] < 0xF0 && c as int == Extended(Extended(b[0] as int - 0xE0, b[1]), b[2]))
            && (|b| == 4 ==>
                  && 0xF0 <= b[0] < 0xF8
                  && c as int == Extended(Extended(Extended(b[0] as int - 0xF0, b[1]), b[2]), b[3]))
  {
    var n := c as int;
    assert n / 0x1000 == n / 0x40 / 0x40 && n / 0x40000 == n / 0x1000 / 0x40;
  }

  /** Bytes are the same if they are equal or one is the capital of the other letter. */
  lemma SameIsUpToCase(a: Byte, b: Byte)
    ensures Same(a, b) <==>
              || a == b
              || ('A' as int <= a <= 'Z' as int && b - a == 'a' as int - 'A' as int)
              || ('A' as int <= b <= 'Z' as int && a - b == 'a' as int - 'A' as int)
  {
  }

  /** The ASCII notion of white space differs from Unicode's in the vertical tab alone. */
  lemma SpacesAreWhitespace(b: Byte)
    requires b < 0x80
    ensures IsSpace(b) <==> IsWhitespace(b as char) && b != 0x0B
  {
  }

  // --------------------------------------------------------------------- trimming

  function TrimStart(text: string): (r: string)
    ensures r == "" || !IsWhitespace(r[0])
    ensures |r| <= |text| && r == text[|text| - |r|..]
    ensures IsBlank(text[..|text| - |r|])
  {
    if text != "" && IsWhitespace(text[0]) then TrimStart(text[1..]) else text
  }

  function TrimEnd(text: string): (r: string)
    ensures r == "" || !IsWhitespace(r[|r| - 1])
    ensures r <= text && IsBlank(text[|r|..])
  {
    if text != "" && IsWhitespace(text[|text| - 1]) then TrimEnd(text[..|text| - 1]) else text
  }

  function Trim(text: string): string {
    TrimEnd(TrimStart(text))
  }

  /** What is left begins and ends with no white space, and what went was only that. */
  lemma TrimIsTight(text: string) returns (before: string, after: string)
    ensures text == before + Trim(text) + after && IsBlank(before) && IsBlank(after)
    ensures var r := Trim(text);
            && (r == "" <==> IsBlank(text))
            && (r != "" ==> !IsWhitespace(r[0]) && !IsWhitespace(r[|r| - 1]))
  {
    hide IsWhitespace, TrimStart, TrimEnd, IsBlank;
    var start := TrimStart(text);
    before, after := text[..|text| - |start|], start[|Trim(text)|..];
    assert text == before + start && start == Trim(text) + after;
    BlankOnly(text, before, Trim(text), after);
  }

  lemma BlankOnly(text: string, before: string, r: string, after: string)
    requires text == before + (r + after) && IsBlank(before) && IsBlank(after)
    requires r != "" ==> !IsWhitespace(r[0])
    ensures r == "" <==> IsBlank(text)
  {
    hide IsWhitespace, IsBlank;
    BlankParts(before, r + after);
    BlankParts(r, after);
    if r != "" {
      NotBlank(r);
    }
  }

  lemma BlankParts(a: string, b: string)
    ensures IsBlank("")
    ensures IsBlank(a + b) <==> IsBlank(a) && IsBlank(b)
  {
    hide IsWhitespace;
    if IsBlank(a + b) {
      assert (forall c | c in a :: c in a + b) && forall c | c in b :: c in a + b;
    }
  }

  lemma NotBlank(a: string)
    requires a != "" && !IsWhitespace(a[0])
    ensures !IsBlank(a)
  {
  }

  // --------------------------------------------------------------- subsequences

  /** The query without its ASCII white space. */
  function Squeezed(query: seq<Byte>): seq<Byte> {
    if query == [] then []
    else Squeezed(query[..|query| - 1]) + if IsSpace(query[|query| - 1]) then [] else [query[|query| - 1]]
  }

  /** Increasing positions of `value` that hold the bytes of q, ignoring case. */
  predicate Embeds(value: seq<Byte>, q: seq<Byte>, at: seq<nat>) {
    && |at| == |q|
    && (forall i | 0 <= i < |at| :: at[i] < |value| && Same(value[at[i]], q[i]))
    && forall i, j | 0 <= i < j < |at| :: at[i] < at[j]
  }

  /** An embedding that puts every byte at least as early as any other does. */
  ghost predicate Earliest(value: seq<Byte>, q: seq<Byte>, at: seq<nat>) {
    && Embeds(value, q, at)
    && forall other | Embeds(value, q, other) :: forall i | 0 <= i < |at| :: at[i] <= other[i]
  }

  /** The first position from k on that holds the byte, or the length. */
  function FirstFrom(value: seq<Byte>, k: nat, b: Byte): (r: nat)
    requires k <= |value|
    ensures k <= r <= |value|
    ensures r < |value| ==> Same(value[r], b)
    ensures forall i | k <= i < r :: !Same(value[i], b)
    decreases |value| - k
  {
    if k == |value| || Same(value[k], b) then k else FirstFrom(value, k + 1, b)
  }

  /** Greedy search: where byte i of q is found when each is taken as soon as possible after
      the one before it; the length when it is not. */
  function Place(value: seq<Byte>, q: seq<Byte>, i: nat): (r: nat)
    requires i < |q|
    ensures r <= |value|
    ensures r < |value| ==> Same(value[r], q[i])
  {
    if i == 0 then FirstFrom(value, 0, q[0])
    else
      var before := Place(value, q, i - 1);
      if before == |value| then before else FirstFrom(value, before + 1, q[i])
  }

  function Places(value: seq<Byte>, q: seq<Byte>): seq<nat> {
    seq(|q|, i requires 0 <= i < |q| => Place(value, q, i))
  }

  /** Every byte before one that is found is found, further to the left. */
  lemma {:induction false} PlacesAdvance(value: seq<Byte>, q: seq<Byte>, i: nat, j: nat)
    requires i <= j < |q| && Place(value, q, j) < |value|
    ensures Place(value, q, i) + (j - i) <= Place(value, q, j)
  {
    if i < j {
      PlacesAdvance(value, q, i, j - 1);
    }
  }

  /** No embedding puts a byte before its greedy place. */
  lemma {:induction false} PlaceIsEarliest(value: seq<Byte>, q: seq<Byte>, at: seq<nat>, i: nat)
    requires Embeds(value, q, at) && i < |q|
    ensures Place(value, q, i) <= at[i]
  {
    if i > 0 {
      PlaceIsEarliest(value, q, at, i - 1);
      assert at[i - 1] < at[i];
    }
  }

  predicate Found(value: seq<Byte>, q: seq<Byte>) {
    q != [] && Place(value, q, |q| - 1) < |value|
  }

  lemma PlacesEmbed(value: seq<Byte>, q: seq<Byte>)
    requires Found(value, q)
    ensures Embeds(value, q, Places(value, q))
  {
    hide Place, Same;
    forall i, j | 0 <= i <= j < |q| ensures Place(value, q, i) + (j - i) <= Place(value, q, j) < |value| {
      PlacesAdvance(value, q, j, |q| - 1);
      PlacesAdvance(value, q, i, j);
    }
  }

  /** Being greedy misses no embedding and finds the earliest one. */
  lemma GreedyIsComplete(value: seq<Byte>, q: seq<Byte>)
    requires q != []
    ensures Found(value, q) <==> exists at :: Embeds(value, q, at)
    ensures Found(value, q) ==> Earliest(value, q, Places(value, q))
  {
    forall at, i: nat | Embeds(value, q, at) && i < |q| ensures Place(value, q, i) <= at[i] {
      PlaceIsEarliest(value, q, at, i);
    }
    hide Place, Same;
    if Found(value, q) {
      PlacesEmbed(value, q);
    }
  }

  /** The bytes between the first and the last position that the embedding leaves out. */
  function Skipped(at: seq<nat>): int
    requires at != []
  {
    at[|at| - 1] - at[0] + 1 - |at|
  }

  /** The score of a subsequence match: how much its greedy embedding leaves out. */
  function Gaps(value: seq<Byte>, query: seq<Byte>): (r: Option<int>)
    ensures r.Some? ==> 0 <= r.value <= U16_MAX
  {
    var q := Squeezed(query);
    if !Found(value, q) then None
    else
      PlacesAdvance(value, q, 0, |q| - 1);
      Some(Saturated(Place(value, q, |q| - 1) - Place(value, q, 0) + 1 - |q|, U16_MAX))
  }

  lemma EarliestIsUnique(value: seq<Byte>, q: seq<Byte>, a: seq<nat>, b: seq<nat>)
    requires Earliest(value, q, a) && Earliest(value, q, b)
    ensures a == b
  {
  }

  /** A query matches exactly when it has something but white space, and that is a
      case-insensitive subsequence; its gaps are those of the earliest embedding. */
  lemma GapsOfEarliest(value: seq<Byte>, query: seq<Byte>)
    ensures var q := Squeezed(query);
            && (Gaps(value, query).Some? <==> q != [] && exists at :: Embeds(value, q, at))
            && (Gaps(value, query).Some? ==> exists at :: Earliest(value, q, at))
            && forall at | q != [] && Earliest(value, q, at) ::
                 Gaps(value, query) == Some(Saturated(Skipped(at), U16_MAX))
  {
    hide Squeezed, Place;
    var q := Squeezed(query);
    if q != [] {
      GreedyIsComplete(value, q);
      forall at | Earliest(value, q, at) ensures Gaps(value, query) == Some(Saturated(Skipped(at), U16_MAX)) {
        EarliestIsUnique(value, q, Places(value, q), at);
      }
    }
  }

  /** No embedding leaves out fewer bytes between its ends. */
  ghost predicate IsTightest(value: seq<Byte>, q: seq<Byte>, at: seq<nat>)
    requires at != []
  {
    forall other | Embeds(value, q, other) && other != [] :: Skipped(at) <= Skipped(other)
  }

  /** Starting the greedy search at s instead finds no shorter stretch. */
  predicate NoShorterFrom(value: seq<Byte>, q: seq<Byte>, s: nat)
    requires q != [] && s <= |value|
  {
    var last := |q| - 1;
    Found(value[s..], q) ==> Place(value, q, last) - Place(value, q, 0) <= Place(value[s..], q, last)
  }

  lemma ShiftLeft(value: seq<Byte>, q: seq<Byte>, at: seq<nat>, s: nat)
    requires Embeds(value, q, at) && q != [] && s == at[0] <= |value|
    ensures Embeds(value[s..], q, seq(|at|, i requires 0 <= i < |at| => if at[i] < s then 0 else at[i] - s))
  {
    hide Same;
    forall i | 0 <= i < |at| ensures at[i] >= s && value[s..][at[i] - s] == value[at[i]] {
      assert i > 0 ==> at[0] < at[i];
    }
  }

  lemma ShiftRight(value: seq<Byte>, q: seq<Byte>, at: seq<nat>, s: nat)
    requires s <= |value| && Embeds(value[s..], q, at)
    ensures Embeds(value, q, seq(|at|, i requires 0 <= i < |at| => at[i] + s))
  {
    hide Same;
    forall i | 0 <= i < |at| ensures at[i] < |value[s..]| && value[s..][at[i]] == value[at[i] + s] {
    }
  }

  /** A greedy search from a place where the first byte stands begins there. */
  lemma StartsThere(value: seq<Byte>, q: seq<Byte>, s: nat)
    requires q != [] && s < |value| && Same(value[s], q[0])
    ensures Place(value[s..], q, 0) == 0
  {
    assert value[s..][0] == value[s];
  }

  /** One other embedding is no tighter, if the search from its start finds nothing shorter. */
  lemma OtherIsNoTighter(value: seq<Byte>, q: seq<Byte>, other: seq<nat>)
    requires Found(value, q) && Embeds(value, q, other)
    requires other[0] > Place(value, q, 0) ==> NoShorterFrom(value, q, other[0])
    ensures Skipped(Places(value, q)) <= Skipped(other)
  {
    hide Place, Same;
    var last, s := |q| - 1, other[0];
    PlaceIsEarliest(value, q, other, 0);
    PlaceIsEarliest(value, q, other, last);
    if s > Place(value, q, 0) {
      var shifted := seq(|other|, i requires 0 <= i < |other| => if other[i] < s then 0 else other[i] - s);
      ShiftLeft(value, q, other, s);
      GreedyIsComplete(value[s..], q);
      PlaceIsEarliest(value[s..], q, shifted, last);
      assert last > 0 ==> other[0] < other[last];
    }
  }

  /** A tighter embedding is found from wherever a shorter stretch begins. */
  lemma TightestHasNoShorter(value: seq<Byte>, q: seq<Byte>, s: nat)
    requires Found(value, q) && IsTightest(value, q, Places(value, q))
    requires s < |value| && Same(value[s], q[0])
    ensures NoShorterFrom(value, q, s)
  {
    hide Embeds;
    if Found(value[s..], q) {
      var at := Places(value[s..], q);
      var shifted := seq(|at|, i requires 0 <= i < |at| => at[i] + s);
      PlacesEmbed(value[s..], q);
      ShiftRight(value, q, at, s);
      StartsThere(value, q, s);
      assert Skipped(Places(value, q)) <= Skipped(shifted);
    }
  }

  /** The earliest embedding leaves out the fewest bytes of all, exactly when no later
      occurrence of the first byte begins a shorter greedy stretch. */
  lemma EarliestIsTightest(value: seq<Byte>, q: seq<Byte>)
    requires Found(value, q)
    ensures IsTightest(value, q, Places(value, q)) <==>
              forall s | Place(value, q, 0) < s < |value| && Same(value[s], q[0]) :: NoShorterFrom(value, q, s)
  {
    hide Place, Same, NoShorterFrom;
    if IsTightest(value, q, Places(value, q)) {
      forall s | Place(value, q, 0) < s < |value| && Same(value[s], q[0]) ensures NoShorterFrom(value, q, s) {
        TightestHasNoShorter(value, q, s);
      }
    }
    if forall s | Place(value, q, 0) < s < |value| && Same(value[s], q[0]) :: NoShorterFrom(value, q, s) {
      forall other | Embeds(value, q, other) ensures Skipped(Places(value, q)) <= Skipped(other) {
        OtherIsNoTighter(value, q, other);
      }
    }
  }

  lemma TwiceThenOther(x: Byte, y: Byte)
    requires !Same(x, y) && !IsSpace(x) && !IsSpace(y)
    ensures Gaps([x, x, y], [x, y]) == Some(1)
    ensures Embeds([x, x, y], [x, y], [1, 2]) && Squeezed([x, y]) == [x, y]
  {
    hide Same, IsSpace;
    SqueezedPair(x, y);
    PlacesOfPair(x, y);
    hide Squeezed, Place;
  }

  lemma SqueezedPair(x: Byte, y: Byte)
    requires !IsSpace(x) && !IsSpace(y)
    ensures Squeezed([x, y]) == [x, y]
  {
    hide IsSpace;
    assert [x, y][..1] == [x] && [x][..0] == [];
    assert Squeezed([x]) == Squeezed([]) + [x];
  }

  lemma PlacesOfPair(x: Byte, y: Byte)
    requires !Same(x, y)
    ensures Place([x, x, y], [x, y], 0) == 0 && Place([x, x, y], [x, y], 1) == 2
    ensures Same(x, x) && Same(y, y)
  {
    var value := [x, x, y];
    assert Same(x, x) && Same(y, y);
    hide Same;
    assert FirstFrom(value, 0, x) == 0;
    assert FirstFrom(value, 2, y) == 2;
    assert FirstFrom(value, 1, y) == 2;
  }

  /** An instance that is not the tightest: `aab` holds `ab` without a gap. */
  lemma EarliestIsNotTightest()
    ensures Gaps([97, 97, 98], [97, 98]) == Some(1)
    ensures Embeds([97, 97, 98], [97, 98], [1, 2]) && Skipped([1, 2]) == 0
    ensures !IsTightest([97, 97, 98], [97, 98], Places([97, 97, 98], [97, 98]))
  {
    TwiceThenOther(97, 98);
    PlacesOfPair(97, 98);
  }

  /** After k bytes of the text, the first p bytes of q are matched as early as possible, the
      next one has not occurred since, and the bytes left out are counted. */
  ghost predicate Scanned(value: seq<Byte>, q: seq<Byte>, k: nat, p: nat, gaps: int) {
    && p < |q| && k <= |value|
    && Place(value, q, p) == FirstFrom(value, k, q[p])
    && (p == 0 ==> gaps == 0)
    && (p > 0 ==> Place(value, q, p - 1) < k && gaps == Saturated(k - Place(value, q, 0) - p, U16_MAX))
  }

  /** One pass over the text, counting the bytes that are passed over once something has
      matched. */
  method SubsequenceGaps(value: seq<Byte>, query: seq<Byte>) returns (r: Option<int>)
    ensures r == Gaps(value, query)
  {
    var rest := Squeezed(query);
    if rest == [] {
      return None;
    }
    var p, seen, gaps := 0, false, 0;
    hide Gaps, Same, Squeezed, Place, FirstFrom, Scanned;
    assert Scanned(value, rest, 0, 0, 0) by { NothingScanned(value, rest); }
    for k := 0 to |value|
      invariant p < |rest| && seen == (p > 0)
      invariant Scanned(value, rest, k, p, gaps)
    {
      ScanByte(value, rest, k, p, gaps);
      if Same(value[k], rest[p]) {
        seen := true;
        p := p + 1;
        if p == |rest| {
          FoundLast(value, query, gaps);
          return Some(gaps);
        }
      } else if seen {
        gaps := if gaps < U16_MAX then gaps + 1 else gaps;
      }
    }
    NotFound(value, query, p, gaps);
    r := None;
  }

  lemma NothingScanned(value: seq<Byte>, q: seq<Byte>)
    requires q != []
    ensures Scanned(value, q, 0, 0, 0)
  {
  }

  lemma FirstFromStep(value: seq<Byte>, k: nat, b: Byte)
    requires k < |value|
    ensures FirstFrom(value, k, b) == if Same(value[k], b) then k else FirstFrom(value, k + 1, b)
  {
  }

  ghost predicate Scores(value: seq<Byte>, q: seq<Byte>, gaps: int) {
    Found(value, q) && gaps == Saturated(Place(value, q, |q| - 1) - Place(value, q, 0) + 1 - |q|, U16_MAX)
  }

  lemma ScanByte(value: seq<Byte>, q: seq<Byte>, k: nat, p: nat, gaps: int)
    requires k < |value| && Scanned(value, q, k, p, gaps)
    ensures !Same(value[k], q[p]) ==>
              Scanned(value, q, k + 1, p, if p == 0 || gaps == U16_MAX then gaps else gaps + 1)
    ensures Same(value[k], q[p]) && p + 1 < |q| ==> Scanned(value, q, k + 1, p + 1, gaps)
    ensures Same(value[k], q[p]) && p + 1 == |q| ==> Scores(value, q, gaps)
    ensures gaps <= U16_MAX
  {
    FirstFromStep(value, k, q[p]);
    hide Same, FirstFrom;
  }

  lemma FoundLast(value: seq<Byte>, query: seq<Byte>, gaps: int)
    requires Scores(value, Squeezed(query), gaps)
    ensures Gaps(value, query) == Some(gaps)
  {
  }

  lemma NotFound(value: seq<Byte>, query: seq<Byte>, p: nat, gaps: int)
    requires Scanned(value, Squeezed(query), |value|, p, gaps)
    ensures Gaps(value, query).None?
  {
    var q := Squeezed(query);
    if Found(value, q) {
      PlacesAdvance(value, q, p, |q| - 1);
    }
  }

  // ------------------------------------------------------------- prefixes and words

  predicate AsciiPrefix(value: seq<Byte>, query: seq<Byte>) {
    OccursAt(value, query, 0)
  }

  /** The query stands at position i, ignoring case. */
  predicate OccursAt(value: seq<Byte>, query: seq<Byte>, i: nat) {
    i + |query| <= |value| && forall k | 0 <= k < |query| :: Same(value[i + k], query[k])
  }

  /** White space ends a word of the title, and so does a colon. */
  predicate EndsTitleWord(b: Byte) {
    IsSpace(b) || b == ':' as int
  }

  /** The piece after the last delimiter. */
  function LastToken(value: seq<Byte>, ends: Byte -> bool): seq<Byte> {
    if value == [] || ends(value[|value| - 1]) then []
    else LastToken(value[..|value| - 1], ends) + [value[|value| - 1]]
  }

  /** The pieces that a delimiter closes, in order. */
  function ClosedTokens(value: seq<Byte>, ends: Byte -> bool): seq<seq<Byte>> {
    if value == [] then []
    else
      var front := value[..|value| - 1];
      ClosedTokens(front, ends) + if ends(value[|value| - 1]) then [LastToken(front, ends)] else []
  }

  /** The pieces between delimiters, empty ones included. */
  function Tokens(value: seq<Byte>, ends: Byte -> bool): seq<seq<Byte>> {
    ClosedTokens(value, ends) + [LastToken(value, ends)]
  }

  predicate AnyTokenStarts(value: seq<Byte>, ends: Byte -> bool, query: seq<Byte>) {
    exists t | t in Tokens(value, ends) :: AsciiPrefix(t, query)
  }

  /** The query stands at the start of a word and within it. */
  predicate WordAt(value: seq<Byte>, ends: Byte -> bool, query: seq<Byte>, i: nat) {
    && OccursAt(value, query, i)
    && (i == 0 || ends(value[i - 1]))
    && forall k | i <= k < i + |query| :: !ends(value[k])
  }

  predicate HasWord(value: seq<Byte>, ends: Byte -> bool, query: seq<Byte>) {
    exists i: nat :: i <= |value| && WordAt(value, ends, query, i)
  }

  /** The last token follows the last delimiter. */
  lemma {:induction false} LastTokenFollows(value: seq<Byte>, ends: Byte -> bool)
    ensures var t := LastToken(value, ends);
            && |t| <= |value| && t == value[|value| - |t|..]
            && (|t| == |value| || ends(value[|value| - |t| - 1]))
            && forall b | b in t :: !ends(b)
  {
    if value != [] && !ends(value[|value| - 1]) {
      LastTokenFollows(value[..|value| - 1], ends);
    }
  }

  /** Words that do not end at the end of the text are words of what precedes its last byte. */
  lemma WordBeforeLast(value: seq<Byte>, ends: Byte -> bool, query: seq<Byte>, i: nat)
    requires value != []
    ensures WordAt(value[..|value| - 1], ends, query, i) <==> WordAt(value, ends, query, i) && i + |query| < |value|
  {
    var front := value[..|value| - 1];
    if WordAt(value, ends, query, i) && i + |query| < |value| {
      forall k | 0 <= k < |query| ensures Same(front[i + k], query[k]) {
        assert front[i + k] == value[i + k];
      }
    }
  }

  /** A word that reaches the end of the text starts its last token. */
  lemma WordAtEnd(value: seq<Byte>, ends: Byte -> bool, query: seq<Byte>, i: nat)
    requires query != []
    ensures var t := LastToken(value, ends);
            && |t| <= |value|
            && (AsciiPrefix(t, query) <==> WordAt(value, ends, query, |value| - |t|))
            && (WordAt(value, ends, query, i) && i + |query| == |value| ==> i == |value| - |t|)
  {
    hide LastToken, Same;
    LastTokenFollows(value, ends);
    var t := LastToken(value, ends);
  }

  /** Splitting into tokens and comparing prefixes finds the words that the query starts. */
  lemma {:induction false} TokenStartsAreWords(value: seq<Byte>, ends: Byte -> bool, query: seq<Byte>)
    requires query != []
    ensures AnyTokenStarts(value, ends, query) <==> HasWord(value, ends, query)
  {
    hide Same, WordAt, OccursAt;
    if value == [] {
      WordAtEnd([], ends, query, 0);
      return;
    }
    var front, t := value[..|value| - 1], LastToken(value, ends);
    TokenStartsAreWords(front, ends, query);
    forall i: nat
      ensures WordAt(front, ends, query, i) <==> WordAt(value, ends, query, i) && i + |query| < |value|
      ensures WordAt(value, ends, query, i) && i + |query| == |value| ==> AsciiPrefix(t, query)
    {
      WordBeforeLast(value, ends, query, i);
      WordAtEnd(value, ends, query, i);
    }
    WordAtEnd(value, ends, query, 0);
    TokensOfFront(value, ends, query);
    assert AnyTokenStarts(value, ends, query) <==> AnyTokenStarts(front, ends, query) || AsciiPrefix(t, query);
    if i: nat :| WordAt(value, ends, query, i) {
      WordFits(value, ends, query, i);
      assert HasWord(value, ends, query);
    }
  }

  lemma WordFits(value: seq<Byte>, ends: Byte -> bool, query: seq<Byte>, i: nat)
    requires WordAt(value, ends, query, i)
    ensures i + |query| <= |value|
  {
  }

  /** One more byte changes the last token only. */
  lemma TokensOfFront(value: seq<Byte>, ends: Byte -> bool, query: seq<Byte>)
    requires query != [] && value != []
    ensures AnyTokenStarts(value, ends, query) <==>
              AnyTokenStarts(value[..|value| - 1], ends, query) || AsciiPrefix(LastToken(value, ends), query)
  {
    hide Same;
    var front, last := value[..|value| - 1], value[|value| - 1];
    var t := LastToken(front, ends);
    if !ends(last) {
      assert AsciiPrefix(t, query) ==> AsciiPrefix(t + [last], query);
    }
  }

  datatype Score = Score(rank: int, gaps: int)

  function MatchScore(title: seq<Byte>, terms: seq<Byte>, query: seq<Byte>): Option<Score> {
    if query == [] then Some(Score(0, 0))
    else if AsciiPrefix(title, query) || AsciiPrefix(terms, query) then Some(Score(0, 0))
    else if AnyTokenStarts(title, EndsTitleWord, query) || AnyTokenStarts(terms, IsSpace, query) then Some(Score(1, 0))
    else match Gaps(title, query)
      case Some(gaps) => Some(Score(2, gaps))
      case None =>
        match Gaps(terms, query)
        case Some(gaps) => Some(Score(2, gaps))
        case None => None
  }

  /** What each rank means, for a query that is not empty. Rank 0: the title or the search terms
      start with the query. Rank 1: neither does, but a word of one of them does. Rank 2: there
      is no such word, and the gaps are the title's, or else the search terms'. */
  lemma RanksAreExact(title: seq<Byte>, terms: seq<Byte>, query: seq<Byte>)
    requires query != []
    ensures var score := MatchScore(title, terms, query);
            var starts := OccursAt(title, query, 0) || OccursAt(terms, query, 0);
            var word := HasWord(title, EndsTitleWord, query) || HasWord(terms, IsSpace, query);
            && (score == Some(Score(0, 0)) <==> starts)
            && (score == Some(Score(1, 0)) <==> !starts && word)
            && (!starts && !word ==>
                  && (score.Some? ==> score.value.rank == 2)
                  && (Gaps(title, query).Some? ==> score.Some? && Some(score.value.gaps) == Gaps(title, query))
                  && (Gaps(title, query).None? && Gaps(terms, query).Some? ==>
                        score.Some? && Some(score.value.gaps) == Gaps(terms, query))
                  && (Gaps(title, query).None? && Gaps(terms, query).None? ==> score == None))
  {
    hide Gaps, OccursAt, HasWord, AnyTokenStarts;
    TokenStartsAreWords(title, EndsTitleWord, query);
    TokenStartsAreWords(terms, IsSpace, query);
  }

  /** A word of a title may follow a colon; one of the search terms may not. */
  lemma ColonEndsTitleWord()
    ensures MatchScore([97, 58, 98], [], [98]) == Some(Score(1, 0))
    ensures MatchScore([], [97, 58, 98], [98]) == Some(Score(2, 0))
  {
    hide HasWord, OccursAt, MatchScore, Gaps;
    var value: seq<Byte> := [97, 58, 98];
    assert !OccursAt(value, [98], 0) && !OccursAt([], [98], 0) by { AfterColon(); }
    assert HasWord(value, EndsTitleWord, [98]) && !HasWord(value, IsSpace, [98]) by { AfterColon(); }
    assert !HasWord([], EndsTitleWord, [98]) by { AfterColon(); }
    RanksAreExact(value, [], [98]);
    RanksAreExact([], value, [98]);
    OneByteGaps(value, 98, 2);
    NothingFound(98);
  }

  lemma AfterColon()
    ensures !OccursAt([97, 58, 98], [98], 0) && !OccursAt([], [98], 0)
    ensures HasWord([97, 58, 98], EndsTitleWord, [98]) && !HasWord([97, 58, 98], IsSpace, [98])
    ensures !HasWord([], EndsTitleWord, [98])
  {
    var value: seq<Byte>, query: seq<Byte> := [97, 58, 98], [98];
    assert !Same(value[0], query[0]) && !Same(value[1], query[0]);
    assert OccursAt(value, [98], 2);
    assert WordAt(value, EndsTitleWord, [98], 2);
    forall i: nat ensures !WordAt(value, IsSpace, [98], i) && !WordAt([], EndsTitleWord, [98], i) {
      if i == 0 || i == 1 {
        assert !OccursAt(value, [98], i);
      }
    }
  }

  lemma OneByteGaps(value: seq<Byte>, b: Byte, at: nat)
    requires at < |value| && value[at] == b && !IsSpace(b)
    ensures Gaps(value, [b]) == Some(0)
  {
    SqueezedEnd([b]);
    SqueezedNothing();
    assert [b][..0] == [];
  }

  lemma NothingFound(b: Byte)
    requires !IsSpace(b)
    ensures Gaps([], [b]) == None
  {
    SqueezedEnd([b]);
    SqueezedNothing();
    assert [b][..0] == [];
  }

  /** An occurrence of the query embeds what is left of it without white space. */
  lemma {:induction false} OccurrenceEmbeds(value: seq<Byte>, query: seq<Byte>, i: nat) returns (at: seq<nat>)
    requires OccursAt(value, query, i)
    ensures Embeds(value, Squeezed(query), at)
    ensures forall k | 0 <= k < |at| :: at[k] < i + |query|
  {
    hide Same, Squeezed, Embeds;
    if query == [] {
      SqueezedNothing();
      NothingEmbeds(value);
      return [];
    }
    var last := |query| - 1;
    at := OccurrenceEmbeds(value, query[..last], i);
    SqueezedEnd(query);
    if !IsSpace(query[last]) {
      EmbedsGrows(value, Squeezed(query[..last]), query[last], at, i + last);
      at := at + [i + last];
    }
  }

  lemma NothingEmbeds(value: seq<Byte>)
    ensures Embeds(value, [], [])
  {
  }

  lemma SqueezedEnd(query: seq<Byte>)
    requires query != []
    ensures var last := |query| - 1;
            Squeezed(query)
            == if IsSpace(query[last]) then Squeezed(query[..last]) else Squeezed(query[..last]) + [query[last]]
  {
  }

  lemma EmbedsGrows(value: seq<Byte>, q: seq<Byte>, b: Byte, at: seq<nat>, next: nat)
    requires Embeds(value, q, at) && next < |value| && Same(value[next], b)
    requires forall k | 0 <= k < |at| :: at[k] < next
    ensures Embeds(value, q + [b], at + [next])
  {
  }

  /** Whatever the rank, a query matches a command exactly when its bytes other than white
      space are a case-insensitive subsequence of the title or of the search terms. */
  lemma MatchesAreSubsequences(title: seq<Byte>, terms: seq<Byte>, query: seq<Byte>)
    requires Squeezed(query) != []
    ensures MatchScore(title, terms, query).Some? <==>
              || (exists at :: Embeds(title, Squeezed(query), at))
              || exists at :: Embeds(terms, Squeezed(query), at)
  {
    hide Embeds, Squeezed, OccursAt, WordAt, Gaps;
    GapsOfEarliest(title, query);
    GapsOfEarliest(terms, query);
    assert query != [] by { SqueezedNothing(); }
    PrefixEmbeds(title, EndsTitleWord, query);
    PrefixEmbeds(terms, IsSpace, query);
  }

  lemma SqueezedNothing()
    ensures Squeezed([]) == []
  {
  }

  lemma PrefixEmbeds(value: seq<Byte>, ends: Byte -> bool, query: seq<Byte>)
    requires query != []
    ensures AsciiPrefix(value, query) || AnyTokenStarts(value, ends, query) ==>
              exists at :: Embeds(value, Squeezed(query), at)
  {
    hide Embeds, Squeezed, OccursAt;
    TokenStartsAreWords(value, ends, query);
    if AsciiPrefix(value, query) {
      var at := OccurrenceEmbeds(value, query, 0);
    } else if AnyTokenStarts(value, ends, query) {
      var i: nat :| i <= |value| && WordAt(value, ends, query, i);
      var at := OccurrenceEmbeds(value, query, i);
    }
  }

  // ------------------------------------------------------------ trimmed queries

  /** A trimmed query that is not empty holds a byte that is no white space. */
  lemma TrimmedIsNotSqueezedAway(text: string)
    requires Trim(text) != ""
    ensures Squeezed(Encode(Trim(text))) != []
  {
    hide Trim;
    var before, after := TrimIsTight(text);
    var r := Trim(text);
    assert Encode(r)[0] == EncodeChar(r[0])[0];
    KeepsFirst(Encode(r));
  }

  lemma {:induction false} KeepsFirst(query: seq<Byte>)
    requires query != [] && !IsSpace(query[0])
    ensures Squeezed(query) != []
  {
    if |query| > 1 {
      KeepsFirst(query[..|query| - 1]);
    }
  }
}
