/** What the parser makes of the printer's text, and of any text. */
module HeaderRoundTrip {
  import opened Words
  import opened HeaderMaps
  import opened HeaderText
  import opened HeaderParser

  // ----- pairs that survive -----

  predicate KeyChar(c: Unit) {
    0 < c < 0x80 && !IsBlank(c) && !IsLineEnd(c) && c != COLON
  }

  predicate ValueChar(c: Unit) {
    0 < c < 0x100 && !IsLineEnd(c)
  }

  /** A pair whose characters survive; its parts may be too long. */
  ghost predicate Writable(e: Entry) {
    && e.key != [] && e.value != []
    && (forall i :: 0 <= i < |e.key| ==> KeyChar(e.key[i]))
    && (forall i :: 0 <= i < |e.value| ==> ValueChar(e.value[i]))
    && !IsBlank(e.value[0]) && e.value[0] != COLON && !IsBlank(e.value[|e.value| - 1])
  }

  ghost predicate Printable(e: Entry) {
    Writable(e) && |e.key| < MAX_KEY_SIZE && |e.value| < MAX_VALUE_SIZE
  }

  /** What the parser keeps of a part that is too long. */
  function Capped(text: Text, size: nat): Text {
    if |text| <= size then text else text[..size]
  }

  lemma CappedGrows(text: Text, n: nat, c: Unit, size: nat)
    requires n < |text| && text[n] == c
    ensures Capped(text[..n + 1], size)
         == if n < size then Capped(text[..n], size) + [c] else Capped(text[..n], size)
    ensures |Capped(text[..n], size)| == if n < size then n else size
  {
  }

  // ----- one line -----

  lemma {:induction false} RunAppend(st: State, s: seq<Byte>, t: seq<Byte>)
    ensures Run(st, s + t) == Run(Run(st, s), t)
  {
    if t == [] {
      assert s + t == s;
    } else {
      assert (s + t)[..|s + t| - 1] == s + t[..|t| - 1];
      RunAppend(st, s, t[..|t| - 1]);
    }
  }

  lemma RunOne(st: State, c: Byte)
    ensures Run(st, [c]) == Step(st, c)
  {
    assert [c][..0] == [];
  }

  lemma NarrowLast(text: Text)
    requires text != []
    ensures var n := |text| - 1; Narrow(text)[..n] == Narrow(text[..n]) && Narrow(text)[n] == text[n] % 0x100
  {
  }

  lemma NarrowFirst(text: Text)
    requires text != []
    ensures Narrow(text) == [text[0] % 0x100] + Narrow(text[1..])
  {
  }

  lemma FirstValueStep(st: State, c: Unit)
    requires st.mode == InSeparator && ValueChar(c) && !IsBlank(c) && c != COLON
    ensures Step(st, c % 0x100) == st.(mode := InValue, value := [c])
  {
  }

  lemma KeyStep(st: State, c: Unit)
    requires st.mode == InKey && KeyChar(c)
    ensures Step(st, c % 0x100) == if |st.key| < MAX_KEY_SIZE then st.(key := st.key + [c]) else st
  {
  }

  lemma ValueStep(st: State, c: Unit)
    requires st.mode == InValue && ValueChar(c)
    ensures Step(st, c % 0x100) == if |st.value| < MAX_VALUE_SIZE then st.(value := st.value + [c]) else st
  {
  }

  /** Reading on in a key: characters beyond its room are lost. */
  lemma {:induction false} RunKey(st: State, text: Text)
    requires st.mode == InKey && |st.key| <= MAX_KEY_SIZE
    requires forall i :: 0 <= i < |text| ==> KeyChar(text[i])
    ensures Run(st, Narrow(text)) == st.(key := Capped(st.key + text, MAX_KEY_SIZE))
  {
    hide Step;
    if text == [] {
      assert st.key + text == st.key;
    } else {
      var n := |text| - 1;
      RunKey(st, text[..n]);
      NarrowLast(text);
      assert (st.key + text)[..|st.key| + n] == st.key + text[..n];
      assert (st.key + text)[..|st.key| + n + 1] == st.key + text;
      CappedGrows(st.key + text, |st.key| + n, text[n], MAX_KEY_SIZE);
      KeyStep(st.(key := Capped(st.key + text[..n], MAX_KEY_SIZE)), text[n]);
    }
  }

  lemma {:induction false} RunValue(st: State, text: Text)
    requires st.mode == InValue && |st.value| <= MAX_VALUE_SIZE
    requires forall i :: 0 <= i < |text| ==> ValueChar(text[i])
    ensures Run(st, Narrow(text)) == st.(value := Capped(st.value + text, MAX_VALUE_SIZE))
  {
    hide Step;
    if text == [] {
      assert st.value + text == st.value;
    } else {
      var n := |text| - 1;
      RunValue(st, text[..n]);
      NarrowLast(text);
      assert (st.value + text)[..|st.value| + n] == st.value + text[..n];
      assert (st.value + text)[..|st.value| + n + 1] == st.value + text;
      CappedGrows(st.value + text, |st.value| + n, text[n], MAX_VALUE_SIZE);
      ValueStep(st.(value := Capped(st.value + text[..n], MAX_VALUE_SIZE)), text[n]);
    }
  }

  /** The state behind the line of e, with the pairs of the lines before. */
  function Behind(e: Entry, log: seq<Entry>): State {
    State(InNewLine, e.key, e.value, false, true, false, log)
  }

  /** The state behind the first character of a line. */
  function Begun(e: Entry, log: seq<Entry>): State
    requires e.key != []
  {
    State(InKey, [e.key[0]], [], false, false, false, log)
  }

  function RestOfLine(e: Entry): seq<Byte>
    requires e.key != []
  {
    Narrow(e.key[1..]) + [COLON, SPACE] + Narrow(e.value) + [CR, LF]
  }

  lemma LineSplits(e: Entry)
    requires e.key != []
    ensures Line(e) == [e.key[0] % 0x100] + RestOfLine(e)
  {
    NarrowFirst(e.key);
  }

  /** A line takes the machine to a finished pair, of which it keeps what there
      is room for. */
  lemma RunRestOfLine(e: Entry, log: seq<Entry>)
    requires Writable(e)
    ensures Run(Begun(e, log), RestOfLine(e))
         == Behind(Entry(Capped(e.key, MAX_KEY_SIZE), Capped(e.value, MAX_VALUE_SIZE)), log)
  {
    var k, v := Narrow(e.key[1..]), Narrow(e.value);
    RunKey(Begun(e, log), e.key[1..]);
    assert [e.key[0]] + e.key[1..] == e.key;
    var s1 := Begun(e, log).(key := Capped(e.key, MAX_KEY_SIZE));
    RunColon(e, s1, k, log);
    var s2 := s1.(mode := InSeparator, colonFound := true);
    RunFirstOfValue(e, s2, v);
    var s3 := s2.(mode := InValue, value := Capped(e.value, MAX_VALUE_SIZE));
    assert RestOfLine(e) == k + [COLON, SPACE] + v + [CR, LF];
    RunAppend(Begun(e, log), k + [COLON, SPACE] + v, [CR, LF]);
    RunAppend(Begun(e, log), k + [COLON, SPACE], v);
    RunTwo(s3, CR, LF);
  }

  lemma RunTwo(st: State, a: Byte, b: Byte)
    ensures Run(st, [a, b]) == Step(Step(st, a), b)
  {
    assert [a, b][..1] == [a];
    RunOne(st, a);
  }

  lemma RunColon(e: Entry, st: State, k: seq<Byte>, log: seq<Entry>)
    requires e.key != [] && Run(Begun(e, log), k) == st && st.mode == InKey
    ensures Run(Begun(e, log), k + [COLON, SPACE]) == st.(mode := InSeparator, colonFound := true)
  {
    RunAppend(Begun(e, log), k, [COLON, SPACE]);
    RunTwo(st, COLON, SPACE);
  }

  lemma RunFirstOfValue(e: Entry, st: State, v: seq<Byte>)
    requires Writable(e) && st.mode == InSeparator && v == Narrow(e.value)
    ensures Run(st, v) == st.(mode := InValue, value := Capped(e.value, MAX_VALUE_SIZE))
  {
    hide Run, Step, Narrow;
    var first := e.value[0] % 0x100;
    NarrowFirst(e.value);
    assert ValueChar(e.value[0]);
    FirstValueStep(st, e.value[0]);
    RunAppend(st, [first], Narrow(e.value[1..]));
    RunOne(st, first);
    RunValue(st.(mode := InValue, value := [e.value[0]]), e.value[1..]);
    assert [e.value[0]] + e.value[1..] == e.value;
  }

  lemma RunFirstLine(e: Entry)
    requires Printable(e)
    ensures Run(START, Line(e)) == Behind(e, [])
  {
    hide Run, Line, RestOfLine, Narrow;
    LineSplits(e);
    RunAppend(START, [e.key[0] % 0x100], RestOfLine(e));
    RunOne(START, e.key[0] % 0x100);
    assert KeyChar(e.key[0]);
    assert Step(START, e.key[0] % 0x100) == Begun(e, []);
    RunRestOfLine(e, []);
  }

  lemma RunNextLine(d: Entry, log: seq<Entry>, e: Entry)
    requires Printable(d) && Printable(e)
    ensures Run(Behind(d, log), Line(e)) == Behind(e, log + [d])
  {
    hide Run, Line, RestOfLine, Narrow, Pending;
    LineSplits(e);
    RunAppend(Behind(d, log), [e.key[0] % 0x100], RestOfLine(e));
    RunOne(Behind(d, log), e.key[0] % 0x100);
    assert KeyChar(e.key[0]);
    PendingIsPair(d, log);
    assert Step(Behind(d, log), e.key[0] % 0x100) == Begun(e, log + [d]);
    RunRestOfLine(e, log + [d]);
  }

  /** A pair comes back from its line exactly if both parts have room; otherwise
      it is dropped, not cut off. */
  lemma OverlongPairIsDropped(e: Entry, log: seq<Entry>)
    requires Writable(e)
    ensures Pending(Run(Begun(e, log), RestOfLine(e))) == if Printable(e) then [e] else []
  {
    hide Run;
    RunRestOfLine(e, log);
    if Printable(e) {
      PendingIsPair(e, log);
    }
  }

  lemma PendingIsPair(e: Entry, log: seq<Entry>)
    requires Printable(e)
    ensures Pending(Behind(e, log)) == [e]
  {
    assert KeyChar(e.key[|e.key| - 1]);
  }

  // ----- the round trip -----

  lemma {:induction false} RunPrinted(entries: seq<Entry>)
    requires entries != [] && forall i :: 0 <= i < |entries| ==> Printable(entries[i])
    ensures Run(START, Printed(entries)) == Behind(entries[|entries| - 1], entries[..|entries| - 1])
  {
    hide Printable, Run, Step, Line;
    var n := |entries| - 1;
    if n == 0 {
      assert entries[..0] == [];
      assert Printed(entries) == [] + Line(entries[0]) == Line(entries[0]);
      RunFirstLine(entries[0]);
    } else {
      RunPrinted(entries[..n]);
      RunAppend(START, Printed(entries[..n]), Line(entries[n]));
      RunNextLine(entries[n - 1], entries[..n - 1], entries[n]);
      assert entries[..n][..n - 1] == entries[..n - 1];
      assert entries[..n - 1] + [entries[n - 1]] == entries[..n];
    }
  }

  lemma {:induction false} PrintedHasNoZero(entries: seq<Entry>)
    requires forall i :: 0 <= i < |entries| ==> Printable(entries[i])
    ensures forall i :: 0 <= i < |Printed(entries)| ==> Printed(entries)[i] != NUL
    ensures entries != [] ==> Printed(entries) != [] && !IsBlank(Printed(entries)[0]) && !IsLineEnd(Printed(entries)[0])
  {
    if entries != [] {
      var n := |entries| - 1;
      PrintedHasNoZero(entries[..n]);
      LineHasNoZero(entries[n]);
    }
  }

  lemma LineHasNoZero(e: Entry)
    requires Printable(e)
    ensures forall i :: 0 <= i < |Line(e)| ==> Line(e)[i] != NUL
    ensures !IsBlank(Line(e)[0]) && !IsLineEnd(Line(e)[0])
  {
    var k, v := Narrow(e.key), Narrow(e.value);
    assert KeyChar(e.key[0]);
    assert forall i :: 0 <= i < |k| ==> k[i] == e.key[i] && KeyChar(e.key[i]);
    assert forall i :: 0 <= i < |v| ==> v[i] == e.value[i] && ValueChar(e.value[i]);
  }

  lemma {:induction false} TextEndIs(text: seq<Byte>, p: nat, size: nat, end: nat)
    requires p <= end <= size <= |text| && (end == size || text[end] == NUL)
    requires forall i :: p <= i < end ==> text[i] != NUL
    ensures TextEnd(text, p, size) == end
    decreases end - p
  {
    if p < end {
      TextEndIs(text, p + 1, size, end);
    }
  }

  /** Text printed from a map and parsed again gives exactly the pairs of the
      map in their order, and no error; a map filled with them is the map. */
  lemma RoundTrip(entries: seq<Entry>, text: seq<Byte>, size: nat, less: Less)
    requires forall i :: 0 <= i < |entries| ==> Printable(entries[i])
    requires var n := |Printed(entries)|;
             n <= size && Readable(text, size) && text[..n] == Printed(entries) && text[n] == NUL
    ensures Parse(text, size, false) == Result(entries, false)
    ensures InOrder(entries, less) ==> InsertedAll([], Parse(text, size, false).log, less) == entries
  {
    hide Printable, Run, Printed, Pending;
    var n := |Printed(entries)|;
    PrintedHasNoZero(entries);
    assert forall i :: 0 <= i < n ==> text[i] == text[..n][i];
    TextEndIs(text, 0, size, n);
    assert text[0..n] == text[..n];
    if entries == [] {
      NothingPrinted();
    } else {
      RunPrinted(entries);
      PendingIsPair(entries[|entries| - 1], entries[..|entries| - 1]);
      assert entries[..|entries| - 1] + [entries[|entries| - 1]] == entries;
    }
    if InOrder(entries, less) {
      RefilledIsSame(entries, less);
    }
  }

  /** A map printed into a buffer and read from the buffer into another map: if
      the text and two more characters fit, the other map becomes equal. */
  method PrintThenParse(headerMap: HeaderMap, buffer: array<Byte>, capacity: nat, other: HeaderMap)
    returns (result: int, failed: bool)
    requires 0 < capacity <= buffer.Length && other != headerMap && other.less == headerMap.less
    requires InOrder(headerMap.entries, headerMap.less)
    requires forall i :: 0 <= i < |headerMap.entries| ==> Printable(headerMap.entries[i])
    modifies buffer, other
    ensures result >= 0 <==> headerMap.entries == [] || |Printed(headerMap.entries)| + 2 <= capacity
    ensures result >= 0 ==> !failed && other.entries == headerMap.entries
  {
    hide Printed, Printable, InOrder, InsertedAll;
    ghost var entries := headerMap.entries;
    result := Print(headerMap.entries, buffer, capacity);
    AllFit(entries, capacity);
    failed := false;
    if result >= 0 {
      assert entries[..|entries|] == entries;
      RoundTrip(entries, buffer[..], result, headerMap.less);
      failed := SetHeaderMapFromText(buffer[..], result, other, false, true);
    }
  }

  lemma NothingPrinted()
    ensures Printed([]) == [] && Run(START, []) == START && Pending(START) == []
  {
  }

  // ----- the status line -----

  /** Where a status line of length k and its line end, of one or two characters,
      are over. */
  function BehindLine(text: seq<Byte>, k: nat): nat
    requires k + 1 < |text| && IsLineEnd(text[k])
  {
    if text[k] == CR && text[k + 1] == LF then k + 2 else k + 1
  }

  lemma {:induction false} LineStopIs(text: seq<Byte>, p: nat, size: nat, k: nat)
    requires p <= k < size <= |text| && IsLineEnd(text[k])
    requires forall i :: p <= i < k ==> text[i] != NUL && !IsLineEnd(text[i])
    ensures LineStop(text, p, size) == k
    decreases k - p
  {
    if p < k {
      LineStopIs(text, p + 1, size, k);
    }
  }

  lemma EndOfRest(text: seq<Byte>, b: nat, size: nat)
    requires b <= size <= |text|
    ensures var end := TextEnd(text, b, size);
            TextEnd(text[b..], 0, size - b) == end - b && text[b..][0..end - b] == text[b..end]
  {
    var end := TextEnd(text, b, size);
    assert forall i :: 0 <= i < |text[b..]| ==> text[b..][i] == text[b + i];
    TextEndIs(text[b..], 0, size - b, end - b);
  }

  lemma RestIsReadable(text: seq<Byte>, b: nat, size: nat)
    requires Readable(text, size) && b <= size
    ensures Readable(text[b..], size - b) && text[b..][0] == text[b]
  {
  }

  lemma StatusEndIs(text: seq<Byte>, k: nat, size: nat)
    requires Readable(text, size) && k < size && IsLineEnd(text[k])
    requires forall i :: 0 <= i < k ==> text[i] != NUL && !IsLineEnd(text[i])
    ensures StatusEnd(text, size) == BehindLine(text, k)
  {
    LineStopIs(text, 0, size, k);
  }

  /** With a first line to be skipped, everything up to and with its line end is
      as if it were not there. */
  lemma StatusLineIsSkipped(text: seq<Byte>, k: nat, size: nat)
    requires Readable(text, size) && k < size && IsLineEnd(text[k]) && BehindLine(text, k) <= size
    requires forall i :: 0 <= i < k ==> text[i] != NUL && !IsLineEnd(text[i])
    ensures var b := BehindLine(text, k);
            Readable(text[b..], size - b) && Parse(text, size, true) == Parse(text[b..], size - b, false)
  {
    hide Run, Pending, BehindLine, StatusEnd;
    var b := BehindLine(text, k);
    RestIsReadable(text, b, size);
    StatusEndIs(text, k, size);
    EndOfRest(text, b, size);
  }

  /** The round trip behind a status line: what was printed comes back, and the
      line does not become a header. */
  lemma RoundTripBehindStatus(entries: seq<Entry>, text: seq<Byte>, k: nat, size: nat)
    requires forall i :: 0 <= i < |entries| ==> Printable(entries[i])
    requires Readable(text, size) && k < size && IsLineEnd(text[k])
    requires forall i :: 0 <= i < k ==> text[i] != NUL && !IsLineEnd(text[i])
    requires var b, n := BehindLine(text, k), |Printed(entries)|;
             b + n <= size && text[b..b + n] == Printed(entries) && text[b + n] == NUL
    ensures Parse(text, size, true) == Result(entries, false)
  {
    hide Printable, Printed, Parse;
    var b, n := BehindLine(text, k), |Printed(entries)|;
    StatusLineIsSkipped(text, k, size);
    var rest := text[b..];
    assert rest[..n] == text[b..b + n] && rest[n] == text[b + n];
    RoundTrip(entries, rest, size - b, (k, l) => false);
  }

  // ----- what any text gives -----

  /** A character of a key keeps its sign when it is widened to 16 bits. */
  lemma SignIsKept(c: Byte)
    ensures Signed(SignExtended(c), 0x1_0000) == Signed(c, 0x100)
  {
  }

  /** Only the first character of a later line does not: a key that begins with a
      character beyond 127 is another one in the first line than in all others. */
  lemma FirstCharacterDiffers(st: State, c: Byte)
    requires st.mode == InNewLine && !IsBlank(c) && !IsLineEnd(c) && c != COLON
    ensures Step(START, c).key == Step(st, c).key <==> c < 0x80
  {
    assert Step(START, c).key == [SignExtended(c)];
  }

  /** A text that starts with a blank or an empty line is refused as a whole, and
      none that starts otherwise. */
  lemma RefusedAtOnce(text: seq<Byte>, size: nat)
    requires Readable(text, size) && text[0] != NUL && size > 0
    ensures IsBlank(text[0]) || IsLineEnd(text[0]) ==> Parse(text, size, false) == Result([], true)
    ensures !IsBlank(text[0]) && !IsLineEnd(text[0]) && text[0] != COLON && (size == 1 || text[1] == NUL) ==>
      Parse(text, size, false) == Result([], false)
  {
    if !IsBlank(text[0]) && !IsLineEnd(text[0]) && text[0] != COLON && (size == 1 || text[1] == NUL) {
      TextEndIs(text, 0, size, 1);
      assert text[0..1] == [text[0]];
      RunOne(START, text[0]);
    }
  }

  function Signed(n: nat, modulus: nat): int {
    if 2 * n >= modulus then n - modulus else n
  }

  /** A key handed to the map has no blanks, line ends or zeros, and a colon at
      most in front. */
  predicate KeyUnit(c: Unit, i: int) {
    c != NUL && !IsBlank(c) && !IsLineEnd(c) && (i > 0 ==> c != COLON)
  }

  ghost predicate CleanKey(key: Text) {
    forall i :: 0 <= i < |key| ==> KeyUnit(key[i], i)
  }

  ghost predicate CleanValue(value: Text) {
    forall i :: 0 <= i < |value| ==> ValueChar(value[i])
  }

  ghost predicate Clean(e: Entry) {
    && 0 < |e.key| < MAX_KEY_SIZE && CleanKey(e.key)
    && 0 < |e.value| < MAX_VALUE_SIZE && CleanValue(e.value) && !IsBlank(e.value[|e.value| - 1])
  }

  ghost predicate CleanState(st: State) {
    CleanKey(st.key) && CleanValue(st.value) && forall e :: e in st.log ==> Clean(e)
  }

  /** Trimming takes all blanks off the end and nothing else. */
  lemma {:induction false} TrimmedIsClean(text: Text)
    ensures |Trimmed(text)| <= |text| && Trimmed(text) == text[..|Trimmed(text)|]
    ensures forall i :: |Trimmed(text)| <= i < |text| ==> IsBlank(text[i])
    ensures Trimmed(text) != [] ==> !IsBlank(Trimmed(text)[|Trimmed(text)| - 1])
  {
    if text != [] && IsBlank(text[|text| - 1]) {
      TrimmedIsClean(text[..|text| - 1]);
    }
  }

  lemma PendingIsClean(st: State)
    requires CleanState(st)
    ensures forall e :: e in Pending(st) ==> Clean(e)
  {
    TrimmedIsClean(st.key);
    TrimmedIsClean(st.value);
  }

  lemma StepKeepsClean(st: State, c: Byte)
    requires CleanState(st) && c != NUL
    ensures CleanState(Step(st, c))
  {
    hide Pending, Clean;
    PendingIsClean(st);
    var next := Step(st, c);
    assert CleanKey(next.key) by {
      if next.key != st.key && st.mode == InKey {
        assert next.key == st.key + [SignExtended(c)];
      }
    }
    assert CleanValue(next.value);
  }

  lemma {:induction false} RunKeepsClean(text: seq<Byte>)
    requires forall i :: 0 <= i < |text| ==> text[i] != NUL
    ensures CleanState(Run(START, text))
  {
    if text != [] {
      RunKeepsClean(text[..|text| - 1]);
      StepKeepsClean(Run(START, text[..|text| - 1]), text[|text| - 1]);
    }
  }

  /** Whatever the text, every pair handed to the map is clean. */
  lemma ParsedPairsAreClean(text: seq<Byte>, size: nat, expectStatus: bool)
    requires Readable(text, size)
    ensures forall e :: e in Parse(text, size, expectStatus).log ==> Clean(e)
  {
    hide Run, Pending, Clean;
    var p := BodyStart(text, size, expectStatus);
    BodyStartIsReadable(text, size, expectStatus);
    if p <= size && !IsBlank(text[p]) && !IsLineEnd(text[p]) {
      var body := text[p..TextEnd(text, p, size)];
      RunKeepsClean(body);
      PendingIsClean(Run(START, body));
    }
  }

  /** A continuation line adds everything behind its first blank to the value,
      the blanks that follow it included. */
  lemma ContinuationKeepsBlanks(st: State, blank: Byte, text: Text)
    requires st.mode == InNewLine && IsBlank(blank) && |st.value| <= MAX_VALUE_SIZE
    requires forall i :: 0 <= i < |text| ==> ValueChar(text[i])
    ensures Run(st, [blank] + Narrow(text))
         == st.(mode := InValue, value := Capped(st.value + text, MAX_VALUE_SIZE))
  {
    RunAppend(st, [blank], Narrow(text));
    RunOne(st, blank);
    RunValue(st.(mode := InValue), text);
  }

  /** A line begins here that does not continue the one before. */
  predicate BeginsLine(text: seq<Byte>, i: nat)
    requires i < |text|
  {
    !IsBlank(text[i]) && !IsLineEnd(text[i]) && (i == 0 || IsLineEnd(text[i - 1]))
  }

  ghost predicate HasLine(text: seq<Byte>) {
    exists i :: 0 <= i < |text| && BeginsLine(text, i)
  }

  lemma HasLineByLast(text: seq<Byte>)
    requires text != []
    ensures HasLine(text) <==> HasLine(text[..|text| - 1]) || BeginsLine(text, |text| - 1)
  {
    var n := |text| - 1;
    if HasLine(text[..n]) {
      var i :| 0 <= i < n && BeginsLine(text[..n], i);
      assert BeginsLine(text, i);
    }
    if HasLine(text) && !BeginsLine(text, n) {
      var i :| 0 <= i < |text| && BeginsLine(text, i);
      assert BeginsLine(text[..n], i);
    }
  }

  /** Behind a line in error: continuations and empty lines leave the error
      pending, the next line reports it. */
  lemma {:induction false} ErrorWaitsForLine(st: State, text: seq<Byte>)
    requires st.mode == InNewLine && st.inError
    ensures Run(st, text).failed <==> st.failed || HasLine(text)
    ensures !HasLine(text) ==>
      var now := Run(st, text);
      now.inError && now.log == st.log
      && now.mode == if text == [] || IsLineEnd(text[|text| - 1]) then InNewLine else InValue
  {
    if text != [] {
      var n := |text| - 1;
      HasLineByLast(text);
      ErrorWaitsForLine(st, text[..n]);
    }
  }

  /** Between key and value any blanks and colons are skipped; one colon anywhere
      among them makes the line well-formed. */
  lemma {:induction false} SeparatorIsSkipped(st: State, text: seq<Byte>)
    requires st.mode == InSeparator && forall i :: 0 <= i < |text| ==> IsBlank(text[i]) || text[i] == COLON
    ensures Run(st, text) == st.(colonFound := st.colonFound || COLON in text)
  {
    if text != [] {
      var n := |text| - 1;
      SeparatorIsSkipped(st, text[..n]);
      assert text == text[..n] + [text[n]];
    }
  }

  /** A line that ends without a colon is reported if and only if another line
      begins behind it; without one its pair is dropped in silence. */
  lemma MissingColonOnLastLine(st: State, lineEnd: Byte, text: seq<Byte>)
    requires st.mode == InSeparator && !st.colonFound && IsLineEnd(lineEnd)
    ensures Run(st, [lineEnd] + text).failed <==> st.failed || HasLine(text)
    ensures !HasLine(text) ==> Run(st, [lineEnd] + text).inError && Run(st, [lineEnd] + text).log == st.log
  {
    RunAppend(st, [lineEnd], text);
    RunOne(st, lineEnd);
    ErrorWaitsForLine(st.(inError := true, mode := InNewLine), text);
  }

  /** For a whole text: a key and blanks, then a line end and the rest. The parser
      reports an error if and only if the rest has a line. */
  lemma MissingColonInText(key: Text, lineEnd: Byte, rest: seq<Byte>, text: seq<Byte>, size: nat)
    requires 0 < |key| < MAX_KEY_SIZE && (forall i :: 0 <= i < |key| ==> KeyChar(key[i])) && IsLineEnd(lineEnd)
    requires forall i :: 0 <= i < |rest| ==> rest[i] != NUL
    requires var line := Narrow(key) + [SPACE, lineEnd] + rest;
             Readable(text, size) && size == |line| && text[..size] == line
    ensures Parse(text, size, false).failed <==> HasLine(rest)
    ensures !HasLine(rest) ==> Parse(text, size, false).log == []
  {
    hide Run, Step, HasLine;
    var line := Narrow(key) + [SPACE, lineEnd] + rest;
    assert KeyChar(key[0]) && text[0] == text[..size][0];
    forall i | 0 <= i < size
      ensures text[i] != NUL
    {
      assert text[i] == line[i];
      assert i < |key| ==> KeyChar(key[i]);
    }
    TextEndIs(text, 0, size, size);
    assert text[0..size] == line;
    RunKey(START, key);
    var st := START.(key := key, mode := InSeparator);
    RunAppend(START, Narrow(key), [SPACE]);
    assert [] + key == key;
    KeyEnds(START.(key := key));
    MissingColonOnLastLine(st, lineEnd, rest);
    RunAppend(START, Narrow(key) + [SPACE], [lineEnd] + rest);
    assert line == Narrow(key) + [SPACE] + ([lineEnd] + rest);
  }

  lemma KeyEnds(st: State)
    requires st.mode == InKey
    ensures Run(st, [SPACE]) == st.(mode := InSeparator)
  {
    RunOne(st, SPACE);
  }

  /** A line that ends before a blank or a colon is an error at once, its pair is
      not handed on, and no later text takes the error back. */
  lemma {:induction false} KeyWithoutSeparatorFails(st: State, c: Byte, text: seq<Byte>)
    requires st.mode == InKey && IsLineEnd(c)
    ensures var ended := Step(st, c); ended.inError && Run(ended, text).failed
    ensures text != [] && !IsBlank(text[0]) && !IsLineEnd(text[0]) ==> Step(Step(st, c), text[0]).log == st.log
  {
    FailureIsKept(Step(st, c), text);
  }

  lemma {:induction false} FailureIsKept(st: State, text: seq<Byte>)
    requires st.failed
    ensures Run(st, text).failed
  {
    if text != [] {
      FailureIsKept(st, text[..|text| - 1]);
    }
  }

  ghost predicate AllBlank(text: Text) {
    forall i :: 0 <= i < |text| ==> IsBlank(text[i])
  }

  lemma {:induction false} TrimmedIsEmpty(text: Text)
    ensures Trimmed(text) == [] <==> AllBlank(text)
  {
    if text != [] && IsBlank(text[|text| - 1]) {
      TrimmedIsEmpty(text[..|text| - 1]);
    }
  }

  /** A finished pair reaches the map exactly if neither part has overflowed and
      both have a character that is not blank. */
  lemma PairIsHandedOn(st: State)
    ensures Pending(st) != []
      <==> |st.key| < MAX_KEY_SIZE && |st.value| < MAX_VALUE_SIZE && !AllBlank(st.key) && !AllBlank(st.value)
  {
    TrimmedIsEmpty(st.key);
    TrimmedIsEmpty(st.value);
  }
}
