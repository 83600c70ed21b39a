/** The parser of header text. */
module HeaderParser {
  import opened Words
  import opened HeaderMaps
  import opened HeaderText

  datatype Mode = InKey | InSeparator | InValue | InNewLine

  datatype State = State(
    mode: Mode, key: Text, value: Text, inError: bool, colonFound: bool, failed: bool, log: seq<Entry>)

  const START := State(InKey, [], [], false, false, false, [])

  /** The text without the blanks at its end. */
  function Trimmed(text: Text): Text {
    if text != [] && IsBlank(text[|text| - 1]) then Trimmed(text[..|text| - 1]) else text
  }

  /** WriteHeaderMapEntry: what it hands to the map, if anything. */
  function Handed(key: Text, value: Text): seq<Entry> {
    var k, v := Trimmed(key), Trimmed(value);
    if k != [] && v != [] then [Entry(k, v)] else []
  }

  /** The pair collected so far, unless it overflowed. */
  function Pending(st: State): seq<Entry> {
    if |st.key| < MAX_KEY_SIZE && |st.value| < MAX_VALUE_SIZE then Handed(st.key, st.value) else []
  }

  /** A byte as a signed char, widened to 16 bits. */
  function SignExtended(c: Byte): Unit {
    if c < 0x80 then c else c + 0xff00
  }

  /** What one character does. */
  function Step(st: State, c: Byte): State {
    match st.mode
    case InKey =>
      if IsLineEnd(c) then st.(failed := true, inError := true, mode := InNewLine)
      else if IsBlank(c) then st.(mode := InSeparator)
      else if c == COLON then st.(mode := InSeparator, colonFound := true)
      else if |st.key| < MAX_KEY_SIZE then st.(key := st.key + [SignExtended(c)])
      else st
    case InSeparator =>
      if IsLineEnd(c) then st.(inError := !st.colonFound, mode := InNewLine)
      else if c == COLON then st.(colonFound := true)
      else if IsBlank(c) then st
      else st.(value := [c], mode := InValue)
    case InValue =>
      if IsLineEnd(c) then st.(mode := InNewLine)
      else if |st.value| < MAX_VALUE_SIZE then st.(value := st.value + [c])
      else st
    case InNewLine =>
      if IsLineEnd(c) then st
      else if IsBlank(c) then st.(mode := InValue)
      else State(InKey, [c], [], false, false, st.failed || st.inError,
                 st.log + (if st.inError then [] else Pending(st)))
  }

  function Run(st: State, text: seq<Byte>): State {
    if text == [] then st else Step(Run(st, text[..|text| - 1]), text[|text| - 1])
  }

  // ----- which characters are read -----

  /** Where the text stops: at its size or at the first zero. */
  function TextEnd(text: seq<Byte>, p: nat, size: nat): (end: nat)
    requires p <= size <= |text|
    ensures p <= end <= size && (end < size ==> text[end] == NUL)
    ensures forall i :: p <= i < end ==> text[i] != NUL
    decreases size - p
  {
    if p == size || text[p] == NUL then p else TextEnd(text, p + 1, size)
  }

  function LineStop(text: seq<Byte>, p: nat, size: nat): (end: nat)
    requires p <= size <= |text|
    ensures p <= end <= size
    decreases size - p
  {
    if p == size || text[p] == NUL || IsLineEnd(text[p]) then p else LineStop(text, p + 1, size)
  }

  /** Behind the status line and its line end, of which each part is optional. */
  function StatusEnd(text: seq<Byte>, size: nat): nat
    requires Readable(text, size)
  {
    var p := LineStop(text, 0, size);
    var q := if text[p] == CR then p + 1 else p;
    if text[q] == LF then q + 1 else q
  }

  /** The parser looks at the character behind the text, and in search of the
      line end of a status line at up to two more. */
  predicate Readable(text: seq<Byte>, size: nat) {
    && size < |text|
    && (text[size] == CR ==> size + 1 < |text| && (text[size + 1] == LF ==> size + 2 < |text|))
    && (text[size] == LF ==> size + 1 < |text|)
  }

  function BodyStart(text: seq<Byte>, size: nat, expectStatus: bool): nat
    requires Readable(text, size)
  {
    if expectStatus then StatusEnd(text, size) else 0
  }

  lemma BodyStartIsReadable(text: seq<Byte>, size: nat, expectStatus: bool)
    requires Readable(text, size)
    ensures BodyStart(text, size, expectStatus) < |text|
  {
  }

  /** What is parsed, line by line; nothing if the text starts with a blank or
      an empty line. */
  datatype Result = Result(log: seq<Entry>, failed: bool)

  function Parse(text: seq<Byte>, size: nat, expectStatus: bool): Result
    requires Readable(text, size)
  {
    var p := BodyStart(text, size, expectStatus);
    BodyStartIsReadable(text, size, expectStatus);
    if IsBlank(text[p]) || IsLineEnd(text[p]) then Result([], true)
    else if p > size then Result([], false)
    else
      var st := Run(START, text[p..TextEnd(text, p, size)]);
      Result(st.log + (if st.inError then [] else Pending(st)), st.failed)
  }

  // ----- the parser as a loop -----

  method TrimEnd(text: Text) returns (trimmed: Text)
    ensures trimmed == Trimmed(text)
  {
    trimmed := text;
    while trimmed != [] && (trimmed[|trimmed| - 1] == SPACE || trimmed[|trimmed| - 1] == TAB)
      invariant Trimmed(trimmed) == Trimmed(text)
    {
      trimmed := trimmed[..|trimmed| - 1];
    }
  }

  method WriteHeaderMapEntry(key: Text, value: Text, headerMap: HeaderMap)
    modifies headerMap
    ensures headerMap.entries == InsertedAll(old(headerMap.entries), Handed(key, value), headerMap.less)
  {
    var k := TrimEnd(key);
    var v := TrimEnd(value);
    InsertOne(headerMap.entries, Entry(k, v), headerMap.less);
    if k != [] && v != [] {
      headerMap.Insert(Entry(k, v));
    }
  }

  lemma InsertOne(entries: seq<Entry>, e: Entry, less: Less)
    ensures InsertedAll(entries, [e], less) == Inserted(entries, e, less) && InsertedAll(entries, [], less) == entries
  {
    assert [e][..0] == [];
  }

  lemma {:induction false} InsertMore(entries: seq<Entry>, log: seq<Entry>, more: seq<Entry>, less: Less)
    ensures InsertedAll(InsertedAll(entries, log, less), more, less) == InsertedAll(entries, log + more, less)
  {
    if more == [] {
      assert log + more == log;
    } else {
      var n := |more| - 1;
      InsertMore(entries, log, more[..n], less);
      assert (log + more)[..|log + more| - 1] == log + more[..n];
    }
  }

  method SkipStatusLine(text: seq<Byte>, size: nat) returns (p: nat)
    requires Readable(text, size)
    ensures p == StatusEnd(text, size)
  {
    p := 0;
    while text[p] != NUL && text[p] != CR && text[p] != LF && p < size
      invariant 0 <= p <= size && LineStop(text, p, size) == LineStop(text, 0, size)
      decreases size - p
    {
      p := p + 1;
    }
    if text[p] == CR {
      p := p + 1;
    }
    if text[p] == LF {
      p := p + 1;
    }
  }

  /** SetHeaderMapWrapperFromText. */
  method SetHeaderMapFromText(text: seq<Byte>, size: nat, headerMap: HeaderMap, expectFirstCommandLine: bool,
      clearMap: bool)
    returns (processedWithError: bool)
    requires Readable(text, size)
    modifies headerMap
    ensures var r := Parse(text, size, expectFirstCommandLine);
            && processedWithError == r.failed
            && headerMap.entries == InsertedAll(if clearMap then [] else old(headerMap.entries), r.log, headerMap.less)
  {
    hide Run, Step, InsertedAll, Handed;
    if clearMap {
      headerMap.Clear();
    }
    ghost var first := headerMap.entries;
    InsertOne(first, Entry([], []), headerMap.less);
    var p := 0;
    if expectFirstCommandLine {
      p := SkipStatusLine(text, size);
    }
    BodyStartIsReadable(text, size, expectFirstCommandLine);
    if text[p] == SPACE || text[p] == TAB || text[p] == CR || text[p] == LF {
      return true;
    }
    if p > size {
      return false;
    }
    var mode: Mode, key: Text, value: Text := InKey, [], [];
    var inError, colonFound, failed := false, false, false;
    ghost var start, log := p, [];
    RunNothing(text, start);
    while text[p] != NUL && p < size
      invariant start <= p <= size && TextEnd(text, p, size) == TextEnd(text, start, size)
      invariant Run(START, text[start..p]) == State(mode, key, value, inError, colonFound, failed, log)
      invariant headerMap.entries == InsertedAll(first, log, headerMap.less)
      decreases size - p
    {
      ghost var st := State(mode, key, value, inError, colonFound, failed, log);
      var c := text[p];
      p := p + 1;
      RunFurther(text, start, p);
      p, mode, key, value, inError, colonFound, failed, log :=
        Advance(text, size, p, c, mode, key, value, inError, colonFound, failed, headerMap, first, log);
    }
    if !inError && |key| < MAX_KEY_SIZE && |value| < MAX_VALUE_SIZE {
      WriteHeaderMapEntry(key, value, headerMap);
    }
    PendingInserted(State(mode, key, value, inError, colonFound, failed, log), first, headerMap.less);
    processedWithError := failed;
  }

  lemma RunNothing(text: seq<Byte>, start: nat)
    requires start <= |text|
    ensures Run(START, text[start..start]) == START
  {
  }

  lemma RunFurther(text: seq<Byte>, start: nat, p: nat)
    requires start < p <= |text|
    ensures Run(START, text[start..p]) == Step(Run(START, text[start..p - 1]), text[p - 1])
  {
    assert text[start..p][..p - start - 1] == text[start..p - 1];
  }

  lemma PendingInserted(st: State, first: seq<Entry>, less: Less)
    ensures var entries := InsertedAll(first, st.log, less);
            && InsertedAll(entries, Handed(st.key, st.value), less)
                 == InsertedAll(first, st.log + Handed(st.key, st.value), less)
            && InsertedAll(first, st.log + [], less) == entries
  {
    InsertMore(first, st.log, Handed(st.key, st.value), less);
    assert st.log + [] == st.log;
  }

  /** The switch over the mode. */
  method Advance(text: seq<Byte>, size: nat, p: nat, c: Byte, mode: Mode, key: Text, value: Text, inError: bool,
      colonFound: bool, failed: bool, headerMap: HeaderMap, ghost first: seq<Entry>, ghost log: seq<Entry>)
    returns (next: nat, mode': Mode, key': Text, value': Text, inError': bool, colonFound': bool, failed': bool,
      ghost log': seq<Entry>)
    requires p <= size < |text| && headerMap.entries == InsertedAll(first, log, headerMap.less)
    modifies headerMap
    ensures next == p
    ensures State(mode', key', value', inError', colonFound', failed', log')
         == Step(State(mode, key, value, inError, colonFound, failed, log), c)
    ensures headerMap.entries == InsertedAll(first, log', headerMap.less)
  {
    hide InsertedAll, Handed;
    next := p;
    mode', key', value', inError', colonFound', failed', log' := mode, key, value, inError, colonFound, failed, log;
    match mode {
      case InKey =>
        if c == CR || c == LF {
          failed', inError' := true, true;
          mode' := InNewLine;
        } else if c == SPACE || c == TAB || c == COLON {
          mode' := InSeparator;
          if c == COLON {
            colonFound' := true;
          }
        } else if |key| < MAX_KEY_SIZE {
          key' := key + [SignExtended(c)];
        }
      case InSeparator =>
        if c == CR || c == LF {
          inError' := !colonFound;
          mode' := InNewLine;
        } else if c != SPACE && c != TAB && c != COLON {
          value' := [c];
          mode' := InValue;
        } else if c == COLON {
          colonFound' := true;
        }
      case InValue =>
        if c == CR || c == LF {
          mode' := InNewLine;
        } else if |value| < MAX_VALUE_SIZE {
          value' := value + [c];
        }
      case InNewLine =>
        if c != CR && c != LF {
          if c == SPACE || c == TAB {
            mode' := InValue;
            next := EatBlanks(text, size, p, SPACE, TAB);
          } else {
            if !inError {
              if |key| < MAX_KEY_SIZE && |value| < MAX_VALUE_SIZE {
                WriteHeaderMapEntry(key, value, headerMap);
              }
            } else {
              failed' := true;
            }
            PendingInserted(State(mode, key, value, inError, colonFound, failed, log), first, headerMap.less);
            log' := log + (if inError then [] else Pending(State(mode, key, value, inError, colonFound, failed, log)));
            inError' := false;
            mode' := InKey;
            colonFound' := false;
            key', value' := [c], [];
          }
        }
    }
  }

  /** The loop that is to eat leading blanks goes on while a character is equal
      to both of two; for different characters it leaves the position as it is. */
  method EatBlanks(text: seq<Byte>, size: nat, start: nat, first: Byte, second: Byte) returns (p: nat)
    requires start <= size < |text|
    ensures first != second ==> p == start
    ensures start <= p <= size && (first == second ==> p == size || text[p] != first)
    ensures forall i :: start <= i < p ==> text[i] == first
  {
    p := start;
    while p < size && text[p] == first && text[p] == second
      invariant start <= p <= size && (first != second ==> p == start)
      invariant forall i :: start <= i < p ==> text[i] == first
    {
      p := p + 1;
    }
  }
}
