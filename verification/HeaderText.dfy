/** Header text: a line "key: value" for every pair of a header map, and the
    parser that reads such text back, one character at a time. The format is
    that of section 4.2 of RFC 2616. */
module HeaderText {
  import opened Words
  import opened HeaderMaps

  const NUL := 0
  const TAB := 9
  const LF := 10
  const CR := 13
  const SPACE := 32
  const COLON := 58

  const MAX_KEY_SIZE := 128
  const MAX_VALUE_SIZE := 2048

  predicate IsBlank(c: int) {
    c == SPACE || c == TAB
  }

  predicate IsLineEnd(c: int) {
    c == CR || c == LF
  }

  // ----- the printer -----

  /** A 16-bit character cast to a byte. */
  function Narrow(text: Text): seq<Byte> {
    seq(|text|, i requires 0 <= i < |text| => text[i] % 0x100)
  }

  function Line(e: Entry): seq<Byte> {
    Narrow(e.key) + [COLON, SPACE] + Narrow(e.value) + [CR, LF]
  }

  /** The format of a header line: key, colon, blank, value and line end. */
  lemma LineFormat(e: Entry)
    ensures var n, m := |e.key|, |Line(e)|;
            && m == n + |e.value| + 4 && Line(e)[..n] == Narrow(e.key) && Line(e)[n + 2..m - 2] == Narrow(e.value)
            && Line(e)[n] == ':' as int && Line(e)[n + 1] == ' ' as int
            && Line(e)[m - 2] == '\r' as int && Line(e)[m - 1] == '\n' as int
  {
  }

  function Printed(entries: seq<Entry>): seq<Byte> {
    if entries == [] then [] else Printed(entries[..|entries| - 1]) + Line(entries[|entries| - 1])
  }

  /** How many lines are written before one does not fit. */
  function Fitting(entries: seq<Entry>, capacity: nat): (k: nat)
    ensures k <= |entries|
  {
    if entries == [] then 0
    else
      var n := |entries| - 1;
      var k := Fitting(entries[..n], capacity);
      if k == n && |Printed(entries)| + 2 <= capacity then n + 1 else k
  }

  lemma {:induction false} PrintedLonger(entries: seq<Entry>, k: nat)
    requires k <= |entries|
    ensures |Printed(entries[..k])| <= |Printed(entries)|
    ensures k < |entries| ==> |Printed(entries[..k])| + 4 <= |Printed(entries)|
  {
    if k < |entries| {
      var n := |entries| - 1;
      assert entries[..n][..k] == entries[..k];
      PrintedLonger(entries[..n], k);
    } else {
      assert entries[..k] == entries;
    }
  }

  /** All lines fit exactly if there are none, or the text and two more
      characters do. */
  lemma {:induction false} AllFit(entries: seq<Entry>, capacity: nat)
    ensures Fitting(entries, capacity) == |entries| <==> entries == [] || |Printed(entries)| + 2 <= capacity
  {
    if entries != [] {
      var n := |entries| - 1;
      AllFit(entries[..n], capacity);
      PrintedLonger(entries, n);
    }
  }

  lemma {:induction false} FittingPrefix(entries: seq<Entry>, capacity: nat, k: nat)
    requires k <= |entries|
    ensures Fitting(entries[..k], capacity) == if k <= Fitting(entries, capacity) then k else Fitting(entries, capacity)
    decreases |entries|
  {
    if k < |entries| {
      var n := |entries| - 1;
      assert entries[..n][..k] == entries[..k];
      FittingPrefix(entries[..n], capacity, k);
    } else {
      assert entries[..k] == entries;
    }
  }

  /** SetTextFromHeaderMapWrapper. */
  method Print(entries: seq<Entry>, buffer: array<Byte>, capacity: nat) returns (result: int)
    requires capacity <= buffer.Length
    modifies buffer
    ensures result == if Fitting(entries, capacity) == |entries| then |Printed(entries)| else -1
    ensures var written := Printed(entries[..Fitting(entries, capacity)]);
            |written| <= buffer.Length && buffer[..|written|] == written
    ensures result >= 0 && capacity > 0 ==> result < capacity && buffer[result] == NUL
    ensures SameBehind(old(buffer[..]), buffer[..], capacity)
  {
    var p, pEnd := 0, capacity - 1;
    var textSizeRequired := 0;
    for k := 0 to |entries|
      invariant p == textSizeRequired == |Printed(entries[..k])| && (k > 0 ==> p + 2 <= capacity)
      invariant p <= capacity && buffer[..p] == Printed(entries[..k])
      invariant Fitting(entries[..k], capacity) == k
      invariant SameBehind(old(buffer[..]), buffer[..], capacity)
    {
      var e := entries[k];
      var availableSpace, requiredSpace := pEnd - p, |e.key| + 2 + |e.value| + 2;
      textSizeRequired := textSizeRequired + requiredSpace;
      assert entries[..k + 1][..k] == entries[..k];
      assert Printed(entries[..k + 1]) == Printed(entries[..k]) + Line(e);
      FittingPrefix(entries, capacity, k);
      FittingPrefix(entries, capacity, k + 1);
      if availableSpace > requiredSpace {
        p := WriteLine(buffer, p, e);
      } else {
        return -1;
      }
    }
    assert entries[..|entries|] == entries;
    if capacity > 0 {
      buffer[p] := NUL;
    }
    result := textSizeRequired;
  }

  method WriteLine(buffer: array<Byte>, start: nat, e: Entry) returns (p: nat)
    requires start + |Line(e)| <= buffer.Length
    modifies buffer
    ensures p == start + |Line(e)| && buffer[..p] == old(buffer[..start]) + Line(e)
    ensures SameBehind(old(buffer[..]), buffer[..], p)
  {
    ghost var before := buffer[..start];
    p := WriteText(buffer, start, e.key);
    p := WriteTwo(buffer, p, COLON, SPACE);
    p := WriteText(buffer, p, e.value);
    p := WriteTwo(buffer, p, CR, LF);
    assert buffer[..p] == before + Line(e);
  }

  ghost predicate SameBehind(before: seq<Byte>, now: seq<Byte>, p: nat) {
    |before| == |now| && forall i :: p <= i < |now| ==> now[i] == before[i]
  }

  method WriteTwo(buffer: array<Byte>, start: nat, a: Byte, b: Byte) returns (p: nat)
    requires start + 2 <= buffer.Length
    modifies buffer
    ensures p == start + 2 && buffer[..p] == old(buffer[..start]) + [a, b]
    ensures SameBehind(old(buffer[..]), buffer[..], p)
  {
    buffer[start] := a;
    buffer[start + 1] := b;
    p := start + 2;
  }

  method WriteText(buffer: array<Byte>, start: nat, text: Text) returns (p: nat)
    requires start + |text| <= buffer.Length
    modifies buffer
    ensures p == start + |text| && buffer[..p] == old(buffer[..start]) + Narrow(text)
    ensures SameBehind(old(buffer[..]), buffer[..], p)
  {
    p := start;
    for i := 0 to |text|
      invariant p == start + i
      invariant buffer[..p] == old(buffer[..start]) + Narrow(text)[..i]
      invariant SameBehind(old(buffer[..]), buffer[..], p)
    {
      buffer[p] := text[i] % 0x100;
      p := p + 1;
    }
  }

  /** What the header file promises of the printer, that a capacity above the
      length of the text is enough, holds exactly if the map is empty or the
      capacity is above the length by two or more. */
  lemma CapacityAboveLength(entries: seq<Entry>, capacity: nat)
    requires capacity > |Printed(entries)|
    ensures Fitting(entries, capacity) == |entries| <==> entries == [] || capacity != |Printed(entries)| + 1
  {
    AllFit(entries, capacity);
  }
}
