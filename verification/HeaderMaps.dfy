/** The header map: pairs of a key and a value in the order of their keys, where
    equal keys keep the order in which they came. */
module HeaderMaps {

  /** Strings of 16-bit characters. */
  type Unit = u: int | 0 <= u < 0x1_0000

  type Text = seq<Unit>

  datatype Entry = Entry(key: Text, value: Text)

  /** The comparison of keys, which belongs to another library. */
  type Less = (Text, Text) -> bool

  /** No entry comes before one with a smaller key. */
  ghost predicate InOrder(entries: seq<Entry>, less: Less) {
    forall i, j :: 0 <= i < j < |entries| ==> !less(entries[j].key, entries[i].key)
  }

  /** In front of the first entry with a greater key, if there is one. */
  function Inserted(entries: seq<Entry>, e: Entry, less: Less): seq<Entry> {
    if entries == [] then [e]
    else if less(e.key, entries[0].key) then [e] + entries
    else [entries[0]] + Inserted(entries[1..], e, less)
  }

  function InsertedAll(entries: seq<Entry>, more: seq<Entry>, less: Less): seq<Entry> {
    if more == [] then entries
    else Inserted(InsertedAll(entries, more[..|more| - 1], less), more[|more| - 1], less)
  }

  lemma {:induction false} InsertedAtEnd(entries: seq<Entry>, e: Entry, less: Less)
    requires forall i :: 0 <= i < |entries| ==> !less(e.key, entries[i].key)
    ensures Inserted(entries, e, less) == entries + [e]
  {
    if entries != [] {
      InsertedAtEnd(entries[1..], e, less);
    }
  }

  /** Handing the pairs of a map in order to an empty map gives the same map. */
  lemma {:induction false} RefilledIsSame(entries: seq<Entry>, less: Less)
    requires InOrder(entries, less)
    ensures InsertedAll([], entries, less) == entries
  {
    if entries != [] {
      var n := |entries| - 1;
      RefilledIsSame(entries[..n], less);
      InsertedAtEnd(entries[..n], entries[n], less);
    }
  }

  lemma {:induction false} InsertingKeepsAll(entries: seq<Entry>, e: Entry, less: Less)
    ensures multiset(Inserted(entries, e, less)) == multiset(entries) + multiset{e}
  {
    if entries != [] {
      assert entries == [entries[0]] + entries[1..];
      InsertingKeepsAll(entries[1..], e, less);
    }
  }

  /** Keys are compared by a strict order in which not being greater is
      transitive too. */
  ghost predicate IsOrder(less: Less) {
    forall a, b, c :: (less(a, b) && less(b, c) ==> less(a, c)) && (less(a, b) ==> less(a, c) || less(c, b))
  }

  /** Where a pair goes: behind every entry that is not greater, in front of the
      first that is. The others keep their places. */
  lemma {:induction false} InsertedSplits(entries: seq<Entry>, e: Entry, less: Less) returns (i: nat)
    ensures i <= |entries| && Inserted(entries, e, less) == entries[..i] + [e] + entries[i..]
    ensures forall k :: 0 <= k < i ==> !less(e.key, entries[k].key)
    ensures i < |entries| ==> less(e.key, entries[i].key)
  {
    if entries == [] || less(e.key, entries[0].key) {
      i := 0;
    } else {
      var j := InsertedSplits(entries[1..], e, less);
      i := j + 1;
      assert entries[..i] == [entries[0]] + entries[1..][..j];
      forall k | 0 <= k < i
        ensures !less(e.key, entries[k].key)
      {
        assert k > 0 ==> entries[1..][k - 1] == entries[k];
      }
    }
  }

  /** An ordered map stays ordered, so equal keys keep the order they came in. */
  lemma InsertedInOrder(entries: seq<Entry>, e: Entry, less: Less)
    requires IsOrder(less) && (forall k: Text :: !less(k, k)) && InOrder(entries, less)
    ensures InOrder(Inserted(entries, e, less), less)
  {
    var i := InsertedSplits(entries, e, less);
    forall k | i <= k < |entries|
      ensures !less(entries[k].key, e.key)
    {
    }
  }

  lemma InsertBehind(entries: seq<Entry>, e: Entry, less: Less, i: nat)
    requires i < |entries| && !less(e.key, entries[i].key)
    ensures entries[..i] + Inserted(entries[i..], e, less) == entries[..i + 1] + Inserted(entries[i + 1..], e, less)
  {
    assert entries[i..][1..] == entries[i + 1..];
  }

  lemma InsertHere(entries: seq<Entry>, e: Entry, less: Less, i: nat)
    requires i <= |entries| && (i < |entries| ==> less(e.key, entries[i].key))
    ensures entries[..i] + Inserted(entries[i..], e, less) == entries[..i] + [e] + entries[i..]
  {
  }

  lemma InsertStart(entries: seq<Entry>, e: Entry, less: Less)
    ensures entries[..0] + Inserted(entries[0..], e, less) == Inserted(entries, e, less)
  {
    assert entries[0..] == entries;
  }

  class HeaderMap {
    var entries: seq<Entry>
    const less: Less

    constructor (order: Less)
      ensures entries == [] && less == order
    {
      entries, less := [], order;
    }

    method Clear()
      modifies this
      ensures entries == []
    {
      entries := [];
    }

    method Insert(e: Entry)
      modifies this
      ensures entries == Inserted(old(entries), e, less)
    {
      hide Inserted;
      var i := 0;
      InsertStart(entries, e, less);
      while i < |entries| && !less(e.key, entries[i].key)
        invariant 0 <= i <= |entries| && entries == old(entries)
        invariant Inserted(entries, e, less) == entries[..i] + Inserted(entries[i..], e, less)
      {
        InsertBehind(entries, e, less, i);
        i := i + 1;
      }
      InsertHere(entries, e, less, i);
      assert entries[..i] + [e] + entries[i..] == Inserted(entries, e, less);
      entries := entries[..i] + [e] + entries[i..];
    }
  }
}
