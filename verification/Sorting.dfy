/** The Shell sort of the polygon fill, in place on part of a buffer. */
module Sorting {

  /** Increments, the largest first. */
  const INC_TABLE: seq<nat> := [701, 301, 132, 57, 23, 10, 4, 1]

  /** Entries a distance of inc apart are in order. */
  ghost predicate Ordered(s: seq<int>, inc: nat) {
    forall q :: inc <= q < |s| ==> s[q - inc] <= s[q]
  }

  ghost predicate Sorted(s: seq<int>) {
    forall p, q :: 0 <= p < q < |s| ==> s[p] <= s[q]
  }

  lemma {:induction false} NeighboursSuffice(s: seq<int>, p: nat, q: nat)
    requires Ordered(s, 1) && p <= q < |s|
    ensures s[p] <= s[q]
    decreases q
  {
    if p < q {
      NeighboursSuffice(s, p, q - 1);
    }
  }

  /** The same values, each as often as before. */
  ghost predicate Permuted(s: seq<int>, t: seq<int>) {
    multiset(s) == multiset(t)
  }

  /** Shifting an entry into a gap that holds value moves the gap. */
  lemma GapMoves(s: seq<int>, t: seq<int>, j: nat, k: nat, value: int)
    requires j < |s| && k < |s| && j != k && t == s[j := s[k]]
    ensures Permuted(s[j := value], t[k := value])
  {
    var u, v := s[j := value], t[k := value];
    assert v == u[j := u[k]][k := u[j]];
    SwapPermutes(u, j, k);
  }

  lemma SwapPermutes(s: seq<int>, j: nat, k: nat)
    requires j < |s| && k < |s|
    ensures Permuted(s, s[j := s[k]][k := s[j]])
  {
  }

  /** In order up to i, apart from the gap at j, where value would be in order
      as far as the entries behind the gap go. */
  ghost predicate GapAt(s: seq<int>, inc: nat, i: nat, j: nat, value: int) {
    && 0 < inc && j <= i < |s|
    && (forall q :: inc <= q <= i && q != j && q - inc != j ==> s[q - inc] <= s[q])
    && (j + inc <= i ==> value < s[j + inc] && (j >= inc ==> s[j - inc] <= s[j + inc]))
  }

  lemma GapStep(s: seq<int>, inc: nat, i: nat, j: nat, value: int)
    requires GapAt(s, inc, i, j, value) && j >= inc && s[j - inc] > value
    ensures GapAt(s[j := s[j - inc]], inc, i, j - inc, value)
  {
  }

  lemma EntryShifted(start: seq<int>, s: seq<int>, inc: nat, i: nat, j: nat, value: int)
    requires GapAt(s, inc, i, j, value) && j >= inc && s[j - inc] > value && Permuted(start, s[j := value])
    ensures var t := s[j := s[j - inc]];
            GapAt(t, inc, i, j - inc, value) && Permuted(start, t[j - inc := value])
  {
    var t := s[j := s[j - inc]];
    GapStep(s, inc, i, j, value);
    GapMoves(s, t, j, j - inc, value);
    PermutedTwice(start, s[j := value], t[j - inc := value]);
  }

  lemma GapFilled(s: seq<int>, inc: nat, i: nat, j: nat, value: int)
    requires GapAt(s, inc, i, j, value) && (j >= inc ==> s[j - inc] <= value)
    ensures Ordered(s[j := value][..i + 1], inc)
  {
  }

  /** Moves entry i to its place among the entries inc apart in front of it. */
  method InsertEntry(buffer: array<int>, n: nat, inc: nat, i: nat)
    requires i < n <= buffer.Length && 0 < inc && Ordered(buffer[..n][..i], inc)
    modifies buffer
    ensures Ordered(buffer[..n][..i + 1], inc)
    ensures Permuted(old(buffer[..n]), buffer[..n]) && buffer[n..] == old(buffer[n..])
  {
    hide GapAt, Permuted, Ordered;
    ghost var start, tail := buffer[..n], buffer[n..];
    var j, value, swap := i, buffer[i], false;
    GapStart(start, inc, i);
    while j >= inc && buffer[j - inc] > value
      invariant 0 <= j <= i && (!swap ==> j == i && buffer[..n] == start)
      invariant GapAt(buffer[..n], inc, i, j, value)
      invariant Permuted(start, buffer[..n][j := value]) && buffer[n..] == tail
    {
      ghost var s := buffer[..n];
      assert s[j - inc] == buffer[j - inc];
      buffer[j] := buffer[j - inc];
      assert buffer[..n] == s[j := s[j - inc]];
      EntryShifted(start, s, inc, i, j, value);
      j := j - inc;
      swap := true;
    }
    GapFilled(buffer[..n], inc, i, j, value);
    ghost var filled := buffer[..n][j := value];
    if swap {
      buffer[j] := value;
    }
    assert buffer[..n] == filled;
  }

  /** One increment: an insertion sort of every chain of entries inc apart. */
  method GapPass(buffer: array<int>, n: nat, inc: nat)
    requires n <= buffer.Length && 0 < inc
    modifies buffer
    ensures Ordered(buffer[..n], inc)
    ensures Permuted(old(buffer[..n]), buffer[..n]) && buffer[n..] == old(buffer[n..])
  {
    hide Permuted;
    ghost var start := buffer[..n];
    PermutedSelf(start);
    for i := 0 to n
      invariant Ordered(buffer[..n][..i], inc)
      invariant Permuted(start, buffer[..n]) && buffer[n..] == old(buffer[n..])
    {
      ghost var s := buffer[..n];
      InsertEntry(buffer, n, inc, i);
      PermutedTwice(start, s, buffer[..n]);
    }
    assert buffer[..n][..n] == buffer[..n];
  }

  lemma PermutedSelf(s: seq<int>)
    ensures Permuted(s, s)
  {
  }

  lemma PermutedTwice(s: seq<int>, t: seq<int>, u: seq<int>)
    requires Permuted(s, t) && Permuted(t, u)
    ensures Permuted(s, u)
  {
  }

  lemma GapStart(s: seq<int>, inc: nat, i: nat)
    requires 0 < inc && i < |s| && Ordered(s[..i], inc)
    ensures GapAt(s, inc, i, i, s[i]) && s[i := s[i]] == s && Permuted(s, s)
  {
    forall q | inc <= q <= i && q != i
      ensures s[q - inc] <= s[q]
    {
      assert s[..i][q - inc] <= s[..i][q];
    }
  }

  /** The first n entries come out sorted, and none gets lost; the rest of the
      buffer is not touched. */
  method ShellSort(buffer: array<int>, n: nat)
    requires n <= buffer.Length
    modifies buffer
    ensures Sorted(buffer[..n])
    ensures Permuted(old(buffer[..n]), buffer[..n]) && buffer[n..] == old(buffer[n..])
  {
    PermutedSelf(buffer[..n]);
    for k := 0 to |INC_TABLE|
      invariant Permuted(old(buffer[..n]), buffer[..n]) && buffer[n..] == old(buffer[n..])
      invariant k == |INC_TABLE| ==> n == 0 || Ordered(buffer[..n], 1)
    {
      var inc := INC_TABLE[k];
      if inc <= n {
        ghost var s := buffer[..n];
        GapPass(buffer, n, inc);
        PermutedTwice(old(buffer[..n]), s, buffer[..n]);
      }
    }
    forall p, q | 0 <= p < q < n
      ensures buffer[..n][p] <= buffer[..n][q]
    {
      NeighboursSuffice(buffer[..n], p, q);
    }
  }
}
