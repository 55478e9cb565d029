/** The slice edits the image lists are built from: slices.Insert,
    slices.Delete of one element, an in-place swap of two elements, and the
    three wrap-around reshufflings the move operations use. */
module ListOps {

  /** slices.Insert(s, i, xs...). */
  function Splice<T>(s: seq<T>, i: nat, xs: seq<T>): seq<T>
    requires i <= |s|
  {
    s[..i] + xs + s[i..]
  }

  /** slices.Delete(s, i, i+1). */
  function RemoveAt<T>(s: seq<T>, i: nat): seq<T>
    requires i < |s|
  {
    s[..i] + s[i + 1..]
  }

  /** `s[i], s[j] = s[j], s[i]`. */
  function Swap<T>(s: seq<T>, i: nat, j: nat): seq<T>
    requires i < |s| && j < |s|
  {
    s[i := s[j]][j := s[i]]
  }

  /** `append(s[:1], s[0:]...)`: the first element written once more in front. */
  function PrependFirst<T>(s: seq<T>): seq<T>
    requires |s| > 0
  {
    [s[0]] + s
  }

  /** `append(s[1:], s[0])`: the first element moved to the end. */
  function RotateLeft<T>(s: seq<T>): seq<T>
    requires |s| > 0
  {
    s[1..] + [s[0]]
  }

  /** `append([]T{s[len-1]}, s[:len-1]...)`: the last element moved to the front. */
  function RotateRight<T>(s: seq<T>): seq<T>
    requires |s| > 0
  {
    [s[|s| - 1]] + s[..|s| - 1]
  }

  /** Splicing xs in at i keeps the prefix, then xs, then the old suffix. */
  lemma SpliceAt<T>(s: seq<T>, i: nat, xs: seq<T>)
    requires i <= |s|
    ensures |Splice(s, i, xs)| == |s| + |xs|
    ensures forall k :: 0 <= k < i ==> Splice(s, i, xs)[k] == s[k]
    ensures forall k :: 0 <= k < |xs| ==> Splice(s, i, xs)[i + k] == xs[k]
    ensures forall k :: i <= k < |s| ==> Splice(s, i, xs)[k + |xs|] == s[k]
    ensures multiset(Splice(s, i, xs)) == multiset(s) + multiset(xs)
  {
    assert s == s[..i] + s[i..];
  }

  /** Removing position i shifts the later elements down by one and loses
      exactly one copy of s[i]. */
  lemma RemoveAtShifts<T>(s: seq<T>, i: nat)
    requires i < |s|
    ensures |RemoveAt(s, i)| == |s| - 1
    ensures forall k :: 0 <= k < i ==> RemoveAt(s, i)[k] == s[k]
    ensures forall k :: i <= k < |s| - 1 ==> RemoveAt(s, i)[k] == s[k + 1]
    ensures multiset(RemoveAt(s, i)) + multiset{s[i]} == multiset(s)
  {
    assert s == s[..i] + [s[i]] + s[i + 1..];
  }

  /** A swap exchanges two positions and is a permutation. */
  lemma SwapPermutes<T>(s: seq<T>, i: nat, j: nat)
    requires i < |s| && j < |s|
    ensures |Swap(s, i, j)| == |s|
    ensures Swap(s, i, j)[i] == s[j] && Swap(s, i, j)[j] == s[i]
    ensures forall k :: 0 <= k < |s| && k != i && k != j ==> Swap(s, i, j)[k] == s[k]
    ensures multiset(Swap(s, i, j)) == multiset(s)
  {
  }

  /** PrependFirst grows the list by one and holds the first element twice. */
  lemma PrependFirstDuplicates<T>(s: seq<T>)
    requires |s| > 0
    ensures |PrependFirst(s)| == |s| + 1
    ensures PrependFirst(s)[0] == PrependFirst(s)[1] == s[0]
    ensures PrependFirst(s)[1..] == s
    ensures multiset(PrependFirst(s)) == multiset(s) + multiset{s[0]}
  {
  }

  /** Both rotations are permutations and undo each other. */
  lemma RotationsPermute<T>(s: seq<T>)
    requires |s| > 0
    ensures multiset(RotateLeft(s)) == multiset(s)
    ensures multiset(RotateRight(s)) == multiset(s)
    ensures RotateLeft(s)[|s| - 1] == s[0] && RotateRight(s)[0] == s[|s| - 1]
    ensures RotateRight(RotateLeft(s)) == s
    ensures RotateLeft(RotateRight(s)) == s
  {
    assert s == [s[0]] + s[1..];
    assert s == s[..|s| - 1] + [s[|s| - 1]];
    assert RotateLeft(s)[..|s| - 1] == s[1..];
    assert RotateRight(s)[1..] == s[..|s| - 1];
  }
}
