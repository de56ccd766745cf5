/** util/collection/Collection.go: slices as sets and slice difference. */
module Collection {

  /** `SliceToSet`: the set of the slice's elements (Go returns them as the
      keys of a map with nil values). */
  function SliceToSet<T(!new)>(slice: seq<T>): (r: set<T>)
    ensures forall x :: x in r <==> x in slice
  {
    if slice == [] then {}
    else SliceToSet(slice[..|slice| - 1]) + {slice[|slice| - 1]}
  }

  /** `sub` is `s` with some elements removed, the rest kept in order. */
  predicate IsSubsequence<T(==)>(sub: seq<T>, s: seq<T>)
    decreases |s|
  {
    if sub == [] then true
    else if s == [] then false
    else if sub[0] == s[0] then IsSubsequence(sub[1..], s[1..])
    else IsSubsequence(sub, s[1..])
  }

  lemma {:induction false} SubsequenceIsShorter<T>(sub: seq<T>, s: seq<T>)
    requires IsSubsequence(sub, s)
    ensures |sub| <= |s|
    decreases |s|
  {
    if sub != [] {
      if sub[0] == s[0] {
        SubsequenceIsShorter(sub[1..], s[1..]);
      } else {
        SubsequenceIsShorter(sub, s[1..]);
      }
    }
  }

  /** `SubtractSlice(a, b)`: the elements of `a` that are not in `b`, in the
      order of `a` and with their duplicates. */
  function SubtractSlice<T(==,!new)>(a: seq<T>, b: seq<T>): seq<T> {
    var excluded := SliceToSet(b);
    if a == [] then []
    else if a[0] !in excluded then [a[0]] + SubtractSlice(a[1..], b)
    else SubtractSlice(a[1..], b)
  }

  /** The difference keeps exactly the elements of `a` missing from `b`, each
      as often as it occurs in `a`, and in the order of `a`. */
  lemma {:induction false} SubtractSliceContents<T(!new)>(a: seq<T>, b: seq<T>)
    ensures forall x :: x in SubtractSlice(a, b) <==> x in a && x !in b
    ensures forall x :: multiset(SubtractSlice(a, b))[x] == if x in b then 0 else multiset(a)[x]
    ensures IsSubsequence(SubtractSlice(a, b), a)
  {
    if a != [] {
      SubtractSliceContents(a[1..], b);
      assert a == [a[0]] + a[1..];
    }
  }

  /** The difference is never longer than the slice it is taken from. */
  lemma SubtractSliceIsShorter<T(!new)>(a: seq<T>, b: seq<T>)
    ensures |SubtractSlice(a, b)| <= |a|
  {
    SubtractSliceContents(a, b);
    SubsequenceIsShorter(SubtractSlice(a, b), a);
  }

  /** `ReverseSlice`: the elements in the opposite order. */
  function ReverseSlice<T>(s: seq<T>): (r: seq<T>)
    ensures |r| == |s|
    ensures forall i :: 0 <= i < |s| ==> r[i] == s[|s| - 1 - i]
  {
    if s == [] then [] else [s[|s| - 1]] + ReverseSlice(s[..|s| - 1])
  }

  /** Reversing twice gives the slice back. */
  lemma ReverseSliceTwice<T>(s: seq<T>)
    ensures ReverseSlice(ReverseSlice(s)) == s
  {
  }

  /** Reversing an appended slice puts its last element first. */
  lemma ReverseSliceAppend<T>(s: seq<T>, x: T)
    ensures ReverseSlice(s + [x]) == [x] + ReverseSlice(s)
  {
  }

  /** The case of util/collection/Collection_test.go. */
  lemma SubtractSliceExample()
    ensures SubtractSlice([1, 2, 3, 4, 5], [4, 3, 2]) == [1, 5]
  {
  }
}
