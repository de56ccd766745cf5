/** The generic helpers of lang/Lang.go. */
module Lang {

  /** The conditional expression Go lacks: `v1` when `cond` holds, else `v2`. */
  function If<T>(cond: bool, v1: T, v2: T): (r: T)
    ensures cond ==> r == v1
    ensures !cond ==> r == v2
  {
    if cond then v1 else v2
  }

  /** Every one of the first `n` values is the zero value. */
  ghost predicate EmptyBefore<T>(empty: T, values: seq<T>, n: int)
    requires 0 <= n <= |values|
  {
    forall j :: 0 <= j < n ==> values[j] == empty
  }

  /** The first value that differs from the zero value `empty` (Go's `*new(T)`
      of a comparable type), or `empty` when every value equals it or there
      are none. */
  function FirstNonEmpty<T(==)>(empty: T, values: seq<T>): (r: T)
    ensures r == empty <==> EmptyBefore(empty, values, |values|)
    ensures r != empty ==>
              exists i :: 0 <= i < |values| && values[i] == r && EmptyBefore(empty, values, i)
  {
    if values == [] then empty
    else if values[0] != empty then
      assert EmptyBefore(empty, values, 0);
      values[0]
    else
      var r := FirstNonEmpty(empty, values[1..]);
      assert forall j :: 1 <= j < |values| ==> values[j] == values[1..][j - 1];
      assert r != empty ==> exists i :: 1 <= i < |values| && values[i] == r && EmptyBefore(empty, values, i) by {
        if r != empty {
          var k :| 0 <= k < |values[1..]| && values[1..][k] == r && EmptyBefore(empty, values[1..], k);
          assert values[k + 1] == r && EmptyBefore(empty, values, k + 1);
        }
      }
      r
  }

  /** With no arguments the result is the zero value. */
  lemma FirstNonEmptyOfNothing<T>(empty: T)
    ensures FirstNonEmpty(empty, []) == empty
  {
  }

  /** The result is decided by the earliest non-empty value: everything
      after it is ignored. */
  lemma {:induction false} FirstNonEmptyPicksEarliest<T>(empty: T, values: seq<T>, i: nat)
    requires i < |values| && values[i] != empty
    requires EmptyBefore(empty, values, i)
    ensures FirstNonEmpty(empty, values) == values[i]
  {
    if i > 0 {
      assert values[0] == empty;
      assert EmptyBefore(empty, values[1..], i - 1) by {
        forall j | 0 <= j < i - 1 ensures values[1..][j] == empty {
          assert values[1..][j] == values[j + 1];
        }
      }
      FirstNonEmptyPicksEarliest(empty, values[1..], i - 1);
    }
  }
}
