/** Sorting rows by an optional integer key, as `DataFrame.sort_values` does
    on a datetime column. pandas' default sort is not stable, so the only
    promises are that the result is ordered and is a permutation of the input;
    the insertion sort below is one order that keeps both promises. */
module RowSort {
  import opened Frame

  /** The order `sort_values` uses: missing keys all sit together, before
      every present key when `nullsFirst` and after them otherwise. */
  predicate KeyLe(a: Option<int>, b: Option<int>, nullsFirst: bool)
  {
    match (a, b)
    case (None, None) => true
    case (None, Some(_)) => nullsFirst
    case (Some(_), None) => !nullsFirst
    case (Some(x), Some(y)) => x <= y
  }

  predicate SortedBy<T>(s: seq<T>, key: T -> Option<int>, nullsFirst: bool)
  {
    forall i, j :: 0 <= i < j < |s| ==> KeyLe(key(s[i]), key(s[j]), nullsFirst)
  }

  function Insert<T(==)>(x: T, s: seq<T>, key: T -> Option<int>, nullsFirst: bool): (r: seq<T>)
    requires SortedBy(s, key, nullsFirst)
    ensures SortedBy(r, key, nullsFirst)
    ensures multiset(r) == multiset(s) + multiset{x}
    decreases |s|
  {
    if |s| == 0 then [x]
    else if KeyLe(key(x), key(s[0]), nullsFirst) then [x] + s
    else
      var rest := Insert(x, s[1..], key, nullsFirst);
      assert s == [s[0]] + s[1..];
      assert forall k :: 0 <= k < |rest| ==> KeyLe(key(s[0]), key(rest[k]), nullsFirst) by {
        forall k | 0 <= k < |rest|
          ensures KeyLe(key(s[0]), key(rest[k]), nullsFirst)
        {
          assert rest[k] in multiset(rest);
          if rest[k] != x {
            assert rest[k] in multiset(s[1..]);
            var m :| 0 <= m < |s[1..]| && s[1..][m] == rest[k];
            assert s[m + 1] == rest[k];
          }
        }
      }
      [s[0]] + rest
  }

  function Sort<T(==)>(s: seq<T>, key: T -> Option<int>, nullsFirst: bool): (r: seq<T>)
    ensures SortedBy(r, key, nullsFirst)
    ensures multiset(r) == multiset(s)
    ensures |r| == |s|
    decreases |s|
  {
    if |s| == 0 then []
    else
      assert s == [s[0]] + s[1..];
      Insert(s[0], Sort(s[1..], key, nullsFirst), key, nullsFirst)
  }

  /** With missing keys placed first, no row with a missing key follows a row
      with a present one. */
  lemma NullKeysLead<T>(s: seq<T>, key: T -> Option<int>, i: nat, j: nat)
    requires SortedBy(s, key, true)
    requires i < j < |s| && key(s[j]).None?
    ensures key(s[i]).None?
  {
  }
}
