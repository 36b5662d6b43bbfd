/** Operations on a table held as a sequence of rows in store order:
    the `FirstOrDefault`, `Where`, `Add` and `Remove` that the controllers use. */
module Tables {
  import opened Models

  /** No key occurs twice: the primary-key constraint of a table. */
  predicate UniqueKeys(keys: seq<int>)
  {
    forall i, j :: 0 <= i < j < |keys| ==> keys[i] != keys[j]
  }

  /** Position of the first row whose key is `k` (`FirstOrDefault(r => r.Key == k)`). */
  function IndexOf<K(==)>(keys: seq<K>, k: K): (r: Option<nat>)
    ensures r.None? <==> k !in keys
    ensures r.Some? ==> r.value < |keys| && keys[r.value] == k && k !in keys[..r.value]
  {
    if |keys| == 0 then None
    else if keys[0] == k then Some(0)
    else
      match IndexOf(keys[1..], k)
      case None => None
      case Some(i) => assert keys[1..][..i] == keys[1..i + 1]; Some(i + 1)
  }

  /** The key the store's identity column hands out for a new row: one that is in use nowhere. */
  function FreshKey(keys: seq<int>): (r: int)
    ensures r >= 1
    ensures forall i :: 0 <= i < |keys| ==> keys[i] < r
  {
    if |keys| == 0 then 1
    else
      var rest := FreshKey(keys[..|keys| - 1]);
      var last := keys[|keys| - 1];
      if last < rest then rest else last + 1
  }

  /** The table without the row at position `i`. */
  function RemoveAt<T>(s: seq<T>, i: nat): (r: seq<T>)
    requires i < |s|
    ensures |r| == |s| - 1
    ensures forall j :: 0 <= j < i ==> r[j] == s[j]
    ensures forall j :: i <= j < |r| ==> r[j] == s[j + 1]
  {
    s[..i] + s[i + 1..]
  }

  /** The rows that satisfy `keep`, in store order (`Where(keep)`). */
  function Filter<T(!new)>(s: seq<T>, keep: T -> bool): (r: seq<T>)
    ensures |r| <= |s|
    ensures forall x :: x in r <==> x in s && keep(x)
  {
    if |s| == 0 then []
    else if keep(s[0]) then [s[0]] + Filter(s[1..], keep)
    else Filter(s[1..], keep)
  }

  /** Removing a row from a table with unique keys leaves the keys unique and
      removes exactly that row's key. */
  lemma RemoveAtKeys(keys: seq<int>, i: nat)
    requires i < |keys|
    requires UniqueKeys(keys)
    ensures UniqueKeys(RemoveAt(keys, i))
    ensures forall k :: k in RemoveAt(keys, i) <==> k in keys && k != keys[i]
  {
    var r := RemoveAt(keys, i);
    forall k | k in keys && k != keys[i]
      ensures k in r
    {
      var j :| 0 <= j < |keys| && keys[j] == k;
      if j < i { assert r[j] == k; } else { assert r[j - 1] == k; }
    }
    forall k | k in r
      ensures k in keys && k != keys[i]
    {
      var j :| 0 <= j < |r| && r[j] == k;
      if j < i { assert k == keys[j]; } else { assert k == keys[j + 1]; }
    }
  }

  /** Removing the row at `i`, when no other row equals it, leaves exactly the other rows. */
  lemma RemoveAtMembers<T>(s: seq<T>, i: nat)
    requires i < |s|
    requires forall j :: 0 <= j < |s| && j != i ==> s[j] != s[i]
    ensures forall x :: x in RemoveAt(s, i) <==> x in s && x != s[i]
  {
    var r := RemoveAt(s, i);
    forall x | x in s && x != s[i] ensures x in r {
      var j :| 0 <= j < |s| && s[j] == x;
      if j < i { assert r[j] == x; } else { assert r[j - 1] == x; }
    }
  }

  /** Where the `i`-th kept row of `Filter(s, keep)` sits in `s`. */
  function FilterOrigin<T(!new)>(s: seq<T>, keep: T -> bool, i: nat): (j: nat)
    requires i < |Filter(s, keep)|
    ensures i <= j < |s| && s[j] == Filter(s, keep)[i] && keep(s[j])
  {
    if keep(s[0]) then
      if i == 0 then 0 else 1 + FilterOrigin(s[1..], keep, i - 1)
    else 1 + FilterOrigin(s[1..], keep, i)
  }

  /** Filter keeps store order: later kept rows come from later positions. */
  lemma {:induction false} FilterOriginIncreasing<T(!new)>(s: seq<T>, keep: T -> bool, i: nat, k: nat)
    requires i < k < |Filter(s, keep)|
    ensures FilterOrigin(s, keep, i) < FilterOrigin(s, keep, k)
  {
    var rest := Filter(s[1..], keep);
    if keep(s[0]) {
      assert Filter(s, keep) == [s[0]] + rest;
      assert FilterOrigin(s, keep, k) == 1 + FilterOrigin(s[1..], keep, k - 1);
      if i > 0 {
        assert FilterOrigin(s, keep, i) == 1 + FilterOrigin(s[1..], keep, i - 1);
        FilterOriginIncreasing(s[1..], keep, i - 1, k - 1);
      }
    } else {
      assert Filter(s, keep) == rest;
      assert FilterOrigin(s, keep, i) == 1 + FilterOrigin(s[1..], keep, i);
      assert FilterOrigin(s, keep, k) == 1 + FilterOrigin(s[1..], keep, k);
      FilterOriginIncreasing(s[1..], keep, i, k);
    }
  }
}
