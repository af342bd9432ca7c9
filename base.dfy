/** Generic helpers: optional values, lookup results and order-preserving
    filtering and searching over sequences (the in-memory stand-in for
    querysets). */
module Base {

  datatype Option<T> = None | Some(value: T)

  /** The outcome of a read view: a value, or the framework's 404. */
  datatype Result<T> = Ok(value: T) | NotFound

  /** The elements of `s` that satisfy `keep`, in their original order
      (`QuerySet.filter`). */
  function Filter<T(!new)>(s: seq<T>, keep: T -> bool): (r: seq<T>)
    ensures |r| <= |s|
    ensures forall x :: x in r <==> x in s && keep(x)
    ensures forall i :: 0 <= i < |r| ==> keep(r[i])
    ensures multiset(r) <= multiset(s)
  {
    if s == [] then []
    else
      assert s == [s[0]] + s[1..];
      (if keep(s[0]) then [s[0]] else []) + Filter(s[1..], keep)
  }

  /** No two elements of `s` share a `key` (a primary key or unique
      column). */
  predicate DistinctBy<T, K(==)>(s: seq<T>, key: T -> K) {
    forall i, j :: 0 <= i < j < |s| ==> key(s[i]) != key(s[j])
  }

  /** Filtering a table keeps its keys distinct. */
  lemma {:induction false} FilterDistinct<T(!new), K>(s: seq<T>, keep: T -> bool, key: T -> K)
    requires DistinctBy(s, key)
    ensures DistinctBy(Filter(s, keep), key)
  {
    if s != [] {
      FilterDistinct(s[1..], keep, key);
      var rest := Filter(s[1..], keep);
      forall x | x in rest
        ensures key(x) != key(s[0])
      {
        var j :| 0 <= j < |s[1..]| && s[1..][j] == x;
        assert s[j + 1] == x;
      }
    }
  }

  /** The position of the first element of `s` that satisfies `hit`
      (`QuerySet.filter(...).first()`, or `get` when at most one matches). */
  function FindIndex<T(!new)>(s: seq<T>, hit: T -> bool): (r: Option<nat>)
    ensures r.Some? ==> r.value < |s| && hit(s[r.value])
    ensures r.Some? ==> forall j :: 0 <= j < r.value ==> !hit(s[j])
    ensures r.None? <==> forall x :: x in s ==> !hit(x)
  {
    if s == [] then None
    else if hit(s[0]) then Some(0)
    else
      match FindIndex(s[1..], hit)
      case None => None
      case Some(k) => Some(k + 1)
  }

  /** `s` without its element at position `i`. */
  function RemoveAt<T>(s: seq<T>, i: nat): (r: seq<T>)
    requires i < |s|
    ensures |r| == |s| - 1
    ensures forall x :: x in r ==> x in s
    ensures forall x :: x in s && x != s[i] ==> x in r
  {
    assert s == s[..i] + [s[i]] + s[i + 1..];
    s[..i] + s[i + 1..]
  }

  /** Removing a row keeps the keys of the others distinct. */
  lemma RemoveAtDistinct<T, K>(s: seq<T>, i: nat, key: T -> K)
    requires i < |s| && DistinctBy(s, key)
    ensures DistinctBy(RemoveAt(s, i), key)
  {
    var r := RemoveAt(s, i);
    forall a, b | 0 <= a < b < |r|
      ensures key(r[a]) != key(r[b])
    {
      var a' := if a < i then a else a + 1;
      var b' := if b < i then b else b + 1;
      assert r[a] == s[a'] && r[b] == s[b'];
    }
  }

  /** Replacing a row by one with the same key keeps the keys distinct. */
  lemma UpdateAtDistinct<T, K>(s: seq<T>, i: nat, y: T, key: T -> K)
    requires i < |s| && DistinctBy(s, key) && key(y) == key(s[i])
    ensures DistinctBy(s[i := y], key)
  {
  }

  /** Appending a row whose key is new keeps the keys distinct. */
  lemma AppendDistinct<T, K>(s: seq<T>, y: T, key: T -> K)
    requires DistinctBy(s, key)
    requires forall j :: 0 <= j < |s| ==> key(s[j]) != key(y)
    ensures DistinctBy(s + [y], key)
  {
  }
}
