/**
 * What the persistence layer does with a table: filter rows, sort them by a
 * key (`ORDER BY`), take the first match (`.first()`), index them by a key
 * (a dictionary comprehension, later rows winning) and hand out a fresh row id.
 */
module Collections {
  import opened Wrappers
  import opened Lex

  /** The rows of `s` that satisfy `p`, in table order (`.filter(...)`). */
  function Filter<T(!new)>(s: seq<T>, p: T -> bool): (r: seq<T>)
    ensures |r| <= |s|
    ensures forall x :: x in r <==> x in s && p(x)
  {
    if s == [] then []
    else (if p(s[0]) then [s[0]] else []) + Filter(s[1..], p)
  }

  ghost predicate SortedBy<T>(s: seq<T>, key: T -> seq<int>)
  {
    forall i, j :: 0 <= i < j < |s| ==> LexLe(key(s[i]), key(s[j]))
  }

  function Insert<T>(x: T, s: seq<T>, key: T -> seq<int>): (r: seq<T>)
    requires SortedBy(s, key)
    ensures SortedBy(r, key)
    ensures multiset(r) == multiset(s) + multiset{x}
  {
    if s == [] then [x]
    else if LexLe(key(x), key(s[0])) then
      PrependSorted(x, s, key);
      [x] + s
    else
      var rest := Insert(x, s[1..], key);
      InsertBehind(x, s, rest, key);
      [s[0]] + rest
  }

  /** An element no greater than the head of a sorted list can go in front of it. */
  lemma PrependSorted<T>(x: T, s: seq<T>, key: T -> seq<int>)
    requires SortedBy(s, key) && s != [] && LexLe(key(x), key(s[0]))
    ensures SortedBy([x] + s, key)
  {
    forall j | 0 < j < |s| ensures LexLe(key(x), key(s[j])) {
      LexLeTransitive(key(x), key(s[0]), key(s[j]));
    }
  }

  /** An element greater than the head goes into the tail; the head stays in front. */
  lemma InsertBehind<T>(x: T, s: seq<T>, rest: seq<T>, key: T -> seq<int>)
    requires SortedBy(s, key) && s != [] && !LexLe(key(x), key(s[0]))
    requires SortedBy(rest, key) && multiset(rest) == multiset(s[1..]) + multiset{x}
    ensures SortedBy([s[0]] + rest, key)
    ensures multiset([s[0]] + rest) == multiset(s) + multiset{x}
  {
    assert s == [s[0]] + s[1..];
    assert LexLe(key(s[0]), key(x)) by {
      LexLessAsymmetric(key(s[0]), key(x));
    }
    forall j | 0 <= j < |rest| ensures LexLe(key(s[0]), key(rest[j])) {
      assert rest[j] in multiset(rest);
      if rest[j] != x {
        assert rest[j] in multiset(s[1..]);
        var k :| 0 <= k < |s[1..]| && s[1..][k] == rest[j];
        assert s[k + 1] == rest[j];
      }
    }
  }

  /** The rows of `s` in ascending order of `key` (`.order_by(...)`), as an insertion sort. */
  function SortByKey<T>(s: seq<T>, key: T -> seq<int>): (r: seq<T>)
    ensures SortedBy(r, key)
    ensures multiset(r) == multiset(s)
  {
    if s == [] then []
    else
      assert s == [s[0]] + s[1..];
      Insert(s[0], SortByKey(s[1..], key), key)
  }

  /** A sorted permutation of `s` puts a row with the least key first. */
  lemma SortByKeyFirstIsLeast<T>(s: seq<T>, key: T -> seq<int>, x: T)
    requires x in s
    ensures |SortByKey(s, key)| > 0
    ensures LexLe(key(SortByKey(s, key)[0]), key(x))
  {
    var r := SortByKey(s, key);
    assert x in multiset(r);
    var j :| 0 <= j < |r| && r[j] == x;
    if j == 0 {
      LexLeReflexive(key(x));
    }
  }

  /** Index `i` holds the last row of `s` whose key is `k`. */
  ghost predicate LastWithKey<T, K>(s: seq<T>, key: T -> K, k: K, i: int)
  {
    0 <= i < |s| && key(s[i]) == k && forall j :: i < j < |s| ==> key(s[j]) != k
  }

  /** `{key(x): x for x in s}`: every key of a row, mapped to the last row that has it. */
  function IndexBy<T, K>(s: seq<T>, key: T -> K): (m: map<K, T>)
    ensures m.Keys == set x | x in s :: key(x)
    ensures forall k :: k in m ==> exists i :: LastWithKey(s, key, k, i) && m[k] == s[i]
  {
    if s == [] then map[]
    else
      var last := s[|s| - 1];
      var init := s[..|s| - 1];
      var m0 := IndexBy(init, key);
      var m := m0[key(last) := last];
      assert s == init + [last];
      assert forall k :: k in m ==> exists i :: LastWithKey(s, key, k, i) && m[k] == s[i] by {
        forall k | k in m ensures exists i :: LastWithKey(s, key, k, i) && m[k] == s[i] {
          if k == key(last) {
            assert LastWithKey(s, key, k, |s| - 1);
          } else {
            var i :| LastWithKey(init, key, k, i) && m0[k] == init[i];
            assert LastWithKey(s, key, k, i);
          }
        }
      }
      m
  }

  /** When no two rows share a key, the index maps each row's key back to that row. */
  lemma IndexByUniqueKeys<T, K>(s: seq<T>, key: T -> K, i: int)
    requires forall a, b :: 0 <= a < b < |s| ==> key(s[a]) != key(s[b])
    requires 0 <= i < |s|
    ensures key(s[i]) in IndexBy(s, key) && IndexBy(s, key)[key(s[i])] == s[i]
  {
    var m := IndexBy(s, key);
    assert key(s[i]) in m;
    var j :| LastWithKey(s, key, key(s[i]), j) && m[key(s[i])] == s[j];
  }

  /** The position of the first row satisfying `p`, if any. */
  function FindIndex<T>(s: seq<T>, p: T -> bool): (r: Option<nat>)
    ensures r.Some? ==> r.value < |s| && p(s[r.value]) && forall j :: 0 <= j < r.value ==> !p(s[j])
    ensures r.None? ==> forall j :: 0 <= j < |s| ==> !p(s[j])
  {
    if s == [] then None
    else if p(s[0]) then Some(0)
    else
      match FindIndex(s[1..], p)
      case Some(i) => Some(i + 1)
      case None => None
  }

  /** The first index satisfying `p` is the one `FindIndex` returns. */
  lemma FindIndexIs<T>(s: seq<T>, p: T -> bool, i: nat)
    requires i < |s| && p(s[i]) && forall j :: 0 <= j < i ==> !p(s[j])
    ensures FindIndex(s, p) == Some(i)
  {
    match FindIndex(s, p)
    case Some(k) =>
    case None =>
  }

  /** `.filter(p).first()`: the first row satisfying `p`, or `None`. */
  function First<T(!new)>(s: seq<T>, p: T -> bool): (r: Option<T>)
    ensures r.Some? ==> exists i :: 0 <= i < |s| && s[i] == r.value && p(s[i]) && forall j :: 0 <= j < i ==> !p(s[j])
    ensures r.None? <==> forall x :: x in s ==> !p(x)
  {
    match FindIndex(s, p)
    case Some(i) => Some(s[i])
    case None => None
  }

  /**
   * SQLite's choice of id for a row inserted without one: one more than
   * the largest id in the table, or 1 for an empty table.
   */
  function NextRowId<T(!new)>(s: seq<T>, id: T -> int): (r: int)
    ensures forall x :: x in s ==> id(x) < r
    ensures s == [] ==> r == 1
    ensures s != [] ==> exists x :: x in s && r == id(x) + 1
  {
    if s == [] then 1
    else if |s| == 1 then id(s[0]) + 1
    else
      var rest := NextRowId(s[1..], id);
      assert s == [s[0]] + s[1..];
      if id(s[0]) + 1 > rest then id(s[0]) + 1 else rest
  }

  /** Removing position `i` keeps every other element and adds none. */
  lemma RemoveAtMembership<T>(s: seq<T>, i: nat)
    requires i < |s|
    ensures forall k :: 0 <= k < |s| && k != i ==> s[k] in s[..i] + s[i + 1..]
    ensures forall x :: x in s[..i] + s[i + 1..] ==> x in s
  {
    var r := s[..i] + s[i + 1..];
    forall k | 0 <= k < |s| && k != i ensures s[k] in r {
      if k < i {
        assert s[k] == r[k];
      } else {
        assert s[k] == r[k - 1];
      }
    }
    assert forall x :: x in r ==> x in s[..i] || x in s[i + 1..];
  }
}
