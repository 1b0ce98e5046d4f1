/**
 The stable sort behind Array.prototype.sort, on records of an integer key and
 the index the record came from. The three lemmas (same records, ascending keys,
 equal keys in their original order) determine its result.
 */
module Sorting {
  import opened Sums

  datatype Keyed = Keyed(key: int, tag: nat)

  function Insert(x: Keyed, s: seq<Keyed>): (r: seq<Keyed>)
    ensures |r| == |s| + 1
  {
    if s == [] || x.key < s[0].key then [x] + s else [s[0]] + Insert(x, s[1..])
  }

  function Sorted(s: seq<Keyed>): (r: seq<Keyed>)
    ensures |r| == |s|
  {
    if s == [] then [] else Insert(s[|s| - 1], Sorted(s[..|s| - 1]))
  }

  ghost predicate Ascending(s: seq<Keyed>) {
    forall i, j :: 0 <= i < j < |s| ==> s[i].key <= s[j].key
  }

  function Keys(s: seq<Keyed>): (r: seq<int>)
    ensures |r| == |s|
  {
    seq(|s|, i requires 0 <= i < |s| => s[i].key)
  }

  /** How many records carry the tag. */
  function Count(s: seq<Keyed>, tag: nat): nat {
    if s == [] then 0 else Count(s[..|s| - 1], tag) + if s[|s| - 1].tag == tag then 1 else 0
  }

  function WithKey(s: seq<Keyed>, key: int): seq<Keyed> {
    if s == [] then [] else WithKey(s[..|s| - 1], key) + if s[|s| - 1].key == key then [s[|s| - 1]] else []
  }

  lemma {:induction false} InsertKeeps(x: Keyed, s: seq<Keyed>)
    ensures multiset(Insert(x, s)) == multiset(s) + multiset{x}
  {
    if s == [] || x.key < s[0].key {
    } else {
      InsertKeeps(x, s[1..]);
      assert s == [s[0]] + s[1..];
    }
  }

  lemma {:induction false} SortedKeeps(s: seq<Keyed>)
    ensures multiset(Sorted(s)) == multiset(s)
  {
    if s != [] {
      var n := |s| - 1;
      SortedKeeps(s[..n]);
      InsertKeeps(s[n], Sorted(s[..n]));
      assert s == s[..n] + [s[n]];
    }
  }

  lemma {:induction false} InsertAscending(x: Keyed, s: seq<Keyed>)
    requires Ascending(s)
    ensures Ascending(Insert(x, s))
  {
    if s == [] || x.key < s[0].key {
    } else {
      InsertAscending(x, s[1..]);
      InsertKeeps(x, s[1..]);
      var r := Insert(x, s[1..]);
      forall j | 0 <= j < |r| ensures s[0].key <= r[j].key {
        assert r[j] in multiset(r);
        assert r[j] == x || r[j] in s[1..];
      }
    }
  }

  lemma {:induction false} SortedAscending(s: seq<Keyed>)
    ensures Ascending(Sorted(s))
  {
    if s != [] {
      SortedAscending(s[..|s| - 1]);
      InsertAscending(s[|s| - 1], Sorted(s[..|s| - 1]));
    }
  }

  lemma {:induction false} WithKeyMembers(s: seq<Keyed>, key: int)
    ensures forall x :: x in WithKey(s, key) <==> x in s && x.key == key
  {
    if s != [] {
      WithKeyMembers(s[..|s| - 1], key);
      assert s == s[..|s| - 1] + [s[|s| - 1]];
    }
  }

  lemma {:induction false} WithKeyAppend(a: seq<Keyed>, b: seq<Keyed>, key: int)
    ensures WithKey(a + b, key) == WithKey(a, key) + WithKey(b, key)
  {
    if b == [] {
      assert a + b == a;
    } else {
      assert (a + b)[..|a + b| - 1] == a + b[..|b| - 1];
      WithKeyAppend(a, b[..|b| - 1], key);
    }
  }

  lemma {:induction false} WithKeyNone(s: seq<Keyed>, key: int)
    requires forall x :: x in s ==> x.key != key
    ensures WithKey(s, key) == []
  {
    if s != [] {
      WithKeyNone(s[..|s| - 1], key);
    }
  }

  lemma {:induction false} InsertStable(x: Keyed, s: seq<Keyed>, key: int)
    requires Ascending(s)
    ensures WithKey(Insert(x, s), key) == WithKey(s + [x], key)
  {
    if s == [] || x.key < s[0].key {
      WithKeyAppend([x], s, key);
      WithKeyAppend(s, [x], key);
      if x.key == key {
        WithKeyNone(s, key);
      } else {
        WithKeyNone([x], key);
      }
    } else {
      InsertStable(x, s[1..], key);
      WithKeyAppend([s[0]], Insert(x, s[1..]), key);
      WithKeyAppend([s[0]], s[1..] + [x], key);
      assert s + [x] == [s[0]] + (s[1..] + [x]);
    }
  }

  /** Records with equal keys keep the order they came in. */
  lemma {:induction false} SortedStable(s: seq<Keyed>, key: int)
    ensures WithKey(Sorted(s), key) == WithKey(s, key)
  {
    if s != [] {
      var n := |s| - 1;
      SortedStable(s[..n], key);
      SortedAscending(s[..n]);
      InsertStable(s[n], Sorted(s[..n]), key);
      WithKeyAppend(Sorted(s[..n]), [s[n]], key);
      WithKeyAppend(s[..n], [s[n]], key);
      assert s == s[..n] + [s[n]];
    }
  }

  /** By key, and by tag among equal keys. */
  predicate Before(x: Keyed, y: Keyed) {
    x.key < y.key || (x.key == y.key && x.tag < y.tag)
  }

  /** Records that come in the order of their tags are sorted by key and tag. */
  lemma {:induction false} SortedByTag(s: seq<Keyed>)
    requires forall i, j :: 0 <= i < j < |s| ==> s[i].tag < s[j].tag
    ensures forall i, j :: 0 <= i < j < |s| ==> Before(Sorted(s)[i], Sorted(s)[j])
  {
    if s != [] {
      var n := |s| - 1;
      SortedByTag(s[..n]);
      SortedKeeps(s[..n]);
      var r := Sorted(s[..n]);
      forall k | 0 <= k < |r| ensures r[k].tag < s[n].tag {
        assert r[k] in multiset(r);
        assert r[k] in s[..n];
      }
      InsertByTag(s[n], r);
    }
  }

  lemma {:induction false} InsertByTag(x: Keyed, s: seq<Keyed>)
    requires forall i, j :: 0 <= i < j < |s| ==> Before(s[i], s[j])
    requires forall k :: 0 <= k < |s| ==> s[k].tag < x.tag
    ensures forall i, j :: 0 <= i < j < |s| + 1 ==> Before(Insert(x, s)[i], Insert(x, s)[j])
  {
    if s == [] || x.key < s[0].key {
    } else {
      InsertByTag(x, s[1..]);
      InsertKeeps(x, s[1..]);
      var r := Insert(x, s[1..]);
      forall j | 0 <= j < |r| ensures Before(s[0], r[j]) {
        assert r[j] in multiset(r);
        assert r[j] == x || r[j] in s[1..];
      }
    }
  }

  lemma {:induction false} CountAppend(a: seq<Keyed>, b: seq<Keyed>, tag: nat)
    ensures Count(a + b, tag) == Count(a, tag) + Count(b, tag)
  {
    if b == [] {
      assert a + b == a;
    } else {
      assert (a + b)[..|a + b| - 1] == a + b[..|b| - 1];
      CountAppend(a, b[..|b| - 1], tag);
    }
  }

  lemma {:induction false} CountPrefix(s: seq<Keyed>, k: nat, tag: nat)
    requires k <= |s|
    ensures Count(s[..k], tag) <= Count(s, tag)
  {
    assert s == s[..k] + s[k..];
    CountAppend(s[..k], s[k..], tag);
  }

  lemma {:induction false} CountInsert(x: Keyed, s: seq<Keyed>, tag: nat)
    ensures Count(Insert(x, s), tag) == Count(s, tag) + if x.tag == tag then 1 else 0
  {
    if s == [] || x.key < s[0].key {
      CountAppend([x], s, tag);
    } else {
      CountInsert(x, s[1..], tag);
      CountAppend([s[0]], Insert(x, s[1..]), tag);
      CountAppend([s[0]], s[1..], tag);
      assert s == [s[0]] + s[1..];
    }
  }

  lemma {:induction false} CountSorted(s: seq<Keyed>, tag: nat)
    ensures Count(Sorted(s), tag) == Count(s, tag)
  {
    if s != [] {
      CountSorted(s[..|s| - 1], tag);
      CountInsert(s[|s| - 1], Sorted(s[..|s| - 1]), tag);
    }
  }

  lemma {:induction false} CountPositive(s: seq<Keyed>, tag: nat)
    ensures Count(s, tag) > 0 <==> exists j :: 0 <= j < |s| && s[j].tag == tag
  {
    if s != [] {
      CountPositive(s[..|s| - 1], tag);
    }
  }

  lemma {:induction false} SumKeysInsert(x: Keyed, s: seq<Keyed>)
    ensures Sum(Keys(Insert(x, s))) == Sum(Keys(s)) + x.key
  {
    if s == [] || x.key < s[0].key {
      assert Keys([x] + s) == [x.key] + Keys(s);
      SumAppend([x.key], Keys(s));
    } else {
      SumKeysInsert(x, s[1..]);
      assert Keys(Insert(x, s)) == [s[0].key] + Keys(Insert(x, s[1..]));
      SumAppend([s[0].key], Keys(Insert(x, s[1..])));
      assert Keys(s) == [s[0].key] + Keys(s[1..]);
      SumAppend([s[0].key], Keys(s[1..]));
    }
  }

  lemma {:induction false} SumKeysSorted(s: seq<Keyed>)
    ensures Sum(Keys(Sorted(s))) == Sum(Keys(s))
  {
    if s != [] {
      var n := |s| - 1;
      SumKeysSorted(s[..n]);
      SumKeysInsert(s[n], Sorted(s[..n]));
      assert Keys(s)[..n] == Keys(s[..n]);
    }
  }

  /**
   In ascending order, all records of one tag and key lie in the first k if the key is below the k-th, none if above.
   */
  lemma {:induction false} PrefixByKey(s: seq<Keyed>, k: nat, tag: nat, key: int)
    requires Ascending(s) && 0 < k <= |s|
    requires forall x :: x in s && x.tag == tag ==> x.key == key
    ensures key < s[k - 1].key ==> Count(s[..k], tag) == Count(s, tag)
    ensures key > s[k - 1].key ==> Count(s[..k], tag) == 0
  {
    assert s == s[..k] + s[k..];
    CountAppend(s[..k], s[k..], tag);
    CountPositive(s[..k], tag);
    CountPositive(s[k..], tag);
    if Count(s[..k], tag) > 0 {
      var j :| 0 <= j < k && s[..k][j].tag == tag;
      assert s[j] in s && (j == k - 1 || s[j].key <= s[k - 1].key);
    }
    if Count(s[k..], tag) > 0 {
      var j :| 0 <= j < |s[k..]| && s[k..][j].tag == tag;
      assert s[k + j] in s && s[k - 1].key <= s[k + j].key;
    }
  }

  /** How many records carry each tag below n. */
  function Tally(n: nat, s: seq<Keyed>): (r: seq<int>)
    ensures |r| == n
  {
    seq(n, i requires 0 <= i < n => Count(s, i))
  }

  lemma {:induction false} SumTally(n: nat, s: seq<Keyed>)
    requires forall x :: x in s ==> x.tag < n
    ensures Sum(Tally(n, s)) == |s|
  {
    if s == [] {
      SumConstant(Tally(n, s), 0);
    } else {
      var p, t := s[..|s| - 1], s[|s| - 1].tag;
      SumTally(n, p);
      assert Tally(n, s) == Tally(n, p)[t := Count(p, t) + 1];
      SumUpdate(Tally(n, p), t, Count(p, t) + 1);
    }
  }
}
