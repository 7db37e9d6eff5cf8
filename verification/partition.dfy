/**
 * Grouping a list of items by a key computed for each item, the way the
 * scorers group the remaining answers by the feedback a guess produces.
 * The program iterates a hash map, whose order is unspecified; here the
 * groups come in order of first occurrence, and every property below is
 * independent of that order.
 */
module Partition {

  datatype Bucket<K, T> = Bucket(key: K, members: seq<T>)

  /** The items whose key is `k`, in their original order. */
  function Select<K(==), T>(items: seq<T>, keys: seq<K>, k: K): seq<T>
    requires |items| == |keys|
  {
    if |items| == 0 then []
    else
      var n := |items| - 1;
      Select(items[..n], keys[..n], k) + (if keys[n] == k then [items[n]] else [])
  }

  /** No key labels two groups. */
  predicate DistinctKeys<K(==), T>(bs: seq<Bucket<K, T>>) {
    forall i, j :: 0 <= i < j < |bs| ==> bs[i].key != bs[j].key
  }

  /** Every group holds at least one item. */
  predicate NonEmpty<K, T>(bs: seq<Bucket<K, T>>) {
    forall i :: 0 <= i < |bs| ==> |bs[i].members| > 0
  }

  /** The members of the group labelled `k`, or nothing if there is none. */
  function MembersOf<K(==), T>(bs: seq<Bucket<K, T>>, k: K): seq<T> {
    if |bs| == 0 then [] else if bs[0].key == k then bs[0].members else MembersOf(bs[1..], k)
  }

  /** Total number of items over all groups. */
  function Size<K, T>(bs: seq<Bucket<K, T>>): nat {
    if |bs| == 0 then 0 else |bs[0].members| + Size(bs[1..])
  }

  /** Sum of the squared group sizes. */
  function SumSquares<K, T>(bs: seq<Bucket<K, T>>): nat {
    if |bs| == 0 then 0 else |bs[0].members| * |bs[0].members| + SumSquares(bs[1..])
  }

  /** Adds one item to the group of its key, opening a new group at the end if needed. */
  function Insert<K(==,!new), T>(bs: seq<Bucket<K, T>>, k: K, x: T): (r: seq<Bucket<K, T>>)
    requires DistinctKeys(bs) && NonEmpty(bs)
    ensures InsertedInto(bs, k, x, r)
  {
    if |bs| == 0 then
      InsertNew(k, x);
      [Bucket(k, [x])]
    else if bs[0].key == k then
      InsertHere(bs, k, x);
      [Bucket(k, bs[0].members + [x])] + bs[1..]
    else
      var rest := Insert(bs[1..], k, x);
      InsertLater(bs, k, x, rest);
      [bs[0]] + rest
  }

  /**
   * `r` is `bs` with `x` added to the group of `k`: keys stay distinct and
   * groups non-empty, the group of `k` gains `x` at its end and no other
   * group changes, no key appears that was not there or `k`, and one more
   * item is held in all.
   */
  ghost predicate InsertedInto<K(!new), T>(bs: seq<Bucket<K, T>>, k: K, x: T, r: seq<Bucket<K, T>>) {
    && DistinctKeys(r) && NonEmpty(r)
    && (forall kk :: MembersOf(r, kk) == MembersOf(bs, kk) + (if kk == k then [x] else []))
    && (forall i :: 0 <= i < |r| ==> r[i].key == k || exists j :: 0 <= j < |bs| && bs[j].key == r[i].key)
    && Size(r) == Size(bs) + 1
  }

  /** Adding to no groups opens the group of `k`. */
  lemma InsertNew<K(!new), T>(k: K, x: T)
    ensures InsertedInto([], k, x, [Bucket(k, [x])])
  {
    var r := [Bucket(k, [x])];
    assert r[1..] == [];
    assert forall kk :: MembersOf(r, kk) == if kk == k then [x] else [];
  }

  /** Adding to the first group when it has the key. */
  lemma InsertHere<K(!new), T>(bs: seq<Bucket<K, T>>, k: K, x: T)
    requires DistinctKeys(bs) && NonEmpty(bs) && |bs| > 0 && bs[0].key == k
    ensures InsertedInto(bs, k, x, [Bucket(k, bs[0].members + [x])] + bs[1..])
  {
    var r := [Bucket(k, bs[0].members + [x])] + bs[1..];
    assert r[1..] == bs[1..];
    assert forall i :: 1 <= i < |r| ==> r[i] == bs[i];
    assert MembersOf(bs[1..], k) == [] by { AbsentKey(bs[1..], k); }
    forall kk
      ensures MembersOf(r, kk) == MembersOf(bs, kk) + (if kk == k then [x] else [])
    {
      if kk != k {
        assert MembersOf(r, kk) == MembersOf(bs[1..], kk) == MembersOf(bs, kk);
      }
    }
    assert Size(r) == |bs[0].members| + 1 + Size(bs[1..]);
  }

  /** Keeping the first group when it has another key, and adding to the rest. */
  lemma InsertLater<K(!new), T>(bs: seq<Bucket<K, T>>, k: K, x: T, rest: seq<Bucket<K, T>>)
    requires DistinctKeys(bs) && NonEmpty(bs) && |bs| > 0 && bs[0].key != k
    requires InsertedInto(bs[1..], k, x, rest)
    ensures InsertedInto(bs, k, x, [bs[0]] + rest)
  {
    var r := [bs[0]] + rest;
    assert r[1..] == rest;
    assert bs == [bs[0]] + bs[1..];
    LaterKeys(bs, k, x, rest);
    assert forall kk :: MembersOf(r, kk) == if bs[0].key == kk then bs[0].members else MembersOf(rest, kk);
    assert forall kk :: MembersOf(bs, kk) == if bs[0].key == kk then bs[0].members else MembersOf(bs[1..], kk);
    assert Size(r) == |bs[0].members| + Size(rest);
  }

  /** The keys of the kept first group and of the rest stay distinct and come from `bs` or are `k`. */
  lemma LaterKeys<K(!new), T>(bs: seq<Bucket<K, T>>, k: K, x: T, rest: seq<Bucket<K, T>>)
    requires DistinctKeys(bs) && NonEmpty(bs) && |bs| > 0 && bs[0].key != k
    requires InsertedInto(bs[1..], k, x, rest)
    ensures DistinctKeys([bs[0]] + rest) && NonEmpty([bs[0]] + rest)
    ensures forall i :: 0 <= i < |[bs[0]] + rest| ==> ([bs[0]] + rest)[i].key == k || exists j :: 0 <= j < |bs| && bs[j].key == ([bs[0]] + rest)[i].key
  {
    var r := [bs[0]] + rest;
    forall i | 0 <= i < |rest|
      ensures rest[i].key != bs[0].key
      ensures rest[i].key == k || exists j :: 0 <= j < |bs| && bs[j].key == rest[i].key
    {
      if rest[i].key != k {
        var j :| 0 <= j < |bs[1..]| && bs[1..][j].key == rest[i].key;
        assert bs[j + 1].key == rest[i].key;
      }
    }
    assert forall i :: 1 <= i < |r| ==> r[i] == rest[i - 1];
    assert r[0].key == bs[0].key;
  }

  lemma {:induction false} AbsentKey<K, T>(bs: seq<Bucket<K, T>>, k: K)
    requires forall i :: 0 <= i < |bs| ==> bs[i].key != k
    ensures MembersOf(bs, k) == []
  {
    if |bs| > 0 {
      AbsentKey(bs[1..], k);
    }
  }

  /** In a list with distinct keys, looking a group's key up finds that group. */
  lemma {:induction false} MembersOfBucket<K, T>(bs: seq<Bucket<K, T>>, i: nat)
    requires DistinctKeys(bs) && i < |bs|
    ensures MembersOf(bs, bs[i].key) == bs[i].members
  {
    if i > 0 {
      MembersOfBucket(bs[1..], i - 1);
    }
  }

  /**
   * Groups items by key: one group per distinct key, each holding exactly
   * the items with that key in their original order, and together holding
   * every item once.
   */
  function Group<K(==,!new), T>(items: seq<T>, keys: seq<K>): (bs: seq<Bucket<K, T>>)
    requires |items| == |keys|
    ensures DistinctKeys(bs) && NonEmpty(bs)
    ensures forall k :: MembersOf(bs, k) == Select(items, keys, k)
    ensures Size(bs) == |items|
  {
    if |items| == 0 then []
    else
      var n := |items| - 1;
      Insert(Group(items[..n], keys[..n]), keys[n], items[n])
  }

  /** Each group of `Group` is exactly the selection of its key. */
  lemma GroupMembers<K(!new), T>(items: seq<T>, keys: seq<K>, i: nat)
    requires |items| == |keys| && i < |Group(items, keys)|
    ensures Group(items, keys)[i].members == Select(items, keys, Group(items, keys)[i].key)
  {
    MembersOfBucket(Group(items, keys), i);
  }

  /**
   * With every group non-empty, the squared sizes add up to at least the
   * number of items and at most its square.
   */
  lemma {:induction false} SumSquaresBounds<K, T>(bs: seq<Bucket<K, T>>)
    requires NonEmpty(bs)
    ensures Size(bs) <= SumSquares(bs) <= Size(bs) * Size(bs)
  {
    if |bs| > 0 {
      var c := |bs[0].members|;
      var rest := bs[1..];
      SumSquaresBounds(rest);
      SquareStep(c, Size(rest), SumSquares(rest));
    }
  }

  /** Adding a group of c to groups of s items in all, whose squares add up to q with s ≤ q ≤ s², keeps both bounds. */
  lemma SquareStep(c: nat, s: nat, q: nat)
    requires s <= q <= s * s
    ensures c + s <= c * c + q <= (c + s) * (c + s)
  {
    assert c <= c * c;
    assert (c + s) * (c + s) == c * c + 2 * c * s + s * s;
    assert 0 <= c * s;
  }

  /** Sum of the squared sizes of the groups whose key is not `k`. */
  function SquaresExcept<K(==), T>(bs: seq<Bucket<K, T>>, k: K): nat {
    if |bs| == 0 then 0
    else (if bs[0].key == k then 0 else |bs[0].members| * |bs[0].members|) + SquaresExcept(bs[1..], k)
  }

  /** Leaving one key out can only lower the sum of squares. */
  lemma {:induction false} SquaresExceptBound<K, T>(bs: seq<Bucket<K, T>>, k: K)
    ensures SquaresExcept(bs, k) <= SumSquares(bs)
  {
    if |bs| > 0 {
      SquaresExceptBound(bs[1..], k);
    }
  }

  /** Total size of the groups whose key is not `k`. */
  function SizeExcept<K(==), T>(bs: seq<Bucket<K, T>>, k: K): nat {
    if |bs| == 0 then 0
    else (if bs[0].key == k then 0 else |bs[0].members|) + SizeExcept(bs[1..], k)
  }

  /** With distinct keys, the groups other than `k` and the group of `k` together hold everything. */
  lemma {:induction false} SizeExceptSplit<K, T>(bs: seq<Bucket<K, T>>, k: K)
    requires DistinctKeys(bs)
    ensures SizeExcept(bs, k) + |MembersOf(bs, k)| == Size(bs)
  {
    if |bs| > 0 {
      SizeExceptSplit(bs[1..], k);
      if bs[0].key == k {
        AbsentKey(bs[1..], k);
        SizeExceptAll(bs[1..], k);
      }
    }
  }

  /** Without a group labelled `k`, leaving `k` out leaves out nothing. */
  lemma {:induction false} SizeExceptAll<K, T>(bs: seq<Bucket<K, T>>, k: K)
    requires forall i :: 0 <= i < |bs| ==> bs[i].key != k
    ensures SizeExcept(bs, k) == Size(bs)
  {
    if |bs| > 0 {
      SizeExceptAll(bs[1..], k);
    }
  }
}
