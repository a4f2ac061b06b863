/** Group-by-then-count over a sequence of keys: what pandas' value_counts and
    groupby(...).size() compute in main.py, written as a counter that is bumped
    once per key, plus the count-descending order of sort_values(ascending=False). */
module Counting {

  /** One group: its key and how many input elements fell into it. */
  datatype Row<K> = Row(key: K, count: nat)

  /** Number of occurrences of k in ks. */
  function Count<K(==)>(ks: seq<K>, k: K): nat {
    if ks == [] then 0
    else Count(ks[..|ks| - 1], k) + (if ks[|ks| - 1] == k then 1 else 0)
  }

  lemma {:induction false} CountInSeq<K>(ks: seq<K>, k: K)
    ensures Count(ks, k) >= 1 <==> k in ks
  {
    if ks != [] {
      var n := |ks| - 1;
      assert ks == ks[..n] + [ks[n]];
      CountInSeq(ks[..n], k);
    }
  }

  lemma {:induction false} CountAppend<K>(a: seq<K>, b: seq<K>, k: K)
    ensures Count(a + b, k) == Count(a, k) + Count(b, k)
  {
    if b == [] {
      assert a + b == a;
    } else {
      var n := |b| - 1;
      assert (a + b)[..|a + b| - 1] == a + b[..n];
      CountAppend(a, b[..n], k);
    }
  }

  function Keys<K(==)>(t: seq<Row<K>>): set<K> {
    if t == [] then {} else {t[0].key} + Keys(t[1..])
  }

  /** No key labels two rows. */
  predicate UniqueKeys<K(==)>(t: seq<Row<K>>) {
    t == [] || (t[0].key !in Keys(t[1..]) && UniqueKeys(t[1..]))
  }

  /** The count of the first row labelled k, 0 if there is none. */
  function CountOf<K(==)>(t: seq<Row<K>>, k: K): nat {
    if t == [] then 0 else if t[0].key == k then t[0].count else CountOf(t[1..], k)
  }

  function SumCounts<K>(t: seq<Row<K>>): nat {
    if t == [] then 0 else t[0].count + SumCounts(t[1..])
  }

  predicate Positive<K>(t: seq<Row<K>>) {
    forall i :: 0 <= i < |t| ==> t[i].count >= 1
  }

  /** Records one more occurrence of x: increments x's row, or appends a new row. */
  function Bump<K(==,!new)>(t: seq<Row<K>>, x: K): (r: seq<Row<K>>)
    ensures Keys(r) == Keys(t) + {x}
    ensures UniqueKeys(t) ==> UniqueKeys(r)
    ensures Positive(t) ==> Positive(r)
    ensures SumCounts(r) == SumCounts(t) + 1
    ensures forall k :: CountOf(r, k) == CountOf(t, k) + (if k == x then 1 else 0)
  {
    if t == [] then [Row(x, 1)]
    else if t[0].key == x then [Row(x, t[0].count + 1)] + t[1..]
    else [t[0]] + Bump(t[1..], x)
  }

  /** The groups of ks with their sizes, in order of first occurrence. */
  function Tally<K(==,!new)>(ks: seq<K>): (t: seq<Row<K>>)
    ensures UniqueKeys(t) && Positive(t)
    ensures Keys(t) == set k | k in ks
    ensures forall k :: CountOf(t, k) == Count(ks, k)
    ensures SumCounts(t) == |ks|
  {
    if ks == [] then []
    else
      var init := ks[..|ks| - 1];
      assert ks == init + [ks[|ks| - 1]];
      Bump(Tally(init), ks[|ks| - 1])
  }

  lemma {:induction false} KeysAt<K>(t: seq<Row<K>>, k: K)
    ensures k in Keys(t) <==> exists i :: 0 <= i < |t| && t[i].key == k
  {
    if t != [] {
      KeysAt(t[1..], k);
      if k in Keys(t[1..]) {
        var i :| 0 <= i < |t[1..]| && t[1..][i].key == k;
        assert t[i + 1].key == k;
      }
      if exists i :: 0 <= i < |t| && t[i].key == k {
        var i :| 0 <= i < |t| && t[i].key == k;
        if i > 0 {
          assert t[1..][i - 1].key == k;
        }
      }
    }
  }

  /** With unique keys, a row's count is what looking its key up gives. */
  lemma {:induction false} CountOfRow<K>(t: seq<Row<K>>, i: nat)
    requires UniqueKeys(t) && i < |t|
    ensures CountOf(t, t[i].key) == t[i].count
  {
    if i > 0 {
      CountOfRow(t[1..], i - 1);
      KeysAt(t[1..], t[i].key);
      assert t[1..][i - 1] == t[i];
    }
  }

  lemma {:induction false} UniqueKeysDistinct<K>(t: seq<Row<K>>, i: nat, j: nat)
    requires UniqueKeys(t) && i < j < |t|
    ensures t[i].key != t[j].key
  {
    if i == 0 {
      KeysAt(t[1..], t[j].key);
      assert t[1..][j - 1] == t[j];
    } else {
      UniqueKeysDistinct(t[1..], i - 1, j - 1);
    }
  }

  /** Every row of the tally of ks counts the occurrences of its key in ks. */
  lemma TallyRow<K(!new)>(ks: seq<K>, r: Row<K>)
    requires r in Tally(ks)
    ensures r.count == Count(ks, r.key) && r.key in ks
  {
    var t := Tally(ks);
    var i :| 0 <= i < |t| && t[i] == r;
    CountOfRow(t, i);
    KeysAt(t, r.key);
  }

  /** No key occurs more often than the sequence is long. */
  lemma {:induction false} CountAtMost<K>(ks: seq<K>, k: K)
    ensures Count(ks, k) <= |ks|
  {
    if ks != [] {
      CountAtMost(ks[..|ks| - 1], k);
    }
  }

  /** Every row of the tally of ks counts at least one and at most |ks| occurrences. */
  lemma TallyBounded<K(!new)>(ks: seq<K>)
    ensures forall r :: r in Tally(ks) ==> 1 <= r.count <= |ks|
  {
    forall r | r in Tally(ks) ensures 1 <= r.count <= |ks| {
      TallyRow(ks, r);
      CountInSeq(ks, r.key);
      CountAtMost(ks, r.key);
    }
  }

  predicate NonIncreasing<K>(t: seq<Row<K>>) {
    forall i, j :: 0 <= i < j < |t| ==> t[i].count >= t[j].count
  }

  /** Puts x in front of the first row whose count does not exceed x's. */
  function Insert<K(==)>(x: Row<K>, t: seq<Row<K>>): (r: seq<Row<K>>)
    ensures multiset(r) == multiset(t) + multiset{x}
  {
    if t == [] || x.count >= t[0].count then [x] + t
    else
      assert t == [t[0]] + t[1..];
      [t[0]] + Insert(x, t[1..])
  }

  lemma {:induction false} InsertOrdered<K>(x: Row<K>, t: seq<Row<K>>)
    requires NonIncreasing(t)
    ensures NonIncreasing(Insert(x, t))
  {
    if t != [] && x.count < t[0].count {
      var rest := Insert(x, t[1..]);
      InsertOrdered(x, t[1..]);
      forall j | 0 <= j < |rest| ensures t[0].count >= rest[j].count {
        assert rest[j] in multiset(rest);
        if rest[j] != x {
          assert rest[j] in multiset(t[1..]);
          var m :| 0 <= m < |t[1..]| && t[1..][m] == rest[j];
          assert t[m + 1] == rest[j];
        }
      }
    }
  }

  lemma {:induction false} InsertKeys<K>(x: Row<K>, t: seq<Row<K>>)
    ensures Keys(Insert(x, t)) == Keys(t) + {x.key}
    ensures UniqueKeys(t) && x.key !in Keys(t) ==> UniqueKeys(Insert(x, t))
    ensures SumCounts(Insert(x, t)) == SumCounts(t) + x.count
  {
    var r := Insert(x, t);
    if t == [] || x.count >= t[0].count {
      assert r[1..] == t;
    } else {
      InsertKeys(x, t[1..]);
      assert r[1..] == Insert(x, t[1..]);
    }
  }

  /** Rows in non-increasing count order (insertion sort; the order of equal
      counts is not specified by the source and this is one choice). */
  function SortByCount<K(==)>(t: seq<Row<K>>): (r: seq<Row<K>>)
    ensures NonIncreasing(r)
    ensures multiset(r) == multiset(t) && |r| == |t|
    ensures Keys(r) == Keys(t)
    ensures UniqueKeys(t) ==> UniqueKeys(r)
    ensures SumCounts(r) == SumCounts(t)
  {
    if t == [] then []
    else
      var rest := SortByCount(t[1..]);
      assert t == [t[0]] + t[1..];
      assert multiset(t) == multiset(t[1..]) + multiset{t[0]};
      assert UniqueKeys(t) ==> t[0].key !in Keys(rest);
      InsertOrdered(t[0], rest);
      InsertKeys(t[0], rest);
      Insert(t[0], rest)
  }

  /** Sorting a tally keeps its rows, and with them their bounds. */
  lemma SortedTallyBounded<K(!new)>(ks: seq<K>)
    ensures ks != [] ==> SortByCount(Tally(ks)) != []
    ensures forall r :: r in SortByCount(Tally(ks)) ==> 1 <= r.count <= |ks|
  {
    var t := Tally(ks);
    TallyBounded(ks);
    forall r | r in SortByCount(t) ensures 1 <= r.count <= |ks| {
      assert r in multiset(SortByCount(t));
    }
    if ks != [] {
      assert ks[0] in Keys(t);
    }
  }
}
