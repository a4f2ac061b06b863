/** The aggregator of main.py (analyze_packet_data): total bandwidth, protocol
    distribution, IP-pair distribution and protocol share per IP pair.
    Percentages are exact rationals (count * 100 / total) instead of floats. */
module Aggregate {
  import opened Counting
  import opened Protocols
  import opened Ingest

  /** A row of an output table: its label (the renamed key), its count and its percentage. */
  datatype Stat<K> = Stat(key: K, count: nat, percentage: real)

  function Percent(count: nat, total: nat): real
    requires total > 0
  {
    (count * 100) as real / total as real
  }

  lemma PercentAdd(a: nat, b: nat, total: nat)
    requires total > 0
    ensures Percent(a, total) + Percent(b, total) == Percent(a + b, total)
  {
  }

  lemma PercentWhole(total: nat)
    requires total > 0
    ensures Percent(total, total) == 100.0
  {
    var t := total as real;
    assert (total * 100) as real == 100.0 * t;
    assert 100.0 * t / t == 100.0;
  }

  /** 0 < count * 100 / total <= 100 for a count between 1 and the total. */
  lemma PercentBounds(count: nat, total: nat)
    requires 1 <= count <= total
    ensures 0.0 < Percent(count, total) <= 100.0
  {
    var t := total as real;
    assert (count * 100) as real <= 100.0 * t;
  }

  // ---- Columns of the record table ----

  function ProtocolColumn(rs: seq<PacketRecord>): (ps: seq<nat>)
    ensures |ps| == |rs|
    ensures forall i :: 0 <= i < |rs| ==> ps[i] == rs[i].proto
  {
    if rs == [] then [] else ProtocolColumn(rs[..|rs| - 1]) + [rs[|rs| - 1].proto]
  }

  function PairColumn(rs: seq<PacketRecord>): (ps: seq<(Addr, Addr)>)
    ensures |ps| == |rs|
    ensures forall i :: 0 <= i < |rs| ==> ps[i] == (rs[i].src, rs[i].dst)
  {
    if rs == [] then [] else PairColumn(rs[..|rs| - 1]) + [(rs[|rs| - 1].src, rs[|rs| - 1].dst)]
  }

  function TripleColumn(rs: seq<PacketRecord>): (ps: seq<(Addr, Addr, nat)>)
    ensures |ps| == |rs|
    ensures forall i :: 0 <= i < |rs| ==> ps[i] == (rs[i].src, rs[i].dst, rs[i].proto)
  {
    if rs == [] then []
    else
      var r := rs[|rs| - 1];
      TripleColumn(rs[..|rs| - 1]) + [(r.src, r.dst, r.proto)]
  }

  // ---- Total bandwidth ----

  /** df["size"].sum(): the exact sum of the record sizes. */
  function TotalBandwidth(rs: seq<PacketRecord>): (n: nat)
    ensures forall i :: 0 <= i < |rs| ==> rs[i].size <= n
    ensures |rs| == 1 ==> n == rs[0].size
  {
    if rs == [] then 0 else TotalBandwidth(rs[..|rs| - 1]) + rs[|rs| - 1].size
  }

  lemma {:induction false} TotalBandwidthAppend(a: seq<PacketRecord>, b: seq<PacketRecord>)
    ensures TotalBandwidth(a + b) == TotalBandwidth(a) + TotalBandwidth(b)
  {
    if b == [] {
      assert a + b == a;
    } else {
      assert (a + b)[..|a + b| - 1] == a + b[..|b| - 1];
      TotalBandwidthAppend(a, b[..|b| - 1]);
    }
  }

  // ---- Percentage tables ----

  /** Attaches count * 100 / total to every row, relabelling its key. */
  function WithPercent<K, L>(t: seq<Row<K>>, rename: K -> L, total: nat): (s: seq<Stat<L>>)
    requires total > 0
    ensures |s| == |t|
    ensures forall i :: 0 <= i < |t| ==>
              s[i] == Stat(rename(t[i].key), t[i].count, Percent(t[i].count, total))
  {
    if t == [] then [] else [Stat(rename(t[0].key), t[0].count, Percent(t[0].count, total))] + WithPercent(t[1..], rename, total)
  }

  /** Every row counts between 1 and n records, and its percentage lies in (0, 100]. */
  predicate Bounded<L>(s: seq<Stat<L>>, n: nat) {
    s == [] || (1 <= s[0].count <= n && 0.0 < s[0].percentage <= 100.0 && Bounded(s[1..], n))
  }

  lemma {:induction false} WithPercentBounded<K, L>(t: seq<Row<K>>, rename: K -> L, n: nat)
    requires n > 0
    requires forall r :: r in t ==> 1 <= r.count <= n
    ensures Bounded(WithPercent(t, rename, n), n)
  {
    if t != [] {
      var s := WithPercent(t, rename, n);
      assert s[1..] == WithPercent(t[1..], rename, n);
      assert forall r :: r in t[1..] ==> r in t;
      WithPercentBounded(t[1..], rename, n);
      assert t[0] in t;
      PercentBounds(t[0].count, n);
    }
  }

  function CountSum<L>(s: seq<Stat<L>>): nat {
    if s == [] then 0 else s[0].count + CountSum(s[1..])
  }

  function PercentSum<L>(s: seq<Stat<L>>): real {
    if s == [] then 0.0 else s[0].percentage + PercentSum(s[1..])
  }

  lemma {:induction false} WithPercentSums<K, L>(t: seq<Row<K>>, rename: K -> L, total: nat)
    requires total > 0
    ensures CountSum(WithPercent(t, rename, total)) == SumCounts(t)
    ensures PercentSum(WithPercent(t, rename, total)) == Percent(SumCounts(t), total)
  {
    if t != [] {
      var s := WithPercent(t, rename, total);
      WithPercentSums(t[1..], rename, total);
      assert s[1..] == WithPercent(t[1..], rename, total);
      PercentAdd(t[0].count, SumCounts(t[1..]), total);
    }
  }

  /** Protocol distribution: value_counts over the protocol codes, in
      non-increasing count order, each code shown by its name, with its share
      of all records. Empty input gives the empty table. */
  function ProtocolDistribution(rs: seq<PacketRecord>): (s: seq<Stat<string>>)
    ensures s == [] <==> rs == []
    ensures Bounded(s, |rs|)
  {
    if rs == [] then []
    else
      var codes := ProtocolColumn(rs);
      var t := SortByCount(Tally(codes));
      SortedTallyBounded(codes);
      WithPercentBounded(t, ProtocolName, |rs|);
      WithPercent(t, ProtocolName, |rs|)
  }

  /** A (source, destination) pair labels its own row. */
  function PairKey(p: (Addr, Addr)): (Addr, Addr) {
    p
  }

  /** IP-pair distribution: groupby(src, dst).size() sorted by count,
      descending, with each count's share of the sum of all counts. */
  function IPPairDistribution(rs: seq<PacketRecord>): (s: seq<Stat<(Addr, Addr)>>)
    ensures s == [] <==> rs == []
    ensures Bounded(s, |rs|)
  {
    if rs == [] then []
    else
      var pairs := PairColumn(rs);
      var t := SortByCount(Tally(pairs));
      SortedTallyBounded(pairs);
      WithPercentBounded(t, PairKey, |rs|);
      WithPercent(t, PairKey, SumCounts(t))
  }

  predicate DistinctKeys<L(==)>(s: seq<Stat<L>>) {
    forall i, j :: 0 <= i < j < |s| ==> s[i].key != s[j].key
  }

  predicate NonIncreasingCounts<L>(s: seq<Stat<L>>) {
    forall i, j :: 0 <= i < j < |s| ==> s[i].count >= s[j].count
  }

  /** Number of records whose protocol is shown under the given name. */
  function CountNamed(rs: seq<PacketRecord>, name: string): nat {
    if rs == [] then 0
    else CountNamed(rs[..|rs| - 1], name) + (if ProtocolName(rs[|rs| - 1].proto) == name then 1 else 0)
  }

  /** Grouping by code counts the same records as grouping by name. */
  lemma {:induction false} CountByName(rs: seq<PacketRecord>, code: nat)
    ensures Count(ProtocolColumn(rs), code) == CountNamed(rs, ProtocolName(code))
  {
    if rs != [] {
      var n := |rs| - 1;
      CountByName(rs[..n], code);
      assert ProtocolColumn(rs)[..n] == ProtocolColumn(rs[..n]);
      ProtocolNameInjective(rs[n].proto, code);
    }
  }

  /** Attaching percentages keeps the row order; an injective relabelling keeps
      the keys distinct and gives every key of t a row. */
  lemma WithPercentKeys<K, L>(t: seq<Row<K>>, rename: K -> L, total: nat)
    requires total > 0
    requires UniqueKeys(t) && NonIncreasing(t)
    requires forall a, b :: rename(a) == rename(b) ==> a == b
    ensures DistinctKeys(WithPercent(t, rename, total))
    ensures NonIncreasingCounts(WithPercent(t, rename, total))
    ensures forall k :: k in Keys(t) ==>
              exists i :: 0 <= i < |WithPercent(t, rename, total)| && WithPercent(t, rename, total)[i].key == rename(k)
  {
    var s := WithPercent(t, rename, total);
    forall i, j | 0 <= i < j < |s| ensures s[i].key != s[j].key {
      UniqueKeysDistinct(t, i, j);
      assert s[i].key == rename(t[i].key) && s[j].key == rename(t[j].key);
    }
    forall k | k in Keys(t) ensures exists i :: 0 <= i < |s| && s[i].key == rename(k) {
      KeysAt(t, k);
      var i :| 0 <= i < |t| && t[i].key == k;
      assert 0 <= i < |s| && s[i].key == rename(k);
    }
    assert forall k :: k in Keys(t) ==>
              exists i :: 0 <= i < |WithPercent(t, rename, total)| && WithPercent(t, rename, total)[i].key == rename(k);
  }

  /** One row of the protocol distribution: its count is the number of records
      of that protocol and its percentage is that count over the number of
      records, times 100. */
  lemma ProtocolDistributionRow(rs: seq<PacketRecord>, i: nat)
    requires i < |ProtocolDistribution(rs)|
    ensures var st := ProtocolDistribution(rs)[i];
            && st.count == CountNamed(rs, st.key) && st.count >= 1
            && |rs| > 0 && st.percentage == Percent(st.count, |rs|)
  {
    var codes := ProtocolColumn(rs);
    var t := SortByCount(Tally(codes));
    assert ProtocolDistribution(rs) == WithPercent(t, ProtocolName, |rs|);
    assert t[i] in multiset(t);
    TallyRow(codes, t[i]);
    CountByName(rs, t[i].key);
    CountInSeq(codes, t[i].key);
  }

  /** The protocol distribution has one row per protocol name occurring in the
      records, no name twice, in non-increasing count order. */
  lemma ProtocolDistributionKeys(rs: seq<PacketRecord>)
    ensures DistinctKeys(ProtocolDistribution(rs))
    ensures NonIncreasingCounts(ProtocolDistribution(rs))
    ensures forall r :: r in rs ==> exists i :: 0 <= i < |ProtocolDistribution(rs)| && ProtocolDistribution(rs)[i].key == ProtocolName(r.proto)
  {
    if rs != [] {
      var codes := ProtocolColumn(rs);
      var t := SortByCount(Tally(codes));
      forall a: nat, b: nat | ProtocolName(a) == ProtocolName(b) ensures a == b {
        ProtocolNameInjective(a, b);
      }
      WithPercentKeys(t, ProtocolName, |rs|);
      forall r | r in rs ensures r.proto in Keys(t) {
        var k :| 0 <= k < |rs| && rs[k] == r;
        assert codes[k] == r.proto;
      }
    }
  }

  /** The protocol counts add up to the number of records and, for a non-empty
      capture, the percentages add up to 100. */
  lemma ProtocolDistributionSums(rs: seq<PacketRecord>)
    ensures CountSum(ProtocolDistribution(rs)) == |rs|
    ensures rs != [] ==> PercentSum(ProtocolDistribution(rs)) == 100.0
  {
    if rs != [] {
      var t := SortByCount(Tally(ProtocolColumn(rs)));
      WithPercentSums(t, ProtocolName, |rs|);
      PercentWhole(|rs|);
    }
  }

  /** One row of the IP-pair distribution: its count is the number of records
      from that source to that destination and its percentage is that count
      over the number of records, times 100. */
  lemma IPPairDistributionRow(rs: seq<PacketRecord>, i: nat)
    requires i < |IPPairDistribution(rs)|
    ensures var st := IPPairDistribution(rs)[i];
            && st.count == Count(PairColumn(rs), st.key) && st.count >= 1
            && |rs| > 0 && st.percentage == Percent(st.count, |rs|)
  {
    var pairs := PairColumn(rs);
    var t := SortByCount(Tally(pairs));
    assert IPPairDistribution(rs) == WithPercent(t, PairKey, |rs|);
    assert t[i] in multiset(t);
    TallyRow(pairs, t[i]);
    CountInSeq(pairs, t[i].key);
  }

  /** The IP-pair distribution has one row per (source, destination) pair
      occurring in the records, no pair twice, in non-increasing count order. */
  lemma IPPairDistributionKeys(rs: seq<PacketRecord>)
    ensures DistinctKeys(IPPairDistribution(rs))
    ensures NonIncreasingCounts(IPPairDistribution(rs))
    ensures forall r :: r in rs ==> exists i :: 0 <= i < |IPPairDistribution(rs)| && IPPairDistribution(rs)[i].key == (r.src, r.dst)
  {
    if rs != [] {
      var pairs := PairColumn(rs);
      var t := SortByCount(Tally(pairs));
      WithPercentKeys(t, PairKey, |rs|);
      forall r | r in rs ensures (r.src, r.dst) in Keys(t) {
        var k :| 0 <= k < |rs| && rs[k] == r;
        assert pairs[k] == (r.src, r.dst);
      }
    }
  }

  /** The pair counts add up to the number of records and, for a non-empty
      capture, the percentages add up to 100. */
  lemma IPPairDistributionSums(rs: seq<PacketRecord>)
    ensures CountSum(IPPairDistribution(rs)) == |rs|
    ensures rs != [] ==> PercentSum(IPPairDistribution(rs)) == 100.0
  {
    if rs != [] {
      var t := SortByCount(Tally(PairColumn(rs)));
      WithPercentSums(t, PairKey, |rs|);
      PercentWhole(|rs|);
    }
  }

  // ---- Protocol share per pair ----

  /** Sum of the counts of the rows whose key starts with (src, dst). */
  function GroupTotal(t: seq<Row<(Addr, Addr, nat)>>, src: Addr, dst: Addr): (n: nat)
    ensures forall i :: 0 <= i < |t| && t[i].key.0 == src && t[i].key.1 == dst ==> n >= t[i].count
  {
    if t == [] then 0
    else (if t[0].key.0 == src && t[0].key.1 == dst then t[0].count else 0) + GroupTotal(t[1..], src, dst)
  }

  /** The share rows for `rows`: each row's count over the total of its
      (source, destination) group in `full`, which is what
      groupby(["Source IP", "Destination IP"])["Count"].transform(x / x.sum() * 100) does. */
  function ShareRows(rows: seq<Row<(Addr, Addr, nat)>>, full: seq<Row<(Addr, Addr, nat)>>): (s: seq<Stat<(Addr, Addr, string)>>)
    requires forall i :: 0 <= i < |rows| ==> rows[i] in full && rows[i].count >= 1
    ensures |s| == |rows|
    ensures forall i :: 0 <= i < |rows| ==>
              var k := rows[i].key;
              && GroupTotal(full, k.0, k.1) > 0
              && s[i] == Stat((k.0, k.1, ProtocolName(k.2)), rows[i].count, Percent(rows[i].count, GroupTotal(full, k.0, k.1)))
  {
    if rows == [] then []
    else
      var k := rows[0].key;
      var g := GroupTotal(full, k.0, k.1);
      [Stat((k.0, k.1, ProtocolName(k.2)), rows[0].count, Percent(rows[0].count, g))] + ShareRows(rows[1..], full)
  }

  /** Protocol share per pair: groupby(src, dst, proto).size(), each protocol
      shown by its name, with its percentage within its (src, dst) group.
      Empty input gives the empty table. */
  function ProtocolShares(rs: seq<PacketRecord>): (s: seq<Stat<(Addr, Addr, string)>>)
    ensures s == [] <==> rs == []
    ensures Bounded(s, |rs|)
  {
    if rs == [] then []
    else
      var triples := TripleColumn(rs);
      var t := Tally(triples);
      TallyBounded(triples);
      assert triples[0] in Keys(t);
      ShareRowsBounded(t, t, |rs|);
      ShareRows(t, t)
  }

  /** A share never exceeds its group: each percentage lies in (0, 100]. */
  lemma {:induction false} ShareRowsBounded(rows: seq<Row<(Addr, Addr, nat)>>, full: seq<Row<(Addr, Addr, nat)>>, n: nat)
    requires forall r :: r in rows ==> r in full && 1 <= r.count <= n
    ensures Bounded(ShareRows(rows, full), n)
  {
    if rows != [] {
      var s := ShareRows(rows, full);
      assert s[1..] == ShareRows(rows[1..], full);
      assert forall r :: r in rows[1..] ==> r in rows;
      ShareRowsBounded(rows[1..], full, n);
      var k := rows[0].key;
      assert rows[0] in rows;
      var j :| 0 <= j < |full| && full[j] == rows[0];
      PercentBounds(rows[0].count, GroupTotal(full, k.0, k.1));
    }
  }

  /** Sum of the percentages of the rows for the pair (src, dst). */
  function GroupPercentSum(s: seq<Stat<(Addr, Addr, string)>>, src: Addr, dst: Addr): real {
    if s == [] then 0.0
    else (if s[0].key.0 == src && s[0].key.1 == dst then s[0].percentage else 0.0) + GroupPercentSum(s[1..], src, dst)
  }

  lemma {:induction false} ShareRowsGroupSum(rows: seq<Row<(Addr, Addr, nat)>>, full: seq<Row<(Addr, Addr, nat)>>, src: Addr, dst: Addr)
    requires forall i :: 0 <= i < |rows| ==> rows[i] in full && rows[i].count >= 1
    requires GroupTotal(full, src, dst) > 0
    ensures GroupPercentSum(ShareRows(rows, full), src, dst) == Percent(GroupTotal(rows, src, dst), GroupTotal(full, src, dst))
  {
    if rows != [] {
      var s := ShareRows(rows, full);
      assert forall i :: 0 <= i < |rows[1..]| ==> rows[1..][i] == rows[i + 1];
      ShareRowsGroupSum(rows[1..], full, src, dst);
      assert s[1..] == ShareRows(rows[1..], full);
      var g := GroupTotal(full, src, dst);
      var rest := GroupTotal(rows[1..], src, dst);
      if rows[0].key.0 == src && rows[0].key.1 == dst {
        assert GroupTotal(rows, src, dst) == rows[0].count + rest;
        calc {
          GroupPercentSum(s, src, dst);
          s[0].percentage + GroupPercentSum(s[1..], src, dst);
          Percent(rows[0].count, g) + Percent(rest, g);
          { PercentAdd(rows[0].count, rest, g); }
          Percent(rows[0].count + rest, g);
        }
      } else {
        assert GroupTotal(rows, src, dst) == rest;
        assert GroupPercentSum(s, src, dst) == GroupPercentSum(s[1..], src, dst);
      }
    }
  }

  /** Number of triples in ks whose first two components are (src, dst). */
  function CountGroup(ks: seq<(Addr, Addr, nat)>, src: Addr, dst: Addr): nat {
    if ks == [] then 0
    else CountGroup(ks[..|ks| - 1], src, dst) + (if ks[|ks| - 1].0 == src && ks[|ks| - 1].1 == dst then 1 else 0)
  }

  lemma {:induction false} GroupTotalBump(t: seq<Row<(Addr, Addr, nat)>>, x: (Addr, Addr, nat), src: Addr, dst: Addr)
    ensures GroupTotal(Bump(t, x), src, dst) == GroupTotal(t, src, dst) + (if x.0 == src && x.1 == dst then 1 else 0)
  {
    if t != [] && t[0].key != x {
      GroupTotalBump(t[1..], x, src, dst);
      assert Bump(t, x)[1..] == Bump(t[1..], x);
    } else if t != [] {
      assert Bump(t, x)[1..] == t[1..];
    }
  }

  lemma {:induction false} GroupTotalTally(ks: seq<(Addr, Addr, nat)>, src: Addr, dst: Addr)
    ensures GroupTotal(Tally(ks), src, dst) == CountGroup(ks, src, dst)
  {
    if ks != [] {
      var n := |ks| - 1;
      GroupTotalTally(ks[..n], src, dst);
      GroupTotalBump(Tally(ks[..n]), ks[n], src, dst);
    }
  }

  /** A (src, dst) group of the triple column holds exactly the records between src and dst. */
  lemma {:induction false} GroupTotalIsPairCount(rs: seq<PacketRecord>, src: Addr, dst: Addr)
    ensures GroupTotal(Tally(TripleColumn(rs)), src, dst) == Count(PairColumn(rs), (src, dst))
  {
    GroupTotalTally(TripleColumn(rs), src, dst);
    CountGroupColumns(rs, src, dst);
  }

  lemma {:induction false} CountGroupColumns(rs: seq<PacketRecord>, src: Addr, dst: Addr)
    ensures CountGroup(TripleColumn(rs), src, dst) == Count(PairColumn(rs), (src, dst))
  {
    if rs != [] {
      var n := |rs| - 1;
      CountGroupColumns(rs[..n], src, dst);
      assert TripleColumn(rs)[..n] == TripleColumn(rs[..n]);
      assert PairColumn(rs)[..n] == PairColumn(rs[..n]);
    }
  }

  /** For every (source, destination) pair that occurs, the protocol shares of
      that pair add up to 100. */
  lemma ProtocolSharesGroupSum(rs: seq<PacketRecord>, src: Addr, dst: Addr)
    requires (src, dst) in PairColumn(rs)
    ensures GroupPercentSum(ProtocolShares(rs), src, dst) == 100.0
  {
    var triples := TripleColumn(rs);
    var t := Tally(triples);
    var k :| 0 <= k < |rs| && PairColumn(rs)[k] == (src, dst);
    KeysAt(t, triples[k]);
    var i :| 0 <= i < |t| && t[i].key == triples[k];
    assert GroupTotal(t, src, dst) >= t[i].count >= 1;
    ShareRowsGroupSum(t, t, src, dst);
    PercentWhole(GroupTotal(t, src, dst));
  }

  /** Number of records from src to dst whose protocol is shown under the given name. */
  function CountShare(rs: seq<PacketRecord>, src: Addr, dst: Addr, name: string): nat {
    if rs == [] then 0
    else
      var r := rs[|rs| - 1];
      CountShare(rs[..|rs| - 1], src, dst, name) + (if r.src == src && r.dst == dst && ProtocolName(r.proto) == name then 1 else 0)
  }

  lemma {:induction false} CountShareByName(rs: seq<PacketRecord>, src: Addr, dst: Addr, code: nat)
    ensures Count(TripleColumn(rs), (src, dst, code)) == CountShare(rs, src, dst, ProtocolName(code))
  {
    if rs != [] {
      var n := |rs| - 1;
      CountShareByName(rs[..n], src, dst, code);
      assert TripleColumn(rs)[..n] == TripleColumn(rs[..n]);
      ProtocolNameInjective(rs[n].proto, code);
    }
  }

  /** One row of the protocol-share table: its count is the number of records
      of that (source, destination, protocol) and its percentage is that count
      over the number of records between the same source and destination, times 100. */
  lemma ProtocolShareRow(rs: seq<PacketRecord>, i: nat)
    requires i < |ProtocolShares(rs)|
    ensures var st := ProtocolShares(rs)[i];
            var pairCount := Count(PairColumn(rs), (st.key.0, st.key.1));
            && st.count == CountShare(rs, st.key.0, st.key.1, st.key.2) && st.count >= 1
            && pairCount > 0 && st.percentage == Percent(st.count, pairCount)
  {
    var triples := TripleColumn(rs);
    var t := Tally(triples);
    assert ProtocolShares(rs) == ShareRows(t, t);
    var k := t[i].key;
    TallyRow(triples, t[i]);
    CountShareByName(rs, k.0, k.1, k.2);
    GroupTotalIsPairCount(rs, k.0, k.1);
  }

  /** The protocol-share table has one row per (source, destination, protocol)
      occurring in the records, and no key twice. */
  lemma ProtocolSharesKeys(rs: seq<PacketRecord>)
    ensures DistinctKeys(ProtocolShares(rs))
    ensures forall r :: r in rs ==> exists i :: 0 <= i < |ProtocolShares(rs)| && ProtocolShares(rs)[i].key == (r.src, r.dst, ProtocolName(r.proto))
  {
    if rs != [] {
      var triples := TripleColumn(rs);
      var t := Tally(triples);
      var s := ProtocolShares(rs);
      assert s == ShareRows(t, t);
      forall i, j | 0 <= i < j < |s| ensures s[i].key != s[j].key {
        UniqueKeysDistinct(t, i, j);
        ProtocolNameInjective(t[i].key.2, t[j].key.2);
      }
      forall r | r in rs
        ensures exists i :: 0 <= i < |s| && s[i].key == (r.src, r.dst, ProtocolName(r.proto))
      {
        var k :| 0 <= k < |rs| && rs[k] == r;
        assert triples[k] == (r.src, r.dst, r.proto);
        KeysAt(t, triples[k]);
      }
    }
  }

  // ---- The whole analysis ----

  /** The outputs of analyze_packet_data. The protocol_frequency output is the
      Count column of protocolDistribution and is not repeated here. */
  datatype Analysis = Analysis(
    totalBandwidth: nat,
    protocolDistribution: seq<Stat<string>>,
    ipCommunication: seq<Stat<(Addr, Addr)>>,
    protocolShares: seq<Stat<(Addr, Addr, string)>>)

  function AnalyzePacketData(rs: seq<PacketRecord>): (a: Analysis)
    ensures rs == [] ==> a == Analysis(0, [], [], [])
    ensures rs != [] ==> a.protocolDistribution != [] && a.ipCommunication != [] && a.protocolShares != []
  {
    ProtocolDistributionSums(rs);
    IPPairDistributionSums(rs);
    Analysis(TotalBandwidth(rs), ProtocolDistribution(rs), IPPairDistribution(rs), ProtocolShares(rs))
  }
}
