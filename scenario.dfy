/** A worked capture: A sends two TCP packets (100 and 200 bytes) to B and one
    UDP packet (50 bytes) to C. */
module Scenario {
  import opened Ingest
  import opened Aggregate
  import opened Counting
  import Protocols
  import PortScan
  import opened Wrappers

  const Capture: seq<PacketRecord> := [
    PacketRecord("A", "B", 6, 100),
    PacketRecord("A", "B", 6, 200),
    PacketRecord("A", "C", 17, 50)
  ]

  lemma ScenarioBandwidth()
    ensures TotalBandwidth(Capture) == 350
  {
    assert Capture[..2][..1] == Capture[..1] && Capture[..1][..0] == [];
    assert TotalBandwidth(Capture[..1]) == 100;
    assert TotalBandwidth(Capture[..2]) == 300;
  }

  lemma ScenarioColumns()
    ensures ProtocolColumn(Capture) == [6, 6, 17]
    ensures PairColumn(Capture) == [("A", "B"), ("A", "B"), ("A", "C")]
    ensures TripleColumn(Capture) == [("A", "B", 6), ("A", "B", 6), ("A", "C", 17)]
  {
    assert Capture[..2][..1] == Capture[..1] && Capture[..1][..0] == [];
  }

  /** Tallying x, x, y gives x twice and y once. */
  lemma TallyOfThree<K(!new)>(x: K, y: K)
    requires x != y
    ensures Tally([x, x, y]) == [Row(x, 2), Row(y, 1)]
  {
    var column := [x, x, y];
    assert column[..2] == [x, x] && column[..2][..1] == [x] && column[..1][..0] == [];
    assert Tally(column[..1]) == Bump([], x) == [Row(x, 1)];
    assert Tally(column[..2]) == Bump([Row(x, 1)], x) == [Row(x, 2)];
    assert Bump([Row(x, 2)], y) == [Row(x, 2)] + Bump([], y);
  }

  lemma SortedTwo<K>(x: K, y: K)
    ensures SortByCount([Row(x, 2), Row(y, 1)]) == [Row(x, 2), Row(y, 1)]
  {
    var rows := [Row(x, 2), Row(y, 1)];
    assert rows[1..] == [Row(y, 1)] && rows[1..][1..] == [];
  }

  lemma ScenarioPercents()
    ensures Percent(2, 3) == 200.0 / 3.0 && Percent(1, 3) == 100.0 / 3.0
    ensures Percent(2, 2) == 100.0 && Percent(1, 1) == 100.0
  {
  }

  /** Attaching percentages to a two-row table. */
  lemma WithPercentTwo<K, L>(x: Row<K>, y: Row<K>, rename: K -> L, total: nat)
    requires total > 0
    ensures WithPercent([x, y], rename, total)
         == [Stat(rename(x.key), x.count, Percent(x.count, total)), Stat(rename(y.key), y.count, Percent(y.count, total))]
  {
    var s := WithPercent([x, y], rename, total);
    assert |s| == 2;
  }

  lemma ScenarioProtocolTable()
    ensures SortByCount(Tally(ProtocolColumn(Capture))) == [Row(6, 2), Row(17, 1)]
  {
    ScenarioColumns();
    TallyOfThree<nat>(6, 17);
    SortedTwo<nat>(6, 17);
  }

  lemma ScenarioProtocols()
    ensures ProtocolDistribution(Capture) == [Stat("TCP", 2, 200.0 / 3.0), Stat("UDP", 1, 100.0 / 3.0)]
  {
    ScenarioProtocolTable();
    WithPercentTwo<nat, string>(Row(6, 2), Row(17, 1), Protocols.ProtocolName, 3);
    ScenarioPercents();
  }

  lemma ScenarioPairTable()
    ensures SortByCount(Tally(PairColumn(Capture))) == [Row(("A", "B"), 2), Row(("A", "C"), 1)]
  {
    var ab: (Addr, Addr), ac: (Addr, Addr) := ("A", "B"), ("A", "C");
    ScenarioColumns();
    TallyOfThree(ab, ac);
    SortedTwo(ab, ac);
  }

  lemma ScenarioPairs()
    ensures IPPairDistribution(Capture) == [Stat(("A", "B"), 2, 200.0 / 3.0), Stat(("A", "C"), 1, 100.0 / 3.0)]
  {
    var ab: (Addr, Addr), ac: (Addr, Addr) := ("A", "B"), ("A", "C");
    var pairs: seq<Row<(Addr, Addr)>> := [Row(ab, 2), Row(ac, 1)];
    ScenarioPairTable();
    assert SumCounts(pairs) == 3 by {
      assert pairs[1..] == [Row(ac, 1)] && pairs[1..][1..] == [];
      assert SumCounts(pairs[1..]) == 1;
    }
    WithPercentTwo(Row(ab, 2), Row(ac, 1), PairKey, 3);
    ScenarioPercents();
  }

  lemma ScenarioShareTable()
    ensures Tally(TripleColumn(Capture)) == [Row(("A", "B", 6), 2), Row(("A", "C", 17), 1)]
  {
    var abt: (Addr, Addr, nat), acu: (Addr, Addr, nat) := ("A", "B", 6), ("A", "C", 17);
    ScenarioColumns();
    TallyOfThree(abt, acu);
  }

  lemma ScenarioGroups()
    ensures GroupTotal([Row(("A", "B", 6), 2), Row(("A", "C", 17), 1)], "A", "B") == 2
    ensures GroupTotal([Row(("A", "B", 6), 2), Row(("A", "C", 17), 1)], "A", "C") == 1
  {
    var triples: seq<Row<(Addr, Addr, nat)>> := [Row(("A", "B", 6), 2), Row(("A", "C", 17), 1)];
    assert triples[1..] == [Row(("A", "C", 17), 1)] && triples[1..][1..] == [];
    assert GroupTotal(triples[1..], "A", "B") == 0;
    assert GroupTotal(triples[1..], "A", "C") == 1;
  }

  /** The share rows of a two-row table whose group totals are gx and gy. */
  lemma ShareRowsTwo(x: Row<(Addr, Addr, nat)>, y: Row<(Addr, Addr, nat)>, gx: nat, gy: nat)
    requires x.count >= 1 && y.count >= 1
    requires GroupTotal([x, y], x.key.0, x.key.1) == gx && GroupTotal([x, y], y.key.0, y.key.1) == gy
    requires gx > 0 && gy > 0
    ensures ShareRows([x, y], [x, y])
         == [Stat((x.key.0, x.key.1, Protocols.ProtocolName(x.key.2)), x.count, Percent(x.count, gx)),
             Stat((y.key.0, y.key.1, Protocols.ProtocolName(y.key.2)), y.count, Percent(y.count, gy))]
  {
    var full := [x, y];
    assert full[0] == x && full[1] == y;
    var s := ShareRows(full, full);
    assert |s| == 2;
  }

  lemma ScenarioShares()
    ensures ProtocolShares(Capture) == [Stat(("A", "B", "TCP"), 2, 100.0), Stat(("A", "C", "UDP"), 1, 100.0)]
  {
    var abt: (Addr, Addr, nat), acu: (Addr, Addr, nat) := ("A", "B", 6), ("A", "C", 17);
    ScenarioShareTable();
    ScenarioGroups();
    ShareRowsTwo(Row(abt, 2), Row(acu, 1), 2, 1);
    ScenarioPercents();
  }

  /** The whole analysis of the worked capture. */
  lemma ScenarioAnalysis()
    ensures AnalyzePacketData(Capture) == Analysis(
      350,
      [Stat("TCP", 2, 200.0 / 3.0), Stat("UDP", 1, 100.0 / 3.0)],
      [Stat(("A", "B"), 2, 200.0 / 3.0), Stat(("A", "C"), 1, 100.0 / 3.0)],
      [Stat(("A", "B", "TCP"), 2, 100.0), Stat(("A", "C", "UDP"), 1, 100.0)])
  {
    ScenarioBandwidth();
    ScenarioProtocols();
    ScenarioPairs();
    ScenarioShares();
  }

  /** A sends one TCP segment to port 80 on B and one UDP datagram to C; a
      third frame has no IP layer. The UDP record carries port 0, so A has
      two distinct ports and is flagged at threshold 2, though it touched one
      TCP port only. */
  const ScanFrames: seq<Frame> := [
    Frame(Some(IPLayer("A", "B", 6)), Some(80), 60),
    Frame(Some(IPLayer("A", "C", 17)), None, 60),
    Frame(None, None, 42)
  ]

  const ScanRecords: seq<SecurityRecord> := [
    SecurityRecord("A", "B", 6, 60, 80),
    SecurityRecord("A", "C", 17, 60, 0)
  ]

  lemma ScenarioScanRecords()
    ensures SecurityRecords(ScanFrames) == ScanRecords
  {
    assert ScanFrames[..2][..1] == ScanFrames[..1] && ScanFrames[..1][..0] == [];
    assert SecurityRecords(ScanFrames[..1]) == ScanRecords[..1];
    assert SecurityRecords(ScanFrames[..2]) == ScanRecords;
  }

  lemma ScenarioScanPorts()
    ensures PortScan.Sources(ScanRecords) == {"A"}
    ensures PortScan.PortsOf(ScanRecords, "A") == {80, 0}
  {
    assert ScanRecords[0] in ScanRecords && ScanRecords[1] in ScanRecords;
  }

  /** A sole source with exactly two distinct ports is flagged at threshold 2 and not at 3. */
  lemma DetectTwoPorts(rs: seq<SecurityRecord>, src: Addr)
    requires PortScan.Sources(rs) == {src}
    requires |PortScan.PortsOf(rs, src)| == 2
    ensures PortScan.DetectPortScanning(rs, 2) == {src}
    ensures PortScan.DetectPortScanning(rs, 3) == {}
  {
    forall a ensures a in PortScan.DetectPortScanning(rs, 2) <==> a == src {
      PortScan.DetectPortScanningSpec(rs, 2, a);
    }
    forall a ensures a !in PortScan.DetectPortScanning(rs, 3) {
      PortScan.DetectPortScanningSpec(rs, 3, a);
    }
  }

  lemma ScenarioSentinelPort()
    ensures PortScan.DetectPortScanning(SecurityRecords(ScanFrames), 2) == {"A"}
    ensures PortScan.DetectPortScanning(SecurityRecords(ScanFrames), 3) == {}
  {
    ScenarioScanRecords();
    ScenarioScanPorts();
    assert |PortScan.PortsOf(ScanRecords, "A")| == 2;
    DetectTwoPorts(ScanRecords, "A");
  }
}
