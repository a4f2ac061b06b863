/** The port-scan detector of main.py (detect_port_scanning): a source is
    flagged when the number of distinct destination ports it sent to, over all
    destinations together, reaches the threshold. Records without a TCP layer
    carry port 0, and that 0 counts as one more distinct port. */
module PortScan {
  import opened Counting
  import opened Ingest

  /** DEFAULT_PORT_SCAN_THRESHOLD, also the fallback for a malformed command-line value. */
  const DefaultPortScanThreshold: int := 100

  function SourcePortColumn(rs: seq<SecurityRecord>): (ps: seq<(Addr, nat)>)
    ensures |ps| == |rs|
    ensures forall i :: 0 <= i < |rs| ==> ps[i] == (rs[i].src, rs[i].dstPort)
  {
    if rs == [] then [] else SourcePortColumn(rs[..|rs| - 1]) + [(rs[|rs| - 1].src, rs[|rs| - 1].dstPort)]
  }

  /** The source of every (source, port) group, one entry per group. */
  function SourceOfGroups(t: seq<Row<(Addr, nat)>>): (srcs: seq<Addr>)
    ensures |srcs| == |t|
  {
    if t == [] then [] else [t[0].key.0] + SourceOfGroups(t[1..])
  }

  /** groupby(['Source IP', 'dst_port']).size() followed by
      groupby('Source IP').size(): per source, the number of its (source, port) groups. */
  function UniquePortsPerSource(rs: seq<SecurityRecord>): (u: seq<Row<Addr>>)
    ensures UniqueKeys(u)
    ensures Keys(u) == Sources(rs)
    ensures forall i :: 0 <= i < |u| ==> u[i].key in Sources(rs) && u[i].count == |PortsOf(rs, u[i].key)|
  {
    UniquePortsRows(rs);
    Tally(SourceOfGroups(Tally(SourcePortColumn(rs))))
  }

  /** The sources whose unique-port count is at least the threshold. */
  function DetectPortScanning(rs: seq<SecurityRecord>, threshold: int): (flagged: set<Addr>)
    ensures flagged <= Sources(rs)
    ensures forall src :: src in flagged ==> |PortsOf(rs, src)| >= threshold
  {
    set r | r in UniquePortsPerSource(rs) && r.count >= threshold :: r.key
  }

  // ---- Specification ----

  function Sources(rs: seq<SecurityRecord>): set<Addr> {
    set r | r in rs :: r.src
  }

  /** The distinct destination ports src sent to, whatever the destination. */
  function PortsOf(rs: seq<SecurityRecord>, src: Addr): set<nat> {
    set r | r in rs && r.src == src :: r.dstPort
  }

  /** The ports of the groups of t whose source is src. */
  function PortsIn(t: seq<Row<(Addr, nat)>>, src: Addr): set<nat> {
    if t == [] then {} else (if t[0].key.0 == src then {t[0].key.1} else {}) + PortsIn(t[1..], src)
  }

  lemma {:induction false} PortsInKeys(t: seq<Row<(Addr, nat)>>, src: Addr, port: nat)
    ensures port in PortsIn(t, src) <==> (src, port) in Keys(t)
  {
    if t != [] {
      PortsInKeys(t[1..], src, port);
    }
  }

  /** With no (source, port) group listed twice, counting a source's groups
      counts its distinct ports. */
  lemma {:induction false} GroupsPerSource(t: seq<Row<(Addr, nat)>>, src: Addr)
    requires UniqueKeys(t)
    ensures Count(SourceOfGroups(t), src) == |PortsIn(t, src)|
  {
    if t != [] {
      GroupsPerSource(t[1..], src);
      CountAppend([t[0].key.0], SourceOfGroups(t[1..]), src);
      assert Count([t[0].key.0], src) == (if t[0].key.0 == src then 1 else 0) by {
        assert [t[0].key.0][..0] == [];
      }
      if t[0].key.0 == src {
        PortsInKeys(t[1..], src, t[0].key.1);
        assert t[0].key == (src, t[0].key.1);
      }
    }
  }

  lemma PortsInColumn(rs: seq<SecurityRecord>, src: Addr)
    ensures PortsIn(Tally(SourcePortColumn(rs)), src) == PortsOf(rs, src)
  {
    var col := SourcePortColumn(rs);
    var t := Tally(col);
    forall port | port in PortsIn(t, src) ensures port in PortsOf(rs, src) {
      PortsInKeys(t, src, port);
      var i :| 0 <= i < |col| && col[i] == (src, port);
      assert rs[i] in rs;
    }
    forall port | port in PortsOf(rs, src) ensures port in PortsIn(t, src) {
      var r :| r in rs && r.src == src && r.dstPort == port;
      var i :| 0 <= i < |rs| && rs[i] == r;
      assert col[i] == (src, port);
      PortsInKeys(t, src, port);
    }
  }

  /** The number detect_port_scanning compares with the threshold is the
      number of distinct destination ports of the source. */
  lemma UniquePortsCount(rs: seq<SecurityRecord>, src: Addr)
    ensures Count(SourceOfGroups(Tally(SourcePortColumn(rs))), src) == |PortsOf(rs, src)|
  {
    GroupsPerSource(Tally(SourcePortColumn(rs)), src);
    PortsInColumn(rs, src);
  }

  /** A source occurs exactly when it has at least one port (0 included). */
  lemma SourcesHavePorts(rs: seq<SecurityRecord>, src: Addr)
    ensures src in Sources(rs) <==> |PortsOf(rs, src)| >= 1
  {
    if src in Sources(rs) {
      var r :| r in rs && r.src == src;
      assert r.dstPort in PortsOf(rs, src);
    }
    if |PortsOf(rs, src)| >= 1 {
      var port :| port in PortsOf(rs, src);
    }
  }

  /** The per-source rows of the second groupby: one per source that occurs,
      each counting that source's distinct ports. */
  lemma UniquePortsRows(rs: seq<SecurityRecord>)
    ensures Keys(Tally(SourceOfGroups(Tally(SourcePortColumn(rs))))) == Sources(rs)
    ensures var u := Tally(SourceOfGroups(Tally(SourcePortColumn(rs))));
            forall i :: 0 <= i < |u| ==> u[i].key in Sources(rs) && u[i].count == |PortsOf(rs, u[i].key)|
  {
    var firsts := SourceOfGroups(Tally(SourcePortColumn(rs)));
    var u := Tally(firsts);
    forall src ensures src in firsts <==> src in Sources(rs) {
      UniquePortsCount(rs, src);
      CountInSeq(firsts, src);
      SourcesHavePorts(rs, src);
    }
    assert Keys(u) == set k | k in firsts;
    forall i | 0 <= i < |u| ensures u[i].key in Sources(rs) && u[i].count == |PortsOf(rs, u[i].key)| {
      TallyRow(firsts, u[i]);
      UniquePortsCount(rs, u[i].key);
    }
  }

  /** A source is flagged exactly when it occurs in the records and its number
      of distinct destination ports (the no-TCP 0 included, destinations
      ignored) is at least the threshold. */
  lemma DetectPortScanningSpec(rs: seq<SecurityRecord>, threshold: int, src: Addr)
    ensures src in DetectPortScanning(rs, threshold) <==> src in Sources(rs) && |PortsOf(rs, src)| >= threshold
  {
    var firsts := SourceOfGroups(Tally(SourcePortColumn(rs)));
    var u := Tally(firsts);
    UniquePortsCount(rs, src);
    CountInSeq(firsts, src);
    SourcesHavePorts(rs, src);
    if src in DetectPortScanning(rs, threshold) {
      var r :| r in u && r.count >= threshold && r.key == src;
      TallyRow(firsts, r);
    }
    if src in Sources(rs) && |PortsOf(rs, src)| >= threshold {
      KeysAt(u, src);
      var i :| 0 <= i < |u| && u[i].key == src;
      CountOfRow(u, i);
      assert u[i] in u;
    }
  }

  /** Raising the threshold never flags an additional source. */
  lemma DetectMonotone(rs: seq<SecurityRecord>, lower: int, higher: int)
    requires lower <= higher
    ensures DetectPortScanning(rs, higher) <= DetectPortScanning(rs, lower)
  {
    forall src | src in DetectPortScanning(rs, higher) ensures src in DetectPortScanning(rs, lower) {
      DetectPortScanningSpec(rs, higher, src);
      DetectPortScanningSpec(rs, lower, src);
    }
  }

  /** A threshold of 1 or less flags every source present. */
  lemma DetectLowThreshold(rs: seq<SecurityRecord>, threshold: int)
    requires threshold <= 1
    ensures DetectPortScanning(rs, threshold) == Sources(rs)
  {
    forall src | src in Sources(rs) ensures src in DetectPortScanning(rs, threshold) {
      DetectPortScanningSpec(rs, threshold, src);
      var r :| r in rs && r.src == src;
      assert r.dstPort in PortsOf(rs, src);
    }
    forall src | src in DetectPortScanning(rs, threshold) ensures src in Sources(rs) {
      DetectPortScanningSpec(rs, threshold, src);
    }
  }

  /** Only the source and the port of each record matter: changing the
      destinations (or protocols or sizes) never changes the verdict. */
  lemma DetectIgnoresDestination(a: seq<SecurityRecord>, b: seq<SecurityRecord>, threshold: int)
    requires |a| == |b|
    requires forall i :: 0 <= i < |a| ==> a[i].src == b[i].src && a[i].dstPort == b[i].dstPort
    ensures DetectPortScanning(a, threshold) == DetectPortScanning(b, threshold)
  {
    assert SourcePortColumn(a) == SourcePortColumn(b);
  }
}
