/** The packet ingestor of main.py: extract_packet_data and
    extract_packet_data_security turn decoded frames into records, dropping
    every frame that has no IP layer. The dissection of raw bytes into layers
    happens before this model starts: a frame arrives as its IP header fields
    (if it has an IP layer), its TCP destination port (if it has a TCP layer)
    and its length. */
module Ingest {
  import opened Wrappers

  type Addr = string

  datatype IPLayer = IPLayer(src: Addr, dst: Addr, proto: nat)

  datatype Frame = Frame(ip: Option<IPLayer>, tcpDstPort: Option<nat>, length: nat)

  /** One row of the statistics input (the domain-name columns are not modelled). */
  datatype PacketRecord = PacketRecord(src: Addr, dst: Addr, proto: nat, size: nat)

  /** One row of the port-scan input. dstPort is 0 when the frame has no TCP layer. */
  datatype SecurityRecord = SecurityRecord(src: Addr, dst: Addr, proto: nat, size: nat, dstPort: nat)

  const NoPort: nat := 0

  predicate HasIP(f: Frame) {
    f.ip.Some?
  }

  function RecordOf(f: Frame): PacketRecord
    requires HasIP(f)
  {
    PacketRecord(f.ip.value.src, f.ip.value.dst, f.ip.value.proto, f.length)
  }

  function DstPortOf(f: Frame): nat {
    match f.tcpDstPort
    case Some(port) => port
    case None => NoPort
  }

  function SecurityRecordOf(f: Frame): SecurityRecord
    requires HasIP(f)
  {
    SecurityRecord(f.ip.value.src, f.ip.value.dst, f.ip.value.proto, f.length, DstPortOf(f))
  }

  /** Every frame of the capture has an IP layer. */
  predicate AllIP(frames: seq<Frame>) {
    frames == [] || (HasIP(frames[|frames| - 1]) && AllIP(frames[..|frames| - 1]))
  }

  /** No frame of the capture has an IP layer. */
  predicate NoIP(frames: seq<Frame>) {
    frames == [] || (!HasIP(frames[|frames| - 1]) && NoIP(frames[..|frames| - 1]))
  }

  /** What extract_packet_data collects, defined frame by frame from the back. */
  function Records(frames: seq<Frame>): (rs: seq<PacketRecord>)
    ensures |rs| <= |frames|
    ensures AllIP(frames) ==> |rs| == |frames|
    ensures NoIP(frames) ==> rs == []
  {
    if frames == [] then []
    else
      var before := Records(frames[..|frames| - 1]);
      var last := frames[|frames| - 1];
      if HasIP(last) then before + [RecordOf(last)] else before
  }

  /** What extract_packet_data_security collects. */
  function SecurityRecords(frames: seq<Frame>): (rs: seq<SecurityRecord>)
    ensures |rs| <= |frames|
    ensures AllIP(frames) ==> |rs| == |frames|
    ensures NoIP(frames) ==> rs == []
  {
    if frames == [] then []
    else
      var before := SecurityRecords(frames[..|frames| - 1]);
      var last := frames[|frames| - 1];
      if HasIP(last) then before + [SecurityRecordOf(last)] else before
  }

  /** The positions of the frames that have an IP layer, in increasing order. */
  function IPFrames(frames: seq<Frame>): (idx: seq<nat>)
    ensures forall j :: 0 <= j < |idx| ==> idx[j] < |frames| && HasIP(frames[idx[j]])
    ensures forall j, k :: 0 <= j < k < |idx| ==> idx[j] < idx[k]
    ensures forall i :: 0 <= i < |frames| && HasIP(frames[i]) ==> i in idx
  {
    if frames == [] then []
    else
      var n := |frames| - 1;
      var before := IPFrames(frames[..n]);
      assert forall j :: 0 <= j < |before| ==> frames[before[j]] == frames[..n][before[j]];
      assert forall i :: 0 <= i < n ==> frames[i] == frames[..n][i];
      if HasIP(frames[n]) then before + [n] else before
  }

  /** Ingestion yields exactly one record per IP frame, in frame order, each
      carrying that frame's addresses, protocol and length. */
  lemma {:induction false} RecordsFollowIPFrames(frames: seq<Frame>)
    ensures |Records(frames)| == |IPFrames(frames)|
    ensures forall j :: 0 <= j < |Records(frames)| ==>
              Records(frames)[j] == RecordOf(frames[IPFrames(frames)[j]])
  {
    if frames != [] {
      var n := |frames| - 1;
      var pre := frames[..n];
      RecordsFollowIPFrames(pre);
      var idx := IPFrames(pre);
      var before := Records(pre);
      var rs := Records(frames);
      var all := IPFrames(frames);
      if HasIP(frames[n]) {
        assert rs == before + [RecordOf(frames[n])];
        assert all == idx + [n];
      } else {
        assert rs == before;
        assert all == idx;
      }
      forall j | 0 <= j < |rs| ensures rs[j] == RecordOf(frames[all[j]]) {
        if j < |before| {
          assert rs[j] == before[j] && all[j] == idx[j];
          assert frames[idx[j]] == pre[idx[j]];
        }
      }
    }
  }

  /** The security variant yields the same rows, each with the TCP destination
      port when the frame has a TCP layer and 0 otherwise. */
  lemma {:induction false} SecurityRecordsFollowIPFrames(frames: seq<Frame>)
    ensures |SecurityRecords(frames)| == |IPFrames(frames)|
    ensures forall j :: 0 <= j < |SecurityRecords(frames)| ==>
              var f := frames[IPFrames(frames)[j]];
              var r := SecurityRecords(frames)[j];
              && r == SecurityRecordOf(f)
              && (f.tcpDstPort.Some? ==> r.dstPort == f.tcpDstPort.value)
              && (f.tcpDstPort.None? ==> r.dstPort == 0)
  {
    if frames != [] {
      var n := |frames| - 1;
      var pre := frames[..n];
      SecurityRecordsFollowIPFrames(pre);
      var idx := IPFrames(pre);
      var before := SecurityRecords(pre);
      var rs := SecurityRecords(frames);
      var all := IPFrames(frames);
      if HasIP(frames[n]) {
        assert rs == before + [SecurityRecordOf(frames[n])];
        assert all == idx + [n];
      } else {
        assert rs == before;
        assert all == idx;
      }
      forall j | 0 <= j < |rs| ensures rs[j] == SecurityRecordOf(frames[all[j]]) {
        if j < |before| {
          assert rs[j] == before[j] && all[j] == idx[j];
          assert frames[idx[j]] == pre[idx[j]];
        }
      }
    }
  }

  /** Ingestion distributes over concatenation of captures. */
  lemma {:induction false} RecordsAppend(a: seq<Frame>, b: seq<Frame>)
    ensures Records(a + b) == Records(a) + Records(b)
  {
    if b != [] {
      var n := |b| - 1;
      assert (a + b)[..|a + b| - 1] == a + b[..n];
      RecordsAppend(a, b[..n]);
    } else {
      assert a + b == a;
    }
  }

  function Strip(r: SecurityRecord): PacketRecord {
    PacketRecord(r.src, r.dst, r.proto, r.size)
  }

  /** Forgetting the port of every security record gives the statistics records. */
  lemma {:induction false} StripSecurityRecords(frames: seq<Frame>)
    ensures |SecurityRecords(frames)| == |Records(frames)|
    ensures forall j :: 0 <= j < |Records(frames)| ==> Strip(SecurityRecords(frames)[j]) == Records(frames)[j]
  {
    if frames != [] {
      StripSecurityRecords(frames[..|frames| - 1]);
    }
  }

  /** extract_packet_data: one pass over the frames, appending a record per IP frame. */
  method ExtractPacketData(frames: seq<Frame>) returns (records: seq<PacketRecord>)
    ensures records == Records(frames)
  {
    records := [];
    for i := 0 to |frames|
      invariant records == Records(frames[..i])
    {
      assert frames[..i + 1][..i] == frames[..i];
      var frame := frames[i];
      if frame.ip.Some? {
        var srcIp := frame.ip.value.src;
        var dstIp := frame.ip.value.dst;
        var protocol := frame.ip.value.proto;
        var size := frame.length;
        records := records + [PacketRecord(srcIp, dstIp, protocol, size)];
      }
    }
    assert frames[..|frames|] == frames;
  }

  /** extract_packet_data_security: the same pass, also keeping the TCP
      destination port, or 0 for a frame without a TCP layer. */
  method ExtractPacketDataSecurity(frames: seq<Frame>) returns (records: seq<SecurityRecord>)
    ensures records == SecurityRecords(frames)
  {
    records := [];
    for i := 0 to |frames|
      invariant records == SecurityRecords(frames[..i])
    {
      assert frames[..i + 1][..i] == frames[..i];
      var frame := frames[i];
      if frame.ip.Some? {
        var srcIp := frame.ip.value.src;
        var dstIp := frame.ip.value.dst;
        var protocol := frame.ip.value.proto;
        var size := frame.length;
        var dstPort := 0;
        if frame.tcpDstPort.Some? {
          dstPort := frame.tcpDstPort.value;
        }
        records := records + [SecurityRecord(srcIp, dstIp, protocol, size, dstPort)];
      }
    }
    assert frames[..|frames|] == frames;
  }
}
