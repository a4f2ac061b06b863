# Network analyser core, modelled in Dafny

This project models the analysis core of a packet-capture analyser (`main.py`).
The analyser reads a finished capture, turns every frame that has an IP layer
into a record, and computes five things from those records:

- the total bandwidth;
- the protocol distribution;
- the IP-pair distribution;
- the protocol share within each IP pair;
- the set of source addresses that look like port scanners.

The model starts after packet dissection. A frame is a value that holds its IP
header fields (if it has an IP layer), its TCP destination port (if it has a TCP
layer) and its length. Statistics are exact: sizes and counts are unbounded
naturals, and percentages are exact reals (`count * 100 / total`), not floats.

Modules, one per component:

- `Decimal` (`decimal.dfy`): decimal rendering of a natural number, with its
  parser. It is used for the `Unknown(n)` label.
- `Protocols` (`protocols.dfy`): `protocol_name`, its inverse, and injectivity.
- `Ingest` (`ingest.dfy`): `extract_packet_data` and
  `extract_packet_data_security`. Each is a loop method proved against a
  recursive specification function.
- `Counting` (`counting.dfy`): group-by-and-count (`value_counts`,
  `groupby(...).size()`) as a counter bumped once per key, and the
  count-descending sort.
- `Aggregate` (`aggregate.dfy`): `analyze_packet_data` and its four tables.
- `PortScan` (`port_scan.dfy`): `detect_port_scanning`. It follows the code's
  two-stage grouping and is proved equal to "distinct ports per source ≥
  threshold".
- `Report` (`report.dfy`): the Mbps/Gbps choice of `format_results_as_html`.
- `Scenario` (`scenario.dfy`): one record capture whose `AnalyzePacketData`
  result a lemma states, and one three-frame capture whose security records and
  flagged sources a lemma states.
- `Wrappers` (`wrappers.dfy`): `Option`.

Where a natural reading of the analyser differs from what the code does, the
model follows the code:

- A record without a TCP layer carries port 0, the same value as a real TCP
  destination port 0. The detector counts that 0 as a distinct port, and it
  cannot tell non-TCP traffic from a TCP probe of port 0. As a result, a
  threshold of 1 or less flags every source that occurs, not only sources that
  have a TCP record.
- The code does not break ties in count order. The model's insertion sort is
  one valid order, and only the non-increasing order is claimed.
- On a capture with no IP frame (an empty capture included) the code fails.
  No record is collected, so the DataFrame has no columns, and `df["size"]`
  raises (main.py:69). The model instead returns a total of 0 and empty tables.
  This is a choice of the model. `Aggregate.AnalyzePacketData` states it.

## Model

| member | source | states |
|---|---|---|
| `Protocols.ProtocolName` | main.py:27-29 | The name is "ICMP", "TCP" or "UDP" exactly when the code is 1, 6 or 17 (both directions). Every other code gets a name of the form `Unknown(...)`. |
| `Protocols.ProtocolCodeOfName` | main.py:27-29 | Reading a protocol name back gives the code it was made from. This covers the fallback `Unknown(n)` text too. |
| `Protocols.ProtocolNameInjective` | main.py:27-29 | Distinct codes get distinct names, so renaming the value_counts index by name never merges two groups. |
| `Decimal.NatToString` | main.py:29 | The f-string rendering of a code is a non-empty string of decimal digits with no leading zero. |
| `Decimal.ParseNatToString` | main.py:29 | Parsing the rendered digits gives back the number. |
| `Ingest.IPFrames` | main.py:46-47 | The positions of the frames that have an IP layer, strictly increasing, covering every such frame and no other frame. |
| `Ingest.Records` | main.py:43-66 | The records of a capture: never more than its frames, and exactly one per frame when every frame has an IP layer. Their full contents are stated by `Ingest.RecordsFollowIPFrames` and `Ingest.RecordsAppend`. |
| `Ingest.RecordsFollowIPFrames` | main.py:46-64 | There is exactly one record per IP frame, in frame order. Record j carries the source, destination and protocol of the j-th IP frame, and that frame's length as its size. |
| `Ingest.RecordsAppend` | main.py:43-66 | Ingesting two captures one after the other gives the concatenation of their records. |
| `Ingest.ExtractPacketData` | main.py:43-66 | The loop that appends one record per IP frame returns exactly the specified record sequence. |
| `Ingest.SecurityRecords` | main.py:92-109 | The security records of a capture: never more than its frames, and one per frame when every frame has an IP layer. Their contents, dst_port included, are stated by `Ingest.SecurityRecordsFollowIPFrames`. |
| `Ingest.SecurityRecordsFollowIPFrames` | main.py:95-107 | One security record per IP frame, in order. Its dst_port is the TCP destination port when the frame has a TCP layer, and 0 otherwise. |
| `Ingest.ExtractPacketDataSecurity` | main.py:92-109 | The loop of the security variant returns exactly the specified record sequence. |
| `Ingest.StripSecurityRecords` | main.py:96-107 | Dropping dst_port from each security record gives the statistics records: both passes see the same rows. |
| `Counting.Bump` | main.py:77 | Counting one more occurrence of x raises x's count by one and leaves every other count unchanged. It adds x to the keys, keeps keys unique and raises the total by one. |
| `Counting.Tally` | main.py:77 | The group table of a column has unique keys, exactly the values that occur, and positive counts. Each count equals the number of occurrences of its key, and the counts sum to the length of the column. |
| `Counting.TallyRow` | main.py:83 | Every row of a group table counts the occurrences of its key, and its key occurs in the column. |
| `Counting.SortByCount` | main.py:73 | The sorted table is in non-increasing count order and is a permutation of its input (same multiset). It keeps the keys, their uniqueness and the count total. |
| `Aggregate.TotalBandwidth` | main.py:69 | The total bandwidth is at least the size of every record, and it is exactly that record's size for a single record. Together with `Aggregate.TotalBandwidthAppend` (additive, 0 for none), this fixes it as the sum of the sizes. |
| `Aggregate.TotalBandwidthAppend` | main.py:69 | The total bandwidth is additive over concatenation of record sequences, starting from 0 for none. |
| `Aggregate.CountByName` | main.py:70-71 | The number of records with a given protocol code equals the number of records whose protocol name is that code's name. |
| `Aggregate.ProtocolDistribution` | main.py:70-81 | The table is empty exactly when there are no records. Every row counts between 1 and the number of records, and its percentage lies in (0, 100]. Row contents, keys and sums: see `ProtocolDistributionRow`, `ProtocolDistributionKeys` and `ProtocolDistributionSums`. |
| `Aggregate.ProtocolDistributionRow` | main.py:70-81 | Each protocol row's count is the number of records with that protocol name (at least 1). Its percentage is count × 100 / number of records. |
| `Aggregate.ProtocolDistributionKeys` | main.py:70-81 | No protocol name appears twice, rows are in non-increasing count order, and every record's protocol has a row. |
| `Aggregate.ProtocolDistributionSums` | main.py:70-81 | The protocol counts sum to the number of records. For a non-empty capture the percentages sum to exactly 100. |
| `Aggregate.IPPairDistribution` | main.py:73-75 | The table is empty exactly when there are no records. Every row counts between 1 and the number of records, and its percentage lies in (0, 100]. Row contents, keys and sums: see `IPPairDistributionRow`, `IPPairDistributionKeys` and `IPPairDistributionSums`. |
| `Aggregate.IPPairDistributionRow` | main.py:73-75 | Each pair row's count is the number of records from that source to that destination (at least 1). Its percentage is count × 100 / sum of all pair counts, which is the number of records. |
| `Aggregate.IPPairDistributionKeys` | main.py:73-75 | No pair appears twice, rows are in non-increasing count order, and every record's pair has a row. |
| `Aggregate.IPPairDistributionSums` | main.py:73-75 | The pair counts sum to the number of records. For a non-empty capture the percentages sum to exactly 100. |
| `Aggregate.GroupTotal` | main.py:88 | The total of a (source, destination) group is at least the count of each of its rows. |
| `Aggregate.ShareRows` | main.py:85-88 | Each share row shows its protocol by name. Its percentage is its count over its (source, destination) group's total, times 100. |
| `Aggregate.GroupTotalIsPairCount` | main.py:83-88 | The total of a (source, destination) group of the (source, destination, protocol) counts is the number of records between that source and destination. |
| `Aggregate.ProtocolShares` | main.py:83-88 | The table is empty exactly when there are no records. Every row counts between 1 and the number of records, and no share exceeds 100 % of its (source, destination) group. Row contents, keys and group sums: see `ProtocolShareRow`, `ProtocolSharesKeys` and `ProtocolSharesGroupSum`. |
| `Aggregate.ProtocolShareRow` | main.py:83-88 | Each share row's count is the number of records with that source, destination and protocol name. Its percentage is that count over the number of records between the same source and destination, times 100. |
| `Aggregate.ProtocolSharesKeys` | main.py:83-85 | No (source, destination, protocol) key appears twice, and every record's key has a row. |
| `Aggregate.ProtocolSharesGroupSum` | main.py:88 | For every (source, destination) pair that occurs, the share percentages of that pair sum to exactly 100. |
| `Aggregate.ShareRowsGroupSum` | main.py:88 | Within one group, the share percentages add up to the group's share of the full group total. |
| `Aggregate.WithPercentSums` | main.py:74 | Attaching percentages keeps the count total. The percentages sum to the total's percentage. |
| `Aggregate.AnalyzePacketData` | main.py:68-90 | No records (a capture with no IP frame) give bandwidth 0 and three empty tables. A non-empty record sequence gives three non-empty tables. |
| `PortScan.GroupsPerSource` | main.py:112-115 | When no (source, port) group is listed twice, the number of groups of a source equals the number of its distinct ports. |
| `PortScan.UniquePortsCount` | main.py:112-115 | The unique_ports value of a source is the number of distinct dst_port values in its records, over all destinations. |
| `PortScan.UniquePortsPerSource` | main.py:112-115 | One row per source that occurs in the records, no source twice. Each row's unique_ports count is the number of distinct dst_port values of that source, over all destinations. |
| `PortScan.DetectPortScanning` | main.py:111-118 | Every flagged address is a source of the records and has at least threshold distinct dst_port values. `PortScan.DetectPortScanningSpec` proves the converse. |
| `PortScan.DetectPortScanningSpec` | main.py:111-118 | A source is flagged if and only if it occurs in the records and has at least threshold distinct dst_port values. The sentinel 0 counts, and destinations are ignored. |
| `PortScan.DetectMonotone` | main.py:117 | Raising the threshold never flags an additional source. |
| `PortScan.DetectLowThreshold` | main.py:117 | A threshold of 1 or less flags exactly the sources present. |
| `PortScan.DetectIgnoresDestination` | main.py:112 | Changing the destinations (or anything but source and port) of the records never changes the flagged set. |
| `Report.BandwidthDisplay` | main.py:127-132 | The unit is Mbps exactly when the total is below 10^9 bytes, with divisor 10^6. Otherwise it is Gbps, with divisor 10^9. The shown Mbps value stays below 1000, and a shown Gbps value is at least 1. |
| `Scenario.ScenarioAnalysis` | main.py:68-90 | Records (A→B, TCP, 100), (A→B, TCP, 200) and (A→C, UDP, 50) give bandwidth 350 and the protocol table TCP 2 (200/3 %), UDP 1 (100/3 %). The pair table is A→B 2 (200/3 %), A→C 1 (100/3 %), and each pair's single protocol has a 100 % share. |
| `Scenario.ScenarioSentinelPort` | main.py:102-117 | One TCP frame to port 80 and one UDP frame from the same source give that source two distinct ports (80 and the sentinel 0). It is flagged at threshold 2 but not at 3. |

## Left out

- `read_pcap` (main.py:32-41): file I/O and `sys.exit` on a missing or unreadable capture. The model takes the decoded frames as a parameter.
- Packet dissection (scapy's `IP in packet`, `packet[TCP].dport`, `len(packet)`): a frame arrives already split into these fields.
- Reverse DNS (main.py:54-62): a network call whose result, or the fallback "Unknown", only fills the domain columns. No statistic reads those columns, so records carry no domain fields.
- tqdm progress bars and all `logging` output, including the log line at main.py:191, which prints the byte total with the label "Mbps" without converting it.
- `detect_port_scanning` only logs the flagged addresses (main.py:120-121). The model returns them as a set.
- The `protocol_frequency` output (main.py:77-78) is the Count column of the protocol distribution and is not repeated as a separate table.
- CSV output, `to_html` rendering, the float division and `:.2f` formatting of the bandwidth, and all matplotlib plotting (main.py:128-215).
- Report.BandwidthDisplay: models only the unit and the divisor, not the floating-point quotient or its rendering.
- Directory creation (main.py:15-16) and command-line parsing (main.py:218-237). The default threshold of 100 is the constant `PortScan.DefaultPortScanThreshold`.
- Aggregate.ProtocolShares: rows are in first-occurrence order, while pandas' `groupby` sorts them by (source, destination, protocol). Only the row contents are specified.
- Aggregate.ProtocolDistribution and Aggregate.IPPairDistribution: only the non-increasing count order is claimed. The order of equal counts is one insertion-sort choice, because pandas leaves it unspecified.
- Fixed-width fields (the 8-bit protocol number, the 16-bit port) are unbounded naturals. No arithmetic is done on them, so no wrap-around can occur.
- Empty record sequence: on a capture with no IP frame the code raises, in `df["size"]` (main.py:69) and in the groupby on missing columns (main.py:112). The model defines the result as zero and empty tables, and an empty flagged set.
- Floating point: pandas computes the percentages (main.py:70, main.py:74, main.py:88) as float64. The model uses exact reals, so "the percentages sum to exactly 100" holds for the model. The program reaches 100 only within rounding.
- public/script.js, server.js and playground.py: browser UI, HTTP server and scratch code, outside the analysis core.
