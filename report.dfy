/** The unit choice of format_results_as_html: a total below 10^9 bytes is
    shown in Mbps (divided by 10^6), anything else in Gbps (divided by 10^9).
    The division itself and the two-decimal rendering are not modelled. */
module Report {

  datatype BandwidthUnit = Mbps | Gbps

  datatype Display = Display(unit: BandwidthUnit, divisor: nat)

  const Mega: nat := 1_000_000
  const Giga: nat := 1_000_000_000

  function BandwidthDisplay(totalBytes: nat): (d: Display)
    ensures d.unit == Mbps <==> totalBytes < Giga
    ensures d.divisor == (if d.unit == Mbps then Mega else Giga)
    ensures d.unit == Mbps ==> (totalBytes as real) / (d.divisor as real) < 1000.0
    ensures d.unit == Gbps ==> (totalBytes as real) / (d.divisor as real) >= 1.0
  {
    if totalBytes < Giga then Display(Mbps, Mega) else Display(Gbps, Giga)
  }
}
