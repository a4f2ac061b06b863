/** Naming of IP protocol numbers, as main.py's protocol_name does it. */
module Protocols {
  import opened Wrappers
  import Decimal

  const Icmp: nat := 1
  const Tcp: nat := 6
  const Udp: nat := 17

  /** The closed lookup {1: "ICMP", 6: "TCP", 17: "UDP"} with the fallback
      "Unknown(<code>)" for every other code. */
  function ProtocolName(code: nat): (name: string)
    ensures name == "ICMP" <==> code == Icmp
    ensures name == "TCP" <==> code == Tcp
    ensures name == "UDP" <==> code == Udp
    ensures code !in {Icmp, Tcp, Udp} ==> 10 <= |name| && name[..8] == "Unknown(" && name[|name| - 1] == ')'
    ensures code !in {Icmp, Tcp, Udp} ==> name[8..|name| - 1] == Decimal.NatToString(code)
  {
    if code == Icmp then "ICMP"
    else if code == Tcp then "TCP"
    else if code == Udp then "UDP"
    else "Unknown(" + Decimal.NatToString(code) + ")"
  }

  /** Reads a protocol label back as its code; None for text no code is named by. */
  function ProtocolCode(name: string): Option<nat> {
    if name == "ICMP" then Some(Icmp)
    else if name == "TCP" then Some(Tcp)
    else if name == "UDP" then Some(Udp)
    else if 10 <= |name| && name[..8] == "Unknown(" && name[|name| - 1] == ')'
            && Decimal.AllDigits(name[8..|name| - 1])
    then Some(Decimal.ParseNat(name[8..|name| - 1]))
    else None
  }

  lemma ProtocolCodeOfName(code: nat)
    ensures ProtocolCode(ProtocolName(code)) == Some(code)
  {
    if code !in {Icmp, Tcp, Udp} {
      var digits := Decimal.NatToString(code);
      var name := "Unknown(" + digits + ")";
      assert name[8..|name| - 1] == digits;
      Decimal.ParseNatToString(code);
    }
  }

  /** Distinct codes get distinct names, so grouping by code and grouping by
      name give the same groups. */
  lemma ProtocolNameInjective(a: nat, b: nat)
    ensures ProtocolName(a) == ProtocolName(b) ==> a == b
  {
    ProtocolCodeOfName(a);
    ProtocolCodeOfName(b);
  }
}
