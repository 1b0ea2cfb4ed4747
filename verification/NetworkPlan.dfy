// internal/model/model.go: the network plan, with addresses as text.
module NetworkPlan {
  import opened Wrappers
  import opened Addressing

  // The modes of the source: "dhcp", "static", "none", and any other text.
  datatype Mode = Dhcp | Static | Off | Unknown

  datatype IPv4Plan = IPv4Plan(
    mode: Mode,
    addresses: seq<string>,
    gateway: Option<Addr>,
    gatewayOnLink: bool,
    usePeerDNS: bool)

  // An IPv6 gateway up to its zone.
  datatype Gateway6 = Gateway6(host: string, linkLocal: bool)

  datatype IPv6Plan = IPv6Plan(
    slaac: bool,
    dhcp: bool,
    addresses: seq<string>,
    gateway: Option<Gateway6>,
    gatewayOnLink: bool,
    usePeerDNS: bool)

  // `mac` is None when the text is not an Ethernet address.
  datatype Plan = Plan(
    interfaceName: string,
    mac: Option<string>,
    mtu: int,
    ipv4: IPv4Plan,
    ipv6: IPv6Plan,
    dns: seq<string>)

  // A DNS server as netip parses it: its canonical text without zone, and the
  // zone, empty when there is none.
  datatype Server = Server(host: string, zone: string, linkLocal: bool)

  // How the address texts of a plan parse. The script ignores parse errors,
  // so reading is total and validity is a question of its own.
  datatype Reading = Reading(
    prefix4: string -> Prefix,
    prefix6: string -> string,
    server: string -> Server,
    valid4: string -> bool,
    valid6: string -> bool,
    validServer: string -> bool)

  // What Validate (internal/network/validate.go) asks of the IPv4 half.
  ghost predicate ValidIPv4(plan: IPv4Plan, read: Reading)
  {
    && plan.mode != Unknown
    && (plan.mode == Static ==> plan.addresses != [] && plan.gateway.Some?)
    && forall t :: t in plan.addresses ==> read.valid4(t)
  }

  // The loops of Validate over addresses.
  method CheckTexts(texts: seq<string>, valid: string -> bool) returns (ok: bool)
    ensures ok <==> forall t :: t in texts ==> valid(t)
  {
    for i := 0 to |texts|
      invariant forall t :: t in texts[..i] ==> valid(t)
    {
      if !valid(texts[i]) {
        return false;
      }
    }
    ok := true;
  }

  method CheckIPv4(plan: IPv4Plan, read: Reading) returns (ok: bool)
    ensures ok <==> ValidIPv4(plan, read)
  {
    match plan.mode {
      case Dhcp =>
      case Static =>
        if |plan.addresses| == 0 || plan.gateway.None? {
          return false;
        }
      case Off =>
      case Unknown =>
        return false;
    }
    ok := CheckTexts(plan.addresses, read.valid4);
  }
}
