/** getIP of main.go: choose the address that identifies the reporting host.
    The results of net.Interfaces() and of each interface's Addrs() are inputs. */
module HostAddress {
  import opened Base

  /** net.IP: a byte slice, 4 bytes long for IPv4 and 16 bytes for IPv6. */
  type IP = seq<bv8>

  /** net.IPv6loopback, the address ::1. */
  const IPv6Loopback: IP := [0, 0, 0, 0, 0, 0, 0, 0, 0, 0, 0, 0, 0, 0, 0, 1]

  /** net.IP.To4: the IPv4 form of a 4-byte address or of an IPv4-mapped
      16-byte address (::ffff:a.b.c.d); None for anything else. */
  function To4(ip: IP): (r: Option<IP>)
    ensures r.Some? ==> |r.value| == 4
  {
    if |ip| == 4 then Some(ip)
    else if |ip| == 16 && ip[..10] == [0, 0, 0, 0, 0, 0, 0, 0, 0, 0] && ip[10] == 0xFF && ip[11] == 0xFF
    then Some(ip[12..])
    else None
  }

  /** net.IP.IsLoopback: an IPv4 address in 127.0.0.0/8, or ::1. */
  function IsLoopback(ip: IP): (b: bool)
    ensures |ip| == 4 ==> (b <==> ip[0] == 127)
    ensures |ip| == 16 ==> (b <==> ip == IPv6Loopback || (To4(ip).Some? && ip[12] == 127))
    ensures |ip| != 4 && |ip| != 16 ==> !b
  {
    match To4(ip)
    case Some(v4) => v4[0] == 127
    case None => ip == IPv6Loopback
  }

  /** A value of the net.Addr interface as Addrs() returns it: *net.IPNet,
      *net.IPAddr, or another implementation. The IP of the first two may be nil. */
  datatype Addr = IPNet(ip: Option<IP>) | IPAddr(ip: Option<IP>) | OtherAddr

  /** The parts of a net.Interface that getIP looks at: its FlagUp and
      FlagLoopback bits, and what its Addrs() method would return. */
  datatype Interface = Interface(up: bool, loopback: bool, addrs: Result<seq<Addr>>)

  /** An interface whose addresses getIP inspects: up and not loopback. */
  predicate Qualifies(iface: Interface) {
    iface.up && !iface.loopback
  }

  /** The type switch of getIP: the IP carried by an IPNet or IPAddr, else nil. */
  function AddrIP(a: Addr): (r: Option<IP>)
    ensures a.IPNet? || a.IPAddr? ==> r == a.ip
    ensures a.OtherAddr? ==> r.None?
  {
    match a
    case IPNet(ip) => ip
    case IPAddr(ip) => ip
    case OtherAddr => None
  }

  /** An address that getIP returns when it reaches it: a non-nil, non-loopback IP. */
  predicate Usable(a: Addr) {
    AddrIP(a).Some? && !IsLoopback(AddrIP(a).value)
  }

  /** The IP of the first usable address in the list, if any. */
  function FirstUsable(addrs: seq<Addr>): (r: Option<IP>)
    ensures r.None? <==> forall k :: 0 <= k < |addrs| ==> !Usable(addrs[k])
    ensures r.Some? ==> !IsLoopback(r.value)
  {
    if addrs == [] then None
    else if Usable(addrs[0]) then AddrIP(addrs[0])
    else
      var r := FirstUsable(addrs[1..]);
      assert forall k :: 1 <= k < |addrs| ==> addrs[k] == addrs[1..][k - 1];
      r
  }

  /** FirstUsable takes the earliest usable address. */
  lemma {:induction false} FirstUsableIsFirst(addrs: seq<Addr>, j: nat)
    requires j < |addrs| && Usable(addrs[j])
    requires forall k :: 0 <= k < j ==> !Usable(addrs[k])
    ensures FirstUsable(addrs) == AddrIP(addrs[j])
  {
    if j > 0 {
      FirstUsableIsFirst(addrs[1..], j - 1);
    }
  }

  /** How the scan over the interfaces ends: with an address, with an Addrs()
      error, or having found nothing. */
  datatype Scan = Found(ip: IP) | AddrsFailed | NotFound

  /** The scan of getIP over the interfaces in order: interfaces that are down
      or loopback are skipped; for the others the first usable address ends the
      scan, an Addrs() error ends it too, and an interface with no usable
      address passes the scan on to the next interface. */
  function ScanInterfaces(ifaces: seq<Interface>): (r: Scan)
    ensures r.Found? ==> !IsLoopback(r.ip)
    ensures r.Found? ==>
      exists k :: 0 <= k < |ifaces| && Qualifies(ifaces[k]) &&
        ifaces[k].addrs.Ok? && FirstUsable(ifaces[k].addrs.value) == Some(r.ip)
    ensures r.AddrsFailed? ==> exists k :: 0 <= k < |ifaces| && Qualifies(ifaces[k]) && ifaces[k].addrs.Err?
  {
    if ifaces == [] then NotFound
    else
      assert forall k :: 0 <= k < |ifaces| - 1 ==> ifaces[1..][k] == ifaces[k + 1];
      if !Qualifies(ifaces[0]) then ScanInterfaces(ifaces[1..])
      else
        match ifaces[0].addrs
        case Err(_) => AddrsFailed
        case Ok(addrs) =>
          match FirstUsable(addrs)
          case Some(ip) => Found(ip)
          case None => ScanInterfaces(ifaces[1..])
  }

  /** What getIP returns for the result of net.Interfaces(); None is nil. */
  function HostIP(interfaces: Result<seq<Interface>>): (r: Option<IP>)
    ensures r == Some(IPv6Loopback) <==> interfaces.Ok? && ScanInterfaces(interfaces.value) == NotFound
    ensures r.Some? && r != Some(IPv6Loopback) ==> !IsLoopback(r.value)
    ensures r.None? <==> interfaces.Err? || ScanInterfaces(interfaces.value) == AddrsFailed
  {
    match interfaces
    case Err(_) => None
    case Ok(ifaces) =>
      match ScanInterfaces(ifaces)
      case Found(ip) => Some(ip)
      case AddrsFailed => None
      case NotFound => Some(IPv6Loopback)
  }

  /** An interface `i` ends the scan with its first usable address when every
      qualifying interface before it answered Addrs() with no usable address. */
  lemma {:induction false} ScanFindsFirst(ifaces: seq<Interface>, i: nat, addrs: seq<Addr>)
    requires i < |ifaces| && Qualifies(ifaces[i]) && ifaces[i].addrs == Ok(addrs)
    requires FirstUsable(addrs).Some?
    requires forall k :: 0 <= k < i && Qualifies(ifaces[k]) ==>
      ifaces[k].addrs.Ok? && FirstUsable(ifaces[k].addrs.value).None?
    ensures ScanInterfaces(ifaces) == Found(FirstUsable(addrs).value)
  {
    if i > 0 {
      ScanFindsFirst(ifaces[1..], i - 1, addrs);
    }
  }

  /** An Addrs() error on a qualifying interface reached before any usable
      address ends the scan with the error. */
  lemma {:induction false} ScanStopsAtError(ifaces: seq<Interface>, i: nat)
    requires i < |ifaces| && Qualifies(ifaces[i]) && ifaces[i].addrs.Err?
    requires forall k :: 0 <= k < i && Qualifies(ifaces[k]) ==>
      ifaces[k].addrs.Ok? && FirstUsable(ifaces[k].addrs.value).None?
    ensures ScanInterfaces(ifaces) == AddrsFailed
  {
    if i > 0 {
      ScanStopsAtError(ifaces[1..], i - 1);
    }
  }

  /** The scan finds nothing exactly when every qualifying interface answered
      Addrs() with a list holding no usable address. */
  lemma {:induction false} ScanNotFound(ifaces: seq<Interface>)
    ensures ScanInterfaces(ifaces) == NotFound <==>
      forall k :: 0 <= k < |ifaces| && Qualifies(ifaces[k]) ==>
        ifaces[k].addrs.Ok? && FirstUsable(ifaces[k].addrs.value).None?
  {
    if ifaces != [] {
      ScanNotFound(ifaces[1..]);
      assert forall k :: 1 <= k < |ifaces| ==> ifaces[k] == ifaces[1..][k - 1];
    }
  }

  /** Interfaces that are down or loopback are never asked for their addresses:
      changing what their Addrs() would return does not change the scan. */
  lemma {:induction false} SkippedInterfacesIgnored(ifaces: seq<Interface>, others: seq<Interface>)
    requires |ifaces| == |others|
    requires forall k :: 0 <= k < |ifaces| ==>
      ifaces[k].up == others[k].up && ifaces[k].loopback == others[k].loopback
    requires forall k :: 0 <= k < |ifaces| && Qualifies(ifaces[k]) ==> ifaces[k].addrs == others[k].addrs
    ensures ScanInterfaces(ifaces) == ScanInterfaces(others)
  {
    if ifaces != [] {
      SkippedInterfacesIgnored(ifaces[1..], others[1..]);
    }
  }

  /** With every interface down or loopback, getIP falls back to ::1. */
  lemma NoQualifyingInterface(ifaces: seq<Interface>)
    requires forall k :: 0 <= k < |ifaces| ==> !Qualifies(ifaces[k])
    ensures HostIP(Ok(ifaces)) == Some(IPv6Loopback)
  {
    ScanNotFound(ifaces);
  }

  /** One interface that is up, not loopback, and bound to 10.0.0.5/8 gives 10.0.0.5. */
  lemma SingleInterfaceExample()
    ensures HostIP(Ok([Interface(true, false, Ok([IPNet(Some([10, 0, 0, 5]))]))])) == Some([10, 0, 0, 5])
  {
    var addrs := [IPNet(Some([10, 0, 0, 5]))];
    assert !IsLoopback([10, 0, 0, 5]);
    assert FirstUsable(addrs) == Some([10, 0, 0, 5]);
  }

  /** getIP. `interfaces` is the result of net.Interfaces(). */
  method GetIP(interfaces: Result<seq<Interface>>) returns (ip: Option<IP>)
    ensures ip == HostIP(interfaces)
  {
    if interfaces.Err? {
      return None;
    }
    var ifaces := interfaces.value;
    for i := 0 to |ifaces|
      invariant ScanInterfaces(ifaces) == ScanInterfaces(ifaces[i..])
    {
      var iface := ifaces[i];
      assert ifaces[i..][1..] == ifaces[i + 1..];
      if !iface.up {
        continue;
      }
      if iface.loopback {
        continue;
      }
      if iface.addrs.Err? {
        return None;
      }
      var addrs := iface.addrs.value;
      for j := 0 to |addrs|
        invariant FirstUsable(addrs) == FirstUsable(addrs[j..])
      {
        assert addrs[j..][1..] == addrs[j + 1..];
        var candidate: Option<IP> := None;
        match addrs[j] {
          case IPNet(v) => candidate := v;
          case IPAddr(v) => candidate := v;
          case OtherAddr =>
        }
        if candidate.None? || IsLoopback(candidate.value) {
          continue;
        }
        return candidate;
      }
    }
    return Some(IPv6Loopback);
  }
}
