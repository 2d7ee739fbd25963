/** Addresses the network code computes: a host's place in a FAN overlay, and the n-th address of a subnet. */
module NetworkAddresses {
  import opened Prelude

  type Byte = b: int | 0 <= b < 256

  // ----- FAN -------------------------------------------------------------------------------------------------------

  /** An IPv4 network: its address and the number of leading mask bits. */
  datatype Network = Network(ip: seq<Byte>, size: nat)

  predicate IsNetwork(n: Network) {
    |n.ip| == 4 && n.size <= 32
  }

  datatype FanError = UnderlaySize | OverlaySize | TooLarge | NoAddress | NotIPv4

  datatype Result<T> = Ok(value: T) | Err(error: FanError)

  /** What the search for the host's own address in the underlay came to; other addresses are not four bytes. */
  datatype Found = Nothing | Other | Host(ip: seq<Byte>)

  /** The size checks, in the code's order. */
  function SizeError(underlay: nat, overlay: nat): Option<FanError> {
    if underlay != 16 && underlay != 24 then Some(UnderlaySize)
    else if overlay != 8 && overlay != 16 then Some(OverlaySize)
    else if overlay + (32 - underlay) + 8 > 32 then Some(TooLarge)
    else None
  }

  /** Three pairs of sizes are accepted. */
  lemma SizesAcceptedIff(underlay: nat, overlay: nat)
    ensures SizeError(underlay, overlay).None? <==> (underlay, overlay) in {(16, 8), (24, 8), (24, 16)}
  {
  }

  /** The first address of the subnet that the overlay gives to a host. */
  function Fan(underlay: nat, overlay: Network, host: seq<Byte>): (r: seq<Byte>)
    requires IsNetwork(overlay) && |host| == 4
    ensures |r| == 4
  {
    var second := if overlay.size == 16 then overlay.ip[1]
                  else if underlay == 24 then 0
                  else if underlay == 16 then host[2]
                  else host[1];
    [overlay.ip[0], second, host[3], 1]
  }

  /** Overwrites the host's address byte by byte. */
  method FanAddress(underlay: Network, overlay: Network, found: Found, ip: array<Byte>)
    returns (r: Result<(seq<Byte>, nat)>)
    requires IsNetwork(underlay) && IsNetwork(overlay)
    requires found.Host? ==> found.ip == ip[..] && ip.Length == 4
    modifies ip
    ensures match SizeError(underlay.size, overlay.size)
            case Some(e) => r == Err(e)
            case None =>
              match found
              case Nothing => r == Err(NoAddress)
              case Other => r == Err(NotIPv4)
              case Host(host) => r == Ok((Fan(underlay.size, overlay, host), overlay.size))
    ensures ip[..] == if r.Ok? then r.value.0 else old(ip[..])
    ensures r.Ok? ==>
              && ip[0] == overlay.ip[0] && ip[2] == old(ip[3]) && ip[3] == 1 && r.value.1 == overlay.size
              && ip[1] == if overlay.size == 16 then overlay.ip[1] else if underlay.size == 24 then 0 else old(ip[2])
    ensures r == Err(UnderlaySize) <==> underlay.size != 16 && underlay.size != 24
    ensures r == Err(OverlaySize) <==> (underlay.size == 16 || underlay.size == 24) && overlay.size != 8 && overlay.size != 16
    ensures r == Err(TooLarge) <==> underlay.size == 16 && overlay.size == 16
    ensures r == Err(NoAddress) ==> found == Nothing
    ensures r == Err(NotIPv4) ==> found == Other
    ensures r.Ok? ==> found.Host?
  {
    if underlay.size != 16 && underlay.size != 24 {
      return Err(UnderlaySize);
    }
    if overlay.size != 8 && overlay.size != 16 {
      return Err(OverlaySize);
    }
    if overlay.size + (32 - underlay.size) + 8 > 32 {
      return Err(TooLarge);
    }
    if found.Nothing? {
      return Err(NoAddress);
    }
    if found.Other? {
      return Err(NotIPv4);
    }
    assert forall k :: 0 <= k < 4 ==> found.ip[k] == ip[k];
    ip[0] := overlay.ip[0];
    if overlay.size == 16 {
      ip[1] := overlay.ip[1];
    } else if underlay.size == 24 {
      ip[1] := 0;
    } else if underlay.size == 16 {
      ip[1] := ip[2];
    }
    ip[2] := ip[3];
    ip[3] := 1;
    assert ip[..] == Fan(underlay.size, overlay, found.ip);
    return Ok((ip[..], overlay.size));
  }

  /** Whether an address lies in a network whose mask ends on a byte. */
  predicate Inside(address: seq<Byte>, n: Network)
    requires |address| == 4 && |n.ip| == 4
  {
    forall k :: 0 <= k < 4 && 8 * k < n.size ==> address[k] == n.ip[k]
  }

  /** The /24 around an address. */
  function Around(address: seq<Byte>): (r: Network)
    requires |address| == 4
    ensures IsNetwork(r)
  {
    Network(address, 24)
  }

  /** The host that got an address. */
  function HostOf(underlay: Network, overlay: nat, fan: seq<Byte>): (r: seq<Byte>)
    requires IsNetwork(underlay) && |fan| == 4
    ensures |r| == 4
  {
    [underlay.ip[0], underlay.ip[1], if underlay.size == 24 then underlay.ip[2] else fan[1], fan[2]]
  }

  /** The whole /24 of a host lies inside the overlay, and the host can be read off any address in it. */
  lemma FanStaysInsideAndInverts(underlay: Network, overlay: Network, host: seq<Byte>, guest: seq<Byte>)
    requires IsNetwork(underlay) && IsNetwork(overlay) && SizeError(underlay.size, overlay.size).None?
    requires |host| == 4 && |guest| == 4 && Inside(host, underlay)
    requires Inside(guest, Around(Fan(underlay.size, overlay, host)))
    ensures Inside(guest, overlay)
    ensures HostOf(underlay, overlay.size, guest) == host
  {
    var fan := Fan(underlay.size, overlay, host);
    assert guest[0] == fan[0] && guest[1] == fan[1] && guest[2] == fan[2];
    assert host[0] == underlay.ip[0] && host[1] == underlay.ip[1];
    assert underlay.size == 24 ==> host[2] == underlay.ip[2];
  }

  /** Different hosts of one underlay get /24s without a common address. */
  lemma FanSubnetsDisjoint(underlay: Network, overlay: Network, a: seq<Byte>, b: seq<Byte>, guest: seq<Byte>)
    requires IsNetwork(underlay) && IsNetwork(overlay) && SizeError(underlay.size, overlay.size).None?
    requires |a| == 4 && |b| == 4 && |guest| == 4 && a != b && Inside(a, underlay) && Inside(b, underlay)
    ensures !(Inside(guest, Around(Fan(underlay.size, overlay, a))) && Inside(guest, Around(Fan(underlay.size, overlay, b))))
  {
    if Inside(guest, Around(Fan(underlay.size, overlay, a))) {
      FanStaysInsideAndInverts(underlay, overlay, a, guest);
      FanMisses(underlay, overlay, b, guest);
    }
  }

  lemma FanMisses(underlay: Network, overlay: Network, b: seq<Byte>, guest: seq<Byte>)
    requires IsNetwork(underlay) && IsNetwork(overlay) && SizeError(underlay.size, overlay.size).None?
    requires |b| == 4 && |guest| == 4 && Inside(b, underlay)
    ensures Inside(guest, Around(Fan(underlay.size, overlay, b))) ==> HostOf(underlay, overlay.size, guest) == b
  {
    if Inside(guest, Around(Fan(underlay.size, overlay, b))) {
      FanStaysInsideAndInverts(underlay, overlay, b, guest);
    }
  }

  /** In plain bytes: different hosts of one underlay get addresses that differ in the first three bytes. */
  lemma FanBytesDiffer(underlay: Network, overlay: Network, a: seq<Byte>, b: seq<Byte>)
    requires IsNetwork(underlay) && IsNetwork(overlay) && SizeError(underlay.size, overlay.size).None?
    requires |a| == 4 && |b| == 4 && a[0] == b[0] && a[1] == b[1] && (underlay.size == 24 ==> a[2] == b[2]) && a != b
    ensures var x, y := Fan(underlay.size, overlay, a), Fan(underlay.size, overlay, b);
            x[0] != y[0] || x[1] != y[1] || x[2] != y[2]
  {
  }

  /** The one pair of admitted sizes that is turned down would not have been injective. */
  lemma WideUnderlayInNarrowOverlayCollides()
    ensures var overlay := Network([10, 0, 0, 0], 16);
            var a: seq<Byte> := [192, 168, 1, 7];
            var b: seq<Byte> := [192, 168, 2, 7];
            && SizeError(16, 16) == Some(TooLarge)
            && Inside(a, Network([192, 168, 0, 0], 16)) && Inside(b, Network([192, 168, 0, 0], 16))
            && Fan(16, overlay, a) == Fan(16, overlay, b)
  {
  }

  // ----- the n-th address of a subnet ------------------------------------------------------------------------------

  function Pow2(n: nat): (r: nat)
    ensures r > 0
  {
    if n == 0 then 1 else 2 * Pow2(n - 1)
  }

  lemma {:induction false} Pow2Adds(m: nat, n: nat)
    ensures Pow2(m + n) == Pow2(m) * Pow2(n)
  {
    if m > 0 {
      Pow2Adds(m - 1, n);
    }
  }

  /** Four bytes, most significant first. */
  function Number(ip: seq<Byte>): (r: nat)
    requires |ip| == 4
    ensures r < 0x1_0000_0000
  {
    (((ip[0] as int) * 256 + ip[1] as int) * 256 + ip[2] as int) * 256 + ip[3] as int
  }

  function Bytes(n: nat): (r: seq<Byte>)
    requires n < 0x1_0000_0000
    ensures |r| == 4
  {
    [n / 0x100_0000, n / 0x1_0000 % 256, n / 0x100 % 256, n % 256]
  }

  lemma NumberOfBytes(n: nat)
    requires n < 0x1_0000_0000
    ensures Number(Bytes(n)) == n
  {
    assert n == (n / 0x100) * 0x100 + n % 256;
    assert n / 0x100 == (n / 0x1_0000) * 256 + n / 0x100 % 256;
    assert n / 0x1_0000 == (n / 0x100_0000) * 256 + n / 0x1_0000 % 256;
  }

  /** A small number is added to the last byte. */
  lemma LastByte(ip: seq<Byte>, n: nat)
    requires |ip| == 4 && ip[3] as int + n < 256
    ensures Number(ip) + n < 0x1_0000_0000
    ensures Bytes(Number(ip) + n) == [ip[0], ip[1], ip[2], ip[3] as int + n]
  {
    var x := Number(ip) + n;
    var last := ip[3] as int + n;
    var upper := (ip[0] as int * 256 + ip[1] as int) * 256 + ip[2] as int;
    assert x == upper * 256 + last;
    assert x / 0x100 == upper && x % 256 == last;
    assert upper / 256 == ip[0] as int * 256 + ip[1] as int;
    assert x / 0x1_0000 == upper / 256;
    assert x / 0x100_0000 == upper / 256 / 256;
  }

  /** The n-th address of a subnet as a number; negative hosts count from the end, and the low 32 bits are kept. */
  function NthAddress(subnet: Network, host: int): nat
    requires IsNetwork(subnet)
  {
    (Number(subnet.ip) + if host < 0 then Pow2(32 - subnet.size) + host else host) % 0x1_0000_0000
  }

  /** A small host number is added to the last byte. */
  lemma NthInLastByte(subnet: Network, host: nat)
    requires IsNetwork(subnet) && subnet.ip[3] as int + host < 256
    ensures Bytes(NthAddress(subnet, host)) == [subnet.ip[0], subnet.ip[1], subnet.ip[2], subnet.ip[3] as int + host]
  {
    LastByte(subnet.ip, host);
    assert NthAddress(subnet, host) == Number(subnet.ip) + host;
  }

  /** In a subnet of 256 addresses a small negative host number counts down from 256. */
  lemma NthFromEndInLastByte(subnet: Network, host: int)
    requires IsNetwork(subnet) && subnet.size == 24 && subnet.ip[3] == 0 && -256 <= host < 0
    ensures Bytes(NthAddress(subnet, host)) == [subnet.ip[0], subnet.ip[1], subnet.ip[2], 256 + host]
  {
    assert Pow2(8) == 256;
    LastByte(subnet.ip, 256 + host);
    assert NthAddress(subnet, host) == Number(subnet.ip) + (256 + host);
  }

  /** networkGetIP on an IPv4 subnet. */
  method GetIP(subnet: Network, host: int) returns (r: seq<Byte>)
    requires IsNetwork(subnet)
    ensures |r| == 4 && Number(r) == NthAddress(subnet, host)
    ensures 0 <= host && subnet.ip[3] as int + host < 256 ==>
              r == [subnet.ip[0], subnet.ip[1], subnet.ip[2], subnet.ip[3] as int + host]
    ensures subnet.size == 24 && subnet.ip[3] == 0 && -256 <= host < 0 ==>
              r == [subnet.ip[0], subnet.ip[1], subnet.ip[2], 256 + host]
  {
    var ip := Number(subnet.ip);
    var count := host;
    if host < 0 {
      count := Pow2(32 - subnet.size);
      count := count + host;
    }
    ip := (ip + count) % 0x1_0000_0000;
    assert ip == NthAddress(subnet, host);
    NumberOfBytes(ip);
    if 0 <= host && subnet.ip[3] as int + host < 256 {
      NthInLastByte(subnet, host);
    }
    if subnet.size == 24 && subnet.ip[3] == 0 && -256 <= host < 0 {
      NthFromEndInLastByte(subnet, host);
    }
    return Bytes(ip);
  }

  predicate InSubnet(subnet: Network, n: int)
    requires IsNetwork(subnet)
  {
    Number(subnet.ip) <= n < Number(subnet.ip) + Pow2(32 - subnet.size)
  }

  /** A network address ends in zeros past its mask. */
  predicate IsBase(subnet: Network)
    requires IsNetwork(subnet)
  {
    Number(subnet.ip) % Pow2(32 - subnet.size) == 0
  }

  lemma Pow2Of32()
    ensures Pow2(32) == 0x1_0000_0000
  {
    assert Pow2(8) == 256;
    Pow2Adds(8, 8);
    Pow2Adds(16, 16);
  }

  lemma MultipleFits(x: nat, h: nat, n: nat)
    requires h > 0 && x % h == 0 && x < n * h
    ensures x + h <= n * h
  {
    var k := x / h;
    assert x == k * h;
    TimesMonotone(n, k, h);
    TimesMonotone(k + 1, n, h);
  }

  lemma TimesMonotone(a: nat, b: nat, h: nat)
    ensures a <= b ==> a * h <= b * h
  {
    if a <= b {
      assert b * h == a * h + (b - a) * h;
    }
  }

  lemma SubnetFits(subnet: Network)
    requires IsNetwork(subnet) && IsBase(subnet)
    ensures Number(subnet.ip) + Pow2(32 - subnet.size) <= 0x1_0000_0000
  {
    Pow2Of32();
    Pow2Adds(subnet.size, 32 - subnet.size);
    MultipleFits(Number(subnet.ip), Pow2(32 - subnet.size), Pow2(subnet.size));
  }

  /** Keeping the low 32 bits leaves a number in a window of n numbers only if it was there before. */
  lemma WrapsOutside(base: nat, n: nat, count: int)
    requires n > 0 && base + n <= 0x1_0000_0000 && n - 0x1_0000_0000 <= count < 0x1_0000_0000
    ensures base <= (base + count) % 0x1_0000_0000 < base + n <==> 0 <= count < n
  {
    var sum := base + count;
    if sum < 0 {
      assert sum % 0x1_0000_0000 == sum + 0x1_0000_0000;
    } else if sum < 0x1_0000_0000 {
      assert sum % 0x1_0000_0000 == sum;
    } else {
      assert sum % 0x1_0000_0000 == sum - 0x1_0000_0000;
    }
  }

  /** The n-th address of a subnet lies inside it exactly when there are as many addresses, from either end. */
  lemma NthAddressInsideIff(subnet: Network, host: int)
    requires IsNetwork(subnet) && IsBase(subnet) && -0x1_0000_0000 <= host < 0x1_0000_0000
    ensures InSubnet(subnet, NthAddress(subnet, host))
            <==> -(Pow2(32 - subnet.size) as int) <= host < Pow2(32 - subnet.size)
  {
    SubnetFits(subnet);
    var n := Pow2(32 - subnet.size);
    WrapsOutside(Number(subnet.ip), n, if host < 0 then n + host else host);
  }

  /** Counting from the end: host -k is host n - k of a subnet of n addresses, the k-th before its end. */
  lemma FromTheEnd(subnet: Network, k: nat)
    requires IsNetwork(subnet) && IsBase(subnet) && 1 <= k <= Pow2(32 - subnet.size)
    ensures NthAddress(subnet, -(k as int)) == NthAddress(subnet, Pow2(32 - subnet.size) - k)
         == Number(subnet.ip) + Pow2(32 - subnet.size) - k
  {
    SubnetFits(subnet);
  }

  // ----- the same in an IPv6 subnet --------------------------------------------------------------------------------

  /** big.Int.Bytes: the bytes of a number, most significant first, without leading zeros. */
  function Minimal(n: nat): seq<Byte> {
    if n == 0 then [] else Minimal(n / 256) + [n % 256]
  }

  function Big(bytes: seq<Byte>): nat {
    if bytes == [] then 0 else Big(bytes[..|bytes| - 1]) * 256 + bytes[|bytes| - 1] as int
  }

  lemma {:induction false} BigOfMinimal(n: nat)
    ensures Big(Minimal(n)) == n
  {
    if n > 0 {
      BigOfMinimal(n / 256);
      assert Minimal(n)[..|Minimal(n)| - 1] == Minimal(n / 256);
    }
  }

  lemma {:induction false} BigIsPositive(bytes: seq<Byte>)
    requires bytes != [] && bytes[0] != 0
    ensures Big(bytes) > 0
  {
    if |bytes| > 1 {
      BigIsPositive(bytes[..|bytes| - 1]);
    }
  }

  /** Bytes without a leading zero come back. */
  lemma {:induction false} MinimalOfBig(bytes: seq<Byte>)
    requires bytes == [] || bytes[0] != 0
    ensures Minimal(Big(bytes)) == bytes
  {
    if bytes != [] {
      var front, last := bytes[..|bytes| - 1], bytes[|bytes| - 1];
      BigIsPositive(bytes);
      MinimalOfBig(front);
      assert Big(bytes) == Big(front) * 256 + last as int;
      assert Big(bytes) / 256 == Big(front) && Big(bytes) % 256 == last as int;
      assert bytes == front + [last];
    }
  }

  /** How many numbers k bytes can hold. */
  function Pow256(k: nat): (r: nat)
    ensures r > 0
  {
    if k == 0 then 1 else 256 * Pow256(k - 1)
  }

  lemma {:induction false} Pow256IsPow2(k: nat)
    ensures Pow256(k) == Pow2(8 * k)
  {
    if k > 0 {
      Pow256IsPow2(k - 1);
      Pow2Adds(8, 8 * (k - 1));
      assert Pow2(8) == 256;
    }
  }

  lemma {:induction false} MinimalLengthIff(n: nat, k: nat)
    ensures |Minimal(n)| <= k <==> n < Pow256(k)
  {
    if n > 0 && k > 0 {
      MinimalLengthIff(n / 256, k - 1);
    }
  }

  lemma LastByte6(ip: seq<Byte>, n: nat)
    requires |ip| == 16 && ip[15] as int + n < 256 && ip[0] != 0
    ensures Minimal(Big(ip) + n) == ip[..15] + [ip[15] as int + n]
  {
    var expected := ip[..15] + [ip[15] as int + n];
    assert ip[..|ip| - 1] == ip[..15] == expected[..|expected| - 1];
    MinimalOfBig(expected);
  }

  /** The absolute value of the sum, negative hosts counted from the end. */
  function Nth6(ip: seq<Byte>, size: nat, host: int): nat
    requires |ip| == 16 && size <= 128
  {
    var sum := Big(ip) + if host < 0 then Pow2(128 - size) + host else host;
    if sum < 0 then -sum else sum
  }

  /** Host -k is host n - k of a subnet of n addresses here too. */
  lemma FromTheEnd6(ip: seq<Byte>, size: nat, k: nat)
    requires |ip| == 16 && size <= 128 && 1 <= k <= Pow2(128 - size)
    ensures Nth6(ip, size, -(k as int)) == Nth6(ip, size, Pow2(128 - size) - k)
  {
  }

  lemma MinimalHasBytesIff(n: nat, k: nat)
    requires k > 0
    ensures Big(Minimal(n)) == n
    ensures |Minimal(n)| == k <==> Pow256(k - 1) <= n < Pow256(k)
  {
    BigOfMinimal(n);
    MinimalLengthIff(n, k);
    MinimalLengthIff(n, k - 1);
  }

  /**
   The bytes are the sum's; there are as many as in an address exactly when the sum neither overflows nor has a leading
   zero byte; and a small host number is added to the last byte.
   */
  lemma Nth6Bytes(ip: seq<Byte>, size: nat, host: int)
    requires |ip| == 16 && size <= 128
    ensures var n := Nth6(ip, size, host);
            && Big(Minimal(n)) == n
            && (|Minimal(n)| == |ip| <==> Pow256(|ip| - 1) <= n < Pow256(|ip|))
    ensures 0 <= host && ip[15] as int + host < 256 && ip[0] != 0 ==>
              Minimal(Nth6(ip, size, host)) == ip[..15] + [ip[15] as int + host]
  {
    MinimalHasBytesIff(Nth6(ip, size, host), |ip|);
    if 0 <= host && ip[15] as int + host < 256 && ip[0] != 0 {
      LastByte6(ip, host);
      assert Nth6(ip, size, host) == Big(ip) + host;
    }
  }

  /** networkGetIP on an IPv6 subnet: the bytes of the sum's absolute value. */
  method GetIP6(ip: seq<Byte>, size: nat, host: int) returns (r: seq<Byte>)
    requires |ip| == 16 && size <= 128
    ensures r == Minimal(Nth6(ip, size, host))
  {
    var count := host;
    if host < 0 {
      count := Pow2(128 - size);
      count := count + host;
    }
    var sum := Big(ip) + count;
    r := Minimal(if sum < 0 then -sum else sum);
  }
}
