/** IpUtils: byte-level address comparison and public/private
    classification. Parsing (`InetAddress.getByName`, which may resolve host
    names) is foreign and enters as a partial function `Parser`; the five
    `InetAddress` predicates the classification consults first are foreign
    too and travel with the parsed address as `LibraryFlags`. */
module IpUtils {
  import opened Wrappers

  /** A byte, read unsigned (`Byte.toUnsignedInt`). */
  newtype byte = x: int | 0 <= x < 256

  /** What the library reports of an address: `isAnyLocalAddress`,
      `isLoopbackAddress`, `isLinkLocalAddress`, `isMulticastAddress`,
      `isSiteLocalAddress`. */
  datatype LibraryFlags = LibraryFlags(anyLocal: bool, loopback: bool, linkLocal: bool, multicast: bool, siteLocal: bool)

  datatype InetAddress = InetAddress(raw: seq<byte>, flags: LibraryFlags)

  /** A parsed address has 4 (IPv4) or 16 (IPv6) bytes. */
  type Address = a: InetAddress | |a.raw| == 4 || |a.raw| == 16
    witness InetAddress([0, 0, 0, 0], LibraryFlags(true, false, false, false, false))

  /** The foreign parser: `None` where `getByName` throws `UnknownHostException`. */
  type Parser = string -> Option<Address>

  datatype IpError =
    | InvalidAddress(ip: string)   // the address did not parse
    | NotPublic(ip: string)        // the address is not public

  /** `InetAddress.getLoopbackAddress()`: 127.0.0.1, which the library reports as loopback. */
  const Loopback: Address := InetAddress([127, 0, 0, 1], LibraryFlags(false, true, false, false, false))

  // ---------------------------------------------------------------------
  // Prefixes, written independently of the code's byte tests
  // ---------------------------------------------------------------------

  function Pow2(n: nat): (p: nat)
    ensures p >= 1
  {
    if n == 0 then 1 else 2 * Pow2(n - 1)
  }

  /** CIDR membership: `raw` lies in `net/len` when their first `len` bits agree. */
  predicate InPrefix(raw: seq<byte>, net: seq<byte>, len: nat)
    requires |raw| == |net| && len <= 8 * |raw|
  {
    && (forall i :: 0 <= i < len / 8 ==> raw[i] == net[i])
    && (len % 8 != 0 ==>
          raw[len / 8] as int / Pow2(8 - len % 8) == net[len / 8] as int / Pow2(8 - len % 8))
  }

  /** The IPv4-mapped prefix `::ffff:0:0/96`, section 2.5.5.2 of RFC 4291. */
  const V4MappedPrefix: seq<byte> := [0, 0, 0, 0, 0, 0, 0, 0, 0, 0, 0xff, 0xff]

  /** `::ffff:a.b.c.d` for the IPv4 address `v4`. */
  function MapToV6(v4: seq<byte>): (v6: seq<byte>)
    requires |v4| == 4
    ensures |v6| == 16
  {
    V4MappedPrefix + v4
  }

  // ---------------------------------------------------------------------
  // The utility functions
  // ---------------------------------------------------------------------

  /** `isIPv4Mapped`: bytes 0..9 zero and bytes 10 and 11 0xff. */
  function IsIPv4Mapped(v6: seq<byte>): (mapped: bool)
    requires |v6| == 16
    ensures mapped <==> v6[..12] == V4MappedPrefix
    ensures mapped <==> InPrefix(v6, MapToV6([0, 0, 0, 0]), 96)
  {
    (forall i :: 0 <= i < 10 ==> v6[i] == 0) && v6[10] == 0xff && v6[11] == 0xff
  }

  /** `normalizedBytes`: a mapped IPv6 address becomes its embedded IPv4
      bytes, the four bytes whose mapping it is; any other address keeps its
      own bytes. */
  function NormalizedBytes(a: Address): (b: seq<byte>)
    ensures |a.raw| == 16 && IsIPv4Mapped(a.raw) ==> |b| == 4 && MapToV6(b) == a.raw
    ensures !(|a.raw| == 16 && IsIPv4Mapped(a.raw)) ==> b == a.raw
  {
    if |a.raw| == 16 && IsIPv4Mapped(a.raw) then a.raw[12..16] else a.raw
  }

  /** `addressesEqual(InetAddress, InetAddress)`: equal normalized bytes. An
      IPv4 address equals an IPv6 address exactly when the latter is its
      IPv4-mapped form, in either argument order. */
  function AddressesEqual(a: Address, b: Address): (eq: bool)
    ensures |a.raw| == 4 && |b.raw| == 16 ==> (eq <==> b.raw == MapToV6(a.raw))
    ensures |a.raw| == 16 && |b.raw| == 4 ==> (eq <==> a.raw == MapToV6(b.raw))
  {
    if |a.raw| == 4 && |b.raw| == 16 then
      MappedForm(a.raw, b.raw);
      NormalizedBytes(a) == NormalizedBytes(b)
    else if |a.raw| == 16 && |b.raw| == 4 then
      MappedForm(b.raw, a.raw);
      NormalizedBytes(a) == NormalizedBytes(b)
    else
      NormalizedBytes(a) == NormalizedBytes(b)
  }

  /** The IPv6 bytes normalize to the IPv4 bytes exactly when they are the
      IPv4-mapped form of them. */
  lemma MappedForm(v4: seq<byte>, v6: seq<byte>)
    requires |v4| == 4 && |v6| == 16
    ensures (IsIPv4Mapped(v6) && v6[12..] == v4) <==> v6 == MapToV6(v4)
  {
    assert MapToV6(v4)[..12] == V4MappedPrefix && MapToV6(v4)[12..] == v4;
    if IsIPv4Mapped(v6) && v6[12..] == v4 {
      assert v6 == v6[..12] + v6[12..];
    }
  }

  /** Address equality is an equivalence. */
  lemma AddressesEqualEquivalence(a: Address, b: Address, c: Address)
    ensures AddressesEqual(a, a)
    ensures AddressesEqual(a, b) ==> AddressesEqual(b, a)
    ensures AddressesEqual(a, b) && AddressesEqual(b, c) ==> AddressesEqual(a, c)
  {
  }

  /** `::ffff:a.b.c.d` and `a.b.c.d` compare equal, whatever the library flags. */
  lemma MappedEqualsPlain(v4: Address, v6: Address)
    requires |v4.raw| == 4 && v6.raw == MapToV6(v4.raw)
    ensures AddressesEqual(v6, v4)
  {
    assert v6.raw[..12] == V4MappedPrefix;
    assert v6.raw[12..] == v4.raw;
  }

  /** Two non-mapped IPv6 addresses are equal only byte for byte, and an
      IPv4 address equals no non-mapped IPv6 address. */
  lemma AddressesEqualBytes(a: Address, b: Address)
    requires |a.raw| == 4 || !IsIPv4Mapped(a.raw)
    requires |b.raw| == 4 || !IsIPv4Mapped(b.raw)
    ensures AddressesEqual(a, b) <==> a.raw == b.raw
  {
  }

  /** The library predicates that rule an address out before any byte test. */
  predicate LibraryExcluded(f: LibraryFlags) {
    f.anyLocal || f.loopback || f.linkLocal || f.multicast || f.siteLocal
  }

  /** The IPv4 ranges `isPublic` excludes, stated as CIDR prefixes: section 3
      of RFC 1918, RFC 6598's shared address space, "this network" 0/8 and
      the limited broadcast address. */
  predicate ReservedV4(raw: seq<byte>)
    requires |raw| == 4
  {
    || InPrefix(raw, [10, 0, 0, 0], 8)
    || InPrefix(raw, [172, 16, 0, 0], 12)
    || InPrefix(raw, [192, 168, 0, 0], 16)
    || InPrefix(raw, [100, 64, 0, 0], 10)
    || InPrefix(raw, [0, 0, 0, 0], 8)
    || raw == [255, 255, 255, 255]
  }

  /** The unique-local prefix fc00::/7, section 3.1 of RFC 4193. */
  predicate UniqueLocalV6(raw: seq<byte>)
    requires |raw| == 16
  {
    InPrefix(raw, [0xfc, 0, 0, 0, 0, 0, 0, 0, 0, 0, 0, 0, 0, 0, 0, 0], 7)
  }

  /** `isPublic`: the library predicates first, then the reserved ranges by
      bytes. An IPv4 address is public iff no library predicate excludes it
      and it lies in none of the reserved IPv4 ranges; an IPv6 address iff no
      library predicate excludes it and it is not unique-local. */
  function IsPublic(a: Address): (pub: bool)
    ensures |a.raw| == 4 ==> (pub <==> !LibraryExcluded(a.flags) && !ReservedV4(a.raw))
    ensures |a.raw| == 16 ==> (pub <==> !LibraryExcluded(a.flags) && !UniqueLocalV6(a.raw))
  {
    if LibraryExcluded(a.flags) then false
    else if |a.raw| == 4 then PublicV4Bytes(a.raw)
    else
      var first := a.raw[0] as bv8;
      assert Pow2(1) == 2;
      UlaMask(a.raw[0]);
      if first & 0xFE == 0xFC then false
      else true
  }

  /** The IPv4 byte tests of `isPublic`: 10/8, 172.16/12, 192.168/16,
      100.64/10, 0/8 and 255.255.255.255 are not public. */
  function PublicV4Bytes(raw: seq<byte>): (pub: bool)
    requires |raw| == 4
    ensures pub <==> !ReservedV4(raw)
  {
    assert Pow2(4) == 16 && Pow2(6) == 64;
    assert raw == [255, 255, 255, 255] <==> raw[0] == 255 && raw[1] == 255 && raw[2] == 255 && raw[3] == 255;
    var x := raw[0];
    var y := raw[1];
    if x == 10 then false
    else if x == 172 && 16 <= y <= 31 then false
    else if x == 192 && y == 168 then false
    else if x == 100 && 64 <= y <= 127 then false
    else if x == 0 then false
    else if x == 255 && raw[1] == 255 && raw[2] == 255 && raw[3] == 255 then false
    else true
  }

  /** Clearing the low bit of a byte gives 0xFC exactly for 0xFC and 0xFD. */
  lemma UlaMask(x: byte)
    ensures (x as bv8) & 0xFE == 0xFC <==> x as int / 2 == 0x7E
  {
    if x == 0xFC || x == 0xFD {
      assert (x as bv8) & 0xFE == 0xFC;
    } else {
      assert x as int / 2 != 0x7E;
      assert (x as bv8) & 0xFE != 0xFC;
    }
  }

  /** The loopback fallback is never public. */
  lemma LoopbackNotPublic()
    ensures !IsPublic(Loopback)
  {
  }

  /** `parseInetAddress`: a parse failure becomes `IllegalArgumentException`. */
  function ParseInetAddress(parse: Parser, ip: string): (res: Result<Address, IpError>)
    ensures parse(ip).None? <==> res == Failure(InvalidAddress(ip))
    ensures parse(ip).Some? ==> res == Success(parse(ip).value)
  {
    match parse(ip)
    case None => Failure(InvalidAddress(ip))
    case Some(a) => Success(a)
  }

  /** `addressesEqual(String, String)`: parses both, then compares. */
  function AddressesEqualText(parse: Parser, ip1: string, ip2: string): (res: Result<bool, IpError>)
    ensures res.Success? <==> parse(ip1).Some? && parse(ip2).Some?
    ensures res.Success? ==> res.value == AddressesEqual(parse(ip1).value, parse(ip2).value)
  {
    match ParseInetAddress(parse, ip1)
    case Failure(e) => Failure(e)
    case Success(a) =>
      match ParseInetAddress(parse, ip2)
      case Failure(e) => Failure(e)
      case Success(b) => Success(AddressesEqual(a, b))
  }

  /** The address text parses to a public address. */
  predicate PublicText(parse: Parser, ip: string) {
    parse(ip).Some? && IsPublic(parse(ip).value)
  }

  /** `areSamePublicIP`: both addresses are parsed, then both must be public;
      the first failure is the one raised. */
  function AreSamePublicIp(parse: Parser, ip1: string, ip2: string): (res: Result<bool, IpError>)
    ensures res.Success? <==> PublicText(parse, ip1) && PublicText(parse, ip2)
    ensures res.Success? ==> res.value == AddressesEqual(parse(ip1).value, parse(ip2).value)
    ensures parse(ip1).None? ==> res == Failure(InvalidAddress(ip1))
    ensures parse(ip1).Some? && parse(ip2).None? ==> res == Failure(InvalidAddress(ip2))
    ensures parse(ip1).Some? && parse(ip2).Some? && !IsPublic(parse(ip1).value) ==> res == Failure(NotPublic(ip1))
    ensures PublicText(parse, ip1) && parse(ip2).Some? && !IsPublic(parse(ip2).value) ==> res == Failure(NotPublic(ip2))
  {
    match ParseInetAddress(parse, ip1)
    case Failure(e) => Failure(e)
    case Success(a) =>
      match ParseInetAddress(parse, ip2)
      case Failure(e) => Failure(e)
      case Success(b) =>
        if !IsPublic(a) then Failure(NotPublic(ip1))
        else if !IsPublic(b) then Failure(NotPublic(ip2))
        else Success(AddressesEqual(a, b))
  }
}
