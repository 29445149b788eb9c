/**
 * Keys of the service source-range LPM maps (pkg/maps/lbmap): a key holds a
 * prefix length that counts the 32 bits of RevNATID and padding in front of
 * the address, the RevNATID in network byte order, and the address bytes.
 */
module SourceRange {
  import opened Wrappers

  type u8 = x: int | 0 <= x < 0x100
  type u16 = x: int | 0 <= x < 0x1_0000
  type u32 = x: int | 0 <= x < 0x1_0000_0000

  /** The byte order of the host the agent runs on. */
  datatype Endianness = LittleEndian | BigEndian

  /** sizeof(RevNATID) + sizeof(Pad), in bits, for both key families. */
  const LpmPrefixLen4: nat := 16 + 16
  const LpmPrefixLen6: nat := 16 + 16

  // ---------------------------------------------------------------------------
  // Byte order (pkg/byteorder)
  // ---------------------------------------------------------------------------

  /** Exchanges the two bytes of a 16-bit value. */
  function Swap16(x: u16): (r: u16)
    ensures r % 0x100 == x / 0x100 && r / 0x100 == x % 0x100
  {
    (x % 0x100) * 0x100 + x / 0x100
  }

  /** Swapping twice gives the value back. */
  lemma Swap16Involution(x: u16)
    ensures Swap16(Swap16(x)) == x
  {
    var y := Swap16(x);
    assert y % 0x100 == x / 0x100 && y / 0x100 == x % 0x100;
    assert x == (x / 0x100) * 0x100 + x % 0x100;
  }

  /** byteorder.HostToNetwork16: a swap on a little-endian host, nothing on a big-endian one. */
  function HostToNetwork16(host: Endianness, x: u16): u16
  {
    if host == LittleEndian then Swap16(x) else x
  }

  /** byteorder.NetworkToHost16: the same conversion, in the other direction. */
  function NetworkToHost16(host: Endianness, x: u16): u16
  {
    if host == LittleEndian then Swap16(x) else x
  }

  lemma ByteOrderRoundTrip(host: Endianness, x: u16)
    ensures NetworkToHost16(host, HostToNetwork16(host, x)) == x
    ensures HostToNetwork16(host, NetworkToHost16(host, x)) == x
  {
    Swap16Involution(x);
  }

  // ---------------------------------------------------------------------------
  // net.IP and net.IPNet
  // ---------------------------------------------------------------------------

  /** A net.IP: 4 bytes, 16 bytes, or any other length (which the net package treats as invalid). */
  type IP = seq<u8>

  const V4InV6Prefix: seq<u8> := [0, 0, 0, 0, 0, 0, 0, 0, 0, 0, 0xff, 0xff]

  /** net.IP.To4: the 4-byte form of an IPv4 address (also of an IPv4-mapped IPv6 one), else nil. */
  function To4(ip: IP): (r: IP)
    ensures |r| == 0 || |r| == 4
    ensures |ip| == 4 ==> r == ip
  {
    if |ip| == 4 then ip
    else if |ip| == 16 && ip[..12] == V4InV6Prefix then ip[12..]
    else []
  }

  /** net.IP.To16: the 16-byte form of an address (IPv4 addresses become IPv4-mapped), else nil. */
  function To16(ip: IP): (r: IP)
    ensures |r| == 0 || |r| == 16
    ensures |ip| == 16 ==> r == ip
    ensures |ip| == 4 ==> r == V4InV6Prefix + ip
  {
    if |ip| == 4 then V4InV6Prefix + ip
    else if |ip| == 16 then ip
    else []
  }

  function Zeros(n: nat): (r: seq<u8>)
    ensures |r| == n && forall k | 0 <= k < n :: r[k] == 0
  {
    seq(n, _ => 0)
  }

  /** copy(dst[:], src) into a zeroed fixed-size array of `n` bytes. */
  function CopyInto(n: nat, src: seq<u8>): (r: seq<u8>)
    ensures |r| == n
    ensures |src| >= n ==> r == src[..n]
    ensures |src| <= n ==> r[..|src|] == src && r[|src|..] == Zeros(n - |src|)
  {
    if |src| >= n then src[..n] else src + Zeros(n - |src|)
  }

  /**
   * A net.IPNet as far as the keys use it: the address, and the mask as its
   * number of leading ones over `bits` bits. `ones` is None for the nil mask
   * that net.CIDRMask returns for a length out of range.
   */
  datatype Cidr = Cidr(ip: IP, ones: Option<nat>, bits: nat)

  /** net.CIDRMask(ones, bits): a mask, or nil when ones is not within 0..bits. */
  function CidrMask(ones: int, bits: nat): (r: Option<nat>)
    ensures r.Some? <==> 0 <= ones <= bits
    ensures r.Some? ==> r.value == ones
  {
    if 0 <= ones <= bits then Some(ones) else None
  }

  /** net.IPMask.Size(): the length of a canonical mask, 0 for nil. */
  function MaskSize(c: Cidr): nat
  {
    if c.ones.Some? then c.ones.value else 0
  }

  // ---------------------------------------------------------------------------
  // SourceRangeKey4 / SourceRangeKey6
  // ---------------------------------------------------------------------------

  datatype SourceRangeKey =
    | Key4(prefixLen: u32, revNATID: u16, pad: u16, address: seq<u8>)
    | Key6(prefixLen: u32, revNATID: u16, pad: u16, address: seq<u8>)

  /** The address array has the size of its family: 4 bytes or 16 bytes. */
  predicate WellSized(k: SourceRangeKey)
  {
    if k.Key4? then |k.address| == 4 else |k.address| == 16
  }

  /**
   * ToNetwork: a copy of the key with RevNATID converted to network byte
   * order; the family, prefix length, padding and address are kept.
   */
  function ToNetwork(host: Endianness, k: SourceRangeKey): (r: SourceRangeKey)
    ensures r.Key4? == k.Key4? && r.prefixLen == k.prefixLen && r.pad == k.pad && r.address == k.address
    ensures r.revNATID == HostToNetwork16(host, k.revNATID)
  {
    k.(revNATID := HostToNetwork16(host, k.revNATID))
  }

  /** ToHost: a copy of the key with RevNATID converted to host byte order. */
  function ToHost(host: Endianness, k: SourceRangeKey): (r: SourceRangeKey)
    ensures r.Key4? == k.Key4? && r.prefixLen == k.prefixLen && r.pad == k.pad && r.address == k.address
    ensures r.revNATID == NetworkToHost16(host, k.revNATID)
  {
    k.(revNATID := NetworkToHost16(host, k.revNATID))
  }

  /** Converting to network order and back gives the key back, and the other way round. */
  lemma ToHostToNetwork(host: Endianness, k: SourceRangeKey)
    ensures ToHost(host, ToNetwork(host, k)) == k
    ensures ToNetwork(host, ToHost(host, k)) == k
  {
    ByteOrderRoundTrip(host, k.revNATID);
  }

  /** The family's address width in bits. */
  function AddressBits(k: SourceRangeKey): nat
  {
    if k.Key4? then 32 else 128
  }

  /**
   * GetCIDR: the address with a mask of PrefixLen - 32 ones over the
   * family's width; the mask is nil when that length is out of range.
   */
  function GetCidr(k: SourceRangeKey): (c: Cidr)
    ensures c.ip == k.address && c.bits == AddressBits(k)
    ensures c.ones.Some? <==> LpmPrefixLen4 <= k.prefixLen <= LpmPrefixLen4 + AddressBits(k)
    ensures c.ones.Some? ==> c.ones.value + LpmPrefixLen4 == k.prefixLen
  {
    if k.Key4? then Cidr(k.address, CidrMask(k.prefixLen - LpmPrefixLen4, 32), 32)
    else Cidr(k.address, CidrMask(k.prefixLen - LpmPrefixLen6, 128), 128)
  }

  /**
   * srcRangeKey: the key of a source range for a service, with the prefix
   * length counting the 32 leading bits, RevNATID in network byte order and
   * the address copied in the family's form.
   */
  function SrcRangeKey(host: Endianness, c: Cidr, revNATID: u16, ipv6: bool): (k: SourceRangeKey)
    requires MaskSize(c) <= 128
    ensures k.Key6? <==> ipv6
    ensures k.prefixLen == MaskSize(c) + 32 && k.pad == 0
    ensures WellSized(k)
    ensures NetworkToHost16(host, k.revNATID) == revNATID
  {
    ByteOrderRoundTrip(host, revNATID);
    var ones := MaskSize(c);
    var id := HostToNetwork16(host, revNATID);
    if ipv6 then Key6(ones + LpmPrefixLen6, id, 0, CopyInto(16, To16(c.ip)))
    else Key4(ones + LpmPrefixLen4, id, 0, CopyInto(4, To4(c.ip)))
  }

  /** `ToHost(key).GetRevNATID()` of a freshly built key is the service's RevNATID. */
  lemma SrcRangeKeyRevNATID(host: Endianness, c: Cidr, revNATID: u16, ipv6: bool)
    requires MaskSize(c) <= 128
    ensures ToHost(host, SrcRangeKey(host, c, revNATID, ipv6)).revNATID == revNATID
  {
  }

  /**
   * A source range of the key's own family comes back from its key: the
   * mask length (when the range has a mask that fits the family) and the
   * address are recovered by GetCIDR.
   */
  lemma SrcRangeKeyGetCidr(host: Endianness, c: Cidr, revNATID: u16, ipv6: bool)
    requires MaskSize(c) <= 128
    requires c.ones.Some? && c.ones.value <= (if ipv6 then 128 else 32)
    requires |c.ip| == (if ipv6 then 16 else 4)
    ensures GetCidr(SrcRangeKey(host, c, revNATID, ipv6)) == Cidr(c.ip, c.ones, if ipv6 then 128 else 32)
  {
  }

  /** An IPv4 range stored in an IPv6 key keeps its address in IPv4-mapped form. */
  lemma V4RangeInV6Key(host: Endianness, c: Cidr, revNATID: u16)
    requires MaskSize(c) <= 128 && |c.ip| == 4
    ensures SrcRangeKey(host, c, revNATID, true).address == V4InV6Prefix + c.ip
  {
  }

  /** A range whose address is not of the v4 family leaves a v4 key's address all zero. */
  lemma NonV4RangeInV4Key(host: Endianness, c: Cidr, revNATID: u16)
    requires MaskSize(c) <= 128 && |c.ip| != 4 && |c.ip| != 16
    ensures SrcRangeKey(host, c, revNATID, false).address == Zeros(4)
  {
  }
}
