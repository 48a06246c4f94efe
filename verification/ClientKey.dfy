/** The rate-limit key of a request (internal/httpapi/clientip.go:18-46, 65-78). */
module ClientKey {
  import opened Basics
  import opened ForwardedFor

  /** IPv4, written as an IPv4-mapped IPv6 address (section 2.5.5.2 of RFC 4291). */
  predicate IsMapped(ip: Ip) {
    (forall i :: 0 <= i < 10 ==> ip[i] == 0) && ip[10] == 0xff && ip[11] == 0xff
  }

  /** The first twelve bytes of such an address. */
  const V4_PREFIX: seq<bv8> := [0, 0, 0, 0, 0, 0, 0, 0, 0, 0, 0xff, 0xff]

  /** What the code takes from Go's net and strconv packages. */
  datatype Library = Library(
    splitHost: string -> Option<string>,
    parse: Parser,
    text4: seq<bv8> -> string,
    text6: Ip -> string,
    itoa: int -> string)
  {
    /**
      Texts identify addresses, and an IPv4 text is a dotted quad. Nothing is assumed of
      the text of an IPv4-mapped address in its 16-byte form, which is that of the IPv4
      address and so would not tell the two apart.
     */
    ghost predicate Faithful() {
      && (forall a, b :: text4(a) == text4(b) ==> a == b)
      && (forall a :: text4(a) != "" && text4(a) != "unknown" && '/' !in text4(a))
      && (forall a, b :: a[..12] != V4_PREFIX && b[..12] != V4_PREFIX && text6(a) == text6(b) ==> a == b)
    }
  }

  /** The weight of bit k of a byte, counted from the most significant one. */
  function Weight(k: int): bv8
    requires 0 <= k < 8
  {
    if k == 0 then 0x80 else if k == 1 then 0x40 else if k == 2 then 0x20 else if k == 3 then 0x10
    else if k == 4 then 0x08 else if k == 5 then 0x04 else if k == 6 then 0x02 else 0x01
  }

  /** One byte of a network mask of which n bits are still to be set. */
  function MaskByte(n: int): bv8 {
    if n <= 0 then 0x00 else if n == 1 then 0x80 else if n == 2 then 0xc0 else if n == 3 then 0xe0
    else if n == 4 then 0xf0 else if n == 5 then 0xf8 else if n == 6 then 0xfc else if n == 7 then 0xfe
    else 0xff
  }

  /** That is ^byte(0xff >> n), as net.CIDRMask has it. */
  lemma MaskByteIsInvertedShift()
    ensures MaskByte(0) == !(0xff >> 0) && MaskByte(1) == !(0xff >> 1) && MaskByte(2) == !(0xff >> 2)
    ensures MaskByte(3) == !(0xff >> 3) && MaskByte(4) == !(0xff >> 4) && MaskByte(5) == !(0xff >> 5)
    ensures MaskByte(6) == !(0xff >> 6) && MaskByte(7) == !(0xff >> 7)
  {
  }

  function Masked(ip: Ip, ones: int): Ip {
    seq(16, i requires 0 <= i < 16 => ip[i] & MaskByte(ones - 8 * i))
  }

  function EffectivePrefix(prefixLen: int): int {
    if prefixLen <= 0 || prefixLen > 128 then 64 else prefixLen
  }

  function BucketIp(lib: Library, ip: Option<Ip>, prefixLen: int): string {
    if ip.None? then "unknown"
    else if IsMapped(ip.value) then lib.text4(ip.value[12..])
    else
      var p := EffectivePrefix(prefixLen);
      lib.text6(Masked(ip.value, p)) + "/" + lib.itoa(p)
  }

  // ----- Bits -----

  predicate ByteBit(b: bv8, k: int)
    requires 0 <= k < 8
  {
    b & Weight(k) != 0
  }

  predicate Bit(ip: Ip, j: int)
    requires 0 <= j < 128
  {
    ByteBit(ip[j / 8], j % 8)
  }

  /** Bit k of a byte is the one its place value says. */
  lemma WeightIsPlaceValue()
    ensures Weight(0) == 1 << 7 && Weight(1) == 1 << 6 && Weight(2) == 1 << 5 && Weight(3) == 1 << 4
    ensures Weight(4) == 1 << 3 && Weight(5) == 1 << 2 && Weight(6) == 1 << 1 && Weight(7) == 1 << 0
  {
  }

  predicate SameBit(a: bv8, b: bv8, k: int)
    requires 0 <= k < 8
  {
    ByteBit(a, k) <==> ByteBit(b, k)
  }

  lemma DifferenceUnderMask(a: bv8, b: bv8, mask: bv8)
    ensures a & mask == b & mask <==> (a ^ b) & mask == 0
  {
  }

  lemma SingleBitDifference(a: bv8, b: bv8, w: bv8)
    requires w == 0x80 || w == 0x40 || w == 0x20 || w == 0x10 || w == 0x08 || w == 0x04 || w == 0x02 || w == 0x01
    ensures (a & w != 0 <==> b & w != 0) <==> (a ^ b) & w == 0
  {
  }

  lemma MaskUnion(x: bv8, m: bv8, w: bv8)
    ensures x & (m | w) == 0 <==> x & m == 0 && x & w == 0
  {
  }

  lemma MaskGrows(n: int)
    requires 1 <= n <= 8
    ensures MaskByte(n) == MaskByte(n - 1) | Weight(n - 1)
  {
  }

  lemma {:induction false} NoBitUnderMask(x: bv8, n: int)
    requires 0 <= n < 8
    ensures x & MaskByte(n) == 0 <==> forall k :: 0 <= k < n ==> x & Weight(k) == 0
  {
    if n == 0 {
      assert x & 0x00 == 0;
    } else {
      NoBitUnderMask(x, n - 1);
      MaskGrows(n);
      MaskUnion(x, MaskByte(n - 1), Weight(n - 1));
    }
  }

  lemma SameBitsAreNoDifference(a: bv8, b: bv8, n: int)
    requires 0 <= n <= 8
    ensures (forall k :: 0 <= k < n ==> SameBit(a, b, k)) <==> forall k :: 0 <= k < n ==> (a ^ b) & Weight(k) == 0
  {
    forall k | 0 <= k < n
      ensures SameBit(a, b, k) <==> (a ^ b) & Weight(k) == 0
    {
      SingleBitDifference(a, b, Weight(k));
    }
  }

  lemma MaskedByteKeepsLeadingBits(a: bv8, b: bv8, n: int)
    requires 0 <= n < 8
    ensures a & MaskByte(n) == b & MaskByte(n) <==> forall k :: 0 <= k < n ==> SameBit(a, b, k)
  {
    DifferenceUnderMask(a, b, MaskByte(n));
    NoBitUnderMask(a ^ b, n);
    SameBitsAreNoDifference(a, b, n);
  }

  lemma EveryBit(x: bv8)
    ensures x == 0 <==> forall k :: 0 <= k < 8 ==> x & Weight(k) == 0
  {
    if forall k :: 0 <= k < 8 ==> x & Weight(k) == 0 {
      assert x & Weight(0) == 0 && x & Weight(1) == 0 && x & Weight(2) == 0 && x & Weight(3) == 0;
      assert x & Weight(4) == 0 && x & Weight(5) == 0 && x & Weight(6) == 0 && x & Weight(7) == 0;
    }
  }

  lemma SameByte(a: bv8, b: bv8)
    ensures a == b <==> a ^ b == 0
  {
  }

  lemma WholeByte(a: bv8, b: bv8)
    ensures a == b <==> forall k :: 0 <= k < 8 ==> SameBit(a, b, k)
  {
    SameByte(a, b);
    EveryBit(a ^ b);
    SameBitsAreNoDifference(a, b, 8);
  }

  lemma FullAndEmptyMask(b: bv8, n: int)
    ensures n >= 8 ==> b & MaskByte(n) == b
    ensures n <= 0 ==> b & MaskByte(n) == 0
  {
  }

  /** Two bytes agree on their first n bits. */
  predicate SameLeading(a: bv8, b: bv8, n: int) {
    forall k :: 0 <= k < 8 && k < n ==> SameBit(a, b, k)
  }

  lemma MaskComparesLeadingBits(a: bv8, b: bv8, n: int)
    ensures a & MaskByte(n) == b & MaskByte(n) <==> SameLeading(a, b, n)
  {
    FullAndEmptyMask(a, n);
    FullAndEmptyMask(b, n);
    if n >= 8 {
      WholeByte(a, b);
    } else if n > 0 {
      MaskedByteKeepsLeadingBits(a, b, n);
    }
  }

  // ----- Addresses -----

  predicate SameBits(a: Ip, b: Ip, n: int) {
    forall j :: 0 <= j < 128 && j < n ==> (Bit(a, j) <==> Bit(b, j))
  }

  lemma MaskedAt(ip: Ip, ones: int, i: int)
    requires 0 <= i < 16
    ensures Masked(ip, ones)[i] == ip[i] & MaskByte(ones - 8 * i)
  {
  }

  lemma MaskedByte(a: Ip, b: Ip, n: int, i: int)
    requires 0 <= i < 16
    ensures Masked(a, n)[i] == Masked(b, n)[i] <==> SameLeading(a[i], b[i], n - 8 * i)
  {
    MaskedAt(a, n, i);
    MaskedAt(b, n, i);
    MaskComparesLeadingBits(a[i], b[i], n - 8 * i);
  }

  lemma SameBitsByByte(a: Ip, b: Ip, n: int)
    ensures SameBits(a, b, n) <==> forall i :: 0 <= i < 16 ==> SameLeading(a[i], b[i], n - 8 * i)
  {
    if SameBits(a, b, n) {
      forall i, k | 0 <= i < 16 && 0 <= k < 8 && k < n - 8 * i
        ensures SameBit(a[i], b[i], k)
      {
        assert Bit(a, 8 * i + k) <==> Bit(b, 8 * i + k);
      }
    }
    if forall i :: 0 <= i < 16 ==> SameLeading(a[i], b[i], n - 8 * i) {
      forall j | 0 <= j < 128 && j < n
        ensures Bit(a, j) <==> Bit(b, j)
      {
        assert SameLeading(a[j / 8], b[j / 8], n - 8 * (j / 8));
        assert SameBit(a[j / 8], b[j / 8], j % 8);
      }
    }
  }

  /** Two addresses have the same network exactly when they share their first n bits. */
  lemma MaskedKeepsLeadingBits(a: Ip, b: Ip, n: int)
    ensures Masked(a, n) == Masked(b, n) <==> SameBits(a, b, n)
  {
    SameBitsByByte(a, b, n);
    forall i | 0 <= i < 16
      ensures Masked(a, n)[i] == Masked(b, n)[i] <==> SameLeading(a[i], b[i], n - 8 * i)
    {
      MaskedByte(a, b, n, i);
    }
    if SameBits(a, b, n) {
      assert Masked(a, n) == Masked(b, n);
    }
  }

  lemma MaskByteBits(k: int, n: int)
    requires 0 <= k < 8
    ensures MaskByte(n) & Weight(k) == if k < n then Weight(k) else 0
  {
  }

  lemma MaskedBit(b: bv8, m: bv8, w: bv8)
    ensures m & w == w ==> b & m & w == b & w
    ensures m & w == 0 ==> b & m & w == 0
  {
  }

  lemma MaskedByteBits(b: bv8, k: int, n: int)
    requires 0 <= k < 8
    ensures ByteBit(b & MaskByte(n), k) <==> k < n && ByteBit(b, k)
  {
    MaskByteBits(k, n);
    MaskedBit(b, MaskByte(n), Weight(k));
  }

  /** A network has the first n bits of the address and zeros behind them. */
  lemma MaskedBits(ip: Ip, n: int, j: int)
    requires 0 <= j < 128
    ensures Bit(Masked(ip, n), j) <==> j < n && Bit(ip, j)
  {
    var i, k := j / 8, j % 8;
    MaskedAt(ip, n, i);
    MaskedByteBits(ip[i], k, n - 8 * i);
  }

  lemma MappedByPrefix(ip: Ip)
    ensures IsMapped(ip) <==> ip[..12] == V4_PREFIX
  {
    if IsMapped(ip) {
      assert forall i :: 0 <= i < 12 ==> ip[..12][i] == ip[i];
      assert ip[..12] == V4_PREFIX;
    }
    if ip[..12] == V4_PREFIX {
      forall i | 0 <= i < 12
        ensures ip[i] == V4_PREFIX[i]
      {
        assert ip[i] == ip[..12][i];
      }
    }
  }

  lemma MaskOnlyClears(b: bv8, n: int)
    ensures b & MaskByte(n) == 0xff ==> n >= 8 && b == 0xff
    ensures n >= 8 ==> b & MaskByte(n) == b
  {
  }

  /** Masking an address that is not IPv4-mapped never makes it look IPv4-mapped. */
  lemma MaskingNeverYieldsMapped(ip: Ip, n: int)
    requires !IsMapped(ip)
    ensures !IsMapped(Masked(ip, n))
  {
    var m := Masked(ip, n);
    if IsMapped(m) {
      MaskOnlyClears(ip[11], n - 88);
      forall i | 0 <= i < 12
        ensures ip[i] == m[i]
      {
        MaskOnlyClears(ip[i], n - 8 * i);
      }
    }
  }

  /**
    The three kinds of buckets: one for everything that is no address, the dotted quad of
    an IPv4 address, and for an IPv6 address its network of the configured length, or of
    64 bits if that length is none.
   */
  lemma BucketsByShape(lib: Library, ip: Ip, prefixLen: int) returns (network: Ip)
    ensures BucketIp(lib, None, prefixLen) == "unknown"
    ensures ip[..12] == [0, 0, 0, 0, 0, 0, 0, 0, 0, 0, 0xff, 0xff] ==>
              BucketIp(lib, Some(ip), prefixLen) == lib.text4(ip[12..])
    ensures var p := if 1 <= prefixLen <= 128 then prefixLen else 64;
            && IsNetwork(network, ip, p)
            && (ip[..12] != [0, 0, 0, 0, 0, 0, 0, 0, 0, 0, 0xff, 0xff] ==>
                  BucketIp(lib, Some(ip), prefixLen) == lib.text6(network) + "/" + lib.itoa(p))
  {
    var p := EffectivePrefix(prefixLen);
    MappedByPrefix(ip);
    network := Masked(ip, p);
    forall j | 0 <= j < 128
      ensures Bit(network, j) <==> j < p && Bit(ip, j)
    {
      MaskedBits(ip, p, j);
    }
  }

  /** The first p bits of the address, and zeros. */
  predicate IsNetwork(network: Ip, ip: Ip, p: int) {
    forall j :: 0 <= j < 128 ==> (Bit(network, j) <==> j < p && Bit(ip, j))
  }

  /**
    Two addresses share a bucket exactly when they are the same IPv4 address or two IPv6
    addresses that agree on the configured prefix; no IPv4 bucket is an IPv6 bucket, and
    no address shares the bucket of the unparseable ones.
   */
  lemma KeyPartition(lib: Library, a: Option<Ip>, b: Option<Ip>, prefixLen: int)
    requires lib.Faithful()
    ensures BucketIp(lib, a, prefixLen) == BucketIp(lib, b, prefixLen)
       <==> || (a.None? && b.None?)
            || (a.Some? && b.Some? && a.value[..12] == V4_PREFIX && a == b)
            || (a.Some? && b.Some? && a.value[..12] != V4_PREFIX && b.value[..12] != V4_PREFIX
                && SameBits(a.value, b.value, if 1 <= prefixLen <= 128 then prefixLen else 64))
  {
    if a.Some? && b.Some? {
      SameBucket(lib, a.value, b.value, prefixLen);
    }
    NetworkTextHasSlash(lib, a, prefixLen);
    NetworkTextHasSlash(lib, b, prefixLen);
  }

  lemma SameBucket(lib: Library, a: Ip, b: Ip, prefixLen: int)
    requires lib.Faithful()
    ensures IsMapped(a) <==> a[..12] == V4_PREFIX
    ensures IsMapped(b) <==> b[..12] == V4_PREFIX
    ensures IsMapped(a) && IsMapped(b) ==>
              (BucketIp(lib, Some(a), prefixLen) == BucketIp(lib, Some(b), prefixLen) <==> a == b)
    ensures !IsMapped(a) && !IsMapped(b) ==>
              (BucketIp(lib, Some(a), prefixLen) == BucketIp(lib, Some(b), prefixLen)
               <==> SameBits(a, b, EffectivePrefix(prefixLen)))
  {
    var p := EffectivePrefix(prefixLen);
    MappedByPrefix(a);
    MappedByPrefix(b);
    MaskedKeepsLeadingBits(a, b, p);
    if IsMapped(a) && IsMapped(b) {
      MappedIsTail(a, b);
    } else if !IsMapped(a) && !IsMapped(b) {
      MaskingNeverYieldsMapped(a, p);
      MaskingNeverYieldsMapped(b, p);
      MappedByPrefix(Masked(a, p));
      MappedByPrefix(Masked(b, p));
      SameSuffix(lib.text6(Masked(a, p)), lib.text6(Masked(b, p)), lib.itoa(p));
    }
  }

  lemma MappedIsTail(a: Ip, b: Ip)
    requires IsMapped(a) && IsMapped(b)
    ensures a[12..] == b[12..] <==> a == b
  {
    if a[12..] == b[12..] {
      forall i | 0 <= i < 16
        ensures a[i] == b[i]
      {
        if i >= 12 {
          assert a[12..][i - 12] == b[12..][i - 12];
        }
      }
    }
  }

  lemma SameSuffix(x: string, y: string, suffix: string)
    ensures x + "/" + suffix == y + "/" + suffix <==> x == y
  {
    var xs, ys := x + "/" + suffix, y + "/" + suffix;
    if xs == ys {
      assert |x| == |y|;
      assert xs[..|x|] == x && ys[..|y|] == y;
    }
  }

  lemma NetworkTextHasSlash(lib: Library, ip: Option<Ip>, prefixLen: int)
    requires lib.Faithful()
    ensures '/' in BucketIp(lib, ip, prefixLen) <==> ip.Some? && ip.value[..12] != V4_PREFIX
    ensures BucketIp(lib, ip, prefixLen) == "unknown" ==> ip.None?
    ensures BucketIp(lib, ip, prefixLen) != ""
  {
    if ip.Some? {
      MappedByPrefix(ip.value);
    }
    if ip.Some? && !IsMapped(ip.value) {
      var p := EffectivePrefix(prefixLen);
      var host := lib.text6(Masked(ip.value, p));
      assert (host + "/" + lib.itoa(p))[|host|] == '/';
      assert '/' !in "unknown";
    }
  }

  // ----- The key of a request -----

  datatype Sender = Sender(remoteAddr: string, forwardedFor: string)

  datatype KeyConfig = KeyConfig(trustedProxy: string, ipv6Prefix: int)

  function DirectIp(lib: Library, remoteAddr: string): Option<Ip> {
    match lib.splitHost(remoteAddr)
    case None => lib.parse(remoteAddr)
    case Some(host) => lib.parse(host)
  }

  predicate IsTrustedHop(lib: Library, remoteAddr: string, trusted: string) {
    trusted != "" &&
    match lib.splitHost(remoteAddr)
    case None => remoteAddr == trusted
    case Some(host) => host == trusted
  }

  /** The address a request is held to. */
  function SenderIp(lib: Library, cfg: KeyConfig, r: Sender): Option<Ip> {
    var forwarded := Rightmost(r.forwardedFor, lib.parse);
    if IsTrustedHop(lib, r.remoteAddr, cfg.trustedProxy) && forwarded.Some? then forwarded
    else DirectIp(lib, r.remoteAddr)
  }

  /**
    Who sent it, in the request's own terms: behind the configured proxy the right-most
    address of the header, if there is one, and in every other case the peer. The peer is
    the host part of the remote address, or all of it if it has no parts.
   */
  lemma SenderByHop(lib: Library, cfg: KeyConfig, r: Sender)
    ensures var split := lib.splitHost(r.remoteAddr);
            var peer := if split.Some? then split.value else r.remoteAddr;
            SenderIp(lib, cfg, r) ==
            if cfg.trustedProxy != "" && peer == cfg.trustedProxy && Rightmost(r.forwardedFor, lib.parse).Some?
            then Rightmost(r.forwardedFor, lib.parse)
            else lib.parse(peer)
  {
  }

  method ClientIp(lib: Library, cfg: KeyConfig, r: Sender) returns (key: string)
    ensures key == BucketIp(lib, SenderIp(lib, cfg, r), cfg.ipv6Prefix)
    ensures var split := lib.splitHost(r.remoteAddr);
            var peer := if split.Some? then split.value else r.remoteAddr;
            var forwarded := Rightmost(r.forwardedFor, lib.parse);
            key == BucketIp(lib, if cfg.trustedProxy != "" && peer == cfg.trustedProxy && forwarded.Some?
                                 then forwarded else lib.parse(peer), cfg.ipv6Prefix)
    ensures lib.Faithful() ==> key != ""
  {
    var ip := DirectIp(lib, r.remoteAddr);
    if IsTrustedHop(lib, r.remoteAddr, cfg.trustedProxy) {
      var forwarded := ParseForwardedFor(r.forwardedFor, lib.parse);
      if forwarded.Some? {
        ip := forwarded;
      }
    }
    key := BucketIp(lib, ip, cfg.ipv6Prefix);
    if lib.Faithful() {
      NetworkTextHasSlash(lib, ip, cfg.ipv6Prefix);
    }
  }

  /**
    A client cannot choose its key: from anywhere but the trusted proxy the header is
    ignored, and behind the proxy, which appends the address it saw, whatever the client
    wrote in front of that address is ignored.
   */
  lemma ForgedHeaderIsIgnored(lib: Library, cfg: KeyConfig, remoteAddr: string, peer: string, forged: string,
                              before: string, appended: string, after: string)
    requires lib.splitHost(remoteAddr) == Some(peer) || (lib.splitHost(remoteAddr) == None && peer == remoteAddr)
    requires Blank(before) && Blank(after) && Solid(appended) && appended != "" && ',' !in appended
    requires lib.parse(appended).Some?
    ensures cfg.trustedProxy == "" || peer != cfg.trustedProxy ==>
              SenderIp(lib, cfg, Sender(remoteAddr, forged)) == lib.parse(peer)
    ensures cfg.trustedProxy != "" && peer == cfg.trustedProxy ==>
              SenderIp(lib, cfg, Sender(remoteAddr, forged + "," + (before + appended + after))) == lib.parse(appended)
  {
    LastPartDecides(forged, before, appended, after, lib.parse);
  }
}
