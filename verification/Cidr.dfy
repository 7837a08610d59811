/** Addresses, address ranges, and the range tables the trust decision uses. */
module Cidr {
  type U32 = x: nat | x < 0x1_0000_0000
  type U128 = x: nat | x < 0x1_0000_0000_0000_0000_0000_0000_0000_0000
  type Len32 = n: nat | n <= 32
  type Len128 = n: nat | n <= 128

  /** An address; IPv4-mapped IPv6 addresses are `V4` (section 2.5.5.2 of RFC 4291). */
  datatype Addr = V4(x: U32) | V6(y: U128)

  /** The 16 bytes `net.ParseIP` returns, brought to their family by `To4`. */
  function ToAddr(bytes: U128): Addr {
    if bytes / 0x1_0000_0000 == 0xFFFF then V4(bytes % 0x1_0000_0000) else V6(bytes)
  }

  /** A `net.IPNet`. `NoMask` is the range built with `net.CIDRMask(0, 0)`, whose mask is nil. */
  datatype Net = Net4(base: U32, len: Len32) | Net6(base6: U128, len6: Len128) | NoMask

  function Pow2(n: nat): (p: nat)
    ensures p >= 1
  {
    if n == 0 then 1 else 2 * Pow2(n - 1)
  }

  /** Prefix equality of section 3.1 of RFC 4632. */
  predicate Covers32(base: nat, len: Len32, x: nat) {
    x / Pow2(32 - len) == base / Pow2(32 - len)
  }

  predicate Covers128(base: nat, len: Len128, y: nat) {
    y / Pow2(128 - len) == base / Pow2(128 - len)
  }

  /** `networkNumberAndMask`: a range written in IPv4-mapped form is a range of IPv4. */
  function Canonical(n: Net): Net {
    if n.Net6? && ToAddr(n.base6).V4? then
      Net4(ToAddr(n.base6).x, if n.len6 >= 96 then n.len6 - 96 else 0)
    else n
  }

  /** `IPNet.Contains`. */
  predicate Contains(n: Net, a: Addr) {
    match Canonical(n)
    case Net4(base, len) => a.V4? && Covers32(base, len, a.x)
    case Net6(base, len) => a.V6? && Covers128(base, len, a.y)
    case NoMask => false
  }

  ghost predicate InTable(table: seq<Net>, a: Addr) {
    exists i :: 0 <= i < |table| && Contains(table[i], a)
  }

  lemma InTables(left: seq<Net>, right: seq<Net>, a: Addr)
    ensures InTable(left + right, a) <==> InTable(left, a) || InTable(right, a)
  {
    var all := left + right;
    forall i | 0 <= i < |left| ensures all[i] == left[i] {}
    forall i | 0 <= i < |right| ensures all[|left| + i] == right[i] {}
    if InTable(right, a) {
      var i :| 0 <= i < |right| && Contains(right[i], a);
      assert Contains(all[|left| + i], a);
    }
    if InTable(left, a) {
      var i :| 0 <= i < |left| && Contains(left[i], a);
      assert Contains(all[i], a);
    }
  }

  // ---------------------------------------------------------------- the tables

  /** The IPv4 entries of `privateCIDRs`. */
  const PRIVATE_V4: seq<Net> := [
    Net4(0x0a00_0000, 8),  // 10.0.0.0/8
    Net4(0x6440_0000, 10),  // 100.64.0.0/10
    Net4(0x7f00_0000, 8),  // 127.0.0.0/8
    Net4(0xa9fe_0000, 16),  // 169.254.0.0/16
    Net4(0xac10_0000, 12),  // 172.16.0.0/12
    Net4(0xc000_0000, 24),  // 192.0.0.0/24
    Net4(0xc000_0200, 24),  // 192.0.2.0/24
    Net4(0xc0a8_0000, 16),  // 192.168.0.0/16
    Net4(0xc612_0000, 15),  // 198.18.0.0/15
    Net4(0xc633_6400, 24),  // 198.51.100.0/24
    Net4(0xcb00_7100, 24),  // 203.0.113.0/24
    Net4(0xe000_0000, 4),  // 224.0.0.0/4
    Net4(0xf000_0000, 4),  // 240.0.0.0/4
    Net4(0xffff_ffff, 32)  // 255.255.255.255/32
  ]

  /** Its IPv6 entries. */
  const PRIVATE_V6: seq<Net> := [
    Net6(0x0000_0000_0000_0000_0000_0000_0000_0000, 128),  // ::/128
    Net6(0x0000_0000_0000_0000_0000_0000_0000_0001, 128),  // ::1/128
    Net6(0x0100_0000_0000_0000_0000_0000_0000_0000, 64),  // 100::/64
    Net6(0x2001_0010_0000_0000_0000_0000_0000_0000, 28),  // 2001:10::/28
    Net6(0x2001_0db8_0000_0000_0000_0000_0000_0000, 32),  // 2001:db8::/32
    Net6(0x3fff_0000_0000_0000_0000_0000_0000_0000, 20),  // 3fff::/20
    Net6(0xfc00_0000_0000_0000_0000_0000_0000_0000, 7),  // fc00::/7
    Net6(0xfe80_0000_0000_0000_0000_0000_0000_0000, 10),  // fe80::/10
    Net6(0xfec0_0000_0000_0000_0000_0000_0000_0000, 10),  // fec0::/10
    Net6(0xff00_0000_0000_0000_0000_0000_0000_0000, 8)  // ff00::/8
  ]

  /** Its 6to4 entries. */
  const PRIVATE_6TO4: seq<Net> := [
    Net6(0x2002_0a00_0000_0000_0000_0000_0000_0000, 24),  // 2002:a00::/24
    Net6(0x2002_7f00_0000_0000_0000_0000_0000_0000, 24),  // 2002:7f00::/24
    Net6(0x2002_a9fe_0000_0000_0000_0000_0000_0000, 32),  // 2002:a9fe::/32
    Net6(0x2002_ac10_0000_0000_0000_0000_0000_0000, 28),  // 2002:ac10::/28
    Net6(0x2002_c000_0000_0000_0000_0000_0000_0000, 40),  // 2002:c000::/40
    Net6(0x2002_c000_0200_0000_0000_0000_0000_0000, 40),  // 2002:c000:200::/40
    Net6(0x2002_c0a8_0000_0000_0000_0000_0000_0000, 32),  // 2002:c0a8::/32
    Net6(0x2002_c612_0000_0000_0000_0000_0000_0000, 31),  // 2002:c612::/31
    Net6(0x2002_c633_6400_0000_0000_0000_0000_0000, 40),  // 2002:c633:6400::/40
    Net6(0x2002_cb00_7100_0000_0000_0000_0000_0000, 40),  // 2002:cb00:7100::/40
    Net6(0x2002_e000_0000_0000_0000_0000_0000_0000, 20),  // 2002:e000::/20
    Net6(0x2002_f000_0000_0000_0000_0000_0000_0000, 20),  // 2002:f000::/20
    Net6(0x2002_ffff_ffff_0000_0000_0000_0000_0000, 48)  // 2002:ffff:ffff::/48
  ]

  /** Its Teredo entries. */
  const PRIVATE_TEREDO: seq<Net> := [
    Net6(0x2001_0000_0a00_0000_0000_0000_0000_0000, 40),  // 2001:0:a00::/40
    Net6(0x2001_0000_7f00_0000_0000_0000_0000_0000, 40),  // 2001:0:7f00::/40
    Net6(0x2001_0000_a9fe_0000_0000_0000_0000_0000, 48),  // 2001:0:a9fe::/48
    Net6(0x2001_0000_ac10_0000_0000_0000_0000_0000, 44),  // 2001:0:ac10::/44
    Net6(0x2001_0000_c000_0000_0000_0000_0000_0000, 56),  // 2001:0:c000::/56
    Net6(0x2001_0000_c000_0200_0000_0000_0000_0000, 56),  // 2001:0:c000:200::/56
    Net6(0x2001_0000_c0a8_0000_0000_0000_0000_0000, 48),  // 2001:0:c0a8::/48
    Net6(0x2001_0000_c612_0000_0000_0000_0000_0000, 47),  // 2001:0:c612::/47
    Net6(0x2001_0000_c633_6400_0000_0000_0000_0000, 56),  // 2001:0:c633:6400::/56
    Net6(0x2001_0000_cb00_7100_0000_0000_0000_0000, 56),  // 2001:0:cb00:7100::/56
    Net6(0x2001_0000_e000_0000_0000_0000_0000_0000, 36),  // 2001:0:e000::/36
    Net6(0x2001_0000_f000_0000_0000_0000_0000_0000, 36),  // 2001:0:f000::/36
    Net6(0x2001_0000_ffff_ffff_0000_0000_0000_0000, 64)  // 2001:0:ffff:ffff::/64
  ]

  /** `privateCIDRs`. */
  const PRIVATE: seq<Net> := PRIVATE_V4 + PRIVATE_V6 + PRIVATE_6TO4 + PRIVATE_TEREDO

  /** `cloudflareRanges`. */
  const CLOUDFLARE: seq<Net> := [
    Net4(0xadf5_3000, 20),  // 173.245.48.0/20
    Net4(0x6715_f400, 22),  // 103.21.244.0/22
    Net4(0x6716_c800, 22),  // 103.22.200.0/22
    Net4(0x671f_0400, 22),  // 103.31.4.0/22
    Net4(0x8d65_4000, 18),  // 141.101.64.0/18
    Net4(0x6ca2_c000, 18),  // 108.162.192.0/18
    Net4(0xbe5d_f000, 20),  // 190.93.240.0/20
    Net4(0xbc72_6000, 20),  // 188.114.96.0/20
    Net4(0xc5ea_f000, 22),  // 197.234.240.0/22
    Net4(0xc629_8000, 17),  // 198.41.128.0/17
    Net4(0xa29e_0000, 15),  // 162.158.0.0/15
    Net4(0x6810_0000, 13),  // 104.16.0.0/13
    Net4(0x6818_0000, 14),  // 104.24.0.0/14
    Net4(0xac40_0000, 13),  // 172.64.0.0/13
    Net4(0x8300_4800, 22),  // 131.0.72.0/22
    Net6(0x2400_cb00_0000_0000_0000_0000_0000_0000, 32),  // 2400:cb00::/32
    Net6(0x2606_4700_0000_0000_0000_0000_0000_0000, 32),  // 2606:4700::/32
    Net6(0x2803_f800_0000_0000_0000_0000_0000_0000, 32),  // 2803:f800::/32
    Net6(0x2405_b500_0000_0000_0000_0000_0000_0000, 32),  // 2405:b500::/32
    Net6(0x2405_8100_0000_0000_0000_0000_0000_0000, 32),  // 2405:8100::/32
    Net6(0x2a06_98c0_0000_0000_0000_0000_0000_0000, 29),  // 2a06:98c0::/29
    Net6(0x2c0f_f248_0000_0000_0000_0000_0000_0000, 32)  // 2c0f:f248::/32
  ]

  /** Carrier-grade NAT, the one IPv4 entry without embedded forms. */
  const CGN := PRIVATE_V4[1]
  const EMBEDDED_V4: seq<Net> := PRIVATE_V4[..1] + PRIVATE_V4[2..]

  // ---------------------------------------------------------------- embedding IPv4 in IPv6

  /** The powers of two that the tables need. */
  lemma Pow2Values()
    ensures Pow2(0) == 0x1
    ensures Pow2(4) == 0x10
    ensures Pow2(6) == 0x40
    ensures Pow2(8) == 0x100
    ensures Pow2(9) == 0x200
    ensures Pow2(12) == 0x1000
    ensures Pow2(16) == 0x1_0000
    ensures Pow2(22) == 0x40_0000
    ensures Pow2(24) == 0x100_0000
    ensures Pow2(25) == 0x200_0000
    ensures Pow2(32) == 0x1_0000_0000
    ensures Pow2(64) == 0x1_0000_0000_0000_0000
    ensures Pow2(80) == 0x1_0000_0000_0000_0000_0000
    ensures Pow2(96) == 0x1_0000_0000_0000_0000_0000_0000
    ensures Pow2(100) == 0x10_0000_0000_0000_0000_0000_0000
    ensures Pow2(108) == 0x1000_0000_0000_0000_0000_0000_0000
    ensures Pow2(112) == 0x1_0000_0000_0000_0000_0000_0000_0000
    ensures Pow2(118) == 0x40_0000_0000_0000_0000_0000_0000_0000
    ensures Pow2(120) == 0x100_0000_0000_0000_0000_0000_0000_0000
    ensures Pow2(121) == 0x200_0000_0000_0000_0000_0000_0000_0000
  {
    assert Pow2(1) == 2 && Pow2(2) == 4 && Pow2(3) == 8 && Pow2(4) == 16;
    Pow2Add(4, 2);
    Pow2Add(4, 4);
    Pow2Add(8, 1);
    Pow2Add(8, 4);
    Pow2Add(8, 8);
    Pow2Add(16, 6);
    Pow2Add(16, 8);
    Pow2Add(16, 9);
    Pow2Add(16, 16);
    Pow2Add(32, 32);
    Pow2Add(64, 16);
    Pow2Add(64, 32);
    Pow2Add(32, 4);
    Pow2Add(64, 36);
    Pow2Add(32, 12);
    Pow2Add(64, 44);
    Pow2Add(32, 16);
    Pow2Add(64, 48);
    Pow2Add(32, 22);
    Pow2Add(64, 54);
    Pow2Add(32, 24);
    Pow2Add(64, 56);
    Pow2Add(32, 25);
    Pow2Add(64, 57);
  }

  lemma SevenBitPowers()
    ensures Pow2(9) == 0x200
    ensures Pow2(25) == 0x200_0000
    ensures Pow2(121) == 0x200_0000_0000_0000_0000_0000_0000_0000
  {
    Pow2Values();
  }

  lemma SixteenBitPowers()
    ensures Pow2(0) == 0x1
    ensures Pow2(16) == 0x1_0000
    ensures Pow2(112) == 0x1_0000_0000_0000_0000_0000_0000_0000
  {
    Pow2Values();
  }

  lemma TwentyEightBitPowers()
    ensures Pow2(4) == 0x10
    ensures Pow2(28) == 0x1000_0000
    ensures Pow2(100) == 0x10_0000_0000_0000_0000_0000_0000
  {
    Pow2Values();
    Pow2Add(4, 24);
  }

  lemma EmbeddingPowers()
    ensures Pow2(32) == 0x1_0000_0000
    ensures Pow2(64) == 0x1_0000_0000_0000_0000
    ensures Pow2(80) == 0x1_0000_0000_0000_0000_0000
  {
    Pow2Values();
  }

  /** The address with `x` placed right after a prefix of `off` bits. */
  function Embed(prefix: nat, off: nat, x: nat, low: nat): nat
    requires off <= 96
  {
    (prefix * 0x1_0000_0000 + x) * Pow2(96 - off) + low
  }

  lemma {:induction false} Pow2Add(a: nat, b: nat)
    ensures Pow2(a + b) == Pow2(a) * Pow2(b)
  {
    if a > 0 {
      Pow2Add(a - 1, b);
      assert Pow2(a + b) == 2 * (Pow2(a - 1) * Pow2(b)) == Pow2(a) * Pow2(b);
    }
  }

  lemma Distribute(a: nat, b: nat, d: nat)
    ensures (a + b) * d == a * d + b * d && b * d >= 0
  {
  }

  lemma MulGap(a: nat, b: nat, d: nat)
    requires a < b
    ensures a * d + d <= b * d
  {
    Distribute(a, b - a, d);
    Distribute(1, b - a - 1, d);
  }

  lemma DivUnique(n: nat, d: nat, q: nat, r: nat)
    requires n == q * d + r && r < d
    ensures n / d == q
  {
    var q' := n / d;
    assert n == q' * d + n % d;
    if q < q' {
      MulGap(q, q', d);
    } else if q' < q {
      MulGap(q', q, d);
    }
  }

  /** Dividing by `k * l` drops a low part below `l` and then divides by `k`. */
  lemma DropLow(y: nat, low: nat, k: nat, l: nat)
    requires low < l && k > 0
    ensures (y * l + low) / (k * l) == y / k
  {
    var q, r := y / k, y % k;
    Regroup(q, k, r, l);
    MulGap(r, k, l);
    DivUnique(y * l + low, k * l, q, r * l + low);
  }

  lemma Regroup(q: nat, k: nat, r: nat, l: nat)
    ensures (q * k + r) * l == q * (k * l) + r * l
  {
    assert (q * k) * l == q * (k * l);
  }

  /** The top bits of an embedded address are the prefix and the top bits of the IPv4 address. */
  lemma {:induction false} EmbedTop(prefix: nat, off: nat, x: nat, low: nat, len: Len32)
    requires off <= 96 && low < Pow2(96 - off)
    ensures Embed(prefix, off, x, low) / Pow2(128 - (off + len)) == prefix * Pow2(len) + x / Pow2(32 - len)
  {
    FullWidth(len);
    RestWidth(off, len);
    TopOfSum(prefix, 0x1_0000_0000, x, low, Pow2(len), Pow2(32 - len), Pow2(96 - off), Pow2(128 - (off + len)));
  }

  lemma RestWidth(off: nat, len: Len32)
    requires off <= 96
    ensures Pow2(128 - (off + len)) == Pow2(32 - len) * Pow2(96 - off)
  {
    assert 128 - (off + len) == (32 - len) + (96 - off);
    Pow2Add(32 - len, 96 - off);
  }

  lemma FullWidth(len: Len32)
    ensures Pow2(len) * Pow2(32 - len) == 0x1_0000_0000
  {
    Pow2Add(len, 32 - len);
    EmbeddingPowers();
  }

  lemma TopOfSum(prefix: nat, top: nat, x: nat, low: nat, p: nat, k: nat, l: nat, d: nat)
    requires k > 0 && low < l && top == p * k && d == k * l && d > 0
    ensures ((prefix * top + x) * l + low) / d == prefix * p + x / k
  {
    DropLow(prefix * top + x, low, k, l);
    assert prefix * top == (prefix * p) * k;
    AddMultiple(prefix * p, x, k);
  }

  /** One lemma for both embeddings: the embedded address lies in the embedded range exactly when the
      IPv4 address lies in the IPv4 range. */
  lemma EmbedCovers(prefix: nat, off: nat, x: nat, low: nat, base: nat, len: Len32)
    requires off <= 96 && low < Pow2(96 - off)
    ensures Covers128(Embed(prefix, off, base, 0), off + len, Embed(prefix, off, x, low)) <==> Covers32(base, len, x)
  {
    EmbedTop(prefix, off, x, low, len);
    EmbedTop(prefix, off, base, 0, len);
  }

  lemma AddMultiple(p: nat, x: nat, k: nat)
    requires k > 0
    ensures (p * k + x) / k == p + x / k
  {
    assert p * k + x == (p + x / k) * k + x % k;
    DivUnique(p * k + x, k, p + x / k, x % k);
  }

  lemma DivTwice(x: nat, a: nat, b: nat)
    requires a > 0 && b > 0
    ensures x / (b * a) == (x / a) / b
  {
    assert x == (x / a) * a + x % a;
    DropLow(x / a, x % a, b, a);
  }

  /** Bit `i` of a number, counted from the lowest. */
  predicate Bit(x: nat, i: nat) {
    x / Pow2(i) % 2 == 1
  }

  lemma HalveTop(x: nat, k: nat)
    ensures x / Pow2(k) == 2 * (x / Pow2(k + 1)) + if Bit(x, k) then 1 else 0
  {
    DivTwice(x, Pow2(k), 2);
  }

  lemma {:induction false} SmallTop(x: nat, w: nat)
    requires x < Pow2(w)
    ensures x / Pow2(w) == 0
  {
    DivUnique(x, Pow2(w), 0, x);
  }

  /** Two numbers of `w` bits agree above bit `k` exactly when they agree bit by bit. */
  lemma {:induction false} SameTop(x: nat, y: nat, w: nat, k: nat)
    requires x < Pow2(w) && y < Pow2(w) && k <= w
    ensures x / Pow2(k) == y / Pow2(k) <==> forall i :: k <= i < w ==> (Bit(x, i) <==> Bit(y, i))
    decreases w - k
  {
    if k == w {
      SmallTop(x, w);
      SmallTop(y, w);
    } else {
      SameTop(x, y, w, k + 1);
      HalveTop(x, k);
      HalveTop(y, k);
      assert (forall i :: k <= i < w ==> (Bit(x, i) <==> Bit(y, i))) <==>
             (Bit(x, k) <==> Bit(y, k)) && forall i :: k + 1 <= i < w ==> (Bit(x, i) <==> Bit(y, i));
    }
  }

  /** A range contains exactly the addresses of its family whose leading bits are its own; one without a
      mask contains none, and a mapped range is one of IPv4. */
  lemma {:induction false} ContainsBits(n: Net, a: Addr)
    ensures Contains(n, a) <==>
            match Canonical(n)
            case Net4(base, len) =>
              a.V4? && forall i: nat :: 32 - len <= i < 32 ==> (Bit(a.x, i) <==> Bit(base, i))
            case Net6(base, len) =>
              a.V6? && forall i: nat :: 128 - len <= i < 128 ==> (Bit(a.y, i) <==> Bit(base, i))
            case NoMask => false
  {
    match Canonical(n)
    case Net4(base, len) =>
      if a.V4? {
        Widths();
        SameTop(a.x, base, 32, 32 - len);
      }
    case Net6(base, len) =>
      if a.V6? {
        Widths();
        SameTop(a.y, base, 128, 128 - len);
      }
    case NoMask =>
  }

  lemma Widths()
    ensures Pow2(32) == 0x1_0000_0000
    ensures Pow2(128) == 0x1_0000_0000_0000_0000_0000_0000_0000_0000
  {
    EmbeddingPowers();
    Pow2Add(64, 64);
  }

  /** The first `m` bits of the range already differ from the prefix. */
  predicate Differs(prefix: nat, off: nat, n: Net, m: nat) {
    n.Net6? && m <= n.len6 && m <= off <= 128 && prefix / Pow2(off - m) != n.base6 / Pow2(128 - m)
  }

  lemma {:induction false} EmbedPrefix(prefix: nat, off: nat, x: U32, low: nat)
    requires off <= 96 && low < Pow2(96 - off)
    ensures Embed(prefix, off, x, low) / Pow2(128 - off) == prefix
  {
    WholeWidth(off);
    PrefixOfSum(prefix, 0x1_0000_0000, x, low, Pow2(96 - off));
  }

  lemma WholeWidth(off: nat)
    requires off <= 96
    ensures Pow2(128 - off) == 0x1_0000_0000 * Pow2(96 - off)
  {
    Pow2Add(32, 96 - off);
    EmbeddingPowers();
  }

  lemma PrefixOfSum(prefix: nat, w: nat, x: nat, low: nat, l: nat)
    requires x < w && low < l
    ensures w * l > 0 && ((prefix * w + x) * l + low) / (w * l) == prefix
  {
    Distribute(w - 1, 1, l);
    DropLow(prefix * w + x, low, w, l);
    DivUnique(prefix * w + x, w, prefix, x);
  }

  /** Equal leading bits stay equal when fewer of them are compared. */
  lemma {:induction false} CoversShorter(base: nat, len: Len128, y: nat, m: nat)
    requires Covers128(base, len, y) && m <= len
    ensures Covers128(base, m, y)
  {
    Pow2Add(len - m, 128 - len);
    DivTwice(y, Pow2(128 - len), Pow2(len - m));
    DivTwice(base, Pow2(128 - len), Pow2(len - m));
  }

  lemma {:induction false} ForeignCoversNone(prefix: nat, off: nat, n: Net, m: nat, x: U32, low: nat)
    requires off <= 96 && low < Pow2(96 - off) && Differs(prefix, off, n, m)
    ensures !Covers128(n.base6, n.len6, Embed(prefix, off, x, low))
  {
    var e := Embed(prefix, off, x, low);
    EmbedPrefix(prefix, off, x, low);
    Pow2Add(off - m, 128 - off);
    DivTwice(e, Pow2(128 - off), Pow2(off - m));
    if Covers128(n.base6, n.len6, e) {
      CoversShorter(n.base6, n.len6, e, m);
    }
  }

  /** Entry by entry, `embedded` is `plain` carried over. */
  ghost predicate IsEmbedding(prefix: nat, off: nat, plain: seq<Net>, embedded: seq<Net>)
    requires off <= 96
  {
    && |embedded| == |plain|
    && forall i :: 0 <= i < |plain| ==>
         && plain[i].Net4? && embedded[i].Net6? && ToAddr(embedded[i].base6).V6?
         && embedded[i].base6 == Embed(prefix, off, plain[i].base, 0)
         && embedded[i].len6 == off + plain[i].len
  }

  /** The same with the powers of two written out. */
  ghost predicate IsShifted(prefix: nat, off: nat, l: nat, plain: seq<Net>, embedded: seq<Net>) {
    && |embedded| == |plain|
    && forall i :: 0 <= i < |plain| ==>
         && plain[i].Net4? && embedded[i].Net6? && ToAddr(embedded[i].base6).V6?
         && embedded[i].base6 == (prefix * 0x1_0000_0000 + plain[i].base) * l
         && embedded[i].len6 == off + plain[i].len
  }

  lemma ShiftedIsEmbedding(prefix: nat, off: nat, l: nat, plain: seq<Net>, embedded: seq<Net>)
    requires off <= 96 && l == Pow2(96 - off) && IsShifted(prefix, off, l, plain, embedded)
    ensures IsEmbedding(prefix, off, plain, embedded)
  {
  }

  lemma SixToFourShifted()
    ensures IsShifted(0x2002, 16, 0x1_0000_0000_0000_0000_0000, EMBEDDED_V4, PRIVATE_6TO4)
  {
  }

  lemma TeredoShifted()
    ensures IsShifted(0x2001_0000, 32, 0x1_0000_0000_0000_0000, EMBEDDED_V4, PRIVATE_TEREDO)
  {
  }

  lemma {:induction false} SixToFourTable()
    ensures IsEmbedding(0x2002, 16, EMBEDDED_V4, PRIVATE_6TO4)
  {
    EmbeddingPowers();
    SixToFourShifted();
    ShiftedIsEmbedding(0x2002, 16, 0x1_0000_0000_0000_0000_0000, EMBEDDED_V4, PRIVATE_6TO4);
  }

  lemma {:induction false} TeredoTable()
    ensures IsEmbedding(0x2001_0000, 32, EMBEDDED_V4, PRIVATE_TEREDO)
  {
    EmbeddingPowers();
    TeredoShifted();
    ShiftedIsEmbedding(0x2001_0000, 32, 0x1_0000_0000_0000_0000, EMBEDDED_V4, PRIVATE_TEREDO);
  }

  /** The ranges can be told from the prefix by their first bits. */
  ghost predicate Foreign(prefix: nat, off: nat, table: seq<Net>) {
    forall i :: 0 <= i < |table| ==> ForeignNet(prefix, off, table[i])
  }

  ghost predicate ForeignNet(prefix: nat, off: nat, n: Net) {
    n.Net6? && ToAddr(n.base6).V6? && exists m :: Differs(prefix, off, n, m)
  }

  /** No base begins with the `m` bits of `top`; `b` cuts off all others. */
  ghost predicate Apart(table: seq<Net>, m: nat, b: nat, top: nat)
    requires b > 0
  {
    forall i :: 0 <= i < |table| ==>
      table[i].Net6? && ToAddr(table[i].base6).V6? && m <= table[i].len6 && table[i].base6 / b != top
  }

  lemma ForeignBy(prefix: nat, off: nat, table: seq<Net>, m: nat, a: nat, b: nat, top: nat)
    requires a > 0 && b > 0
    requires m <= off <= 128 && a == Pow2(off - m) && b == Pow2(128 - m)
    requires Apart(table, m, b, top) && top == prefix / a
    ensures Foreign(prefix, off, table)
  {
    forall i | 0 <= i < |table| ensures ForeignNet(prefix, off, table[i]) {
      assert Differs(prefix, off, table[i], m);
    }
  }

  lemma ForeignBoth(prefix: nat, off: nat, left: seq<Net>, right: seq<Net>)
    requires Foreign(prefix, off, left) && Foreign(prefix, off, right)
    ensures Foreign(prefix, off, left + right)
  {
  }

  lemma SixToFourAndOthers()
    ensures Foreign(0x2002, 16, PRIVATE_V6)
  {
    SixToFourLow();
    SixToFourNear();
    SixToFourHigh();
    InThirds(0x2002, 16, PRIVATE_V6, 3, 5);
  }

  lemma TeredoAndOthers()
    ensures Foreign(0x2001_0000, 32, PRIVATE_V6)
  {
    TeredoLow();
    TeredoNear();
    TeredoHigh();
    InThirds(0x2001_0000, 32, PRIVATE_V6, 3, 5);
  }

  lemma LowApart()
    ensures Apart(PRIVATE_V6[..3], 7, 0x200_0000_0000_0000_0000_0000_0000_0000, 0x10)
  {
  }

  lemma HighApart()
    ensures Apart(PRIVATE_V6[5..], 7, 0x200_0000_0000_0000_0000_0000_0000_0000, 0x10)
  {
  }

  lemma NearApart16()
    ensures Apart(PRIVATE_V6[3..5], 16, 0x1_0000_0000_0000_0000_0000_0000_0000, 0x2002)
  {
  }

  lemma NearApart28()
    ensures Apart(PRIVATE_V6[3..5], 28, 0x10_0000_0000_0000_0000_0000_0000, 0x200_1000)
  {
  }

  lemma SixToFourLow()
    ensures Foreign(0x2002, 16, PRIVATE_V6[..3])
  {
    SevenBitPowers();
    LowApart();
    ForeignBy(0x2002, 16, PRIVATE_V6[..3], 7, 0x200, 0x200_0000_0000_0000_0000_0000_0000_0000, 0x10);
  }

  lemma SixToFourNear()
    ensures Foreign(0x2002, 16, PRIVATE_V6[3..5])
  {
    SixteenBitPowers();
    NearApart16();
    ForeignBy(0x2002, 16, PRIVATE_V6[3..5], 16, 0x1, 0x1_0000_0000_0000_0000_0000_0000_0000, 0x2002);
  }

  lemma SixToFourHigh()
    ensures Foreign(0x2002, 16, PRIVATE_V6[5..])
  {
    SevenBitPowers();
    HighApart();
    ForeignBy(0x2002, 16, PRIVATE_V6[5..], 7, 0x200, 0x200_0000_0000_0000_0000_0000_0000_0000, 0x10);
  }

  lemma TeredoLow()
    ensures Foreign(0x2001_0000, 32, PRIVATE_V6[..3])
  {
    SevenBitPowers();
    LowApart();
    ForeignBy(0x2001_0000, 32, PRIVATE_V6[..3], 7, 0x200_0000, 0x200_0000_0000_0000_0000_0000_0000_0000, 0x10);
  }

  lemma TeredoNear()
    ensures Foreign(0x2001_0000, 32, PRIVATE_V6[3..5])
  {
    TwentyEightBitPowers();
    NearApart28();
    ForeignBy(0x2001_0000, 32, PRIVATE_V6[3..5], 28, 0x10, 0x10_0000_0000_0000_0000_0000_0000, 0x200_1000);
  }

  lemma TeredoHigh()
    ensures Foreign(0x2001_0000, 32, PRIVATE_V6[5..])
  {
    SevenBitPowers();
    HighApart();
    ForeignBy(0x2001_0000, 32, PRIVATE_V6[5..], 7, 0x200_0000, 0x200_0000_0000_0000_0000_0000_0000_0000, 0x10);
  }

  lemma InThirds(prefix: nat, off: nat, table: seq<Net>, i: nat, j: nat)
    requires i <= j <= |table|
    requires Foreign(prefix, off, table[..i]) && Foreign(prefix, off, table[i..j]) && Foreign(prefix, off, table[j..])
    ensures Foreign(prefix, off, table)
  {
    assert table == table[..i] + table[i..j] + table[j..];
    ForeignBoth(prefix, off, table[..i], table[i..j]);
    ForeignBoth(prefix, off, table[..i] + table[i..j], table[j..]);
  }

  lemma TeredoApart()
    ensures Apart(PRIVATE_TEREDO, 16, 0x1_0000_0000_0000_0000_0000_0000_0000, 0x2002)
  {
  }

  lemma SixToFourApart()
    ensures Apart(PRIVATE_6TO4, 16, 0x1_0000_0000_0000_0000_0000_0000_0000, 0x2001)
  {
  }

  lemma SixToFourAndTeredo()
    ensures Foreign(0x2002, 16, PRIVATE_TEREDO)
  {
    SixteenBitPowers();
    TeredoApart();
    ForeignBy(0x2002, 16, PRIVATE_TEREDO, 16, 0x1, 0x1_0000_0000_0000_0000_0000_0000_0000, 0x2002);
  }

  lemma TeredoAndSixToFour()
    ensures Foreign(0x2001_0000, 32, PRIVATE_6TO4)
  {
    SixteenBitPowers();
    SixToFourApart();
    ForeignBy(0x2001_0000, 32, PRIVATE_6TO4, 16, 0x1_0000, 0x1_0000_0000_0000_0000_0000_0000_0000, 0x2001);
  }

  type Low80 = n: nat | n < 0x1_0000_0000_0000_0000_0000
  type Low64 = n: nat | n < 0x1_0000_0000_0000_0000

  /** The 6to4 address of `x` (section 2 of RFC 3056): 2002:x followed by 80 bits. */
  function SixToFour(x: U32, low: Low80): U128 {
    (0x2002 * 0x1_0000_0000 + x) * 0x1_0000_0000_0000_0000_0000 + low
  }

  /** The Teredo address with server `x` (section 4 of RFC 4380): 2001:0:x followed by 64 bits. */
  function Teredo(x: U32, low: Low64): U128 {
    (0x2001_0000 * 0x1_0000_0000 + x) * 0x1_0000_0000_0000_0000 + low
  }

  lemma {:induction false} EmbeddingTable(prefix: nat, off: nat, plain: seq<Net>, embedded: seq<Net>,
                                          x: U32, low: nat, y: U128)
    requires off <= 96 && low < Pow2(96 - off) && y == Embed(prefix, off, x, low)
    requires IsEmbedding(prefix, off, plain, embedded)
    ensures InTable(embedded, V6(y)) <==> InTable(plain, V4(x))
  {
    forall i | 0 <= i < |plain|
      ensures Contains(embedded[i], V6(y)) <==> Contains(plain[i], V4(x))
    {
      EmbedCovers(prefix, off, x, low, plain[i].base, plain[i].len);
    }
  }

  lemma ForeignTable(prefix: nat, off: nat, table: seq<Net>, x: U32, low: nat, y: U128)
    requires off <= 96 && low < Pow2(96 - off) && y == Embed(prefix, off, x, low)
    requires Foreign(prefix, off, table)
    ensures !InTable(table, V6(y))
  {
    forall i | 0 <= i < |table| ensures !Contains(table[i], V6(y)) {
      var m :| Differs(prefix, off, table[i], m);
      ForeignCoversNone(prefix, off, table[i], m, x, low);
    }
  }

  lemma V4Table(y: U128)
    ensures !InTable(PRIVATE_V4, V6(y))
  {
  }

  lemma InPrivate(a: Addr)
    ensures InTable(PRIVATE, a) <==>
            InTable(PRIVATE_V4, a) || InTable(PRIVATE_V6, a) || InTable(PRIVATE_6TO4, a) || InTable(PRIVATE_TEREDO, a)
  {
    InTables(PRIVATE_V4 + PRIVATE_V6 + PRIVATE_6TO4, PRIVATE_TEREDO, a);
    InTables(PRIVATE_V4 + PRIVATE_V6, PRIVATE_6TO4, a);
    InTables(PRIVATE_V4, PRIVATE_V6, a);
  }

  /** A 6to4 address is private exactly when its IPv4 address is in an IPv4 entry other than
      carrier-grade NAT, whatever its low bits. */
  lemma {:induction false} SixToFourPrivate(x: U32, low: Low80)
    ensures InTable(PRIVATE, V6(SixToFour(x, low))) <==> InTable(EMBEDDED_V4, V4(x))
  {
    var y := SixToFour(x, low);
    EmbeddingPowers();
    assert y == Embed(0x2002, 16, x, low);
    InPrivate(V6(y));
    V4Table(y);
    SixToFourAndOthers();
    SixToFourAndTeredo();
    ForeignTable(0x2002, 16, PRIVATE_V6, x, low, y);
    ForeignTable(0x2002, 16, PRIVATE_TEREDO, x, low, y);
    SixToFourTable();
    EmbeddingTable(0x2002, 16, EMBEDDED_V4, PRIVATE_6TO4, x, low, y);
  }

  lemma {:induction false} TeredoPrivate(x: U32, low: Low64)
    ensures InTable(PRIVATE, V6(Teredo(x, low))) <==> InTable(EMBEDDED_V4, V4(x))
  {
    var y := Teredo(x, low);
    EmbeddingPowers();
    assert y == Embed(0x2001_0000, 32, x, low);
    InPrivate(V6(y));
    V4Table(y);
    TeredoAndOthers();
    TeredoAndSixToFour();
    ForeignTable(0x2001_0000, 32, PRIVATE_V6, x, low, y);
    ForeignTable(0x2001_0000, 32, PRIVATE_6TO4, x, low, y);
    TeredoTable();
    EmbeddingTable(0x2001_0000, 32, EMBEDDED_V4, PRIVATE_TEREDO, x, low, y);
  }

  // ---------------------------------------------------------------- the entry without embedded forms

  lemma {:induction false} CoversShorter32(base: nat, len: Len32, x: nat, m: nat)
    requires Covers32(base, len, x) && m <= len
    ensures Covers32(base, m, x)
  {
    Pow2Add(len - m, 32 - len);
    DivTwice(x, Pow2(32 - len), Pow2(len - m));
    DivTwice(base, Pow2(32 - len), Pow2(len - m));
  }

  /** The first four bits of carrier-grade NAT are those of no other IPv4 entry. */
  lemma CgnFirstBits()
    ensures forall i :: 0 <= i < |PRIVATE_V4| ==>
      PRIVATE_V4[i].Net4? && PRIVATE_V4[i].len >= 4 && (PRIVATE_V4[i].base / 0x1000_0000 == 6 <==> i == 1)
  {
  }

  lemma EmbeddedEntry(i: nat)
    requires i < |EMBEDDED_V4|
    ensures var j := if i < 1 then i else i + 1; j < |PRIVATE_V4| && j != 1 && EMBEDDED_V4[i] == PRIVATE_V4[j]
  {
  }

  /** A range of at least four bits holds only addresses with its first four bits. */
  lemma FirstFourBits(n: Net, x: U32)
    requires n.Net4? && n.len >= 4 && Contains(n, V4(x))
    ensures x / 0x1000_0000 == n.base / 0x1000_0000
  {
    CoversShorter32(n.base, n.len, x, 4);
    TwentyEightBitPowers();
  }

  lemma {:induction false} CgnAlone(x: U32)
    requires Contains(CGN, V4(x))
    ensures !InTable(EMBEDDED_V4, V4(x))
  {
    CgnFirstBits();
    FirstFourBits(CGN, x);
    forall i | 0 <= i < |EMBEDDED_V4| ensures !Contains(EMBEDDED_V4[i], V4(x)) {
      EmbeddedEntry(i);
      if Contains(EMBEDDED_V4[i], V4(x)) {
        FirstFourBits(EMBEDDED_V4[i], x);
      }
    }
  }

  lemma V4InPrivate(x: U32)
    ensures InTable(PRIVATE, V4(x)) <==> InTable(EMBEDDED_V4, V4(x)) || Contains(CGN, V4(x))
  {
    InPrivate(V4(x));
    NoV6Entries(x);
    assert PRIVATE_V4 == PRIVATE_V4[..1] + [CGN] + PRIVATE_V4[2..];
    InTables(PRIVATE_V4[..1] + [CGN], PRIVATE_V4[2..], V4(x));
    InTables(PRIVATE_V4[..1], [CGN], V4(x));
    InTables(PRIVATE_V4[..1], PRIVATE_V4[2..], V4(x));
    assert [CGN][0] == CGN;
  }

  lemma NoV6Entries(x: U32)
    ensures !InTable(PRIVATE_V6, V4(x)) && !InTable(PRIVATE_6TO4, V4(x)) && !InTable(PRIVATE_TEREDO, V4(x))
  {
    SixToFourShifted();
    TeredoShifted();
  }

  /** An IPv4 address and its 6to4 and Teredo forms are equally private exactly when the address is
      not a carrier-grade NAT address. */
  lemma {:induction false} EmbeddedFormsAgree(x: U32, low: Low80, low': Low64)
    ensures (InTable(PRIVATE, V6(SixToFour(x, low))) <==> InTable(PRIVATE, V4(x))) <==> !Contains(CGN, V4(x))
    ensures (InTable(PRIVATE, V6(Teredo(x, low'))) <==> InTable(PRIVATE, V4(x))) <==> !Contains(CGN, V4(x))
  {
    V4InPrivate(x);
    SixToFourPrivate(x, low);
    TeredoPrivate(x, low');
    if Contains(CGN, V4(x)) {
      CgnAlone(x);
    }
  }
}
