/** IPv4 masks and networks: the cidr table of include/cloysterhpc/network.h and setAddress,
    setSubnetMask and calculateAddress of src/network.cpp. */
module Ipv4 {
  import opened Wrappers
  import opened Decimals

  function Pow2(n: nat): (r: nat)
    ensures r > 0
  {
    if n == 0 then 1 else 2 * Pow2(n - 1)
  }

  type Address = a: nat | a < 0x1_0000_0000

  // ---------------------------------------------------------- dotted form

  function Octet(a: Address, i: nat): nat
    requires i < 4
  {
    match i
    case 0 => a / 0x100 / 0x100 / 0x100
    case 1 => a / 0x100 / 0x100 % 0x100
    case 2 => a / 0x100 % 0x100
    case _ => a % 0x100
  }

  lemma Octets(a: Address)
    ensures a == ((Octet(a, 0) * 0x100 + Octet(a, 1)) * 0x100 + Octet(a, 2)) * 0x100 + Octet(a, 3)
  {
    var b := a / 0x100;
    var c := b / 0x100;
    assert a == b * 0x100 + a % 0x100 && b == c * 0x100 + b % 0x100 && c == c / 0x100 * 0x100 + c % 0x100;
  }

  function Dots(t0: string, t1: string, t2: string, t3: string): string {
    t0 + "." + (t1 + "." + (t2 + "." + t3))
  }

  function Quad(o0: nat, o1: nat, o2: nat, o3: nat): string {
    Dots(Dec(o0), Dec(o1), Dec(o2), Dec(o3))
  }

  function Dotted(a: Address): string {
    Quad(Octet(a, 0), Octet(a, 1), Octet(a, 2), Octet(a, 3))
  }

  lemma DotSplits(x: string, u: string, y: string, v: string)
    requires '.' !in x && '.' !in y && x + "." + u == y + "." + v
    ensures x == y && u == v
  {
    var s, t := x + "." + u, y + "." + v;
    assert s[|x|] == '.' && t[|y|] == '.';
    assert forall k | 0 <= k < |x| :: s[k] == x[k] && s[k] != '.';
    assert forall k | 0 <= k < |y| :: t[k] == y[k] && t[k] != '.';
    assert |x| == |y|;
    assert x == s[..|x|] && y == t[..|y|];
    assert u == s[|x| + 1..] && v == t[|y| + 1..];
  }

  lemma QuadInjective(a0: nat, a1: nat, a2: nat, a3: nat, b0: nat, b1: nat, b2: nat, b3: nat)
    requires Quad(a0, a1, a2, a3) == Quad(b0, b1, b2, b3)
    ensures a0 == b0 && a1 == b1 && a2 == b2 && a3 == b3
  {
    DotSplits(Dec(a0), Dec(a1) + "." + (Dec(a2) + "." + Dec(a3)), Dec(b0), Dec(b1) + "." + (Dec(b2) + "." + Dec(b3)));
    DotSplits(Dec(a1), Dec(a2) + "." + Dec(a3), Dec(b1), Dec(b2) + "." + Dec(b3));
    DotSplits(Dec(a2), Dec(a3), Dec(b2), Dec(b3));
    DecInjective(a0, b0);
    DecInjective(a1, b1);
    DecInjective(a2, b2);
    DecInjective(a3, b3);
  }

  /** Different addresses have different texts. */
  lemma DottedInjective(a: Address, b: Address)
    ensures Dotted(a) == Dotted(b) <==> a == b
  {
    if Dotted(a) == Dotted(b) {
      QuadInjective(Octet(a, 0), Octet(a, 1), Octet(a, 2), Octet(a, 3), Octet(b, 0), Octet(b, 1), Octet(b, 2), Octet(b, 3));
      Octets(a);
      Octets(b);
    }
  }

  // ------------------------------------------------------------ the table

  /** The table, read from prefix to text. */
  function CidrText(prefix: nat): string
    requires prefix <= 32
  {
    match prefix
    case 0 => "0.0.0.0"
    case 1 => "128.0.0.0"
    case 2 => "192.0.0.0"
    case 3 => "224.0.0.0"
    case 4 => "240.0.0.0"
    case 5 => "248.0.0.0"
    case 6 => "252.0.0.0"
    case 7 => "254.0.0.0"
    case 8 => "255.0.0.0"
    case 9 => "255.128.0.0"
    case 10 => "255.192.0.0"
    case 11 => "255.224.0.0"
    case 12 => "255.240.0.0"
    case 13 => "255.248.0.0"
    case 14 => "255.252.0.0"
    case 15 => "255.254.0.0"
    case 16 => "255.255.0.0"
    case 17 => "255.255.128.0"
    case 18 => "255.255.192.0"
    case 19 => "255.255.224.0"
    case 20 => "255.255.240.0"
    case 21 => "255.255.248.0"
    case 22 => "255.255.252.0"
    case 23 => "255.255.254.0"
    case 24 => "255.255.255.0"
    case 25 => "255.255.255.128"
    case 26 => "255.255.255.192"
    case 27 => "255.255.255.224"
    case 28 => "255.255.255.240"
    case 29 => "255.255.255.248"
    case 30 => "255.255.255.252"
    case 31 => "255.255.255.254"
    case _ => "255.255.255.255"
  }

  /** The prefix the table gives for a text, if it has the text. */
  function Cidr(text: string, from: nat): (r: Option<nat>)
    requires from <= 33
    ensures r.Some? ==> from <= r.value <= 32 && CidrText(r.value) == text
    ensures r.None? ==> forall n | from <= n <= 32 :: CidrText(n) != text
    decreases 33 - from
  {
    if from == 33 then None else if CidrText(from) == text then Some(from) else Cidr(text, from + 1)
  }

  // ------------------------------------------------------------ the masks

  lemma {:induction false} Pow2Grows(m: nat, n: nat)
    requires m <= n
    ensures Pow2(m) <= Pow2(n)
  {
    if m < n {
      Pow2Grows(m, n - 1);
    }
  }

  lemma {:induction false} Pow2Add(m: nat, n: nat)
    ensures Pow2(m + n) == Pow2(m) * Pow2(n)
  {
    if m > 0 {
      Pow2Add(m - 1, n);
      assert Pow2(m) * Pow2(n) == 2 * (Pow2(m - 1) * Pow2(n));
    }
  }

  lemma Pow2Values()
    ensures Pow2(8) == 0x100 && Pow2(16) == 0x1_0000 && Pow2(24) == 0x100_0000 && Pow2(32) == 0x1_0000_0000
  {
    assert Pow2(8) == 0x100;
    Pow2Add(8, 8);
    Pow2Add(8, 16);
    Pow2Add(8, 24);
  }

  /** The mask of a prefix: that many ones, then zeros. */
  function Mask(prefix: nat): Address
    requires prefix <= 32
  {
    Pow2Values();
    Pow2Grows(32 - prefix, 32);
    0x1_0000_0000 - Pow2(32 - prefix)
  }

  /** An octet of `ones` ones and then zeros. */
  function Part(ones: nat): nat
    requires ones <= 8
  {
    Pow2Values();
    Pow2Grows(8 - ones, 8);
    0x100 - Pow2(8 - ones)
  }

  function PartText(ones: nat): string
    requires ones <= 8
  {
    match ones
    case 0 => "0"
    case 1 => "128"
    case 2 => "192"
    case 3 => "224"
    case 4 => "240"
    case 5 => "248"
    case 6 => "252"
    case 7 => "254"
    case _ => "255"
  }

  lemma PartDec(ones: nat)
    requires ones <= 8
    ensures Dec(Part(ones)) == PartText(ones)
  {
    DecTexts();
    Pow2Small();
    Pow2Values();
  }

  lemma DecTexts()
    ensures Dec(0) == "0" && Dec(128) == "128" && Dec(192) == "192" && Dec(224) == "224" && Dec(240) == "240"
    ensures Dec(248) == "248" && Dec(252) == "252" && Dec(254) == "254" && Dec(255) == "255"
  {
  }

  lemma Pow2Small()
    ensures Pow2(0) == 1 && Pow2(1) == 2 && Pow2(2) == 4 && Pow2(3) == 8
    ensures Pow2(4) == 0x10 && Pow2(5) == 0x20 && Pow2(6) == 0x40 && Pow2(7) == 0x80
  {
  }

  lemma MaskValue(i: nat, ones: nat)
    requires i < 4 && ones <= 8
    ensures Mask(8 * i + ones) == 0x1_0000_0000 - Pow2(8 - ones) * Pow2(8 * (3 - i))
  {
    Pow2Add(8 - ones, 8 * (3 - i));
    assert 8 - ones + 8 * (3 - i) == 32 - (8 * i + ones);
  }

  lemma RowAt(i: nat, p: nat, scale: nat, a: Address)
    requires i < 4 && 0 < p <= 0x100
    requires scale == if i == 0 then 0x100_0000 else if i == 1 then 0x1_0000 else if i == 2 then 0x100 else 1
    requires a == 0x1_0000_0000 - p * scale
    ensures Dotted(a) == Quad(if i == 0 then 0x100 - p else 0xFF,
                              if i < 1 then 0 else if i == 1 then 0x100 - p else 0xFF,
                              if i < 2 then 0 else if i == 2 then 0x100 - p else 0xFF,
                              if i < 3 then 0 else 0x100 - p)
  {
    if i == 0 {
      Row(0x100 - p, 0, 0, 0, a);
    } else if i == 1 {
      Row(0xFF, 0x100 - p, 0, 0, a);
    } else if i == 2 {
      Row(0xFF, 0xFF, 0x100 - p, 0, a);
    } else {
      Row(0xFF, 0xFF, 0xFF, 0x100 - p, a);
    }
  }

  lemma Scale(i: nat)
    requires i < 4
    ensures Pow2(8 * (3 - i)) == if i == 0 then 0x100_0000 else if i == 1 then 0x1_0000 else if i == 2 then 0x100 else 1
  {
    Pow2Values();
    assert Pow2(0) == 1;
  }

  /** The octets of a mask whose octet `i` has the last `ones` ones. */
  lemma MaskOctets(i: nat, ones: nat)
    requires i < 4 && ones <= 8
    ensures Dotted(Mask(8 * i + ones)) ==
      Quad(if i == 0 then Part(ones) else 0xFF,
           if i < 1 then 0 else if i == 1 then Part(ones) else 0xFF,
           if i < 2 then 0 else if i == 2 then Part(ones) else 0xFF,
           if i < 3 then 0 else Part(ones))
  {
    Pow2Grows(8 - ones, 8);
    Pow2Values();
    MaskValue(i, ones);
    Scale(i);
    RowAt(i, Pow2(8 - ones), Pow2(8 * (3 - i)), Mask(8 * i + ones));
  }

  function QuadText(i: nat, part: string): string
    requires i < 4
  {
    match i
    case 0 => Dots(part, "0", "0", "0")
    case 1 => Dots("255", part, "0", "0")
    case 2 => Dots("255", "255", part, "0")
    case _ => Dots("255", "255", "255", part)
  }

  lemma MaskText(i: nat, ones: nat)
    requires i < 4 && ones <= 8
    ensures Dotted(Mask(8 * i + ones)) == QuadText(i, PartText(ones))
  {
    MaskOctets(i, ones);
    PartDec(ones);
    DecTexts();
  }

  lemma Table0(ones: nat)
    requires ones <= 8
    ensures CidrText(ones) == QuadText(0, PartText(ones))
  {
  }

  lemma Table1(ones: nat)
    requires 0 < ones <= 8
    ensures CidrText(8 + ones) == QuadText(1, PartText(ones))
  {
  }

  lemma Table2(ones: nat)
    requires 0 < ones <= 8
    ensures CidrText(16 + ones) == QuadText(2, PartText(ones))
  {
  }

  lemma Table3(ones: nat)
    requires 0 < ones <= 8
    ensures CidrText(24 + ones) == QuadText(3, PartText(ones))
  {
  }

  /** The table's row for a prefix is the dotted form of that prefix's mask. */
  lemma TableRow(prefix: nat)
    requires prefix <= 32
    ensures CidrText(prefix) == Dotted(Mask(prefix))
  {
    var i := if prefix == 0 then 0 else (prefix - 1) / 8;
    var ones := prefix - 8 * i;
    MaskText(i, ones);
    if i == 0 {
      Table0(ones);
    } else if i == 1 {
      Table1(ones);
    } else if i == 2 {
      Table2(ones);
    } else {
      Table3(ones);
    }
  }

  lemma Row(o0: nat, o1: nat, o2: nat, o3: nat, a: Address)
    requires o0 < 0x100 && o1 < 0x100 && o2 < 0x100 && o3 < 0x100
    requires a == ((o0 * 0x100 + o1) * 0x100 + o2) * 0x100 + o3
    ensures Dotted(a) == Quad(o0, o1, o2, o3)
  {
    assert a / 0x100 == (o0 * 0x100 + o1) * 0x100 + o2;
    assert a / 0x100 / 0x100 == o0 * 0x100 + o1;
  }

  /** The table has exactly the texts of the 33 contiguous masks, and gives each its prefix. */
  lemma TableInverts(mask: Address, prefix: nat)
    requires prefix <= 32
    ensures Cidr(Dotted(mask), 0) == Some(prefix) <==> mask == Mask(prefix)
    ensures Cidr(Dotted(mask), 0).None? <==> forall n | 0 <= n <= 32 :: mask != Mask(n)
  {
    var found := Cidr(Dotted(mask), 0);
    forall n: nat | n <= 32
      ensures CidrText(n) == Dotted(mask) <==> mask == Mask(n)
    {
      TableRow(n);
      DottedInjective(Mask(n), mask);
    }
    if found.Some? && mask == Mask(prefix) {
      MasksDiffer(found.value, prefix);
    }
  }

  lemma {:induction false} Pow2Strict(m: nat, n: nat)
    requires m < n
    ensures Pow2(m) < Pow2(n)
  {
    Pow2Grows(m, n - 1);
  }

  lemma MasksDiffer(m: nat, n: nat)
    requires m <= 32 && n <= 32 && Mask(m) == Mask(n)
    ensures m == n
  {
    if m < n {
      Pow2Strict(32 - n, 32 - m);
    } else if n < m {
      Pow2Strict(32 - m, 32 - n);
    }
  }

  // --------------------------------------------------------- bitwise and

  /** Bitwise and of two `width`-bit numbers, bit by bit. */
  function And(a: nat, b: nat, width: nat): (r: nat)
    ensures r <= a
  {
    if width == 0 then 0 else 2 * And(a / 2, b / 2, width - 1) + (if a % 2 == 1 && b % 2 == 1 then 1 else 0)
  }

  lemma ModDouble(a: nat, p: nat)
    requires p > 0
    ensures a % (2 * p) == 2 * (a / 2 % p) + a % 2
  {
    var q, r := a / 2 / p, a / 2 % p;
    assert a == 2 * (q * p + r) + a % 2;
    assert a == q * (2 * p) + (2 * r + a % 2);
    RemainderIs(a, 2 * p, q, 2 * r + a % 2);
  }

  lemma RemainderIs(a: nat, d: nat, q: nat, r: nat)
    requires d > 0 && r < d && a == q * d + r
    ensures a % d == r && a / d == q
  {
    var e := a / d - q;
    assert a == (a / d) * d + a % d;
    assert e * d == r - a % d;
    assert e >= 1 ==> e * d >= d;
    assert e <= -1 ==> e * d + d <= 0;
  }

  /** A mask of ones above zeros, one bit further down. */
  lemma HalfMask(width: nat, zeros: nat)
    requires 0 < width && zeros <= width
    ensures Pow2(zeros) <= Pow2(width)
    ensures zeros > 0 ==> var m := Pow2(width) - Pow2(zeros); m % 2 == 0 && m / 2 == Pow2(width - 1) - Pow2(zeros - 1)
    ensures zeros == 0 ==> var m := Pow2(width) - 1; m % 2 == 1 && m / 2 == Pow2(width - 1) - 1
  {
    Pow2Grows(zeros, width);
    if zeros > 0 {
      Pow2Grows(zeros - 1, width - 1);
    }
  }

  /** Anding with ones above zeros clears the bits under the zeros. */
  lemma {:induction false} AndMask(a: nat, width: nat, zeros: nat)
    requires a < Pow2(width) && zeros <= width
    ensures Pow2(zeros) <= Pow2(width)
    ensures And(a, Pow2(width) - Pow2(zeros), width) == a - a % Pow2(zeros)
    decreases width
  {
    Pow2Grows(zeros, width);
    if width > 0 {
      HalfMask(width, zeros);
      AndMask(a / 2, width - 1, if zeros == 0 then 0 else zeros - 1);
      var m := Pow2(width) - Pow2(zeros);
      assert And(a, m, width) == 2 * And(a / 2, m / 2, width - 1) + (if a % 2 == 1 && m % 2 == 1 then 1 else 0);
      if zeros > 0 {
        ModDouble(a, Pow2(zeros - 1));
      }
    }
  }

  // -------------------------------------------------------------- networks

  function Anded(a: Address, b: Address): Address {
    And(a, b, 32)
  }

  class Network {
    var address: Address
    var subnetMask: Address

    /** The mask's prefix can be looked up. */
    ghost predicate Valid()
      reads this
    {
      exists n: nat :: n <= 32 && subnetMask == Mask(n)
    }

    constructor ()
      ensures Valid() && address == 0 && subnetMask == 0
    {
      address, subnetMask := 0, 0;
      Pow2Values();
      assert 0 == Mask(0);
    }

    method SetAddress(ip: Address) returns (ok: bool)
      modifies this`address
      ensures ok <==> ip != 0
      ensures address == if ok then ip else old(address)
    {
      ok := ip != 0;
      if ok {
        address := ip;
      }
    }

    /** Accepts exactly the contiguous masks. */
    method SetSubnetMask(mask: Address) returns (ok: bool)
      requires Valid()
      modifies this`subnetMask
      ensures Valid() && (ok <==> exists n: nat :: n <= 32 && mask == Mask(n))
      ensures subnetMask == if ok then mask else old(subnetMask)
    {
      ok := Cidr(Dotted(mask), 0).Some?;
      TableInverts(mask, 0);
      if ok {
        subnetMask := mask;
      }
    }

    /** `cidr.at` of the mask's text, which the network configuration calls, never throws. */
    method PrefixLength() returns (n: nat)
      requires Valid()
      ensures n <= 32 && subnetMask == Mask(n)
    {
      ghost var k: nat :| k <= 32 && subnetMask == Mask(k);
      TableInverts(subnetMask, k);
      n := Cidr(Dotted(subnetMask), 0).value;
      TableInverts(subnetMask, n);
    }

    /** The network address, or nothing when the mask is unspecified. */
    method CalculateAddress(connection: Address) returns (network: Option<Address>)
      requires Valid()
      ensures network.None? <==> subnetMask == 0
      ensures network.Some? ==> network.value == Anded(connection, subnetMask)
    {
      if subnetMask == 0 {
        return None;
      }
      network := Some(Anded(connection, subnetMask));
    }
  }

  /** The network address under a prefix is the address with its last 32 - n bits cleared, as section
      3.1 of RFC 4632 has it. */
  lemma NetworkOf(a: Address, n: nat)
    requires n <= 32
    ensures Anded(a, Mask(n)) == a - a % Pow2(32 - n) <= a
  {
    MaskIs(n);
    AndMask(a, 32, 32 - n);
  }

  lemma MaskIs(n: nat)
    requires n <= 32
    ensures Pow2(32) == 0x1_0000_0000 && Mask(n) == Pow2(32) - Pow2(32 - n)
  {
    Pow2Values();
  }

  /** Taking the network address again changes nothing, and two addresses lie in one network exactly
      when they agree on the first n bits. */
  lemma SameNetworkIff(a: Address, b: Address, n: nat)
    requires n <= 32
    ensures Anded(Anded(a, Mask(n)), Mask(n)) == Anded(a, Mask(n))
    ensures Anded(a, Mask(n)) == Anded(b, Mask(n)) <==> a / Pow2(32 - n) == b / Pow2(32 - n)
  {
    NetworkOf(a, n);
    NetworkOf(b, n);
    NetworkOf(Anded(a, Mask(n)), n);
    Cleared(a, b, Pow2(32 - n));
  }

  lemma Cleared(a: nat, b: nat, p: nat)
    requires p > 0
    ensures (a - a % p) % p == 0
    ensures a - a % p == b - b % p <==> a / p == b / p
  {
    assert a == a / p * p + a % p && b == b / p * p + b % p;
    RemainderIs(a - a % p, p, a / p, 0);
    RemainderIs(b - b % p, p, b / p, 0);
  }
}
