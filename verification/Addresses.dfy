/** IP addresses, the order the index sorts by, and CIDR networks as aligned power-of-two ranges. */
module Addresses {

  // ---------- powers of two and divisibility ----------

  function Pow2(n: nat): (p: nat)
    ensures p >= 1
  {
    if n == 0 then 1 else 2 * Pow2(n - 1)
  }

  lemma {:induction false} Pow2Sum(m: nat, n: nat)
    ensures Pow2(m + n) == Pow2(m) * Pow2(n)
  {
    if m == 0 {
    } else {
      Pow2Sum(m - 1, n);
      assert Pow2(m + n) == 2 * Pow2((m - 1) + n);
      assert 2 * (Pow2(m - 1) * Pow2(n)) == (2 * Pow2(m - 1)) * Pow2(n);
    }
  }

  lemma Pow2Strict(m: nat, n: nat)
    requires m < n
    ensures 2 * Pow2(m) <= Pow2(n)
    decreases n - m
  {
    if m + 1 < n {
      Pow2Strict(m + 1, n);
    }
  }

  lemma Pow2Double(n: nat, v: nat)
    requires Pow2(n) == v
    ensures Pow2(2 * n) == v * v
  {
    Pow2Sum(n, n);
  }

  lemma Pow2Values()
    ensures Pow2(32) == 0x1_0000_0000
    ensures Pow2(33) == 0x2_0000_0000
    ensures Pow2(128) == 0x1_0000_0000_0000_0000_0000_0000_0000_0000
  {
    Pow2Double(8, 0x100);
    Pow2Double(16, 0x1_0000);
    Pow2Double(32, 0x1_0000_0000);
    Pow2Double(64, 0x1_0000_0000_0000_0000);
  }

  lemma MulLess(x: int, y: int, s: int)
    requires s >= 1 && x * s < y * s
    ensures x < y
  {
    if y <= x {
      MulLe(y, x, s);
    }
  }

  lemma MulLe(x: int, y: int, s: int)
    requires s >= 1 && x <= y
    ensures x * s <= y * s
  {
    assert 0 <= (y - x) * s;
  }

  lemma Quotient(v: int, s: int)
    requires s >= 1
    ensures v == (v / s) * s + v % s
  {
  }

  lemma DivModUnique(v: int, s: int, q: int, r: int)
    requires s >= 1 && v == q * s + r && 0 <= r < s
    ensures v / s == q && v % s == r
  {
    var d := q - v / s;
    Quotient(v, s);
    assert d * s == q * s - (v / s) * s;
    MulLess(d, 1, s);
    MulLess(-1, d, s);
  }

  lemma MultipleMod(q: int, s: int)
    requires s >= 1
    ensures (q * s) % s == 0
  {
    DivModUnique(q * s, s, q, 0);
  }

  // Aligned power-of-two ranges that meet are nested: the narrower one lies inside the wider one.
  lemma AlignedNested(x: nat, i: nat, y: nat, j: nat)
    requires i <= j
    requires x % Pow2(i) == 0 && y % Pow2(j) == 0
    requires x < y + Pow2(j) && y < x + Pow2(i)
    ensures y <= x && x + Pow2(i) <= y + Pow2(j)
  {
    Pow2Sum(j - i, i);
    MultiplesNested(x, Pow2(i), y, Pow2(j), Pow2(j - i));
  }

  lemma MultiplesNested(x: nat, s: nat, y: nat, t: nat, c: nat)
    requires s >= 1 && t >= 1 && t == c * s
    requires x % s == 0 && y % t == 0
    requires x < y + t && y < x + s
    ensures y <= x && x + s <= y + t
  {
    var a, b := x / s, y / t;
    Quotient(x, s);
    Quotient(y, t);
    assert y == (b * c) * s by {
      assert b * (c * s) == (b * c) * s;
    }
    NestedMultiples(a, b * c, c, s);
  }

  lemma NestedMultiples(a: int, b: int, c: int, s: int)
    requires s >= 1
    requires a * s < b * s + c * s && b * s < a * s + s
    ensures b * s <= a * s && a * s + s <= b * s + c * s
  {
    MulLess(a, b + c, s);
    MulLess(b, a + 1, s);
    MulLe(b, a, s);
    MulLe(a + 1, b + c, s);
  }

  // ---------- addresses ----------

  datatype Family = V4 | V6 {
    function Bits(): nat {
      if V4? then 32 else 128
    }
  }

  datatype RawAddr = Addr(family: Family, value: nat)

  type IpAddr = a: RawAddr | a.value < Pow2(a.family.Bits()) witness Addr(V4, 0)

  /** The order of `IpAddr`: every IPv4 address sorts before every IPv6 address. */
  predicate Le(a: RawAddr, b: RawAddr) {
    if a.family == b.family then a.value <= b.value else a.family.V4?
  }

  predicate Lt(a: RawAddr, b: RawAddr) {
    !Le(b, a)
  }

  // ---------- networks ----------

  datatype RawCidr = Cidr(family: Family, base: nat, len: nat) {
    function Size(): (s: nat)
      requires len <= family.Bits()
      ensures s >= 1
    {
      Pow2(family.Bits() - len)
    }

    predicate Valid() {
      && len <= family.Bits()
      && base % Size() == 0
      && base + Size() <= Pow2(family.Bits())
    }
  }

  type IpCidr = c: RawCidr | c.Valid() witness Cidr(V4, 0, 32)

  function First(c: IpCidr): IpAddr {
    Addr(c.family, c.base)
  }

  function Last(c: IpCidr): IpAddr {
    Addr(c.family, c.base + c.Size() - 1)
  }

  predicate Contains(c: IpCidr, a: IpAddr) {
    a.family == c.family && c.base <= a.value < c.base + c.Size()
  }

  // A network is the set of addresses that agree with its base on the first `len` bits.
  lemma ContainsIsPrefixMatch(c: IpCidr, a: IpAddr)
    ensures Contains(c, a) <==> a.family == c.family && a.value / c.Size() == c.base / c.Size()
    ensures Contains(c, a) <==> Le(First(c), a) && Le(a, Last(c))
  {
    var s := c.Size();
    var q := c.base / s;
    Quotient(c.base, s);
    Quotient(a.value, s);
    if c.base <= a.value < c.base + s {
      DivModUnique(a.value, s, q, a.value - c.base);
    }
  }

  lemma MultipleFits(b: nat, s: nat, c: nat)
    requires s >= 1 && b % s == 0 && b < c * s
    ensures b + s <= c * s
  {
    Quotient(b, s);
    MulLess(b / s, c, s);
    MulLe(b / s + 1, c, s);
  }

  // An aligned network that starts inside the address space also ends inside it.
  lemma FitsInFamily(family: Family, base: nat, len: nat)
    requires len <= family.Bits()
    requires base < Pow2(family.Bits()) && base % Pow2(family.Bits() - len) == 0
    ensures Cidr(family, base, len).Valid()
  {
    Pow2Sum(len, family.Bits() - len);
    MultipleFits(base, Pow2(family.Bits() - len), Pow2(len));
  }

  predicate Overlap(c: IpCidr, d: IpCidr) {
    c.family == d.family && c.base < d.base + d.Size() && d.base < c.base + c.Size()
  }

  predicate Within(c: IpCidr, d: IpCidr) {
    c.family == d.family && d.base <= c.base && c.base + c.Size() <= d.base + d.Size()
  }

  // Two networks overlap exactly when they share an address.
  lemma OverlapIsShared(c: IpCidr, d: IpCidr)
    ensures Overlap(c, d) <==> exists a: IpAddr :: Contains(c, a) && Contains(d, a)
  {
    if Overlap(c, d) {
      var a := if c.base <= d.base then First(d) else First(c);
      assert Contains(c, a) && Contains(d, a);
    }
  }

  // One network lies within another exactly when the other has all its addresses.
  lemma WithinIsSubset(c: IpCidr, d: IpCidr)
    ensures Within(c, d) <==> forall a: IpAddr :: Contains(c, a) ==> Contains(d, a)
  {
    if forall a: IpAddr :: Contains(c, a) ==> Contains(d, a) {
      assert Contains(c, First(c)) && Contains(c, Last(c));
    }
  }

  // Laminarity: networks that overlap are nested, and the longer prefix is the inner one.
  lemma Laminar(c: IpCidr, d: IpCidr)
    requires Overlap(c, d)
    ensures c.len >= d.len ==> Within(c, d)
    ensures d.len >= c.len ==> Within(d, c)
    ensures c.len == d.len ==> c == d
  {
    var n := c.family.Bits();
    if c.len >= d.len {
      AlignedNested(c.base, n - c.len, d.base, n - d.len);
    }
    if d.len >= c.len {
      AlignedNested(d.base, n - d.len, c.base, n - c.len);
    }
  }

  // Containment in both directions is equality, and a strictly longer prefix is strictly narrower.
  lemma WithinLength(c: IpCidr, d: IpCidr)
    requires Within(c, d)
    ensures c.len >= d.len
    ensures c.len == d.len ==> c == d
    ensures Within(d, c) ==> c == d
  {
    var n := c.family.Bits();
    if c.len < d.len {
      Pow2Strict(n - d.len, n - c.len);
    } else if d.len < c.len {
      Pow2Strict(n - c.len, n - d.len);
    }
  }

  // ---------- halves, parents and buddies ----------

  // A multiple of `2 * h`, and that multiple plus `h`, are multiples of `h`; only the first is one of `2 * h`.
  lemma HalvesAligned(b: nat, h: nat)
    requires h >= 1 && b % (2 * h) == 0
    ensures b % h == 0 && (b + h) % h == 0 && (b + h) % (2 * h) == h
  {
    var q := b / (2 * h);
    Quotient(b, 2 * h);
    assert q * (2 * h) == (2 * q) * h;
    DivModUnique(b, h, 2 * q, 0);
    DivModUnique(b + h, h, 2 * q + 1, 0);
    DivModUnique(b + h, 2 * h, q, h);
  }

  // A multiple of `s` that is no multiple of `2 * s` is `s` above one.
  lemma OddMultiple(b: nat, s: nat)
    requires s >= 1 && b % s == 0 && b % (2 * s) != 0
    ensures b >= s && (b - s) % (2 * s) == 0
  {
    var q := b / (2 * s);
    var r := b % (2 * s);
    Quotient(b, 2 * s);
    assert q * (2 * s) == (2 * q) * s;
    if r < s {
      DivModUnique(b, s, 2 * q, r);
    } else {
      DivModUnique(b, s, 2 * q + 1, r - s);
      MulLe(0, q, 2 * s);
      DivModUnique(b - s, 2 * s, q, 0);
    }
  }

  lemma HalvesValid(c: IpCidr)
    requires c.len < c.family.Bits()
    ensures 2 * Pow2(c.family.Bits() - c.len - 1) == c.Size()
    ensures Cidr(c.family, c.base, c.len + 1).Valid()
    ensures Cidr(c.family, c.base + Pow2(c.family.Bits() - c.len - 1), c.len + 1).Valid()
  {
    var h := Pow2(c.family.Bits() - c.len - 1);
    HalvesAligned(c.base, h);
  }

  function LowHalf(c: IpCidr): IpCidr
    requires c.len < c.family.Bits()
  {
    HalvesValid(c);
    Cidr(c.family, c.base, c.len + 1)
  }

  function HighHalf(c: IpCidr): IpCidr
    requires c.len < c.family.Bits()
  {
    HalvesValid(c);
    Cidr(c.family, c.base + Pow2(c.family.Bits() - c.len - 1), c.len + 1)
  }

  predicate IsLow(c: IpCidr)
    requires c.len > 0
  {
    c.base % (2 * c.Size()) == 0
  }

  lemma ParentValid(c: IpCidr)
    requires c.len > 0
    ensures Pow2(c.family.Bits() - c.len + 1) == 2 * c.Size()
    ensures IsLow(c) ==> Cidr(c.family, c.base, c.len - 1).Valid()
    ensures !IsLow(c) ==> c.base >= c.Size() && Cidr(c.family, c.base - c.Size(), c.len - 1).Valid()
  {
    var n, s := c.family.Bits(), c.Size();
    if IsLow(c) {
      FitsInFamily(c.family, c.base, c.len - 1);
    } else {
      OddMultiple(c.base, s);
      FitsInFamily(c.family, c.base - s, c.len - 1);
    }
  }

  function Parent(c: IpCidr): IpCidr
    requires c.len > 0
  {
    ParentValid(c);
    Cidr(c.family, if IsLow(c) then c.base else c.base - c.Size(), c.len - 1)
  }

  /** The other half of the parent network. */
  function Buddy(c: IpCidr): IpCidr
    requires c.len > 0
  {
    ParentValid(c);
    if IsLow(c) then HighHalf(Parent(c)) else LowHalf(Parent(c))
  }

  // A network and its buddy are exactly the two halves of their parent.
  lemma ParentIsBothHalves(c: IpCidr)
    requires c.len > 0
    ensures c == if IsLow(c) then LowHalf(Parent(c)) else HighHalf(Parent(c))
    ensures !Overlap(c, Buddy(c))
    ensures forall a: IpAddr :: Contains(Parent(c), a) <==> Contains(c, a) || Contains(Buddy(c), a)
  {
    ParentValid(c);
    HalvesValid(Parent(c));
  }

  // The two halves of a network are buddies and rebuild it.
  lemma HalvesAreBuddies(c: IpCidr)
    requires c.len < c.family.Bits()
    ensures Buddy(LowHalf(c)) == HighHalf(c) && Buddy(HighHalf(c)) == LowHalf(c)
    ensures Parent(LowHalf(c)) == c && Parent(HighHalf(c)) == c
  {
    HalvesValid(c);
    var l, h := LowHalf(c), HighHalf(c);
    ParentValid(l);
    ParentValid(h);
    HalvesAligned(c.base, h.Size());
    assert IsLow(l) && !IsLow(h);
  }

  lemma HalvesCover(c: IpCidr)
    requires c.len < c.family.Bits()
    ensures forall a: IpAddr :: Contains(c, a) <==> Contains(LowHalf(c), a) || Contains(HighHalf(c), a)
    ensures Within(LowHalf(c), c) && Within(HighHalf(c), c)
  {
    HalvesValid(c);
  }
}
