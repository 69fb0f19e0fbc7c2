/** Rewriting IPv4-mapped addresses and networks (`::ffff:0:0/96`, section 2.5.5.2 of RFC 4291) into IPv4 form. */
module Canonical {
  import opened Addresses
  import opened Wrappers

  const MAPPED_PREFIX: nat := 0xFFFF
  const IPV4_SPACE: nat := 0x1_0000_0000

  predicate IsMapped(a: IpAddr) {
    a.family.V6? && a.value / IPV4_SPACE == MAPPED_PREFIX
  }

  function ToIpv4Mapped(a: IpAddr): Option<IpAddr>
    requires a.family.V6?
  {
    Pow2Values();
    if IsMapped(a) then Some(Addr(V4, a.value % IPV4_SPACE)) else None
  }

  /** The IPv4-mapped IPv6 form of an IPv4 address. */
  function MappedForm(a: IpAddr): IpAddr
    requires a.family.V4?
  {
    Pow2Values();
    Addr(V6, MAPPED_PREFIX * IPV4_SPACE + a.value)
  }

  function CanonicalIp(a: IpAddr): IpAddr {
    if a.family.V4? then a
    else match ToIpv4Mapped(a) case Some(v4) => v4 case None => a
  }

  datatype CidrError = HostPartNotZero | NetworkLengthTooLong

  /** `Ipv4Cidr::new`: host bits must be zero and the prefix at most 32 bits long. */
  function NewIpv4Cidr(first: IpAddr, len: nat): Result<IpCidr, CidrError>
    requires first.family.V4?
  {
    if len > 32 then Failure(NetworkLengthTooLong)
    else if first.value % Pow2(32 - len) != 0 then Failure(HostPartNotZero)
    else
      FitsInFamily(V4, first.value, len);
      Success(Cidr(V4, first.value, len))
  }

  function CanonicalCidr(c: IpCidr): IpCidr {
    if c.family.V4? || c.len < 96 then c
    else match ToIpv4Mapped(First(c))
      case None => c
      case Some(first) =>
        match NewIpv4Cidr(first, c.len - 96)
        case Success(v4) => v4
        case Failure(_) => c
  }

  lemma MappedRange(a: IpAddr)
    requires a.family.V6?
    ensures IsMapped(a) <==> MAPPED_PREFIX * IPV4_SPACE <= a.value < MAPPED_PREFIX * IPV4_SPACE + IPV4_SPACE
    ensures IsMapped(a) ==> a.value == MAPPED_PREFIX * IPV4_SPACE + a.value % IPV4_SPACE
  {
  }

  // An aligned range of at most 2^32 values that starts in the mapped block keeps its alignment relative to the block.
  lemma AlignedInBlock(b: nat, s: nat, c: nat)
    requires s >= 1 && b % s == 0 && c * s == IPV4_SPACE
    requires MAPPED_PREFIX * IPV4_SPACE <= b < MAPPED_PREFIX * IPV4_SPACE + IPV4_SPACE
    ensures (b - MAPPED_PREFIX * IPV4_SPACE) % s == 0
  {
    Quotient(b, s);
    assert MAPPED_PREFIX * (c * s) == (MAPPED_PREFIX * c) * s;
    var q := b / s - MAPPED_PREFIX * c;
    assert b - MAPPED_PREFIX * IPV4_SPACE == q * s;
    MultipleMod(q, s);
  }

  // The error branch of `Ipv4Cidr::new` is never taken, and the rewrite subtracts the mapped prefix from base and length.
  lemma MappedCidrRewrites(c: IpCidr)
    requires c.family.V6? && c.len >= 96 && IsMapped(First(c))
    ensures NewIpv4Cidr(ToIpv4Mapped(First(c)).value, c.len - 96).Success?
    ensures CanonicalCidr(c) == Cidr(V4, c.base - MAPPED_PREFIX * IPV4_SPACE, c.len - 96)
  {
    MappedRange(First(c));
    Pow2Values();
    Pow2Sum(c.len - 96, 128 - c.len);
    AlignedInBlock(c.base, Pow2(128 - c.len), Pow2(c.len - 96));
    assert 32 - (c.len - 96) == 128 - c.len;
  }

  // A network of at least 96 bits lies inside the mapped block or misses it.
  lemma LongPrefixAllOrNothing(c: IpCidr, a: IpAddr)
    requires c.family.V6? && c.len >= 96 && Contains(c, a)
    ensures IsMapped(a) <==> IsMapped(First(c))
  {
    Pow2Values();
    Pow2Sum(c.len - 96, 128 - c.len);
    MappedRange(a);
    MappedRange(First(c));
    SameBlock(c.base, a.value, Pow2(128 - c.len), Pow2(c.len - 96));
  }

  lemma SameBlock(b: nat, v: nat, s: nat, c: nat)
    requires s >= 1 && b % s == 0 && c * s == IPV4_SPACE
    requires b <= v < b + s
    ensures b / IPV4_SPACE == v / IPV4_SPACE
  {
    var t := b / IPV4_SPACE;
    Quotient(b, s);
    assert t * (c * s) == (t * c) * s;
    MulLess(b / s, t * c + c, s);
    MulLe(b / s + 1, t * c + c, s);
  }

  lemma CanonicalIpIdempotent(a: IpAddr)
    ensures CanonicalIp(CanonicalIp(a)) == CanonicalIp(a)
    ensures !IsMapped(CanonicalIp(a))
    ensures a.family.V4? ==> IsMapped(MappedForm(a)) && CanonicalIp(MappedForm(a)) == a
  {
    if a.family.V4? {
      Pow2Values();
      MappedRange(MappedForm(a));
    }
  }

  // What a rewritten network means for the network as it was written: a canonical address matches
  // in its own form, or in its mapped form when the network is an IPv6 one of at least 96 bits.
  lemma RewrittenMembership(c: IpCidr, a: IpAddr)
    requires !IsMapped(a)
    ensures Contains(CanonicalCidr(c), a) <==>
            || Contains(c, a)
            || (c.family.V6? && c.len >= 96 && a.family.V4? && Contains(c, MappedForm(a)))
  {
    if c.family.V6? && c.len >= 96 {
      if IsMapped(First(c)) {
        MappedMembership(c, a);
      } else if a.family.V4? && Contains(c, MappedForm(a)) {
        CanonicalIpIdempotent(a);
        LongPrefixAllOrNothing(c, MappedForm(a));
        assert false;
      }
    }
  }

  lemma MappedMembership(c: IpCidr, a: IpAddr)
    requires c.family.V6? && c.len >= 96 && IsMapped(First(c)) && !IsMapped(a)
    ensures !Contains(c, a)
    ensures Contains(CanonicalCidr(c), a) <==> a.family.V4? && Contains(c, MappedForm(a))
  {
    MappedCidrRewrites(c);
    MappedRange(First(c));
    assert 32 - (c.len - 96) == 128 - c.len;
    if Contains(c, a) {
      LongPrefixAllOrNothing(c, a);
      assert false;
    }
  }

  // Rewriting both sides keeps membership, except for mapped addresses inside a network shorter than 96 bits.
  lemma RewriteKeepsMembership(c: IpCidr, a: IpAddr)
    requires c.family.V6? && a.family.V6?
    ensures (Contains(CanonicalCidr(c), CanonicalIp(a)) <==> Contains(c, a))
            <==> (c.len >= 96 || !IsMapped(a) || !Contains(c, a))
  {
    CanonicalIpIdempotent(a);
    RewrittenMembership(c, CanonicalIp(a));
    if IsMapped(a) {
      MappedRange(a);
      assert MappedForm(CanonicalIp(a)) == a;
    }
  }

  lemma CanonicalCidrIdempotent(c: IpCidr)
    ensures CanonicalCidr(CanonicalCidr(c)) == CanonicalCidr(c)
    ensures CanonicalCidr(c) == c <==> !(c.family.V6? && c.len >= 96 && IsMapped(First(c)))
  {
    if c.family.V6? && c.len >= 96 && IsMapped(First(c)) {
      MappedCidrRewrites(c);
    }
  }

  // A rewritten network always holds an address that is its own canonical form: a shorter IPv6 prefix
  // holds at least 2^33 addresses, more than the whole mapped block.
  lemma HoldsCanonicalAddress(c: IpCidr) returns (a: IpAddr)
    requires CanonicalCidr(c) == c
    ensures Contains(c, a) && CanonicalIp(a) == a
  {
    a := First(c);
    if IsMapped(a) {
      CanonicalCidrIdempotent(c);
      Pow2Values();
      if c.len < 95 {
        Pow2Strict(33, 128 - c.len);
      }
      MappedRange(a);
      a := Last(c);
      MappedRange(a);
    }
  }

  // Two rewritten networks overlap exactly when a canonical address lies in both.
  lemma OverlapHasCanonicalAddress(c: IpCidr, d: IpCidr)
    requires CanonicalCidr(c) == c && CanonicalCidr(d) == d
    ensures Overlap(c, d) <==> exists a: IpAddr :: CanonicalIp(a) == a && Contains(c, a) && Contains(d, a)
  {
    if Overlap(c, d) {
      Laminar(c, d);
      var a := HoldsCanonicalAddress(if c.len >= d.len then c else d);
      assert CanonicalIp(a) == a && Contains(c, a) && Contains(d, a);
    }
  }

  // ---------- the mapped block and its neighbours ----------

  /** `::ffff:0:0/96`. */
  function MappedBlock(): IpCidr {
    Pow2Values();
    Pow2Sum(96, 32);
    MultipleMod(MAPPED_PREFIX, IPV4_SPACE);
    FitsInFamily(V6, MAPPED_PREFIX * IPV4_SPACE, 96);
    Cidr(V6, MAPPED_PREFIX * IPV4_SPACE, 96)
  }

  lemma BlockIsMapped(a: IpAddr)
    ensures Contains(MappedBlock(), a) <==> IsMapped(a)
  {
    Pow2Values();
    if a.family.V6? {
      MappedRange(a);
    }
  }

  // The two networks above the block, and the halves beside it.
  lemma BlockNeighbours()
    ensures Parent(MappedBlock()) == Cidr(V6, 0xFFFE * IPV4_SPACE, 95)
    ensures Buddy(MappedBlock()) == Cidr(V6, 0xFFFE * IPV4_SPACE, 96)
    ensures Parent(Parent(MappedBlock())) == Cidr(V6, 0xFFFC * IPV4_SPACE, 94)
    ensures Buddy(Parent(MappedBlock())) == Cidr(V6, 0xFFFC * IPV4_SPACE, 95)
  {
    var block := MappedBlock();
    Pow2Values();
    ParentValid(block);
    var parent := Parent(block);
    ParentValid(parent);
    HalvesValid(parent);
    HalvesValid(Parent(parent));
  }

  // The block and the network beside it are the halves of their parent; only the block is rewritten, to `0.0.0.0/0`.
  lemma BlockHalves()
    ensures LowHalf(Parent(MappedBlock())) == Buddy(MappedBlock()) && HighHalf(Parent(MappedBlock())) == MappedBlock()
    ensures CanonicalCidr(MappedBlock()) == Cidr(V4, 0, 0)
    ensures CanonicalCidr(Buddy(MappedBlock())) == Buddy(MappedBlock())
    ensures CanonicalCidr(Parent(MappedBlock())) == Parent(MappedBlock())
  {
    BlockNeighbours();
    ParentIsBothHalves(MappedBlock());
    HalvesAreBuddies(Parent(MappedBlock()));
    MappedRange(First(MappedBlock()));
    MappedRange(First(Buddy(MappedBlock())));
    MappedCidrRewrites(MappedBlock());
  }

  lemma WholeOfIpv4(a: IpAddr)
    requires Cidr(V4, 0, 0).Valid()
    ensures Contains(Cidr(V4, 0, 0), a) <==> a.family.V4?
  {
  }
}
