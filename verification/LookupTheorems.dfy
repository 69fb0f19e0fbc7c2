/** The built index as lookups see it. A lookup rewrites its address first, so it never asks about a mapped one. */
module LookupTheorems {
  import opened Addresses
  import opened Canonical
  import opened Rules
  import opened Config
  import opened IndexTheorems

  /** Two rule lists that answer every lookup alike. */
  ghost predicate SameGrants(s: seq<TrustedProxyRule>, t: seq<TrustedProxyRule>) {
    forall m, ip: IpAddr :: Grants(s, m, ip) <==> Grants(t, m, ip)
  }

  /** A rule with metadata `m` is too short to be rewritten and holds the mapped block. */
  ghost predicate HoldsBlock(rules: seq<TrustedProxyRule>, m: TrustedProxyMetadata) {
    exists r :: r in rules && r.metadata == m && r.cidr.len < 96 && Within(MappedBlock(), r.cidr)
  }

  // ---------- coverage, split into what lookups see and the mapped block ----------

  // A rewritten network that holds a mapped address was short enough to hold the whole block as written.
  lemma MappedMember(c: IpCidr, a: IpAddr)
    requires IsMapped(a)
    ensures Contains(CanonicalCidr(c), a) <==> c.len < 96 && Within(MappedBlock(), c)
  {
    BlockIsMapped(a);
    if c.len < 96 && Within(MappedBlock(), c) {
      assert CanonicalCidr(c) == c;
    }
    if Contains(CanonicalCidr(c), a) {
      CanonicalCidrIdempotent(c);
      if c.len >= 96 {
        LongPrefixAllOrNothing(c, a);
        assert false;
      }
      assert Overlap(c, MappedBlock());
      Laminar(c, MappedBlock());
    }
  }

  lemma MappedCoverage(supplied: seq<TrustedProxyRule>, m: TrustedProxyMetadata, a: IpAddr)
    requires IsMapped(a)
    ensures Covered(Rewritten(supplied), m, a) <==> HoldsBlock(supplied, m)
  {
    if Covered(Rewritten(supplied), m, a) {
      var n :| n in Rewritten(supplied) && n.metadata == m && Contains(n.cidr, a);
      RewrittenMember(supplied, n);
      var r :| r in supplied && Rewrite(r) == n;
      MappedMember(r.cidr, a);
    }
    if HoldsBlock(supplied, m) {
      var r :| r in supplied && r.metadata == m && r.cidr.len < 96 && Within(MappedBlock(), r.cidr);
      MappedMember(r.cidr, a);
      RewrittenMember(supplied, r);
      assert Rewrite(r) in Rewritten(supplied);
    }
  }

  lemma CanonicalCoverage(supplied: seq<TrustedProxyRule>, m: TrustedProxyMetadata, a: IpAddr)
    requires !IsMapped(a)
    ensures Covered(Rewritten(supplied), m, a) <==> Grants(supplied, m, a)
  {
    GrantsIsCoverage(supplied, m, a);
  }

  // Rewritten lists cover the same addresses exactly when they answer lookups alike and agree about the block.
  lemma CoverageIsGrantsAndBlock(s: seq<TrustedProxyRule>, t: seq<TrustedProxyRule>)
    ensures SameCoverage(Rewritten(s), Rewritten(t)) <==>
            SameGrants(s, t) && forall m :: HoldsBlock(s, m) <==> HoldsBlock(t, m)
  {
    if SameCoverage(Rewritten(s), Rewritten(t)) {
      forall m, ip: IpAddr
        ensures Grants(s, m, ip) <==> Grants(t, m, ip)
      {
        GrantsIsCoverage(s, m, ip);
        GrantsIsCoverage(t, m, ip);
      }
      var a := First(MappedBlock());
      BlockIsMapped(a);
      forall m
        ensures HoldsBlock(s, m) <==> HoldsBlock(t, m)
      {
        MappedCoverage(s, m, a);
        MappedCoverage(t, m, a);
      }
    }
    if SameGrants(s, t) && forall m :: HoldsBlock(s, m) <==> HoldsBlock(t, m) {
      forall m, a: IpAddr
        ensures Covered(Rewritten(s), m, a) <==> Covered(Rewritten(t), m, a)
      {
        if IsMapped(a) {
          MappedCoverage(s, m, a);
          MappedCoverage(t, m, a);
        } else {
          CanonicalCoverage(s, m, a);
          CanonicalCoverage(t, m, a);
        }
      }
    }
  }

  // Two configs hold the same list exactly when they answer every lookup alike and the same metadata, if any,
  // holds the mapped block.
  lemma LookupNormalForm(s: seq<TrustedProxyRule>, fromS: seq<TrustedProxyRule>,
                         t: seq<TrustedProxyRule>, fromT: seq<TrustedProxyRule>)
    requires BuiltFrom(s, fromS) && BuiltFrom(t, fromT)
    ensures s == t <==> SameGrants(fromS, fromT) && forall m :: HoldsBlock(fromS, m) <==> HoldsBlock(fromT, m)
  {
    BuiltIsNormalForm(s, fromS, t, fromT);
    CoverageIsGrantsAndBlock(fromS, fromT);
  }

  // ---------- splitting a network ----------

  // As lookups see it, splitting a network into halves changes nothing exactly when the network is not
  // `::fffe:0:0/95`, or the remaining rules with its metadata match every IPv4 peer.
  lemma SplittingForLookups(s: seq<TrustedProxyRule>, i: nat, t: seq<TrustedProxyRule>)
    requires i < |s| && s[i].cidr.len < s[i].cidr.family.Bits()
    requires t == s[..i] + Halves(s[i]) + s[i + 1..]
    ensures SameGrants(s, t) <==>
            || !EndsInMappedBlock(s[i].cidr)
            || forall a: IpAddr :: a.family.V4? ==> Grants(s[..i] + s[i + 1..], s[i].metadata, a)
  {
    if EndsInMappedBlock(s[i].cidr) {
      ExceptionForLookups(s, i, t);
    } else {
      SplittingCoverage(s, i, t);
      CoverageIsGrantsAndBlock(s, t);
    }
  }

  lemma ExceptionForLookups(s: seq<TrustedProxyRule>, i: nat, t: seq<TrustedProxyRule>)
    requires i < |s| && EndsInMappedBlock(s[i].cidr)
    requires t == s[..i] + Halves(s[i]) + s[i + 1..]
    ensures SameGrants(s, t) <==>
            forall a: IpAddr :: a.family.V4? ==> Grants(s[..i] + s[i + 1..], s[i].metadata, a)
  {
    var rest, m := s[..i] + s[i + 1..], s[i].metadata;
    if SameGrants(s, t) {
      forall a: IpAddr | a.family.V4?
        ensures Grants(rest, m, a)
      {
        ExceptionGrants(s, i, t, m, a);
        assert Grants(s, m, a) <==> Grants(t, m, a);
      }
    }
    if forall a: IpAddr :: a.family.V4? ==> Grants(rest, m, a) {
      forall n, ip: IpAddr
        ensures Grants(s, n, ip) <==> Grants(t, n, ip)
      {
        ExceptionGrants(s, i, t, n, ip);
        CanonicalIpIdempotent(ip);
        assert CanonicalIp(ip).family.V4? ==> Grants(rest, m, CanonicalIp(ip));
        GrantsIsCoverage(rest, m, CanonicalIp(ip));
        GrantsIsCoverage(rest, m, ip);
      }
    }
  }

  // The two lists differ for a lookup only in what the split network's metadata grants to IPv4 peers.
  lemma ExceptionGrants(s: seq<TrustedProxyRule>, i: nat, t: seq<TrustedProxyRule>, n: TrustedProxyMetadata, ip: IpAddr)
    requires i < |s| && EndsInMappedBlock(s[i].cidr)
    requires t == s[..i] + Halves(s[i]) + s[i + 1..]
    ensures var rest, m, a := s[..i] + s[i + 1..], s[i].metadata, CanonicalIp(ip);
            && (Grants(s, n, ip) <==> Grants(rest, n, ip) || (n == m && Contains(s[i].cidr, a)))
            && (Grants(t, n, ip) <==> Grants(rest, n, ip) || (n == m && (a.family.V4? || Contains(s[i].cidr, a))))
            && (a.family.V4? ==> !Contains(s[i].cidr, a))
  {
    CanonicalIpIdempotent(ip);
    GrantsIsCoverage(s, n, ip);
    GrantsIsCoverage(t, n, ip);
    GrantsIsCoverage(s[..i] + s[i + 1..], n, ip);
    ExceptionCoverage(s, i, t, n, CanonicalIp(ip));
  }

  // ---------- the shortest list with given lookups ----------

  /** With one metadata, the list holds both halves beside the block: `::fffc:0:0/95` and `::fffe:0:0/96`. */
  ghost predicate Joinable(built: seq<TrustedProxyRule>) {
    exists m :: JoinableIn(built, m)
  }

  ghost predicate JoinableIn(built: seq<TrustedProxyRule>, m: TrustedProxyMetadata) {
    && TrustedProxyRule(Buddy(Parent(MappedBlock())), m) in built
    && TrustedProxyRule(Buddy(MappedBlock()), m) in built
  }

  /** `::fffc:0:0/94`, which holds those two and the block. */
  function Wide(m: TrustedProxyMetadata): TrustedProxyRule {
    BlockNeighbours();
    TrustedProxyRule(Parent(Parent(MappedBlock())), m)
  }

  lemma WideMembers(a: IpAddr)
    requires !IsMapped(a)
    ensures Contains(Parent(Parent(MappedBlock())), a) <==>
            Contains(Buddy(Parent(MappedBlock())), a) || Contains(Buddy(MappedBlock()), a)
  {
    BlockNeighbours();
    BlockIsMapped(a);
    ParentIsBothHalves(MappedBlock());
    ParentIsBothHalves(Parent(MappedBlock()));
  }

  function RemoveAt(rules: seq<TrustedProxyRule>, j: nat): (r: seq<TrustedProxyRule>)
    requires j < |rules|
    ensures |r| == |rules| - 1
    ensures forall x :: x in r ==> x in rules
    ensures forall k :: 0 <= k < |rules| && k != j ==> rules[k] in r
  {
    var r := rules[..j] + rules[j + 1..];
    assert forall k :: 0 <= k < j ==> rules[k] == r[k];
    assert forall k :: j < k < |rules| ==> rules[k] == r[k - 1];
    r
  }

  /** Rule `i` replaced by the wide one, and rule `j` removed. */
  function JoinAt(built: seq<TrustedProxyRule>, i: nat, j: nat, m: TrustedProxyMetadata): (r: seq<TrustedProxyRule>)
    requires i < |built| && j < |built| && i != j
    ensures |r| == |built| - 1
    ensures Wide(m) in r
    ensures forall k :: 0 <= k < |built| && k != i && k != j ==> built[k] in r
    ensures forall x :: x in r ==> x == Wide(m) || x in built
  {
    var wide := Wide(m);
    var widened := built[i := wide];
    assert widened[i] == wide;
    assert forall k :: 0 <= k < |built| && k != i ==> widened[k] == built[k];
    RemoveAt(widened, j)
  }

  // A list that holds both halves beside the block is not the shortest: lookups cannot tell it from the joined one.
  lemma JoinedIsShorter(built: seq<TrustedProxyRule>, supplied: seq<TrustedProxyRule>, m: TrustedProxyMetadata)
    returns (other: seq<TrustedProxyRule>)
    requires BuiltFrom(built, supplied) && JoinableIn(built, m)
    ensures SameGrants(supplied, other) && |other| < |built|
  {
    BlockNeighbours();
    var p, q := Buddy(Parent(MappedBlock())), Buddy(MappedBlock());
    var i :| 0 <= i < |built| && built[i] == TrustedProxyRule(p, m);
    var j :| 0 <= j < |built| && built[j] == TrustedProxyRule(q, m);
    other := JoinAt(built, i, j, m);
    BuiltIsRewritten(built, supplied);
    forall n, ip: IpAddr
      ensures Grants(supplied, n, ip) <==> Grants(other, n, ip)
    {
      var a := CanonicalIp(ip);
      CanonicalIpIdempotent(ip);
      WideMembers(a);
      GrantsIsCoverage(supplied, n, ip);
      JoinedGrants(built, other, i, j, m, n, ip);
    }
  }

  lemma JoinedGrants(built: seq<TrustedProxyRule>, other: seq<TrustedProxyRule>, i: nat, j: nat,
                     m: TrustedProxyMetadata, n: TrustedProxyMetadata, ip: IpAddr)
    requires i < |built| && j < |built| && i != j && Rewritten(built) == built && other == JoinAt(built, i, j, m)
    requires built[i] == TrustedProxyRule(Buddy(Parent(MappedBlock())), m)
    requires built[j] == TrustedProxyRule(Buddy(MappedBlock()), m)
    ensures Grants(other, n, ip) <==> Covered(built, n, CanonicalIp(ip))
  {
    BlockNeighbours();
    var a := CanonicalIp(ip);
    CanonicalIpIdempotent(ip);
    WideMembers(a);
    assert CanonicalCidr(Wide(m).cidr) == Wide(m).cidr;
    forall r | r in built
      ensures Rewrite(r) == r
    {
      var k :| 0 <= k < |built| && built[k] == r;
      assert Rewritten(built)[k] == Rewrite(built[k]);
    }
    if Grants(other, n, ip) {
      var r :| r in other && r.metadata == n && Matches(r, ip);
      var s := if r in built then r else if Contains(built[i].cidr, a) then built[i] else built[j];
      assert s in built && s.metadata == n && Contains(s.cidr, a);
    }
    if Covered(built, n, a) {
      var r :| r in built && r.metadata == n && Contains(r.cidr, a);
      var k :| 0 <= k < |built| && built[k] == r;
      var s := if k == i || k == j then Wide(m) else r;
      assert s in other && s.metadata == n && Matches(s, ip);
    }
  }

  // If a group misses the block but covers the other half beside a network that holds it, that half is a member.
  lemma HalfIsMember(nets: set<IpCidr>, q: IpCidr)
    requires NormalForm(nets) && q.len > 0 && Within(MappedBlock(), q)
    requires forall a: IpAddr :: IsMapped(a) ==> !Covers(nets, a)
    requires forall a: IpAddr :: Contains(Buddy(q), a) ==> Covers(nets, a)
    ensures Buddy(q) in nets
  {
    var c := InsideOne(nets, Buddy(q));
    ParentIsBothHalves(q);
    WithinLength(Buddy(q), c);
    if c.len < q.len {
      WithinIsSubset(Buddy(q), Parent(q));
      WithinIsSubset(q, Parent(q));
      assert Overlap(c, Parent(q));
      Laminar(c, Parent(q));
      var a := First(MappedBlock());
      BlockIsMapped(a);
      assert Contains(c, a);
      assert false;
    }
  }

  // A short rule that holds the block, in a group that misses the block: either both halves beside the block are
  // members, or the rule is `::fffe:0:0/95` and its lower half is one.
  lemma ShortRuleHalves(nets: set<IpCidr>, n: IpCidr)
    requires NormalForm(nets) && n.len < 96 && Within(MappedBlock(), n)
    requires forall a: IpAddr :: IsMapped(a) ==> !Covers(nets, a)
    requires forall a: IpAddr :: Contains(n, a) && !IsMapped(a) ==> Covers(nets, a)
    ensures Buddy(MappedBlock()) in nets
    ensures n == Parent(MappedBlock()) || Buddy(Parent(MappedBlock())) in nets
  {
    var block := MappedBlock();
    var parent := Parent(block);
    HalfBesideInside(block, n);
    HalfIsMember(nets, block);
    if n != parent {
      Laminar(parent, n);
      ParentIsBothHalves(block);
      WithinIsSubset(block, parent);
      HalfBesideInside(parent, n);
      HalfIsMember(nets, parent);
    }
  }

  // A network wider than `q` holds the parent of `q`, and the half beside `q` misses the block inside `q`.
  lemma HalfBesideInside(q: IpCidr, n: IpCidr)
    requires q.len > 0 && n.len < q.len && Within(MappedBlock(), q) && Overlap(q, n)
    ensures Within(Parent(q), n)
    ensures forall a: IpAddr :: Contains(Buddy(q), a) ==> Contains(n, a) && !IsMapped(a)
  {
    ParentIsBothHalves(q);
    WithinIsSubset(q, Parent(q));
    assert Overlap(Parent(q), n);
    Laminar(Parent(q), n);
    forall a: IpAddr | Contains(Buddy(q), a)
      ensures Contains(n, a) && !IsMapped(a)
    {
      BlockIsMapped(a);
      assert Contains(Parent(q), a);
    }
  }

  /** Rule `j` of the other list, rewritten, lies inside built rule `i`, or holds the block and exactly that rule. */
  ghost predicate LookupHit(built: seq<TrustedProxyRule>, other: seq<TrustedProxyRule>, i: nat, j: nat) {
    && i < |built| && j < |other| && other[j].metadata == built[i].metadata
    && (|| Within(CanonicalCidr(other[j].cidr), built[i].cidr)
        || (other[j].cidr == Parent(MappedBlock()) && built[i].cidr == Buddy(MappedBlock())))
  }

  lemma LookupHitOnce(built: seq<TrustedProxyRule>, other: seq<TrustedProxyRule>, i: nat, k: nat, j: nat)
    requires Merged(built) && LookupHit(built, other, i, j) && LookupHit(built, other, k, j)
    ensures i == k
  {
    BlockHalves();
    HalvesCover(Parent(MappedBlock()));
    if i != k {
      MergedApart(built, i, k);
    }
  }

  // Each rule of a built list that is not joinable is hit by some rule of any list with the same lookups.
  lemma FindLookupHit(built: seq<TrustedProxyRule>, supplied: seq<TrustedProxyRule>, other: seq<TrustedProxyRule>, i: nat)
    returns (j: nat)
    requires BuiltFrom(built, supplied) && SameGrants(supplied, other) && !Joinable(built) && i < |built|
    ensures LookupHit(built, other, i, j)
  {
    var r := built[i];
    var m, nets := r.metadata, Nets(built, r.metadata);
    var a;
    a, j := SharedAddress(built, supplied, other, i);
    var s := other[j];
    var n := CanonicalCidr(s.cidr);
    forall b: IpAddr | Contains(n, b) && !IsMapped(b)
      ensures Covers(nets, b)
    {
      SeenAlike(built, supplied, other, m, b);
      assert Matches(s, b);
    }
    if forall b: IpAddr :: Contains(n, b) ==> Covers(nets, b) {
      var c := InsideOne(nets, n);
      assert Overlap(c, r.cidr);
    } else {
      var b: IpAddr :| Contains(n, b) && !Covers(nets, b);
      MappedMember(s.cidr, b);
      MissesBlock(built, supplied, m, b);
      ShortRuleHalves(nets, n);
      assert !JoinableIn(built, m);
      BesideBlockOnly(nets, r.cidr, a);
    }
  }

  // Some rule of the other list, with the metadata of built rule `i`, shares a canonical address with it.
  lemma SharedAddress(built: seq<TrustedProxyRule>, supplied: seq<TrustedProxyRule>, other: seq<TrustedProxyRule>, i: nat)
    returns (a: IpAddr, j: nat)
    requires BuiltFrom(built, supplied) && SameGrants(supplied, other) && i < |built|
    ensures !IsMapped(a) && Contains(built[i].cidr, a)
    ensures j < |other| && other[j].metadata == built[i].metadata && Contains(CanonicalCidr(other[j].cidr), a)
    ensures TrustedProxyRule(built[i].cidr, built[i].metadata) in built
  {
    var r := built[i];
    BuiltIsRewritten(built, supplied);
    assert Rewritten(built)[i] == r;
    a := HoldsCanonicalAddress(r.cidr);
    CanonicalIpIdempotent(a);
    assert r == TrustedProxyRule(r.cidr, r.metadata) && r in built;
    SeenAlike(built, supplied, other, r.metadata, a);
    var s :| s in other && s.metadata == r.metadata && Matches(s, a);
    j :| 0 <= j < |other| && other[j] == s;
  }

  // The member of a group that meets `::fffe:0:0/95` outside the block is the half beside the block.
  lemma BesideBlockOnly(nets: set<IpCidr>, c: IpCidr, a: IpAddr)
    requires NormalForm(nets) && c in nets && Buddy(MappedBlock()) in nets
    requires Contains(c, a) && Contains(Parent(MappedBlock()), a) && !IsMapped(a)
    ensures c == Buddy(MappedBlock())
  {
    ParentIsBothHalves(MappedBlock());
    BlockIsMapped(a);
    assert Overlap(Buddy(MappedBlock()), c);
  }

  lemma SeenAlike(built: seq<TrustedProxyRule>, supplied: seq<TrustedProxyRule>, other: seq<TrustedProxyRule>,
                  m: TrustedProxyMetadata, a: IpAddr)
    requires BuiltFrom(built, supplied) && SameGrants(supplied, other) && !IsMapped(a)
    ensures Covers(Nets(built, m), a) <==> Grants(other, m, a)
    ensures CanonicalIp(a) == a
  {
    CoveredByNets(built, m, a);
    CanonicalCoverage(supplied, m, a);
    assert Covered(built, m, a) <==> Covered(Rewritten(supplied), m, a);
    assert Grants(supplied, m, a) <==> Grants(other, m, a);
  }

  // A group that misses one mapped address misses them all.
  lemma MissesBlock(built: seq<TrustedProxyRule>, supplied: seq<TrustedProxyRule>, m: TrustedProxyMetadata, b: IpAddr)
    requires BuiltFrom(built, supplied) && IsMapped(b) && !Covers(Nets(built, m), b)
    ensures forall a: IpAddr :: IsMapped(a) ==> !Covers(Nets(built, m), a)
  {
    CoveredByNets(built, m, b);
    MappedCoverage(supplied, m, b);
    assert !Covered(Rewritten(supplied), m, b);
    forall a: IpAddr | IsMapped(a)
      ensures !Covers(Nets(built, m), a)
    {
      CoveredByNets(built, m, a);
      MappedCoverage(supplied, m, a);
      assert Covered(built, m, a) <==> Covered(Rewritten(supplied), m, a);
    }
  }

  lemma NotJoinableIsShortest(built: seq<TrustedProxyRule>, supplied: seq<TrustedProxyRule>, other: seq<TrustedProxyRule>)
    requires BuiltFrom(built, supplied) && SameGrants(supplied, other) && !Joinable(built)
    ensures |built| <= |other|
  {
    var hit := (i: nat, j: nat) => LookupHit(built, other, i, j);
    forall i: nat | i < |built|
      ensures HitsBelow(i, |other|, hit)
    {
      var j := FindLookupHit(built, supplied, other, i);
      assert hit(i, j);
    }
    forall i: nat, k: nat, j: nat | i < |built| && k < |built| && hit(i, j) && hit(k, j)
      ensures i == k
    {
      LookupHitOnce(built, other, i, k, j);
    }
    InjectionBound(|built|, |other|, hit);
  }

  // The built list is the shortest one that answers every lookup alike exactly when it does not hold both halves
  // beside the mapped block with one metadata.
  lemma ShortestForLookups(built: seq<TrustedProxyRule>, supplied: seq<TrustedProxyRule>)
    requires BuiltFrom(built, supplied)
    ensures !Joinable(built) <==> forall other :: SameGrants(supplied, other) ==> |built| <= |other|
  {
    if Joinable(built) {
      var m :| JoinableIn(built, m);
      var other := JoinedIsShorter(built, supplied, m);
    } else {
      forall other | SameGrants(supplied, other)
        ensures |built| <= |other|
      {
        NotJoinableIsShortest(built, supplied, other);
      }
    }
  }

  /** The supplied rules with metadata `m` match every address of both networks beside the block, and no short one of
      them holds the block. */
  ghost predicate LeavesGap(supplied: seq<TrustedProxyRule>, m: TrustedProxyMetadata) {
    && !HoldsBlock(supplied, m)
    && forall a: IpAddr :: Contains(Buddy(Parent(MappedBlock())), a) || Contains(Buddy(MappedBlock()), a)
                           ==> Grants(supplied, m, a)
  }

  // Whether the built list holds both networks can be read off the supplied rules.
  lemma JoinableIsGap(built: seq<TrustedProxyRule>, supplied: seq<TrustedProxyRule>, m: TrustedProxyMetadata)
    requires BuiltFrom(built, supplied)
    ensures JoinableIn(built, m) <==> LeavesGap(supplied, m)
  {
    if JoinableIn(built, m) {
      JoinableLeavesGap(built, supplied, m);
    }
    if LeavesGap(supplied, m) {
      GapIsJoinable(built, supplied, m);
    }
  }

  lemma BesideIsUnmapped(a: IpAddr)
    ensures Contains(Buddy(Parent(MappedBlock())), a) || Contains(Buddy(MappedBlock()), a) ==> !IsMapped(a)
  {
    BlockIsMapped(a);
    ParentIsBothHalves(MappedBlock());
    ParentIsBothHalves(Parent(MappedBlock()));
  }

  lemma MemberIsGranted(built: seq<TrustedProxyRule>, supplied: seq<TrustedProxyRule>, m: TrustedProxyMetadata, a: IpAddr)
    requires BuiltFrom(built, supplied) && JoinableIn(built, m)
    requires Contains(Buddy(Parent(MappedBlock())), a) || Contains(Buddy(MappedBlock()), a)
    ensures Grants(supplied, m, a)
  {
    BesideIsUnmapped(a);
    SeenAlike(built, supplied, supplied, m, a);
    var nets := Nets(built, m);
    assert Buddy(MappedBlock()) in nets && Buddy(Parent(MappedBlock())) in nets;
    assert Covers(nets, a);
  }

  lemma JoinableLeavesGap(built: seq<TrustedProxyRule>, supplied: seq<TrustedProxyRule>, m: TrustedProxyMetadata)
    requires BuiltFrom(built, supplied) && JoinableIn(built, m)
    ensures LeavesGap(supplied, m)
  {
    var block := MappedBlock();
    assert Buddy(block) in Nets(built, m) && Buddy(Parent(block)) in Nets(built, m);
    forall a: IpAddr | Contains(Buddy(Parent(block)), a) || Contains(Buddy(block), a)
      ensures Grants(supplied, m, a)
    {
      MemberIsGranted(built, supplied, m, a);
    }
    if HoldsBlock(supplied, m) {
      var r :| r in supplied && r.metadata == m && r.cidr.len < 96 && Within(block, r.cidr);
      HeldNetIsCovered(built, supplied, r);
      HoldingNetIsUncovered(Nets(built, m), r.cidr);
    }
  }

  // A group with the half beside the block as a member misses part of every network that holds the block.
  lemma HoldingNetIsUncovered(nets: set<IpCidr>, n: IpCidr)
    requires NormalForm(nets) && Buddy(MappedBlock()) in nets
    requires n.len < 96 && Within(MappedBlock(), n)
    ensures exists a: IpAddr :: Contains(n, a) && !Covers(nets, a)
  {
    if forall a: IpAddr :: Contains(n, a) ==> Covers(nets, a) {
      var c := InsideOne(nets, n);
      HalfBesideInside(MappedBlock(), n);
      ParentIsBothHalves(MappedBlock());
      WithinLength(n, c);
      var a := First(Buddy(MappedBlock()));
      assert Contains(n, a) && Contains(c, a);
      assert Overlap(Buddy(MappedBlock()), c);
    }
  }

  lemma HeldNetIsCovered(built: seq<TrustedProxyRule>, supplied: seq<TrustedProxyRule>, r: TrustedProxyRule)
    requires BuiltFrom(built, supplied) && r in supplied && CanonicalCidr(r.cidr) == r.cidr
    ensures forall a: IpAddr :: Contains(r.cidr, a) ==> Covers(Nets(built, r.metadata), a)
  {
    RewrittenMember(supplied, r);
    forall a: IpAddr | Contains(r.cidr, a)
      ensures Covers(Nets(built, r.metadata), a)
    {
      assert Rewrite(r) in Rewritten(supplied) && Covered(Rewritten(supplied), r.metadata, a);
      CoveredByNets(built, r.metadata, a);
    }
  }

  lemma GapIsJoinable(built: seq<TrustedProxyRule>, supplied: seq<TrustedProxyRule>, m: TrustedProxyMetadata)
    requires BuiltFrom(built, supplied) && LeavesGap(supplied, m)
    ensures JoinableIn(built, m)
  {
    var block, nets := MappedBlock(), Nets(built, m);
    forall a: IpAddr | IsMapped(a)
      ensures !Covers(nets, a)
    {
      CoveredByNets(built, m, a);
      MappedCoverage(supplied, m, a);
    }
    forall a: IpAddr | Contains(Buddy(Parent(block)), a) || Contains(Buddy(block), a)
      ensures Covers(nets, a)
    {
      BesideIsUnmapped(a);
      SeenAlike(built, supplied, supplied, m, a);
    }
    HalvesCover(Parent(block));
    BlockHalves();
    HalfIsMember(nets, block);
    HalfIsMember(nets, Parent(block));
  }

  // The same over the supplied rules: building gives the shortest list with their lookups exactly when no metadata
  // matches everything in `::fffc:0:0/94` but the block.
  lemma ShortestForSuppliedLookups(built: seq<TrustedProxyRule>, supplied: seq<TrustedProxyRule>)
    requires BuiltFrom(built, supplied)
    ensures (forall m :: !LeavesGap(supplied, m)) <==>
            forall other :: SameGrants(supplied, other) ==> |built| <= |other|
  {
    ShortestForLookups(built, supplied);
    forall m
      ensures JoinableIn(built, m) <==> LeavesGap(supplied, m)
    {
      JoinableIsGap(built, supplied, m);
    }
  }

  // ---------- a concrete pair of lists ----------

  // Two different built lists that no lookup tells apart: `::fffc:0:0/95` with `::fffe:0:0/96`, and `::fffc:0:0/94`.
  lemma SameLookupsExample(m: TrustedProxyMetadata)
    ensures var two := [TrustedProxyRule(Buddy(Parent(MappedBlock())), m), TrustedProxyRule(Buddy(MappedBlock()), m)];
            var one := [Wide(m)];
            && BuiltFrom(two, two) && BuiltFrom(one, one) && SameGrants(two, one)
    ensures Buddy(Parent(MappedBlock())) == Cidr(V6, 0xFFFC * IPV4_SPACE, 95)
    ensures Buddy(MappedBlock()) == Cidr(V6, 0xFFFE * IPV4_SPACE, 96)
    ensures Wide(m).cidr == Cidr(V6, 0xFFFC * IPV4_SPACE, 94)
  {
    BlockNeighbours();
    var two := [TrustedProxyRule(Buddy(Parent(MappedBlock())), m), TrustedProxyRule(Buddy(MappedBlock()), m)];
    var one := [Wide(m)];
    PairIsOrdered(m);
    BuildsItself(two, m);
    BuildsItself(one, m);
    forall n, ip: IpAddr
      ensures Grants(two, n, ip) <==> Grants(one, n, ip)
    {
      JoinedGrants(two, one, 0, 1, m, n, ip);
      GrantsIsCoverage(two, n, ip);
    }
  }

  lemma PairIsOrdered(m: TrustedProxyMetadata)
    ensures var two := [TrustedProxyRule(Buddy(Parent(MappedBlock())), m), TrustedProxyRule(Buddy(MappedBlock()), m)];
            Ordered(two) && Rewritten(two) == two && JoinAt(two, 0, 1, m) == [Wide(m)]
    ensures Rewritten([Wide(m)]) == [Wide(m)]
  {
    hide Lt, Last, First;
    BlockNeighbours();
    BlockHalves();
    NeighboursOrdered();
    var two := [TrustedProxyRule(Buddy(Parent(MappedBlock())), m), TrustedProxyRule(Buddy(MappedBlock()), m)];
    var widened := two[0 := Wide(m)];
    assert widened[..1] + widened[2..] == [Wide(m)];
  }

  lemma NeighboursOrdered()
    ensures Lt(Last(Buddy(Parent(MappedBlock()))), First(Buddy(MappedBlock())))
  {
    BlockNeighbours();
    Pow2Values();
  }

  // An ordered list of rewritten rules of one metadata, no two of one length, builds to itself.
  lemma BuildsItself(rules: seq<TrustedProxyRule>, m: TrustedProxyMetadata)
    requires Ordered(rules) && Rewritten(rules) == rules
    requires forall r :: r in rules ==> r.metadata == m
    requires forall r, s :: r in rules && s in rules && r != s ==> r.cidr.len != s.cidr.len
    ensures BuiltFrom(rules, rules)
  {
    forall n
      ensures NormalForm(Nets(rules, n))
    {
      forall c, d | c in Nets(rules, n) && d in Nets(rules, n) && c != d
        ensures !Overlap(c, d)
      {
        var i :| 0 <= i < |rules| && rules[i] == TrustedProxyRule(c, n);
        var j :| 0 <= j < |rules| && rules[j] == TrustedProxyRule(d, n);
        assert Lt(Last(rules[if i < j then i else j].cidr), First(rules[if i < j then j else i].cidr));
      }
      forall c: IpCidr | c in Nets(rules, n) && c.len > 0
        ensures Buddy(c) !in Nets(rules, n)
      {
        ParentIsBothHalves(c);
        assert Overlap(c, c);
        assert TrustedProxyRule(c, n) in rules;
      }
    }
  }
}
