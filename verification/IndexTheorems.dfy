/** What the built index means for the rules the user supplied. */
module IndexTheorems {
  import opened Addresses
  import opened Canonical
  import opened Wrappers
  import opened Rules
  import opened CidrMerge
  import opened Config

  /** A rule as supplied, rewritten, contains an address, rewritten. */
  predicate Matches(r: TrustedProxyRule, ip: IpAddr) {
    Contains(CanonicalCidr(r.cidr), CanonicalIp(ip))
  }

  /** The naive reading of the supplied rules: some rule with metadata `m` matches. */
  ghost predicate Grants(supplied: seq<TrustedProxyRule>, m: TrustedProxyMetadata, ip: IpAddr) {
    exists r :: r in supplied && r.metadata == m && Matches(r, ip)
  }

  lemma RewrittenMember(supplied: seq<TrustedProxyRule>, r: TrustedProxyRule)
    ensures r in supplied ==> Rewrite(r) in Rewritten(supplied)
    ensures r in Rewritten(supplied) ==> exists s :: s in supplied && Rewrite(s) == r
  {
    if r in supplied {
      var i :| 0 <= i < |supplied| && supplied[i] == r;
      assert Rewritten(supplied)[i] == Rewrite(r);
    }
    if r in Rewritten(supplied) {
      var i :| 0 <= i < |supplied| && Rewritten(supplied)[i] == r;
      assert supplied[i] in supplied && Rewrite(supplied[i]) == r;
    }
  }

  lemma GrantsIsCoverage(supplied: seq<TrustedProxyRule>, m: TrustedProxyMetadata, ip: IpAddr)
    ensures Grants(supplied, m, ip) <==> Covered(Rewritten(supplied), m, CanonicalIp(ip))
  {
    if Grants(supplied, m, ip) {
      var r :| r in supplied && r.metadata == m && Matches(r, ip);
      RewrittenMember(supplied, r);
      assert Rewrite(r) in Rewritten(supplied);
    }
    if Covered(Rewritten(supplied), m, CanonicalIp(ip)) {
      var r :| r in Rewritten(supplied) && r.metadata == m && Contains(r.cidr, CanonicalIp(ip));
      RewrittenMember(supplied, r);
      var s :| s in supplied && Rewrite(s) == r;
      assert Matches(s, ip);
    }
  }

  // Index refines linear scan: a lookup gives metadata `m` exactly when a supplied rule with `m` matches.
  lemma IndexRefinesScan(built: seq<TrustedProxyRule>, supplied: seq<TrustedProxyRule>, ip: IpAddr)
    requires BuiltFrom(built, supplied)
    ensures forall m :: Policy(built, CanonicalIp(ip)) == Some(m) <==> Grants(supplied, m, ip)
    ensures Policy(built, CanonicalIp(ip)).None? <==> forall r :: r in supplied ==> !Matches(r, ip)
    ensures Policy(built, CanonicalIp(ip)) == Policy(Rewritten(supplied), CanonicalIp(ip))
  {
    var a := CanonicalIp(ip);
    IndexHasNoConflict(built);
    forall m
      ensures Policy(built, a) == Some(m) <==> Grants(supplied, m, ip)
      ensures Policy(Rewritten(supplied), a) == Some(m) <==> Grants(supplied, m, ip)
    {
      GrantsIsCoverage(supplied, m, ip);
      PolicyIsCoverage(built, m, a);
      PolicyIsCoverage(Rewritten(supplied), m, a);
    }
    assert forall r :: r in supplied && Matches(r, ip) ==> Grants(supplied, r.metadata, ip);
    var p, q := Policy(built, a), Policy(Rewritten(supplied), a);
    assert p.Some? ==> q == Some(p.value);
    assert q.Some? ==> p == Some(q.value);
  }

  // The rule a lookup returns is one of the built rules around the address, with the metadata that a matching supplied
  // rule has; and an address is trusted exactly when some supplied rule matches it.
  lemma RuleIsGranted(built: seq<TrustedProxyRule>, supplied: seq<TrustedProxyRule>, order: seq<ChainHeader>, ip: IpAddr)
    requires BuiltFrom(built, supplied)
    ensures var config := ClientIpConfig(TrustedProxies(built, order));
            var found := RuleOf(config, ip);
            && (forall m :: found.Some? && found.value.metadata == m <==> Grants(supplied, m, ip))
            && (found.Some? ==> found.value in built && Contains(found.value.cidr, CanonicalIp(ip)))
            && (TrustedProxy(config, ip) <==> exists r :: r in supplied && Matches(r, ip))
  {
    IndexRefinesScan(built, supplied, ip);
  }

  // The same, with the network as the user wrote it: a rule matches a peer when it contains the peer's
  // canonical form, or contains its IPv4-mapped form and is an IPv6 network of at least 96 bits.
  lemma MatchesAsWritten(r: TrustedProxyRule, ip: IpAddr)
    ensures Matches(r, ip) <==>
            var a := CanonicalIp(ip);
            || Contains(r.cidr, a)
            || (r.cidr.family.V6? && r.cidr.len >= 96 && a.family.V4? && Contains(r.cidr, MappedForm(a)))
  {
    CanonicalIpIdempotent(ip);
    RewrittenMembership(r.cidr, CanonicalIp(ip));
  }

  // A built list runs through the IPv4 networks first and then the IPv6 ones, each by rising numbers.
  lemma BuiltIsAscending(built: seq<TrustedProxyRule>, supplied: seq<TrustedProxyRule>, i: nat, j: nat)
    requires BuiltFrom(built, supplied) && i < j < |built|
    ensures var c, d := built[i].cidr, built[j].cidr;
            (c.family.V4? && d.family.V6?) || (c.family == d.family && c.base + c.Size() <= d.base)
  {
    assert Lt(Last(built[i].cidr), First(built[j].cidr));
  }

  // Build rejects exactly the rule lists under which some peer address is granted two policies.
  lemma RejectionIsWitnessed(supplied: seq<TrustedProxyRule>)
    ensures !NoConflict(Rewritten(supplied)) <==>
            exists r, s, ip: IpAddr :: r in supplied && s in supplied && r.metadata != s.metadata
                                       && CanonicalIp(ip) == ip && Matches(r, ip) && Matches(s, ip)
  {
    if !NoConflict(Rewritten(supplied)) {
      var q, p :| q in Rewritten(supplied) && p in Rewritten(supplied) && Conflict(q, p);
      RewrittenMember(supplied, q);
      RewrittenMember(supplied, p);
      var r :| r in supplied && Rewrite(r) == q;
      var s :| s in supplied && Rewrite(s) == p;
      CanonicalCidrIdempotent(r.cidr);
      CanonicalCidrIdempotent(s.cidr);
      OverlapHasCanonicalAddress(q.cidr, p.cidr);
      var ip: IpAddr :| CanonicalIp(ip) == ip && Contains(q.cidr, ip) && Contains(p.cidr, ip);
      assert Matches(r, ip) && Matches(s, ip);
    }
    forall r, s, ip: IpAddr | r in supplied && s in supplied && r.metadata != s.metadata
                              && CanonicalIp(ip) == ip && Matches(r, ip) && Matches(s, ip)
      ensures !NoConflict(Rewritten(supplied))
    {
      RewrittenMember(supplied, r);
      RewrittenMember(supplied, s);
      OverlapIsShared(CanonicalCidr(r.cidr), CanonicalCidr(s.cidr));
      assert Conflict(Rewrite(r), Rewrite(s));
    }
  }

  // No list of rules that covers the same addresses is shorter than the built one.
  lemma BuiltIsShortest(built: seq<TrustedProxyRule>, supplied: seq<TrustedProxyRule>, other: seq<TrustedProxyRule>)
    requires BuiltFrom(built, supplied) && SameCoverage(built, other)
    ensures |built| <= |other| && |built| <= |supplied|
  {
    MergedIsShortest(built, other);
    MergedIsShortest(built, Rewritten(supplied));
  }

  // The built list is a normal form: two configs hold the same list exactly when their rewritten rules cover the
  // same addresses with the same metadata.
  lemma BuiltIsNormalForm(s: seq<TrustedProxyRule>, fromS: seq<TrustedProxyRule>,
                          t: seq<TrustedProxyRule>, fromT: seq<TrustedProxyRule>)
    requires BuiltFrom(s, fromS) && BuiltFrom(t, fromT)
    ensures s == t <==> SameCoverage(Rewritten(fromS), Rewritten(fromT))
  {
    IndexUnique(s, t);
    if SameCoverage(Rewritten(fromS), Rewritten(fromT)) {
      SameCoverageChain(s, Rewritten(fromS), Rewritten(fromT));
      SameCoverageFlip(t, Rewritten(fromT));
      SameCoverageChain(s, Rewritten(fromT), t);
    } else if s == t {
      SameCoverageFlip(s, Rewritten(fromS));
      SameCoverageChain(Rewritten(fromS), s, Rewritten(fromT));
    }
  }

  lemma SameCoverageFlip(s: seq<TrustedProxyRule>, t: seq<TrustedProxyRule>)
    requires SameCoverage(s, t)
    ensures SameCoverage(t, s)
  {
  }

  lemma SameCoverageChain(s: seq<TrustedProxyRule>, t: seq<TrustedProxyRule>, u: seq<TrustedProxyRule>)
    requires SameCoverage(s, t) && SameCoverage(t, u)
    ensures SameCoverage(s, u)
  {
  }

  // Permuting or duplicating the supplied rules changes neither the verdict nor the built list.
  lemma OrderDoesNotMatter(s: seq<TrustedProxyRule>, t: seq<TrustedProxyRule>,
                           builtS: seq<TrustedProxyRule>, builtT: seq<TrustedProxyRule>)
    requires forall r :: r in s <==> r in t
    ensures NoConflict(Rewritten(s)) <==> NoConflict(Rewritten(t))
    ensures BuiltFrom(builtS, s) && BuiltFrom(builtT, t) ==> builtS == builtT
  {
    forall r: TrustedProxyRule
      ensures r in Rewritten(s) <==> r in Rewritten(t)
    {
      RewrittenMember(s, r);
      RewrittenMember(t, r);
      forall q | q in s && Rewrite(q) == r
        ensures r in Rewritten(t)
      {
        RewrittenMember(t, q);
      }
      forall q | q in t && Rewrite(q) == r
        ensures r in Rewritten(s)
      {
        RewrittenMember(s, q);
      }
    }
    ReorderedCoverage(Rewritten(s), Rewritten(t));
    if BuiltFrom(builtS, s) && BuiltFrom(builtT, t) {
      BuiltIsNormalForm(builtS, s, builtT, t);
    }
  }

  // ---------- splitting a network ----------

  /** The one network whose upper half is the mapped block itself: `::fffe:0:0/95`. */
  predicate EndsInMappedBlock(c: IpCidr) {
    c.family.V6? && c.len == 95 && IsMapped(Last(c))
  }

  // Exactly one network ends in the mapped block.
  lemma OnlyOneEndsInMappedBlock(c: IpCidr)
    ensures Cidr(V6, 0xFFFE * IPV4_SPACE, 95).Valid()
    ensures EndsInMappedBlock(c) <==> c == Cidr(V6, 0xFFFE * IPV4_SPACE, 95)
  {
    BlockNeighbours();
    if c.family.V6? && c.len == 95 {
      Pow2Values();
      MappedRange(Last(c));
      Quotient(c.base, 2 * IPV4_SPACE);
    }
  }

  // The two rewritten halves hold the same addresses as the rewritten whole, for every network but that one.
  lemma HalvesAfterRewrite(c: IpCidr)
    requires c.len < c.family.Bits()
    ensures !EndsInMappedBlock(c) <==>
            forall a: IpAddr :: Contains(CanonicalCidr(c), a)
                                <==> Contains(CanonicalCidr(LowHalf(c)), a) || Contains(CanonicalCidr(HighHalf(c)), a)
  {
    HalvesCover(c);
    HalvesValid(c);
    var l, h := LowHalf(c), HighHalf(c);
    if c.family.V6? && c.len >= 96 {
      assert Contains(c, First(l)) && Contains(c, First(h));
      LongPrefixAllOrNothing(c, First(l));
      LongPrefixAllOrNothing(c, First(h));
      if IsMapped(First(c)) {
        MappedCidrRewrites(c);
        MappedCidrRewrites(l);
        MappedCidrRewrites(h);
        RewrittenHalves(c);
      }
    } else if c.family.V6? && c.len == 95 {
      HalfOfNinetyFive(c);
    }
  }

  // Rewriting a mapped network and halving it commute.
  lemma RewrittenHalves(c: IpCidr)
    requires c.family.V6? && 96 <= c.len < 128 && IsMapped(First(c))
    requires CanonicalCidr(c) == Cidr(V4, c.base - MAPPED_PREFIX * IPV4_SPACE, c.len - 96)
    ensures LowHalf(CanonicalCidr(c)) == Cidr(V4, LowHalf(c).base - MAPPED_PREFIX * IPV4_SPACE, c.len - 95)
    ensures HighHalf(CanonicalCidr(c)) == Cidr(V4, HighHalf(c).base - MAPPED_PREFIX * IPV4_SPACE, c.len - 95)
    ensures forall a: IpAddr :: Contains(CanonicalCidr(c), a)
                                <==> Contains(LowHalf(CanonicalCidr(c)), a) || Contains(HighHalf(CanonicalCidr(c)), a)
  {
    HalvesCover(CanonicalCidr(c));
    assert 32 - (c.len - 96) - 1 == 128 - c.len - 1;
  }

  lemma HalfOfNinetyFive(c: IpCidr)
    requires c.family.V6? && c.len == 95
    ensures !IsMapped(First(LowHalf(c)))
    ensures IsMapped(First(HighHalf(c))) <==> EndsInMappedBlock(c)
    ensures EndsInMappedBlock(c) ==>
              var v4 := CanonicalCidr(HighHalf(c));
              v4.family.V4? && Contains(v4, First(v4)) && !Contains(c, First(v4)) && CanonicalCidr(c) == c
  {
    Pow2Values();
    HalvesValid(c);
    MappedRange(First(LowHalf(c)));
    MappedRange(First(HighHalf(c)));
    MappedRange(Last(c));
    Quotient(c.base, 2 * IPV4_SPACE);
    if IsMapped(First(HighHalf(c))) {
      MappedCidrRewrites(HighHalf(c));
    }
  }

  lemma CoveredSplice(lo: seq<TrustedProxyRule>, mid: seq<TrustedProxyRule>, hi: seq<TrustedProxyRule>,
                      m: TrustedProxyMetadata, a: IpAddr)
    ensures Covered(lo + mid + hi, m, a) <==> Covered(lo, m, a) || Covered(mid, m, a) || Covered(hi, m, a)
  {
    CoveredConcat(lo + mid, hi, m, a);
    CoveredConcat(lo, mid, m, a);
  }

  function Halves(r: TrustedProxyRule): seq<TrustedProxyRule>
    requires r.cidr.len < r.cidr.family.Bits()
  {
    [r.(cidr := LowHalf(r.cidr)), r.(cidr := HighHalf(r.cidr))]
  }

  lemma HalvesCovered(r: TrustedProxyRule, m: TrustedProxyMetadata, a: IpAddr)
    requires r.cidr.len < r.cidr.family.Bits()
    ensures Covered(Rewritten([r]), m, a) <==> r.metadata == m && Contains(CanonicalCidr(r.cidr), a)
    ensures Covered(Rewritten(Halves(r)), m, a) <==>
            r.metadata == m && (Contains(CanonicalCidr(LowHalf(r.cidr)), a) || Contains(CanonicalCidr(HighHalf(r.cidr)), a))
  {
    var one, two := Rewritten([r]), Rewritten(Halves(r));
    assert one[0] in one && two[0] in two && two[1] in two;
    assert one == [Rewrite(r)] && two == [Rewrite(Halves(r)[0]), Rewrite(Halves(r)[1])];
  }

  lemma SplittingCoverage(s: seq<TrustedProxyRule>, i: nat, t: seq<TrustedProxyRule>)
    requires i < |s| && s[i].cidr.len < s[i].cidr.family.Bits() && !EndsInMappedBlock(s[i].cidr)
    requires t == s[..i] + Halves(s[i]) + s[i + 1..]
    ensures SameCoverage(Rewritten(s), Rewritten(t))
  {
    var lo, hi := Rewritten(s[..i]), Rewritten(s[i + 1..]);
    assert Rewritten(s) == lo + Rewritten([s[i]]) + hi;
    assert Rewritten(t) == lo + Rewritten(Halves(s[i])) + hi;
    HalvesAfterRewrite(s[i].cidr);
    forall m, a: IpAddr
      ensures Covered(Rewritten(s), m, a) <==> Covered(Rewritten(t), m, a)
    {
      CoveredSplice(lo, Rewritten([s[i]]), hi, m, a);
      CoveredSplice(lo, Rewritten(Halves(s[i])), hi, m, a);
      HalvesCovered(s[i], m, a);
    }
  }

  // Splitting a supplied network other than `::fffe:0:0/95` changes neither the verdict nor the built list.
  lemma SplittingDoesNotMatter(s: seq<TrustedProxyRule>, i: nat, t: seq<TrustedProxyRule>,
                               builtS: seq<TrustedProxyRule>, builtT: seq<TrustedProxyRule>)
    requires i < |s| && s[i].cidr.len < s[i].cidr.family.Bits() && !EndsInMappedBlock(s[i].cidr)
    requires t == s[..i] + Halves(s[i]) + s[i + 1..]
    ensures NoConflict(Rewritten(s)) <==> NoConflict(Rewritten(t))
    ensures BuiltFrom(builtS, s) && BuiltFrom(builtT, t) ==> builtS == builtT
  {
    SplittingCoverage(s, i, t);
    SameVerdict(Rewritten(s), Rewritten(t));
    if BuiltFrom(builtS, s) && BuiltFrom(builtT, t) {
      BuiltIsNormalForm(builtS, s, builtT, t);
    }
  }

  /** Rules with metadata `m` cover every IPv4 and every IPv4-mapped address. */
  ghost predicate FillsGap(rules: seq<TrustedProxyRule>, m: TrustedProxyMetadata) {
    forall a: IpAddr :: a.family.V4? || IsMapped(a) ==> Covered(rules, m, a)
  }

  // In any list, splitting keeps the built list exactly when the network is another one, or when the remaining
  // rules with its metadata already cover every IPv4 and every IPv4-mapped address.
  lemma SplittingInList(s: seq<TrustedProxyRule>, i: nat, t: seq<TrustedProxyRule>,
                        builtS: seq<TrustedProxyRule>, builtT: seq<TrustedProxyRule>)
    requires i < |s| && s[i].cidr.len < s[i].cidr.family.Bits()
    requires t == s[..i] + Halves(s[i]) + s[i + 1..]
    requires BuiltFrom(builtS, s) && BuiltFrom(builtT, t)
    ensures builtS == builtT <==>
            !EndsInMappedBlock(s[i].cidr) || FillsGap(Rewritten(s[..i] + s[i + 1..]), s[i].metadata)
  {
    if EndsInMappedBlock(s[i].cidr) {
      BuiltIsNormalForm(builtS, s, builtT, t);
      ExceptionInList(s, i, t);
    } else {
      SplittingDoesNotMatter(s, i, t, builtS, builtT);
    }
  }

  lemma ExceptionInList(s: seq<TrustedProxyRule>, i: nat, t: seq<TrustedProxyRule>)
    requires i < |s| && EndsInMappedBlock(s[i].cidr)
    requires t == s[..i] + Halves(s[i]) + s[i + 1..]
    ensures SameCoverage(Rewritten(s), Rewritten(t)) <==> FillsGap(Rewritten(s[..i] + s[i + 1..]), s[i].metadata)
  {
    var rest, m := Rewritten(s[..i] + s[i + 1..]), s[i].metadata;
    if FillsGap(rest, m) {
      forall n, a: IpAddr
        ensures Covered(Rewritten(s), n, a) <==> Covered(Rewritten(t), n, a)
      {
        ExceptionCoverage(s, i, t, n, a);
      }
    }
    if SameCoverage(Rewritten(s), Rewritten(t)) {
      forall a: IpAddr | a.family.V4? || IsMapped(a)
        ensures Covered(rest, m, a)
      {
        ExceptionCoverage(s, i, t, m, a);
        ExceptionSplit(s[i].cidr, a);
        assert Covered(Rewritten(s), m, a) <==> Covered(Rewritten(t), m, a);
      }
    }
  }

  lemma ExceptionCoverage(s: seq<TrustedProxyRule>, i: nat, t: seq<TrustedProxyRule>, n: TrustedProxyMetadata, a: IpAddr)
    requires i < |s| && EndsInMappedBlock(s[i].cidr)
    requires t == s[..i] + Halves(s[i]) + s[i + 1..]
    ensures var rest, m, c := Rewritten(s[..i] + s[i + 1..]), s[i].metadata, s[i].cidr;
            && (Covered(Rewritten(s), n, a) <==> Covered(rest, n, a) || (n == m && Contains(c, a)))
            && (Covered(Rewritten(t), n, a) <==>
                Covered(rest, n, a) || (n == m && (a.family.V4? || (Contains(c, a) && !IsMapped(a)))))
  {
    var lo, hi := Rewritten(s[..i]), Rewritten(s[i + 1..]);
    assert Rewritten(s[..i] + s[i + 1..]) == lo + hi;
    assert Rewritten(s) == lo + Rewritten([s[i]]) + hi;
    assert Rewritten(t) == lo + Rewritten(Halves(s[i])) + hi;
    CoveredSplice(lo, Rewritten([s[i]]), hi, n, a);
    CoveredSplice(lo, Rewritten(Halves(s[i])), hi, n, a);
    CoveredConcat(lo, hi, n, a);
    HalvesCovered(s[i], n, a);
    ExceptionSplit(s[i].cidr, a);
  }

  lemma ExceptionSplit(c: IpCidr, a: IpAddr)
    requires EndsInMappedBlock(c)
    ensures CanonicalCidr(c) == c
    ensures IsMapped(a) ==> Contains(c, a)
    ensures Contains(CanonicalCidr(LowHalf(c)), a) <==> Contains(c, a) && !IsMapped(a)
    ensures Contains(CanonicalCidr(HighHalf(c)), a) <==> a.family.V4?
  {
    OnlyOneEndsInMappedBlock(c);
    BlockNeighbours();
    BlockHalves();
    BlockIsMapped(a);
    ParentIsBothHalves(MappedBlock());
    WholeOfIpv4(a);
  }

  /** No rule with other metadata than `m` is an IPv4 rule. */
  ghost predicate OneIpv4Policy(rules: seq<TrustedProxyRule>, m: TrustedProxyMetadata) {
    forall r :: r in rules && r.cidr.family.V4? ==> r.metadata == m
  }

  // Splitting the exceptional network keeps a list valid exactly when no IPv4 rule beside it disagrees.
  lemma SplittingVerdict(s: seq<TrustedProxyRule>, i: nat, t: seq<TrustedProxyRule>)
    requires i < |s| && EndsInMappedBlock(s[i].cidr)
    requires t == s[..i] + Halves(s[i]) + s[i + 1..]
    ensures NoConflict(Rewritten(t)) <==>
            NoConflict(Rewritten(s)) && OneIpv4Policy(Rewritten(s[..i] + s[i + 1..]), s[i].metadata)
  {
    hide Conflict, Rewrite;
    var rest, m, whole := Rewritten(s[..i] + s[i + 1..]), s[i].metadata, s[i];
    assert whole == TrustedProxyRule(whole.cidr, m);
    var low, all := Rewrite(Halves(s[i])[0]), Rewrite(Halves(s[i])[1]);
    SplitMembers(s, i, t);
    RewriteOf(Halves(whole)[0]);
    RewriteOf(Halves(whole)[1]);
    JoinedVerdict(Rewritten(s), rest, [whole]);
    JoinedVerdict(Rewritten(t), rest, [low, all]);
    ExceptionConflicts(s[..i] + s[i + 1..], s[i]);
    VerdictByParts(rest, m, whole, low, all);
  }

  // Every rewritten rule conflicts with the whole exactly when it conflicts with the lower half, and with the upper
  // half exactly when it is an IPv4 rule that disagrees.
  lemma ExceptionConflicts(others: seq<TrustedProxyRule>, s: TrustedProxyRule)
    requires EndsInMappedBlock(s.cidr)
    ensures forall r :: r in Rewritten(others) ==> (Conflict(r, s) <==> Conflict(r, Rewrite(Halves(s)[0])))
    ensures forall r :: r in Rewritten(others) ==>
                          (Conflict(r, Rewrite(Halves(s)[1])) <==> r.cidr.family.V4? && r.metadata != s.metadata)
  {
    forall r | r in Rewritten(others)
      ensures Conflict(r, s) <==> Conflict(r, Rewrite(Halves(s)[0]))
      ensures Conflict(r, Rewrite(Halves(s)[1])) <==> r.cidr.family.V4? && r.metadata != s.metadata
    {
      RewrittenMember(others, r);
      var q :| q in others && Rewrite(q) == r;
      CanonicalCidrIdempotent(q.cidr);
      ExceptionOverlaps(s.cidr, r.cidr);
    }
  }

  lemma VerdictByParts(rest: seq<TrustedProxyRule>, m: TrustedProxyMetadata,
                       whole: TrustedProxyRule, low: TrustedProxyRule, all: TrustedProxyRule)
    requires forall r :: r in rest ==> (Conflict(r, whole) <==> Conflict(r, low))
    requires forall r :: r in rest ==> (Conflict(r, all) <==> r.cidr.family.V4? && r.metadata != m)
    ensures NoConflictWith(rest, whole) <==> NoConflictWith(rest, low)
    ensures NoConflictWith(rest, all) <==> OneIpv4Policy(rest, m)
  {
  }

  lemma SplitMembers(s: seq<TrustedProxyRule>, i: nat, t: seq<TrustedProxyRule>)
    requires i < |s| && EndsInMappedBlock(s[i].cidr)
    requires t == s[..i] + Halves(s[i]) + s[i + 1..]
    ensures var rest := Rewritten(s[..i] + s[i + 1..]);
            && (forall r :: r in Rewritten(s) <==> r in rest || r == TrustedProxyRule(s[i].cidr, s[i].metadata))
            && (forall r :: r in Rewritten(t) <==>
                            r in rest || r == Rewrite(Halves(s[i])[0]) || r == Rewrite(Halves(s[i])[1]))
  {
    hide Rewrite;
    var lo, hi := s[..i], s[i + 1..];
    assert s == lo + [s[i]] + hi && lo + [] + hi == lo + hi;
    SpliceMembers(lo, [s[i]], hi);
    SpliceMembers(lo, Halves(s[i]), hi);
    SpliceMembers(lo, [], hi);
    assert Rewrite(s[i]) == TrustedProxyRule(s[i].cidr, s[i].metadata) by {
      ExceptionNets(s[i].cidr);
      RewriteOf(s[i]);
    }
  }

  lemma RewriteOf(r: TrustedProxyRule)
    ensures Rewrite(r) == TrustedProxyRule(CanonicalCidr(r.cidr), r.metadata)
  {
  }

  lemma SpliceMembers(lo: seq<TrustedProxyRule>, mid: seq<TrustedProxyRule>, hi: seq<TrustedProxyRule>)
    ensures forall r :: r in Rewritten(lo + mid + hi) <==> r in Rewritten(lo) || r in Rewritten(mid) || r in Rewritten(hi)
    ensures Rewritten([]) == []
    ensures |mid| == 1 ==> Rewritten(mid) == [Rewrite(mid[0])]
    ensures |mid| == 2 ==> Rewritten(mid) == [Rewrite(mid[0]), Rewrite(mid[1])]
  {
    assert Rewritten(lo + mid + hi) == Rewritten(lo) + Rewritten(mid) + Rewritten(hi);
  }

  ghost predicate NoConflictWith(rules: seq<TrustedProxyRule>, s: TrustedProxyRule) {
    forall r :: r in rules ==> !Conflict(r, s)
  }

  lemma JoinedVerdict(all: seq<TrustedProxyRule>, rest: seq<TrustedProxyRule>, added: seq<TrustedProxyRule>)
    requires forall r :: r in all <==> r in rest || r in added
    requires forall r, s :: r in added && s in added ==> r.metadata == s.metadata
    ensures NoConflict(all) <==> NoConflict(rest) && forall s :: s in added ==> NoConflictWith(rest, s)
  {
    assert forall r, s :: Conflict(r, s) <==> Conflict(s, r);
  }

  lemma ExceptionNets(c: IpCidr)
    requires EndsInMappedBlock(c)
    ensures c == Parent(MappedBlock()) && CanonicalCidr(c) == c
    ensures CanonicalCidr(LowHalf(c)) == Buddy(MappedBlock()) && CanonicalCidr(HighHalf(c)) == Cidr(V4, 0, 0)
  {
    OnlyOneEndsInMappedBlock(c);
    BlockNeighbours();
    BlockHalves();
  }

  // A rewritten network that meets the exceptional one meets its lower half; one that meets `0.0.0.0/0` is IPv4.
  lemma ExceptionOverlaps(c: IpCidr, d: IpCidr)
    requires EndsInMappedBlock(c) && CanonicalCidr(d) == d
    ensures Overlap(d, c) <==> Overlap(d, CanonicalCidr(LowHalf(c)))
    ensures Overlap(d, CanonicalCidr(HighHalf(c))) <==> d.family.V4?
  {
    ExceptionNets(c);
    BlockHalves();
    HalvesCover(c);
    if Overlap(d, c) {
      OverlapHasCanonicalAddress(d, c);
      var a: IpAddr :| CanonicalIp(a) == a && Contains(d, a) && Contains(c, a);
      CanonicalIpIdempotent(a);
      ExceptionSplit(c, a);
    }
  }

  // What goes wrong at `::fffe:0:0/95`: it does not match the peer `0.0.0.0`, but its upper half does.
  lemma SplittingExample(m: TrustedProxyMetadata, r: TrustedProxyRule)
    requires r.cidr == Cidr(V6, 0xFFFE * IPV4_SPACE, 95) && r.metadata == m
    ensures !Grants([r], m, Addr(V4, 0)) && Grants(Halves(r), m, Addr(V4, 0))
  {
    var peer := Addr(V4, 0);
    OnlyOneEndsInMappedBlock(r.cidr);
    ExceptionSplit(r.cidr, peer);
    GrantsIsCoverage([r], m, peer);
    GrantsIsCoverage(Halves(r), m, peer);
    HalvesCovered(r, m, peer);
  }

  lemma SameVerdict(s: seq<TrustedProxyRule>, t: seq<TrustedProxyRule>)
    requires SameCoverage(s, t)
    ensures NoConflict(s) <==> NoConflict(t)
  {
    if NoConflict(t) {
      CoverageDecidesConflict(s, t);
    }
    if NoConflict(s) {
      CoverageDecidesConflict(t, s);
    }
  }

  // Alone in a config, a network and its two halves build the same list exactly when it is not `::fffe:0:0/95`:
  // the upper half of that one is rewritten to `0.0.0.0/0` and starts to match IPv4 peers.
  lemma SplittingAlone(r: TrustedProxyRule, whole: seq<TrustedProxyRule>, split: seq<TrustedProxyRule>)
    requires r.cidr.len < r.cidr.family.Bits()
    requires BuiltFrom(whole, [r]) && BuiltFrom(split, Halves(r))
    ensures whole == split <==> !EndsInMappedBlock(r.cidr)
  {
    BuiltIsNormalForm(whole, [r], split, Halves(r));
    HalvesAfterRewrite(r.cidr);
    forall m, a: IpAddr {
      HalvesCovered(r, m, a);
    }
    if whole == split {
      forall a: IpAddr
        ensures Contains(CanonicalCidr(r.cidr), a)
                <==> Contains(CanonicalCidr(LowHalf(r.cidr)), a) || Contains(CanonicalCidr(HighHalf(r.cidr)), a)
      {
        HalvesCovered(r, r.metadata, a);
        assert Covered(Rewritten([r]), r.metadata, a) <==> Covered(Rewritten(Halves(r)), r.metadata, a);
      }
    }
  }

  // ---------- rebuilding ----------

  // No built network is IPv4-mapped, although merging may widen IPv6 networks.
  lemma BuiltIsRewritten(built: seq<TrustedProxyRule>, supplied: seq<TrustedProxyRule>)
    requires BuiltFrom(built, supplied)
    ensures Rewritten(built) == built
  {
    forall i | 0 <= i < |built|
      ensures Rewrite(built[i]) == built[i]
    {
      var r := built[i];
      CanonicalCidrIdempotent(r.cidr);
      MappedNotBuilt(built, supplied, r);
    }
  }

  lemma MappedNotBuilt(built: seq<TrustedProxyRule>, supplied: seq<TrustedProxyRule>, r: TrustedProxyRule)
    requires BuiltFrom(built, supplied) && r in built
    ensures !(r.cidr.family.V6? && r.cidr.len >= 96 && IsMapped(First(r.cidr)))
  {
    if r.cidr.family.V6? && r.cidr.len >= 96 && IsMapped(First(r.cidr)) {
      var n := CoverOfMapped(built, supplied, r);
      var c := InsideOne(Nets(built, r.metadata), n.cidr);
      assert r == TrustedProxyRule(r.cidr, r.metadata);
      assert Overlap(c, r.cidr);
      WithinLength(n.cidr, c);
      assert false;
    }
  }

  // A mapped built network could only come from a rule shorter than 96 bits, all of whose addresses are covered.
  lemma CoverOfMapped(built: seq<TrustedProxyRule>, supplied: seq<TrustedProxyRule>, r: TrustedProxyRule)
    returns (n: TrustedProxyRule)
    requires BuiltFrom(built, supplied) && r in built
    requires r.cidr.family.V6? && r.cidr.len >= 96 && IsMapped(First(r.cidr))
    ensures Contains(n.cidr, First(r.cidr)) && n.cidr.len < 96
    ensures NormalForm(Nets(built, r.metadata))
    ensures forall b: IpAddr :: Contains(n.cidr, b) ==> Covers(Nets(built, r.metadata), b)
  {
    var m, a := r.metadata, First(r.cidr);
    assert Covered(built, m, a);
    assert Covered(Rewritten(supplied), m, a);
    n :| n in Rewritten(supplied) && n.metadata == m && Contains(n.cidr, a);
    RewrittenMember(supplied, n);
    var s :| s in supplied && Rewrite(s) == n;
    CanonicalCidrIdempotent(s.cidr);
    CanonicalCidrIdempotent(n.cidr);
    if n.cidr.len >= 96 {
      LongPrefixAllOrNothing(n.cidr, a);
    }
    forall b: IpAddr | Contains(n.cidr, b)
      ensures Covers(Nets(built, m), b)
    {
      assert Covered(Rewritten(supplied), m, b);
      CoveredByNets(built, m, b);
    }
    IndexHasNoConflict(built);
    assert NormalForm(Nets(built, m));
  }

  // Rebuilding from the rules of a built config succeeds and gives the same list.
  lemma RebuildIsIdentity(built: seq<TrustedProxyRule>, supplied: seq<TrustedProxyRule>, again: seq<TrustedProxyRule>)
    requires BuiltFrom(built, supplied)
    ensures NoConflict(Rewritten(built))
    ensures BuiltFrom(again, built) ==> again == built
  {
    BuiltIsRewritten(built, supplied);
    IndexHasNoConflict(built);
    if BuiltFrom(again, built) {
      IndexUnique(again, built);
    }
  }
}
