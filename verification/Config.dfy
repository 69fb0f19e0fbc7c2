/** The config: its data types, `TrustedProxiesBuilder::build`, and the binary-search lookup. */
module Config {
  import opened Addresses
  import opened Canonical
  import opened Wrappers
  import opened Rules
  import opened Sorting
  import opened CidrMerge

  datatype ChainHeaderKind = XForwardedFor | Forwarded

  datatype ChainHeader = ChainHeader(name: HeaderName, kind: ChainHeaderKind)

  datatype TrustAllChainIpSelection = Leftmost | Rightmost | SkipRightmostHops(hops: nat)

  datatype TrustAllProxyMode = TrustAllProxyMode(
    clientIpHeader: Option<HeaderName>,
    chainHeaderOrder: seq<ChainHeader>,
    chainIpSelection: TrustAllChainIpSelection)

  datatype TrustModel =
    | NoProxy
    | TrustedProxies(rules: seq<TrustedProxyRule>, chainHeaderOrder: seq<ChainHeader>)
    | TrustAllProxies(mode: TrustAllProxyMode)

  datatype ClientIpConfig = ClientIpConfig(trust: TrustModel)

  const DEFAULT_CHAIN_HEADER_ORDER :=
    [ChainHeader("x-forwarded-for", XForwardedFor), ChainHeader("forwarded", Forwarded)]

  /** Every config is made by a builder, so its rules are an index. */
  ghost predicate ValidConfig(config: ClientIpConfig) {
    config.trust.TrustedProxies? ==> IsIndex(config.trust.rules)
  }

  // ---------- what a config means ----------

  function Rewrite(r: TrustedProxyRule): TrustedProxyRule {
    r.(cidr := CanonicalCidr(r.cidr))
  }

  function Rewritten(rules: seq<TrustedProxyRule>): (r: seq<TrustedProxyRule>)
    ensures |r| == |rules| && forall i :: 0 <= i < |r| ==> r[i] == Rewrite(rules[i])
  {
    seq(|rules|, i requires 0 <= i < |rules| => Rewrite(rules[i]))
  }

  /** `built` is what `build` makes of the rules the user supplied. */
  ghost predicate BuiltFrom(built: seq<TrustedProxyRule>, supplied: seq<TrustedProxyRule>) {
    && NoConflict(Rewritten(supplied))
    && IsIndex(built)
    && SameCoverage(built, Rewritten(supplied))
  }

  /** The rule that a linear scan over the config's rules finds for the canonical address. */
  function RuleOf(config: ClientIpConfig, ip: IpAddr): Option<TrustedProxyRule> {
    match config.trust
    case TrustedProxies(rules, _) => Lookup(rules, CanonicalIp(ip))
    case _ => None
  }

  predicate TrustedProxy(config: ClientIpConfig, ip: IpAddr) {
    match config.trust
    case NoProxy => false
    case TrustedProxies(_, _) => RuleOf(config, ip).Some?
    case TrustAllProxies(_) => true
  }

  // ---------- building ----------

  predicate StartsBefore(r: TrustedProxyRule, s: TrustedProxyRule) {
    Le(First(r.cidr), First(s.cidr))
  }

  predicate Apart(r: TrustedProxyRule, s: TrustedProxyRule) {
    !Overlap(r.cidr, s.cidr)
  }

  // Joining networks of one group cannot create a conflict: a conflict would show in the coverage.
  lemma CoverageDecidesConflict(s: seq<TrustedProxyRule>, t: seq<TrustedProxyRule>)
    requires SameCoverage(s, t) && NoConflict(t)
    ensures NoConflict(s)
  {
    forall q, r | q in s && r in s
      ensures !Conflict(q, r)
    {
      if Conflict(q, r) {
        OverlapIsShared(q.cidr, r.cidr);
        var a: IpAddr :| Contains(q.cidr, a) && Contains(r.cidr, a);
        assert Covered(s, q.metadata, a) && Covered(s, r.metadata, a);
        PolicyIsCoverage(t, q.metadata, a);
        PolicyIsCoverage(t, r.metadata, a);
      }
    }
  }

  lemma ReorderedCoverage(s: seq<TrustedProxyRule>, t: seq<TrustedProxyRule>)
    requires forall r :: r in s <==> r in t
    ensures SameCoverage(s, t)
    ensures forall m :: Nets(s, m) == Nets(t, m)
  {
  }

  // Sorting merged rules that do not conflict by first address alone gives the index.
  lemma SortedIsIndex(merged: seq<TrustedProxyRule>, sorted: seq<TrustedProxyRule>)
    requires Merged(merged) && NoConflict(merged)
    requires multiset(sorted) == multiset(merged) && Sorted(StartsBefore, sorted)
    ensures IsIndex(sorted) && SameCoverage(sorted, merged)
  {
    assert forall r :: r in sorted <==> r in merged by {
      assert forall r :: r in sorted <==> r in multiset(sorted);
      assert forall r :: r in merged <==> r in multiset(merged);
    }
    ReorderedCoverage(sorted, merged);
    forall i, j | 0 <= i < |merged| && 0 <= j < |merged| && i != j
      ensures Apart(merged[i], merged[j])
    {
      assert !Conflict(merged[i], merged[j]);
      if merged[i].metadata == merged[j].metadata {
        MergedApart(merged, i, j);
      }
    }
    PairwisePermuted(Apart, merged, sorted);
    forall i, j | 0 <= i < j < |sorted|
      ensures Lt(Last(sorted[i].cidr), First(sorted[j].cidr))
    {
      assert StartsBefore(sorted[i], sorted[j]) && Apart(sorted[i], sorted[j]);
    }
    assert Merged(sorted) by {
      assert forall i, j :: 0 <= i < j < |sorted| ==> Lt(Last(sorted[i].cidr), First(sorted[j].cidr));
      assert forall m :: Nets(sorted, m) == Nets(merged, m);
    }
  }

  class TrustedProxiesBuilder {
    var rules: seq<TrustedProxyRule>
    var chainHeaderOrder: seq<ChainHeader>

    constructor ()
      ensures rules == [] && chainHeaderOrder == DEFAULT_CHAIN_HEADER_ORDER
    {
      rules, chainHeaderOrder := [], DEFAULT_CHAIN_HEADER_ORDER;
    }

    method Proxies(more: seq<TrustedProxyRule>)
      modifies this
      ensures rules == old(rules) + more && chainHeaderOrder == old(chainHeaderOrder)
    {
      rules := rules + more;
    }

    method Build() returns (res: Result<ClientIpConfig, BuildError>)
      ensures res.Failure? <==> !NoConflict(Rewritten(rules))
      ensures res.Failure? ==> Witnessed(res.error, Rewritten(rules))
      ensures res.Success? ==>
                && res.value.trust.TrustedProxies?
                && res.value.trust.chainHeaderOrder == chainHeaderOrder
                && BuiltFrom(res.value.trust.rules, rules)
    {
      var rewritten := rules;
      for i := 0 to |rewritten|
        invariant |rewritten| == |rules|
        invariant forall k :: 0 <= k < |rules| ==> rewritten[k] == if k < i then Rewrite(rules[k]) else rules[k]
      {
        rewritten := rewritten[i := rewritten[i].(cidr := CanonicalCidr(rewritten[i].cidr))];
      }
      assert rewritten == Rewritten(rules);

      var checked := EnsureNoCrossMetadataOverlap(rewritten);
      if checked.Failure? {
        return Failure(checked.error);
      }

      var merged := MergeRulesByMetadata(rewritten);

      // The debug assertion of the source: a second sweep over the merged rules always succeeds.
      CoverageDecidesConflict(merged, rewritten);
      var again := EnsureNoCrossMetadataOverlap(merged);
      assert again.Success?;

      var sorted := StableSort(merged, StartsBefore);
      SortedIsIndex(merged, sorted);
      return Success(ClientIpConfig(TrustedProxies(sorted, chainHeaderOrder)));
    }
  }

  // ---------- lookup ----------

  /** `partition_point`: the number of rules that start at or before `a`. */
  method PartitionPoint(rules: seq<TrustedProxyRule>, a: IpAddr) returns (index: nat)
    requires Sorted(StartsBefore, rules)
    ensures index <= |rules|
    ensures forall i :: 0 <= i < |rules| ==> (Le(First(rules[i].cidr), a) <==> i < index)
  {
    var lo, hi := 0, |rules|;
    while lo < hi
      invariant 0 <= lo <= hi <= |rules|
      invariant forall i :: 0 <= i < lo ==> Le(First(rules[i].cidr), a)
      invariant forall i :: hi <= i < |rules| ==> !Le(First(rules[i].cidr), a)
    {
      var mid := lo + (hi - lo) / 2;
      if Le(First(rules[mid].cidr), a) {
        assert forall i :: 0 <= i < mid ==> StartsBefore(rules[i], rules[mid]);
        lo := mid + 1;
      } else {
        assert forall i :: mid < i < |rules| ==> StartsBefore(rules[mid], rules[i]);
        hi := mid;
      }
    }
    index := lo;
  }

  lemma IndexIsSorted(rules: seq<TrustedProxyRule>)
    requires IsIndex(rules)
    ensures Sorted(StartsBefore, rules)
  {
    forall i, j | 0 <= i < j < |rules|
      ensures StartsBefore(rules[i], rules[j])
    {
      assert Lt(Last(rules[i].cidr), First(rules[j].cidr));
    }
  }

  // In an index, the last rule that starts at or before an address is the only one that can contain it.
  lemma OnlyCandidate(rules: seq<TrustedProxyRule>, a: IpAddr, index: nat)
    requires IsIndex(rules) && index <= |rules|
    requires forall i :: 0 <= i < |rules| ==> (Le(First(rules[i].cidr), a) <==> i < index)
    ensures forall i :: 0 <= i < |rules| && Contains(rules[i].cidr, a) ==> i == index - 1
    ensures Lookup(rules, a) ==
            if index > 0 && Contains(rules[index - 1].cidr, a) then Some(rules[index - 1]) else None
  {
    forall i | 0 <= i < |rules| && Contains(rules[i].cidr, a)
      ensures i == index - 1
    {
      assert forall j :: i < j < |rules| ==> Lt(Last(rules[i].cidr), First(rules[j].cidr));
    }
    var found := Lookup(rules, a);
    if found.Some? {
      var i :| 0 <= i < |rules| && rules[i] == found.value;
    }
  }

  method RuleFor(config: ClientIpConfig, ip: IpAddr) returns (r: Option<TrustedProxyRule>)
    requires ValidConfig(config)
    ensures r == RuleOf(config, ip)
    ensures r.Some? ==>
              && config.trust.TrustedProxies? && r.value in config.trust.rules
              && Contains(r.value.cidr, CanonicalIp(ip))
    ensures r.None? && config.trust.TrustedProxies? ==>
              forall s :: s in config.trust.rules ==> !Contains(s.cidr, CanonicalIp(ip))
  {
    if !config.trust.TrustedProxies? {
      return None;
    }
    var rules, a := config.trust.rules, CanonicalIp(ip);
    IndexIsSorted(rules);
    var index := PartitionPoint(rules, a);
    OnlyCandidate(rules, a, index);
    if index == 0 {
      return None;
    }
    var rule := rules[index - 1];
    return if Contains(rule.cidr, a) then Some(rule) else None;
  }

  method IsTrustedProxy(config: ClientIpConfig, ip: IpAddr) returns (b: bool)
    requires ValidConfig(config)
    ensures b == TrustedProxy(config, ip)
    ensures b <==>
            match config.trust
            case NoProxy => false
            case TrustedProxies(rules, _) => exists r :: r in rules && Contains(r.cidr, CanonicalIp(ip))
            case TrustAllProxies(_) => true
  {
    match config.trust {
      case NoProxy => b := false;
      case TrustedProxies(_, _) =>
        var rule := RuleFor(config, ip);
        b := rule.Some?;
      case TrustAllProxies(_) => b := true;
    }
  }
}
