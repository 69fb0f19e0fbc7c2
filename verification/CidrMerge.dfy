/** The overlap sweep and the per-group merge that turn a list of rules into an index. */
module CidrMerge {
  import opened Addresses
  import opened Wrappers
  import opened Rules
  import opened Sorting

  datatype BuildError = OverlappingTrustedProxyRules(left: TrustedProxyRule, right: TrustedProxyRule)

  // ---------- the sweep ----------

  /** The sweep order: by first address, and the wider network first on a tie. */
  predicate SweepOrder(r: TrustedProxyRule, s: TrustedProxyRule) {
    || Lt(First(r.cidr), First(s.cidr))
    || (First(r.cidr) == First(s.cidr) && Le(Last(s.cidr), Last(r.cidr)))
  }

  lemma SweepOrderIsTotal()
    ensures TotalPreorder(SweepOrder)
  {
  }

  // A rule that comes later in sweep order and starts before `outer` ends lies inside it.
  lemma ReachesIntoIsNested(outer: TrustedProxyRule, r: TrustedProxyRule)
    requires SweepOrder(outer, r) && Le(First(r.cidr), Last(outer.cidr))
    ensures Within(r.cidr, outer.cidr)
  {
    Laminar(r.cidr, outer.cidr);
  }

  /** Where the sweep stands after `k` rules: everything from `p` on lies in the open rule and agrees with it. */
  ghost predicate SweepState(order: seq<TrustedProxyRule>, p: nat, k: nat) {
    && p < k <= |order|
    && (forall i :: 0 <= i < p ==> Lt(Last(order[i].cidr), First(order[p].cidr)))
    && (forall i :: p <= i < k ==> Within(order[i].cidr, order[p].cidr) && order[i].metadata == order[p].metadata)
  }

  ghost predicate NoConflictBefore(order: seq<TrustedProxyRule>, k: nat)
    requires k <= |order|
  {
    forall i, j :: 0 <= i < j < k ==> !Conflict(order[i], order[j])
  }

  // A rule nested in the open one, and agreeing with it, leaves the sweep in order.
  lemma NestedStep(order: seq<TrustedProxyRule>, p: nat, k: nat)
    requires k < |order| && SweepState(order, p, k) && NoConflictBefore(order, k)
    requires Within(order[k].cidr, order[p].cidr) && order[k].metadata == order[p].metadata
    ensures SweepState(order, p, k + 1) && NoConflictBefore(order, k + 1)
  {
    forall i | 0 <= i < k
      ensures !Conflict(order[i], order[k])
    {
      if i < p {
        assert Lt(Last(order[i].cidr), First(order[p].cidr));
      }
    }
  }

  // A rule that starts after the open one ends starts after every earlier rule ends, and becomes the open one.
  lemma OpenStep(order: seq<TrustedProxyRule>, p: nat, k: nat)
    requires k < |order| && SweepState(order, p, k) && NoConflictBefore(order, k)
    requires Lt(Last(order[p].cidr), First(order[k].cidr))
    ensures SweepState(order, k, k + 1) && NoConflictBefore(order, k + 1)
  {
    forall i | 0 <= i < k
      ensures Lt(Last(order[i].cidr), First(order[k].cidr))
    {
      assert i >= p || Lt(Last(order[i].cidr), First(order[p].cidr));
    }
  }

  /** No rule with the same network stands in front of `r`. */
  ghost predicate FirstOfNetwork(r: TrustedProxyRule, rules: seq<TrustedProxyRule>) {
    exists i :: 0 <= i < |rules| && rules[i] == r && forall j :: 0 <= j < i ==> rules[j].cidr != r.cidr
  }

  /** What an error of the sweep says: the two rules disagree and one holds the other. No rule is wider than the left
      one, which is the first with its network, and the right one is the first in sweep order that disagrees with it. */
  ghost predicate Witnessed(e: BuildError, rules: seq<TrustedProxyRule>) {
    && e.left in rules && e.right in rules
    && e.left.metadata != e.right.metadata && Within(e.right.cidr, e.left.cidr)
    && (forall r :: r in rules && Within(e.left.cidr, r.cidr) ==> r.cidr == e.left.cidr)
    && FirstOfNetwork(e.left, rules)
    && (forall r :: r in rules && r.metadata != e.left.metadata && Within(r.cidr, e.left.cidr)
                    ==> SweepOrder(e.right, r))
  }

  method Sweep(order: seq<TrustedProxyRule>) returns (res: Result<(), BuildError>)
    requires Sorted(SweepOrder, order)
    ensures res.Success? ==> NoConflictBefore(order, |order|)
    ensures res.Failure? ==> Witnessed(res.error, order)
  {
    var open: Option<TrustedProxyRule> := None;
    ghost var p := 0;
    for k := 0 to |order|
      invariant NoConflictBefore(order, k)
      invariant open.None? <==> k == 0
      invariant open.Some? ==> SweepState(order, p, k) && open.value == order[p]
    {
      var rule := order[k];
      if open.Some? && Le(First(rule.cidr), Last(open.value.cidr)) {
        assert SweepOrder(order[p], rule);
        ReachesIntoIsNested(order[p], rule);
        if open.value.metadata != rule.metadata {
          OpenIsOutermost(order, p, k);
          FirstToDisagree(order, p, k);
          return Failure(OverlappingTrustedProxyRules(open.value, rule));
        }
        NestedStep(order, p, k);
      } else {
        if open.Some? {
          OpenStep(order, p, k);
        }
        open := Some(rule);
        p := k;
      }
    }
    return Success(());
  }

  method EnsureNoCrossMetadataOverlap(rules: seq<TrustedProxyRule>) returns (res: Result<(), BuildError>)
    ensures res.Success? <==> NoConflict(rules)
    ensures res.Failure? ==> Witnessed(res.error, rules)
  {
    SweepOrderIsTotal();
    var order := StableSort(rules, SweepOrder);
    assert forall r :: r in rules <==> r in order by {
      assert forall r :: r in rules <==> r in multiset(rules);
      assert forall r :: r in order <==> r in multiset(order);
    }
    res := Sweep(order);
    if res.Success? {
      NoConflictAnywhere(order, rules);
    } else {
      assert Conflict(res.error.left, res.error.right);
      FirstStaysFirst(order, rules, res.error.left);
    }
  }

  lemma FirstToDisagree(order: seq<TrustedProxyRule>, p: nat, k: nat)
    requires Sorted(SweepOrder, order) && SweepState(order, p, k) && k < |order|
    ensures FirstOfNetwork(order[p], order)
    ensures forall r :: r in order && r.metadata != order[p].metadata && Within(r.cidr, order[p].cidr)
                        ==> SweepOrder(order[k], r)
  {
    assert forall i :: 0 <= i < p ==> Lt(Last(order[i].cidr), First(order[p].cidr));
    forall r | r in order && r.metadata != order[p].metadata && Within(r.cidr, order[p].cidr)
      ensures SweepOrder(order[k], r)
    {
      var i :| 0 <= i < |order| && order[i] == r;
      assert i >= k;
    }
  }

  lemma TiesAreEqual(r: TrustedProxyRule, s: TrustedProxyRule)
    ensures SweepOrder(r, s) && SweepOrder(s, r) <==> r.cidr == s.cidr
  {
    if SweepOrder(r, s) && SweepOrder(s, r) {
      Laminar(r.cidr, s.cidr);
      WithinLength(r.cidr, s.cidr);
    }
  }

  // Rules with equal networks tie in sweep order, and a stable sort keeps the first of them first.
  lemma FirstStaysFirst(order: seq<TrustedProxyRule>, rules: seq<TrustedProxyRule>, r: TrustedProxyRule)
    requires forall k :: Ties(SweepOrder, k, order) == Ties(SweepOrder, k, rules)
    requires r in rules && FirstOfNetwork(r, order)
    ensures FirstOfNetwork(r, rules)
  {
    forall s: TrustedProxyRule {
      TiesAreEqual(s, r);
    }
    var i := FirstTie(SweepOrder, r, order);
    var j := FirstTie(SweepOrder, r, rules);
    assert order[i] == rules[j];
  }

  lemma NoConflictAnywhere(order: seq<TrustedProxyRule>, rules: seq<TrustedProxyRule>)
    requires NoConflictBefore(order, |order|)
    requires forall r :: r in rules ==> r in order
    ensures NoConflict(rules)
  {
    forall r, s | r in rules && s in rules
      ensures !Conflict(r, s)
    {
      var i :| 0 <= i < |order| && order[i] == r;
      var j :| 0 <= j < |order| && order[j] == s;
    }
  }

  lemma OpenIsOutermost(order: seq<TrustedProxyRule>, p: nat, k: nat)
    requires Sorted(SweepOrder, order) && SweepState(order, p, k)
    ensures forall r :: r in order && Within(order[p].cidr, r.cidr) ==> r.cidr == order[p].cidr
  {
    forall r | r in order && Within(order[p].cidr, r.cidr)
      ensures r.cidr == order[p].cidr
    {
      var i :| 0 <= i < |order| && order[i] == r;
      if i > p {
        assert SweepOrder(order[p], order[i]);
        WithinLength(order[p].cidr, r.cidr);
      }
    }
  }

  // ---------- merging the networks of one group ----------

  ghost predicate ListCovers(cidrs: seq<IpCidr>, a: IpAddr) {
    exists c :: c in cidrs && Contains(c, a)
  }

  ghost predicate SameAddresses(s: seq<IpCidr>, t: seq<IpCidr>) {
    forall a: IpAddr :: ListCovers(s, a) <==> ListCovers(t, a)
  }

  /** The networks of the list are in normal form, and none is listed twice. */
  ghost predicate MergedCidrs(cidrs: seq<IpCidr>) {
    NoRepeats(cidrs) && NormalForm(set c | c in cidrs)
  }

  /** The networks of a list that do not lie inside `c`. */
  function Outside(cidrs: seq<IpCidr>, c: IpCidr): (r: seq<IpCidr>)
    ensures forall d :: d in r <==> d in cidrs && !Within(d, c)
    ensures NoRepeats(cidrs) ==> NoRepeats(r)
  {
    if cidrs == [] then []
    else
      var rest := Outside(cidrs[1..], c);
      if Within(cidrs[0], c) then rest else [cidrs[0]] + rest
  }

  lemma OutsideMerged(cidrs: seq<IpCidr>, c: IpCidr)
    requires MergedCidrs(cidrs)
    ensures MergedCidrs(Outside(cidrs, c))
  {
    var nets, kept := set d | d in cidrs, set d | d in Outside(cidrs, c);
    assert forall d :: d in kept ==> d in nets;
  }

  // Replacing a list's members inside `wide` by `wide` itself adds exactly the addresses of `wide`.
  lemma Absorb(cidrs: seq<IpCidr>, wide: IpCidr, a: IpAddr)
    ensures ListCovers(Outside(cidrs, wide), a) || Contains(wide, a) <==> ListCovers(cidrs, a) || Contains(wide, a)
  {
    if ListCovers(cidrs, a) && !Contains(wide, a) {
      var c :| c in cidrs && Contains(c, a);
      assert c in Outside(cidrs, wide);
    }
  }

  // What stays outside the parent of a network with a buddy in the list does not meet the parent.
  lemma OutsideParent(cidrs: seq<IpCidr>, wide: IpCidr, inner: IpCidr)
    requires Within(inner, wide)
    requires forall d :: d in cidrs ==> !Overlap(d, inner)
    ensures forall d :: d in Outside(cidrs, wide) ==> !Overlap(d, wide)
  {
    forall d | d in Outside(cidrs, wide)
      ensures !Overlap(d, wide)
    {
      if Overlap(d, wide) {
        Laminar(d, wide);
      }
    }
  }

  /** A combiner for the networks of one address family: drop what is covered, join buddies into their parent.
      It stands in for the combiners of the `cidr-utils` library, which are outside this model. */
  class CidrCombiner {
    const family: Family
    var cidrs: seq<IpCidr>

    ghost predicate Valid()
      reads this
    {
      MergedCidrs(cidrs) && forall c :: c in cidrs ==> c.family == family
    }

    constructor (family: Family)
      ensures Valid() && cidrs == [] && this.family == family
    {
      this.family := family;
      cidrs := [];
    }

    method Push(c: IpCidr)
      requires Valid() && c.family == family
      modifies this
      ensures Valid()
      ensures forall a :: ListCovers(cidrs, a) <==> ListCovers(old(cidrs), a) || Contains(c, a)
    {
      hide MergedCidrs;
      if exists d :: d in cidrs && Within(c, d) {
        return;
      }
      NoneMeets(cidrs, c);
      OutsideMerged(cidrs, c);
      forall a: IpAddr {
        Absorb(cidrs, c, a);
      }
      cidrs := Outside(cidrs, c);
      var wide := c;
      while wide.len > 0 && Buddy(wide) in cidrs
        invariant Valid() && wide.family == family
        invariant forall d :: d in cidrs ==> !Overlap(d, wide)
        invariant forall a :: ListCovers(cidrs, a) || Contains(wide, a)
                              <==> ListCovers(old(cidrs), a) || Contains(c, a)
        decreases wide.len
      {
        ghost var before := cidrs;
        var parent := Parent(wide);
        ParentIsBothHalves(wide);
        WithinIsSubset(wide, parent);
        OutsideParent(cidrs, parent, wide);
        OutsideMerged(cidrs, parent);
        forall a: IpAddr
          ensures ListCovers(Outside(before, parent), a) || Contains(parent, a)
                  <==> ListCovers(before, a) || Contains(wide, a)
        {
          Absorb(before, parent, a);
        }
        cidrs := Outside(cidrs, parent);
        wide := parent;
      }
      ghost var before := cidrs;
      cidrs := cidrs + [wide];
      forall a: IpAddr
        ensures ListCovers(cidrs, a) <==> ListCovers(before, a) || Contains(wide, a)
      {
        AppendCovers(before, [wide], a);
      }
      AppendMerged(before, wide);
    }
  }

  lemma NoneMeets(cidrs: seq<IpCidr>, c: IpCidr)
    requires forall d :: d in cidrs ==> !Within(c, d)
    ensures forall d :: d in Outside(cidrs, c) ==> !Overlap(d, c)
  {
    forall d | d in Outside(cidrs, c)
      ensures !Overlap(d, c)
    {
      if Overlap(d, c) {
        Laminar(d, c);
      }
    }
  }

  lemma AppendCovers(s: seq<IpCidr>, t: seq<IpCidr>, a: IpAddr)
    ensures ListCovers(s + t, a) <==> ListCovers(s, a) || ListCovers(t, a)
    ensures |t| == 1 ==> (ListCovers(t, a) <==> Contains(t[0], a))
  {
    if ListCovers(t, a) {
      var c :| c in t && Contains(c, a);
      assert c in s + t;
    }
    if ListCovers(s, a) {
      var c :| c in s && Contains(c, a);
      assert c in s + t;
    }
    assert |t| == 1 ==> t[0] in t;
  }

  lemma AppendMerged(cidrs: seq<IpCidr>, wide: IpCidr)
    requires MergedCidrs(cidrs)
    requires forall d :: d in cidrs ==> !Overlap(d, wide)
    requires wide.len > 0 ==> Buddy(wide) !in cidrs
    ensures MergedCidrs(cidrs + [wide])
  {
    var nets := set c | c in cidrs + [wide];
    forall c: IpCidr | c in nets && c.len > 0
      ensures Buddy(c) !in nets
    {
      ParentIsBothHalves(c);
      if Buddy(c) == wide {
        BuddyTwice(c);
      }
    }
    assert Overlap(wide, wide);
  }

  lemma BuddyTwice(c: IpCidr)
    requires c.len > 0
    ensures Buddy(c).len == c.len && Buddy(Buddy(c)) == c
  {
    ParentIsBothHalves(c);
    HalvesAreBuddies(Parent(c));
  }

  // Networks of different families never meet, so their merged lists can be joined.
  lemma JoinFamilies(s: seq<IpCidr>, t: seq<IpCidr>)
    requires MergedCidrs(s) && MergedCidrs(t)
    requires forall c :: c in s ==> c.family == V4
    requires forall c :: c in t ==> c.family == V6
    ensures MergedCidrs(s + t)
  {
    assert forall c :: c in s + t <==> c in s || c in t;
  }

  method MergeCidrs(cidrs: seq<IpCidr>) returns (merged: seq<IpCidr>)
    ensures MergedCidrs(merged)
    ensures SameAddresses(merged, cidrs)
    ensures forall other :: SameAddresses(other, cidrs) ==> |merged| <= |other|
  {
    hide MergedCidrs;
    var ipv4 := new CidrCombiner(V4);
    var ipv6 := new CidrCombiner(V6);
    for i := 0 to |cidrs|
      invariant ipv4.Valid() && ipv4.family == V4
      invariant ipv6.Valid() && ipv6.family == V6
      invariant forall a :: ListCovers(ipv4.cidrs, a) || ListCovers(ipv6.cidrs, a) <==> ListCovers(cidrs[..i], a)
    {
      assert cidrs[..i + 1] == cidrs[..i] + [cidrs[i]];
      forall a: IpAddr {
        AppendCovers(cidrs[..i], [cidrs[i]], a);
      }
      if cidrs[i].family.V4? {
        ipv4.Push(cidrs[i]);
      } else {
        ipv6.Push(cidrs[i]);
      }
    }
    assert cidrs[..|cidrs|] == cidrs;
    merged := ipv4.cidrs + ipv6.cidrs;
    forall a: IpAddr {
      AppendCovers(ipv4.cidrs, ipv6.cidrs, a);
    }
    JoinFamilies(ipv4.cidrs, ipv6.cidrs);
    forall other | SameAddresses(other, cidrs)
      ensures |merged| <= |other|
    {
      MergedCidrsShortest(merged, other);
    }
  }

  // ---------- merging all groups ----------

  /** Give every network of a list the same metadata. */
  function Tag(cidrs: seq<IpCidr>, m: TrustedProxyMetadata): (r: seq<TrustedProxyRule>)
    ensures |r| == |cidrs| && forall i :: 0 <= i < |r| ==> r[i] == TrustedProxyRule(cidrs[i], m)
    ensures forall s :: s in r <==> s.metadata == m && s.cidr in cidrs
  {
    seq(|cidrs|, i requires 0 <= i < |cidrs| => TrustedProxyRule(cidrs[i], m))
  }

  lemma TagCovered(cidrs: seq<IpCidr>, m: TrustedProxyMetadata, n: TrustedProxyMetadata, a: IpAddr)
    ensures Covered(Tag(cidrs, m), n, a) <==> n == m && ListCovers(cidrs, a)
  {
    if ListCovers(cidrs, a) {
      var c :| c in cidrs && Contains(c, a);
      assert TrustedProxyRule(c, m) in Tag(cidrs, m);
    }
  }

  lemma TagMerged(cidrs: seq<IpCidr>, m: TrustedProxyMetadata)
    requires MergedCidrs(cidrs)
    ensures Merged(Tag(cidrs, m))
  {
    assert Nets(Tag(cidrs, m), m) == set c | c in cidrs;
    assert forall n :: n != m ==> Nets(Tag(cidrs, m), n) == {};
  }

  lemma MergedCidrsShortest(merged: seq<IpCidr>, other: seq<IpCidr>)
    requires MergedCidrs(merged) && SameAddresses(merged, other)
    ensures |merged| <= |other|
  {
    var m := TrustedProxyMetadata(None);
    TagMerged(merged, m);
    forall n, a: IpAddr
      ensures Covered(Tag(merged, m), n, a) <==> Covered(Tag(other, m), n, a)
    {
      TagCovered(merged, m, n, a);
      TagCovered(other, m, n, a);
    }
    MergedIsShortest(Tag(merged, m), Tag(other, m));
  }

  lemma CoveredConcat(s: seq<TrustedProxyRule>, t: seq<TrustedProxyRule>, m: TrustedProxyMetadata, a: IpAddr)
    ensures Covered(s + t, m, a) <==> Covered(s, m, a) || Covered(t, m, a)
  {
    if Covered(s, m, a) {
      var r :| r in s && r.metadata == m && Contains(r.cidr, a);
      assert r in s + t;
    }
    if Covered(t, m, a) {
      var r :| r in t && r.metadata == m && Contains(r.cidr, a);
      assert r in s + t;
    }
  }

  lemma MergedConcat(s: seq<TrustedProxyRule>, t: seq<TrustedProxyRule>)
    requires Merged(s) && Merged(t)
    requires forall r, q :: r in s && q in t ==> r.metadata != q.metadata
    ensures Merged(s + t)
  {
    forall m
      ensures NormalForm(Nets(s + t, m))
    {
      assert NormalForm(Nets(s, m)) && NormalForm(Nets(t, m));
      if r :| r in s && r.metadata == m {
        assert Nets(s + t, m) == Nets(s, m);
      } else {
        assert Nets(s + t, m) == Nets(t, m);
      }
    }
  }

  /** The `HashMap` of the source: the networks of each metadata, in input order. */
  ghost predicate GroupsOf(groups: map<TrustedProxyMetadata, seq<IpCidr>>, rules: seq<TrustedProxyRule>) {
    forall m, a :: (m in groups && ListCovers(groups[m], a)) <==> Covered(rules, m, a)
  }

  lemma AddToGroup(groups: map<TrustedProxyMetadata, seq<IpCidr>>, rules: seq<TrustedProxyRule>,
                   rule: TrustedProxyRule, group: seq<IpCidr>)
    requires GroupsOf(groups, rules)
    requires group == if rule.metadata in groups then groups[rule.metadata] else []
    ensures GroupsOf(groups[rule.metadata := group + [rule.cidr]], rules + [rule])
  {
    var added := groups[rule.metadata := group + [rule.cidr]];
    forall m, a: IpAddr
      ensures (m in added && ListCovers(added[m], a)) <==> Covered(rules + [rule], m, a)
    {
      CoveredConcat(rules, [rule], m, a);
      AppendCovers(group, [rule.cidr], a);
      assert rule in [rule];
      assert (m in groups && ListCovers(groups[m], a)) <==> Covered(rules, m, a);
    }
  }

  method GroupByMetadata(rules: seq<TrustedProxyRule>) returns (groups: map<TrustedProxyMetadata, seq<IpCidr>>)
    ensures GroupsOf(groups, rules)
  {
    groups := map[];
    for i := 0 to |rules|
      invariant GroupsOf(groups, rules[..i])
    {
      var rule := rules[i];
      var group := if rule.metadata in groups then groups[rule.metadata] else [];
      assert rules[..i + 1] == rules[..i] + [rule];
      AddToGroup(groups, rules[..i], rule, group);
      groups := groups[rule.metadata := group + [rule.cidr]];
    }
    assert rules[..|rules|] == rules;
  }

  method MergeRulesByMetadata(rules: seq<TrustedProxyRule>) returns (merged: seq<TrustedProxyRule>)
    ensures Merged(merged)
    ensures SameCoverage(merged, rules)
    ensures forall other :: SameCoverage(other, rules) ==> |merged| <= |other|
  {
    var groups := GroupByMetadata(rules);
    merged := [];
    var pending := groups.Keys;
    while pending != {}
      invariant pending <= groups.Keys
      invariant Merged(merged)
      invariant forall r :: r in merged ==> r.metadata in groups.Keys - pending
      invariant forall m, a :: m in groups.Keys - pending ==> (Covered(merged, m, a) <==> ListCovers(groups[m], a))
      decreases pending
    {
      var m :| m in pending;
      var part := MergeCidrs(groups[m]);
      TagMerged(part, m);
      MergedConcat(merged, Tag(part, m));
      forall n, a: IpAddr
        ensures Covered(merged + Tag(part, m), n, a) <==> Covered(merged, n, a) || (n == m && ListCovers(part, a))
      {
        CoveredConcat(merged, Tag(part, m), n, a);
        TagCovered(part, m, n, a);
      }
      merged := merged + Tag(part, m);
      pending := pending - {m};
    }
    forall other | SameCoverage(other, rules)
      ensures |merged| <= |other|
    {
      MergedIsShortest(merged, other);
    }
  }
}
