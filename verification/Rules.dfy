/** Trusted proxy rules, what a list of rules means, and the normal form that merging and sorting reach. */
module Rules {
  import opened Addresses
  import opened Wrappers

  type HeaderName = string

  datatype TrustedProxyMetadata = TrustedProxyMetadata(clientIpHeader: Option<HeaderName>)

  datatype TrustedProxyRule = TrustedProxyRule(cidr: IpCidr, metadata: TrustedProxyMetadata)

  // ---------- meaning ----------

  /** Some rule with metadata `m` contains `a`. */
  ghost predicate Covered(rules: seq<TrustedProxyRule>, m: TrustedProxyMetadata, a: IpAddr) {
    exists r :: r in rules && r.metadata == m && Contains(r.cidr, a)
  }

  ghost predicate SameCoverage(s: seq<TrustedProxyRule>, t: seq<TrustedProxyRule>) {
    forall m, a: IpAddr :: Covered(s, m, a) <==> Covered(t, m, a)
  }

  predicate Conflict(r: TrustedProxyRule, s: TrustedProxyRule) {
    r.metadata != s.metadata && Overlap(r.cidr, s.cidr)
  }

  /** No two rules that disagree on their metadata share an address. */
  ghost predicate NoConflict(rules: seq<TrustedProxyRule>) {
    forall r, s :: r in rules && s in rules ==> !Conflict(r, s)
  }

  /** The linear scan: the first rule of the list that contains an address. */
  function Lookup(rules: seq<TrustedProxyRule>, a: IpAddr): (r: Option<TrustedProxyRule>)
    ensures r.Some? ==> r.value in rules && Contains(r.value.cidr, a)
    ensures r.None? ==> forall s :: s in rules ==> !Contains(s.cidr, a)
  {
    if rules == [] then None
    else if Contains(rules[0].cidr, a) then Some(rules[0])
    else Lookup(rules[1..], a)
  }

  /** The metadata that the linear scan finds for an address. */
  function Policy(rules: seq<TrustedProxyRule>, a: IpAddr): Option<TrustedProxyMetadata> {
    match Lookup(rules, a) case Some(r) => Some(r.metadata) case None => None
  }

  // Without conflicts, coverage and the linear scan say the same thing.
  lemma PolicyIsCoverage(rules: seq<TrustedProxyRule>, m: TrustedProxyMetadata, a: IpAddr)
    requires NoConflict(rules)
    ensures Policy(rules, a) == Some(m) <==> Covered(rules, m, a)
  {
    var found := Lookup(rules, a);
    if Covered(rules, m, a) {
      var r :| r in rules && r.metadata == m && Contains(r.cidr, a);
      assert !Conflict(found.value, r);
    }
  }

  // ---------- normal form of a set of networks ----------

  ghost predicate Covers(nets: set<IpCidr>, a: IpAddr) {
    exists c :: c in nets && Contains(c, a)
  }

  /** Pairwise disjoint, and no network beside its buddy. */
  ghost predicate NormalForm(nets: set<IpCidr>) {
    && (forall c, d :: c in nets && d in nets && c != d ==> !Overlap(c, d))
    && (forall c: IpCidr :: c in nets && c.len > 0 ==> Buddy(c) !in nets)
  }

  /** No element stands at two positions. */
  ghost predicate NoRepeats<T>(s: seq<T>) {
    forall i, j :: 0 <= i < j < |s| ==> s[i] != s[j]
  }

  // In a normal form, a network whose every address is covered lies inside one single member.
  lemma {:induction false} InsideOne(nets: set<IpCidr>, c: IpCidr) returns (m: IpCidr)
    requires NormalForm(nets)
    requires forall a: IpAddr :: Contains(c, a) ==> Covers(nets, a)
    ensures m in nets && Within(c, m)
    decreases c.family.Bits() - c.len
  {
    if c.len == c.family.Bits() {
      assert Contains(c, First(c));
      m :| m in nets && Contains(m, First(c));
    } else {
      HalvesAreBuddies(c);
      HalvesCover(c);
      m := InsideOne(nets, LowHalf(c));
      var h := InsideOne(nets, HighHalf(c));
      assert Overlap(m, c) && Overlap(h, c);
      if !Within(c, m) {
        HalfOnly(c, LowHalf(c), m);
        if Within(c, h) {
          assert Overlap(m, h) by { OverlapThrough(c, m, h); }
        } else {
          HalfOnly(c, HighHalf(c), h);
        }
        assert false;
      }
    }
  }

  lemma OverlapThrough(c: IpCidr, m: IpCidr, h: IpCidr)
    requires Overlap(m, c) && Within(c, h)
    ensures Overlap(m, h)
  {
  }

  // A network that holds one half of `c` without holding `c` is that half.
  lemma HalfOnly(c: IpCidr, half: IpCidr, m: IpCidr)
    requires c.len < c.family.Bits() && (half == LowHalf(c) || half == HighHalf(c))
    requires Within(half, m) && !Within(c, m)
    ensures m == half
  {
    HalvesValid(c);
    WithinLength(half, m);
    assert Overlap(m, c);
    Laminar(m, c);
    Laminar(m, half);
  }

  // Two normal forms that cover the same addresses have the same members.
  lemma NormalFormUnique(s: set<IpCidr>, t: set<IpCidr>)
    requires NormalForm(s) && NormalForm(t)
    requires forall a: IpAddr :: Covers(s, a) <==> Covers(t, a)
    ensures s == t
  {
    forall c | c in s
      ensures c in t
    {
      MemberIsShared(s, t, c);
    }
    forall c | c in t
      ensures c in s
    {
      MemberIsShared(t, s, c);
    }
  }

  lemma MemberIsShared(s: set<IpCidr>, t: set<IpCidr>, c: IpCidr)
    requires NormalForm(s) && NormalForm(t) && c in s
    requires forall a: IpAddr :: Covers(s, a) <==> Covers(t, a)
    ensures c in t
  {
    MemberInside(s, c);
    var d := InsideOne(t, c);
    MemberInside(t, d);
    var e := InsideOne(s, d);
    assert Overlap(c, e);
    WithinLength(c, d);
  }

  lemma MemberInside(s: set<IpCidr>, c: IpCidr)
    requires c in s
    ensures forall a: IpAddr :: Contains(c, a) ==> Covers(s, a)
  {
  }

  // ---------- normal form of a list of rules ----------

  /** The networks of one metadata group. */
  ghost function Nets(rules: seq<TrustedProxyRule>, m: TrustedProxyMetadata): (nets: set<IpCidr>)
    ensures forall c :: c in nets <==> TrustedProxyRule(c, m) in rules
  {
    var nets := set r | r in rules && r.metadata == m :: r.cidr;
    assert forall c: IpCidr :: TrustedProxyRule(c, m) in rules ==> TrustedProxyRule(c, m).cidr in nets;
    nets
  }

  lemma CoveredByNets(rules: seq<TrustedProxyRule>, m: TrustedProxyMetadata, a: IpAddr)
    ensures Covered(rules, m, a) <==> Covers(Nets(rules, m), a)
  {
    if Covered(rules, m, a) {
      var r :| r in rules && r.metadata == m && Contains(r.cidr, a);
      assert r == TrustedProxyRule(r.cidr, m);
    }
    if Covers(Nets(rules, m), a) {
      var c :| c in Nets(rules, m) && Contains(c, a);
      assert TrustedProxyRule(c, m) in rules;
    }
  }

  /** Every metadata group is in normal form, and no rule is listed twice. */
  ghost predicate Merged(rules: seq<TrustedProxyRule>) {
    NoRepeats(rules) && forall m :: NormalForm(Nets(rules, m))
  }

  lemma MergedApart(rules: seq<TrustedProxyRule>, i: nat, j: nat)
    requires Merged(rules) && i < |rules| && j < |rules| && i != j && rules[i].metadata == rules[j].metadata
    ensures !Overlap(rules[i].cidr, rules[j].cidr)
  {
    var m := rules[i].metadata;
    assert NormalForm(Nets(rules, m));
    assert rules[i] != rules[j];
    assert rules[i] == TrustedProxyRule(rules[i].cidr, m) && rules[j] == TrustedProxyRule(rules[j].cidr, m);
    assert rules[i] in rules && rules[j] in rules;
  }

  lemma SameNets(s: seq<TrustedProxyRule>, t: seq<TrustedProxyRule>, m: TrustedProxyMetadata)
    requires Merged(s) && Merged(t) && SameCoverage(s, t)
    ensures Nets(s, m) == Nets(t, m)
  {
    assert NormalForm(Nets(s, m)) && NormalForm(Nets(t, m));
    forall a: IpAddr
      ensures Covers(Nets(s, m), a) <==> Covers(Nets(t, m), a)
    {
      CoveredByNets(s, m, a);
      CoveredByNets(t, m, a);
    }
    NormalFormUnique(Nets(s, m), Nets(t, m));
  }

  // ---------- minimality ----------

  // A rule of any list with the same coverage that meets a merged rule of its group lies inside it.
  lemma CoverInside(merged: seq<TrustedProxyRule>, other: seq<TrustedProxyRule>, i: nat) returns (j: nat)
    requires Merged(merged) && SameCoverage(merged, other) && i < |merged|
    ensures Hit(merged, other, i, j)
  {
    var r := merged[i];
    var m, a := r.metadata, First(r.cidr);
    assert Contains(r.cidr, a) && Covered(merged, m, a);
    assert Covered(other, m, a);
    var s :| s in other && s.metadata == m && Contains(s.cidr, a);
    j :| 0 <= j < |other| && other[j] == s;
    forall b: IpAddr | Contains(s.cidr, b)
      ensures Covers(Nets(merged, m), b)
    {
      assert Covered(other, m, b);
      CoveredByNets(merged, m, b);
    }
    assert NormalForm(Nets(merged, m));
    var c := InsideOne(Nets(merged, m), s.cidr);
    assert Overlap(c, r.cidr);
    assert TrustedProxyRule(r.cidr, m) in merged;
  }

  // Merging is minimal: every list of rules with the same coverage is at least as long.
  lemma MergedIsShortest(merged: seq<TrustedProxyRule>, other: seq<TrustedProxyRule>)
    requires Merged(merged) && SameCoverage(merged, other)
    ensures |merged| <= |other|
  {
    var hit := (i: nat, j: nat) => Hit(merged, other, i, j);
    forall i: nat | i < |merged|
      ensures HitsBelow(i, |other|, hit)
    {
      var j := CoverInside(merged, other, i);
      assert hit(i, j);
    }
    forall i: nat, k: nat, j: nat | i < |merged| && k < |merged| && hit(i, j) && hit(k, j)
      ensures i == k
    {
      if i != k {
        MergedApart(merged, i, k);
      }
    }
    InjectionBound(|merged|, |other|, hit);
  }

  ghost predicate Hit(merged: seq<TrustedProxyRule>, other: seq<TrustedProxyRule>, i: nat, j: nat) {
    && i < |merged| && j < |other|
    && other[j].metadata == merged[i].metadata && Within(other[j].cidr, merged[i].cidr)
  }

  ghost predicate HitsBelow(i: nat, m: nat, hit: (nat, nat) -> bool) {
    exists j: nat :: j < m && hit(i, j)
  }

  // If every number below `n` hits a number below `m`, and none is hit from two, then `n <= m`.
  lemma InjectionBound(n: nat, m: nat, hit: (nat, nat) -> bool)
    requires forall i: nat :: i < n ==> HitsBelow(i, m, hit)
    requires forall i: nat, k: nat, j: nat :: i < n && k < n && hit(i, j) && hit(k, j) ==> i == k
    ensures n <= m
  {
    var hits := Choices(n, m, hit);
    DistinctBound(hits, m);
  }

  lemma {:induction false} Choices(n: nat, m: nat, hit: (nat, nat) -> bool) returns (hits: seq<nat>)
    requires forall i: nat :: i < n ==> HitsBelow(i, m, hit)
    requires forall i: nat, k: nat, j: nat :: i < n && k < n && hit(i, j) && hit(k, j) ==> i == k
    ensures |hits| == n && forall i :: 0 <= i < n ==> hits[i] < m && hit(i, hits[i])
    ensures NoRepeats(hits)
  {
    if n == 0 {
      hits := [];
    } else {
      var before := Choices(n - 1, m, hit);
      assert HitsBelow(n - 1, m, hit);
      var j: nat :| j < m && hit(n - 1, j);
      hits := before + [j];
    }
  }

  lemma {:induction false} DistinctBound(s: seq<nat>, n: nat)
    requires forall i :: 0 <= i < |s| ==> s[i] < n
    requires NoRepeats(s)
    ensures |s| <= n
  {
    assert |s| > 0 ==> s[0] < n;
    if |s| == 0 {
    } else if n - 1 in s {
      var k :| 0 <= k < |s| && s[k] == n - 1;
      DistinctBound(s[..k] + s[k + 1..], n - 1);
    } else {
      DistinctBound(s, n - 1);
    }
  }

  // ---------- the sorted index ----------

  /** Each rule ends before the next one starts, so the list is sorted and disjoint across all groups. */
  ghost predicate Ordered(rules: seq<TrustedProxyRule>) {
    forall i, j :: 0 <= i < j < |rules| ==> Lt(Last(rules[i].cidr), First(rules[j].cidr))
  }

  ghost predicate IsIndex(rules: seq<TrustedProxyRule>) {
    Ordered(rules) && Merged(rules)
  }

  lemma IndexHasNoConflict(rules: seq<TrustedProxyRule>)
    requires IsIndex(rules)
    ensures NoConflict(rules)
  {
    forall r, s | r in rules && s in rules
      ensures !Conflict(r, s)
    {
      var i :| 0 <= i < |rules| && rules[i] == r;
      var j :| 0 <= j < |rules| && rules[j] == s;
      if i != j {
        assert Lt(Last(rules[if i < j then i else j].cidr), First(rules[if i < j then j else i].cidr));
      }
    }
  }

  lemma {:induction false} SortedSame(s: seq<TrustedProxyRule>, t: seq<TrustedProxyRule>)
    requires Ordered(s) && Ordered(t)
    requires forall r :: r in s <==> r in t
    ensures s == t
  {
    assert s == [] || s[0] in s;
    assert t == [] || t[0] in t;
    if s == [] {
    } else {
      SameHead(s, t);
      forall r
        ensures r in s[1..] <==> r in t[1..]
      {
        TailMembers(s, r);
        TailMembers(t, r);
      }
      SortedSame(s[1..], t[1..]);
      assert s == [s[0]] + s[1..] && t == [t[0]] + t[1..];
    }
  }

  lemma SameHead(s: seq<TrustedProxyRule>, t: seq<TrustedProxyRule>)
    requires Ordered(s) && Ordered(t) && s != [] && t != [] && s[0] in t && t[0] in s
    ensures s[0] == t[0]
  {
    var i :| 0 <= i < |t| && t[i] == s[0];
    var j :| 0 <= j < |s| && s[j] == t[0];
    assert i == 0 || Lt(Last(t[0].cidr), First(t[i].cidr));
    assert j == 0 || Lt(Last(s[0].cidr), First(s[j].cidr));
  }

  lemma TailMembers(s: seq<TrustedProxyRule>, r: TrustedProxyRule)
    requires Ordered(s) && s != []
    ensures r in s[1..] <==> r in s && r != s[0]
  {
    if r in s && r != s[0] {
      var i :| 0 <= i < |s| && s[i] == r;
      assert s[1..][i - 1] == r;
    }
    if r in s[1..] {
      var i :| 0 <= i < |s[1..]| && s[1..][i] == r;
      assert Lt(Last(s[0].cidr), First(s[i + 1].cidr));
    }
  }

  // The index is determined by its meaning alone.
  lemma IndexUnique(s: seq<TrustedProxyRule>, t: seq<TrustedProxyRule>)
    requires IsIndex(s) && IsIndex(t)
    ensures s == t <==> SameCoverage(s, t)
  {
    if SameCoverage(s, t) {
      forall r: TrustedProxyRule
        ensures r in s <==> r in t
      {
        SameNets(s, t, r.metadata);
        assert r == TrustedProxyRule(r.cidr, r.metadata);
        assert r.cidr in Nets(s, r.metadata) <==> r.cidr in Nets(t, r.metadata);
      }
      SortedSame(s, t);
    }
  }
}
