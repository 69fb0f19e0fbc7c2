/** What a resolution means, what it never depends on, and what it means for the rules as supplied. */
module ResolveTheorems {
  import opened Addresses
  import opened Canonical
  import opened Wrappers
  import opened Rules
  import opened Config
  import opened IndexTheorems
  import opened Text
  import opened Quoted
  import opened Headers
  import opened HeaderTheorems
  import opened NodeTheorems
  import opened Resolve

  // ---------- the scan ----------

  predicate TrustedHop(config: ClientIpConfig, hop: ChainEntry) {
    hop.Ip? && TrustedProxy(config, hop.ip)
  }

  /** Position `i` holds `ip`, which is no trusted proxy, and every hop to its right is one. */
  predicate AnswersAt(config: ClientIpConfig, hops: seq<ChainEntry>, ip: IpAddr, i: nat) {
    && i < |hops| && hops[i] == Ip(ip) && !TrustedProxy(config, ip)
    && forall j :: i < j < |hops| ==> TrustedHop(config, hops[j])
  }

  lemma {:induction false} ScanIsExact(config: ClientIpConfig, hops: seq<ChainEntry>, ip: IpAddr)
    ensures ScanFromRight(config, hops) == Some(ip) <==> exists i :: AnswersAt(config, hops, ip, i)
  {
    if hops == [] {
      return;
    }
    var n := |hops| - 1;
    ScanIsExact(config, hops[..n], ip);
    forall i: nat {
      AnswersBefore(config, hops[..n], hops[n], ip, i);
    }
    assert hops == hops[..n] + [hops[n]];
    if !TrustedHop(config, hops[n]) && ScanFromRight(config, hops) == Some(ip) {
      assert AnswersAt(config, hops, ip, n);
    }
  }

  lemma AnswersBefore(config: ClientIpConfig, hops: seq<ChainEntry>, last: ChainEntry, ip: IpAddr, i: nat)
    ensures AnswersAt(config, hops + [last], ip, i) <==>
            if i == |hops| then last == Ip(ip) && !TrustedProxy(config, ip)
            else TrustedHop(config, last) && AnswersAt(config, hops, ip, i)
  {
    var all := hops + [last];
    assert all[|hops|] == last;
    assert forall j :: 0 <= j < |hops| ==> all[j] == hops[j];
  }

  // Hops added on the left matter only when every hop already there is a trusted proxy.
  lemma {:induction false} ScanIgnoresLeft(config: ClientIpConfig, left: seq<ChainEntry>, hops: seq<ChainEntry>)
    ensures ScanFromRight(config, left + hops) ==
            if forall hop :: hop in hops ==> TrustedHop(config, hop) then ScanFromRight(config, left)
            else ScanFromRight(config, hops)
  {
    if hops == [] {
      assert left + hops == left;
    } else {
      var n := |hops| - 1;
      assert (left + hops)[..|left + hops| - 1] == left + hops[..n];
      assert hops == hops[..n] + [hops[n]] && hops[n] in hops;
      ScanIgnoresLeft(config, left, hops[..n]);
    }
  }

  lemma {:induction false} AllTrustedNoAnswer(config: ClientIpConfig, hops: seq<ChainEntry>)
    requires forall hop :: hop in hops ==> TrustedHop(config, hop)
    ensures ScanFromRight(config, hops).None?
  {
    if hops != [] {
      assert hops[|hops| - 1] in hops;
      AllTrustedNoAnswer(config, hops[..|hops| - 1]);
    }
  }

  // Counting from the right is blind to what stands on the left, as long as the chain is long enough.
  lemma SelectionIgnoresLeft(selection: TrustAllChainIpSelection, left: seq<ChainEntry>, hops: seq<ChainEntry>)
    requires !selection.Leftmost?
    ensures var n := if selection.Rightmost? then 0 else selection.hops;
            SelectByPosition(selection, left + hops) ==
            if n < |hops| then SelectByPosition(selection, hops)
            else SelectByPosition(SkipRightmostHops(n - |hops|), left)
  {
  }

  // The selections are positional: the leftmost hop, or the hop with exactly that many hops to its right.
  lemma SelectionIsPositional(left: seq<ChainEntry>, hop: ChainEntry, right: seq<ChainEntry>)
    ensures var picked := if hop.Ip? then Some(hop.ip) else None;
            && SelectByPosition(Leftmost, [hop] + right) == picked
            && SelectByPosition(Rightmost, left + [hop]) == picked
            && SelectByPosition(SkipRightmostHops(|right|), left + [hop] + right) == picked
    ensures SelectByPosition(SkipRightmostHops(0), left) == SelectByPosition(Rightmost, left)
    ensures SelectByPosition(SkipRightmostHops(|left|), left).None?
  {
    assert (left + [hop] + right)[|left|] == hop;
  }

  // ---------- which header decides ----------

  function ChainOrder(config: ClientIpConfig): seq<ChainHeader> {
    match config.trust
    case NoProxy => []
    case TrustedProxies(_, order) => order
    case TrustAllProxies(mode) => mode.chainHeaderOrder
  }

  function PickOf(config: ClientIpConfig): Pick {
    match config.trust
    case TrustAllProxies(mode) => ByPosition(mode.chainIpSelection)
    case _ => NonTrustedFromRight(config)
  }

  /** The configured header that may be read for a peer. */
  function PeerHeader(config: ClientIpConfig, peer: IpAddr): Option<HeaderName> {
    match config.trust
    case NoProxy => None
    case TrustedProxies(_, _) =>
      (match RuleOf(config, peer) case Some(rule) => rule.metadata.clientIpHeader case None => None)
    case TrustAllProxies(mode) => mode.clientIpHeader
  }

  /** No header of a request from this peer is read: no proxy is trusted, or no rule contains the peer. */
  predicate Unread(config: ClientIpConfig, peer: IpAddr) {
    match config.trust
    case NoProxy => true
    case TrustedProxies(rules, _) => forall r :: r in rules ==> !Contains(r.cidr, CanonicalIp(peer))
    case TrustAllProxies(_) => false
  }

  /** The header `name` is configured for this peer, by a rule that contains it or for all peers. */
  ghost predicate HeaderFor(config: ClientIpConfig, peer: IpAddr, name: HeaderName) {
    match config.trust
    case NoProxy => false
    case TrustedProxies(rules, _) => Covered(rules, TrustedProxyMetadata(Some(name)), CanonicalIp(peer))
    case TrustAllProxies(mode) => mode.clientIpHeader == Some(name)
  }

  /** No address has two policies, as in every config that was built. */
  ghost predicate Consistent(config: ClientIpConfig) {
    config.trust.TrustedProxies? ==> NoConflict(config.trust.rules)
  }

  lemma ValidIsConsistent(config: ClientIpConfig)
    requires ValidConfig(config)
    ensures Consistent(config)
  {
    if config.trust.TrustedProxies? {
      IndexHasNoConflict(config.trust.rules);
    }
  }

  // Under all three trust models, a peer is a trusted proxy exactly when its headers are read.
  lemma TrustIsReading(config: ClientIpConfig, peer: IpAddr)
    ensures TrustedProxy(config, peer) <==> !Unread(config, peer)
  {
    CanonicalIpIdempotent(peer);
  }

  // A peer that is no trusted proxy is its own answer, whatever headers it sends.
  lemma UntrustedAnswersItself(g: AddressGrammar, config: ClientIpConfig, headers: HeaderMap, peer: IpAddr)
    requires !TrustedProxy(config, peer)
    ensures Resolution(g, config, headers, peer) == ClientIp(CanonicalIp(peer), Socket)
  {
    TrustIsReading(config, peer);
    ResolutionCases(g, config, headers, peer);
  }

  lemma PeerHeaderCovers(config: ClientIpConfig, peer: IpAddr)
    ensures PeerHeader(config, peer).Some? ==> HeaderFor(config, peer, PeerHeader(config, peer).value)
  {
    if config.trust.TrustedProxies? && PeerHeader(config, peer).Some? {
      var rule := RuleOf(config, peer).value;
      assert rule.metadata == TrustedProxyMetadata(PeerHeader(config, peer));
    }
  }

  // The configured header that is read is the one that a rule containing the peer names.
  lemma PeerHeaderExact(config: ClientIpConfig, peer: IpAddr, name: HeaderName)
    requires Consistent(config)
    ensures PeerHeader(config, peer) == Some(name) <==> HeaderFor(config, peer, name)
  {
    PeerHeaderCovers(config, peer);
    if config.trust.TrustedProxies? && HeaderFor(config, peer, name) {
      var a, m := CanonicalIp(peer), TrustedProxyMetadata(Some(name));
      PolicyIsCoverage(config.trust.rules, m, a);
    }
  }

  /** Header `k` of the order is the first one that the request carries. */
  predicate FirstPresent(headers: HeaderMap, order: seq<ChainHeader>, k: nat) {
    && k < |order| && GetAll(headers, order[k].name) != []
    && forall i :: 0 <= i < k ==> GetAll(headers, order[i].name) == []
  }

  predicate NonePresent(headers: HeaderMap, order: seq<ChainHeader>) {
    forall i :: 0 <= i < |order| ==> GetAll(headers, order[i].name) == []
  }

  lemma {:induction false} FirstPresentDecides(g: AddressGrammar, headers: HeaderMap, order: seq<ChainHeader>,
                                               pick: Pick, k: nat)
    requires FirstPresent(headers, order, k)
    ensures ChainAnswer(g, headers, order, pick) == HeaderAnswer(g, headers, order[k], pick)
  {
    hide HeaderAnswer;
    if k > 0 {
      assert GetAll(headers, order[0].name) == [];
      assert FirstPresent(headers, order[1..], k - 1);
      FirstPresentDecides(g, headers, order[1..], pick, k - 1);
    }
  }

  lemma {:induction false} NonePresentNoAnswer(g: AddressGrammar, headers: HeaderMap, order: seq<ChainHeader>, pick: Pick)
    requires NonePresent(headers, order)
    ensures ChainAnswer(g, headers, order, pick).None?
  {
    if order != [] {
      NonePresentNoAnswer(g, headers, order[1..], pick);
    }
  }

  lemma {:induction false} SomeFirstPresent(headers: HeaderMap, order: seq<ChainHeader>) returns (k: nat)
    requires !NonePresent(headers, order)
    ensures FirstPresent(headers, order, k)
  {
    if GetAll(headers, order[0].name) != [] {
      k := 0;
    } else {
      var i := SomeFirstPresent(headers, order[1..]);
      k := i + 1;
    }
  }

  lemma {:induction false} ChainAnswerSource(g: AddressGrammar, headers: HeaderMap, order: seq<ChainHeader>, pick: Pick)
    ensures ChainAnswer(g, headers, order, pick).Some? ==>
              ChainAnswer(g, headers, order, pick).value.source.FromChainHeader?
  {
    if order != [] {
      ChainAnswerSource(g, headers, order[1..], pick);
    }
  }

  lemma ResolutionCases(g: AddressGrammar, config: ClientIpConfig, headers: HeaderMap, peer: IpAddr)
    ensures Resolution(g, config, headers, peer) ==
            if Unread(config, peer) then ClientIp(CanonicalIp(peer), Socket)
            else Answer(g, headers, CanonicalIp(peer), PeerHeader(config, peer), ChainOrder(config), PickOf(config))
  {
    CanonicalIpIdempotent(peer);
  }

  // ---------- what the answer means ----------

  lemma EntriesCanonical(g: AddressGrammar, kind: ChainHeaderKind, items: seq<string>)
    ensures forall e :: e in Entries(g, kind, items) && e.Ip? ==> CanonicalIp(e.ip) == e.ip
  {
    forall i | 0 <= i < |Ink(items)| {
      EntryCanonical(g, kind, Ink(items)[i]);
    }
  }

  lemma EntryCanonical(g: AddressGrammar, kind: ChainHeaderKind, item: string)
    ensures var e := Entry(g, kind, item); e.Ip? ==> CanonicalIp(e.ip) == e.ip
  {
    match kind {
      case XForwardedFor => ChainEntryCanonical(g, item);
      case Forwarded => PairsEntryCanonical(g, TrimAll(Split(Outside, item, ';')));
    }
  }

  lemma ChainEntryCanonical(g: AddressGrammar, raw: string)
    ensures var e := ChainEntryOf(g, raw); e.Ip? ==> CanonicalIp(e.ip) == e.ip
  {
    var ip := ParseIpLike(g, raw);
    if ip.Some? {
      CanonicalIpIdempotent(ip.value);
    }
  }

  lemma {:induction false} PairsEntryCanonical(g: AddressGrammar, pairs: seq<string>)
    ensures var e := PairsEntry(g, pairs); e.Ip? ==> CanonicalIp(e.ip) == e.ip
  {
    if pairs != [] {
      PairsEntryCanonical(g, pairs[1..]);
      var parts := SplitOnce(pairs[0], '=');
      if parts.Some? {
        ChainEntryCanonical(g, Unquote(Trim(parts.value.1)));
      }
    }
  }

  lemma {:induction false} LinesCanonical(g: AddressGrammar, kind: ChainHeaderKind, lines: seq<string>)
    ensures forall e :: e in LinesHops(g, kind, lines) && e.Ip? ==> CanonicalIp(e.ip) == e.ip
  {
    hide Entry;
    if lines != [] {
      assert lines == [lines[0]] + lines[1..];
      LinesCons(g, kind, lines[0], lines[1..]);
      EntriesCanonical(g, kind, Items(kind, lines[0]));
      LinesCanonical(g, kind, lines[1..]);
    }
  }

  lemma PickedIsHop(config: ClientIpConfig, hops: seq<ChainEntry>, ip: IpAddr)
    requires Picks(config, hops, ip)
    ensures Ip(ip) in hops && (config.trust.TrustedProxies? ==> !TrustedProxy(config, ip))
  {
    if config.trust.TrustedProxies? {
      var i :| AnswersAt(config, hops, ip, i);
    }
  }

  /** No header configured for the peer ends in a plain address. */
  ghost predicate ConfiguredSilent(g: AddressGrammar, config: ClientIpConfig, headers: HeaderMap, peer: IpAddr) {
    forall name, a :: HeaderFor(config, peer, name) && name in headers ==> !LastNames(g, headers[name], a)
  }

  /** The hop that the trust model asks for names this address. */
  ghost predicate Picks(config: ClientIpConfig, hops: seq<ChainEntry>, ip: IpAddr) {
    match config.trust
    case NoProxy => false
    case TrustedProxies(_, _) => exists i :: AnswersAt(config, hops, ip, i)
    case TrustAllProxies(mode) =>
      match mode.chainIpSelection
      case Leftmost => hops != [] && hops[0] == Ip(ip)
      case Rightmost => hops != [] && hops[|hops| - 1] == Ip(ip)
      case SkipRightmostHops(n) => n < |hops| && hops[|hops| - 1 - n] == Ip(ip)
  }

  lemma PicksExact(config: ClientIpConfig, hops: seq<ChainEntry>, ip: IpAddr)
    requires !config.trust.NoProxy?
    ensures PickIp(PickOf(config), hops) == Some(ip) <==> Picks(config, hops, ip)
  {
    ScanIsExact(config, hops, ip);
  }

  /** Header `k`, the first one present, has an unreadable line, or the hop asked for has no address. */
  ghost predicate ChainSilent(g: AddressGrammar, config: ClientIpConfig, headers: HeaderMap, k: nat) {
    && FirstPresent(headers, ChainOrder(config), k)
    && var header := ChainOrder(config)[k];
       var values := GetAll(headers, header.name);
       AllReadable(values) ==> forall ip :: !Picks(config, LinesHops(g, header.kind, values), ip)
  }

  /** Header `k`, the first one present, is readable, and the hop asked for has this address. */
  ghost predicate ChainNames(g: AddressGrammar, config: ClientIpConfig, headers: HeaderMap, k: nat,
                             name: HeaderName, ip: IpAddr)
  {
    && FirstPresent(headers, ChainOrder(config), k)
    && var header := ChainOrder(config)[k];
       var values := GetAll(headers, header.name);
       header.name == name && AllReadable(values) && Picks(config, LinesHops(g, header.kind, values), ip)
  }

  /** The whole meaning of a result, case by case over its source. */
  ghost predicate Explains(g: AddressGrammar, config: ClientIpConfig, headers: HeaderMap, peer: IpAddr, r: ClientIp) {
    match r.source
    case Socket =>
      && r.ip == CanonicalIp(peer)
      && (|| Unread(config, peer)
          || (&& ConfiguredSilent(g, config, headers, peer)
              && (|| NonePresent(headers, ChainOrder(config))
                  || exists k :: ChainSilent(g, config, headers, k))))
    case FromConfiguredHeader(name) =>
      HeaderFor(config, peer, name) && name in headers && LastNames(g, headers[name], r.ip)
    case FromChainHeader(name) =>
      && !Unread(config, peer) && ConfiguredSilent(g, config, headers, peer)
      && exists k :: ChainNames(g, config, headers, k, name, r.ip)
  }

  lemma ConfiguredAnswerExact(g: AddressGrammar, config: ClientIpConfig, headers: HeaderMap, peer: IpAddr,
                              name: HeaderName, a: IpAddr)
    requires Consistent(config)
    ensures ConfiguredAnswer(g, headers, PeerHeader(config, peer)) == Some(ClientIp(a, FromConfiguredHeader(name))) <==>
            HeaderFor(config, peer, name) && name in headers && LastNames(g, headers[name], a)
  {
    hide ConfiguredClientIpHeader, HeaderFor, LastNames;
    PeerHeaderExact(config, peer, name);
    ConfiguredHeaderIff(g, headers, name, a);
  }

  lemma SilentIsNoAnswer(g: AddressGrammar, config: ClientIpConfig, headers: HeaderMap, peer: IpAddr)
    ensures ConfiguredSilent(g, config, headers, peer) ==> ConfiguredAnswer(g, headers, PeerHeader(config, peer)).None?
    ensures Consistent(config) && ConfiguredAnswer(g, headers, PeerHeader(config, peer)).None? ==>
              ConfiguredSilent(g, config, headers, peer)
  {
    hide ConfiguredClientIpHeader, HeaderFor, LastNames, PeerHeader;
    var answer := ConfiguredAnswer(g, headers, PeerHeader(config, peer));
    PeerHeaderCovers(config, peer);
    if answer.Some? {
      ConfiguredHeaderIff(g, headers, PeerHeader(config, peer).value, answer.value.ip);
    } else if Consistent(config) {
      forall name, a
        ensures HeaderFor(config, peer, name) && name in headers ==> !LastNames(g, headers[name], a)
      {
        ConfiguredAnswerExact(g, config, headers, peer, name, a);
      }
    }
  }

  lemma ChainAnswerExact(g: AddressGrammar, config: ClientIpConfig, headers: HeaderMap, name: HeaderName, ip: IpAddr)
    requires !config.trust.NoProxy?
    ensures ChainAnswer(g, headers, ChainOrder(config), PickOf(config)) == Some(ClientIp(ip, FromChainHeader(name))) <==>
            exists k :: ChainNames(g, config, headers, k, name, ip)
  {
    hide LinesHops, Picks, PickIp;
    var order, pick := ChainOrder(config), PickOf(config);
    if NonePresent(headers, order) {
      NonePresentNoAnswer(g, headers, order, pick);
    } else {
      var k := SomeFirstPresent(headers, order);
      FirstPresentDecides(g, headers, order, pick, k);
      PicksExact(config, LinesHops(g, order[k].kind, GetAll(headers, order[k].name)), ip);
      forall j | ChainNames(g, config, headers, j, name, ip)
        ensures j == k
      {
      }
      assert ChainNames(g, config, headers, k, name, ip) <==>
             ChainAnswer(g, headers, order, pick) == Some(ClientIp(ip, FromChainHeader(name)));
    }
  }

  lemma ChainSilenceExact(g: AddressGrammar, config: ClientIpConfig, headers: HeaderMap)
    requires !config.trust.NoProxy?
    ensures ChainAnswer(g, headers, ChainOrder(config), PickOf(config)).None? <==>
            NonePresent(headers, ChainOrder(config)) || exists k :: ChainSilent(g, config, headers, k)
  {
    hide LinesHops, Picks, PickIp;
    var order, pick := ChainOrder(config), PickOf(config);
    if NonePresent(headers, order) {
      NonePresentNoAnswer(g, headers, order, pick);
    } else {
      var k := SomeFirstPresent(headers, order);
      FirstPresentDecides(g, headers, order, pick, k);
      var hops := LinesHops(g, order[k].kind, GetAll(headers, order[k].name));
      forall ip
        ensures PickIp(pick, hops) == Some(ip) <==> Picks(config, hops, ip)
      {
        PicksExact(config, hops, ip);
      }
      forall j | ChainSilent(g, config, headers, j)
        ensures j == k
      {
      }
      assert PickIp(pick, hops).None? <==> forall ip :: !Picks(config, hops, ip);
      assert ChainSilent(g, config, headers, k) <==> ChainAnswer(g, headers, order, pick).None?;
    }
  }

  // The meaning is exact: a result is the answer if and only if it is explained.
  lemma ResultIsExplained(g: AddressGrammar, config: ClientIpConfig, headers: HeaderMap, peer: IpAddr, r: ClientIp)
    requires Consistent(config)
    ensures Resolution(g, config, headers, peer) == r <==> Explains(g, config, headers, peer, r)
  {
    hide Resolution, ConfiguredAnswer, ChainAnswer, HeaderFor, LastNames, ChainNames, ChainSilent, NonePresent,
         PeerHeader, ConfiguredSilent;
    ResolutionCases(g, config, headers, peer);
    HeaderForIsRead(config, peer);
    if !Unread(config, peer) {
      SilentIsNoAnswer(g, config, headers, peer);
      ChainSilenceExact(g, config, headers);
      ChainAnswerSource(g, headers, ChainOrder(config), PickOf(config));
      ConfiguredAnswerSource(g, headers, PeerHeader(config, peer));
      match r.source {
        case Socket =>
        case FromConfiguredHeader(name) => ConfiguredAnswerExact(g, config, headers, peer, name, r.ip);
        case FromChainHeader(name) => ChainAnswerExact(g, config, headers, name, r.ip);
      }
    }
  }

  lemma HeaderForIsRead(config: ClientIpConfig, peer: IpAddr)
    ensures forall name :: HeaderFor(config, peer, name) ==> !Unread(config, peer)
  {
  }

  lemma ConfiguredAnswerSource(g: AddressGrammar, headers: HeaderMap, name: Option<HeaderName>)
    ensures ConfiguredAnswer(g, headers, name).Some? ==>
              ConfiguredAnswer(g, headers, name).value.source.FromConfiguredHeader?
  {
  }

  // Every result is a canonical address, and in trusted-proxies mode a chain never answers with a trusted proxy.
  lemma ResultIsCanonical(g: AddressGrammar, config: ClientIpConfig, headers: HeaderMap, peer: IpAddr)
    requires Consistent(config)
    ensures var r := Resolution(g, config, headers, peer);
            && CanonicalIp(r.ip) == r.ip
            && (r.source.FromChainHeader? && config.trust.TrustedProxies? ==> !TrustedProxy(config, r.ip))
  {
    hide LinesHops;
    var r := Resolution(g, config, headers, peer);
    ResultIsExplained(g, config, headers, peer, r);
    CanonicalIpIdempotent(peer);
    match r.source {
      case Socket =>
      case FromConfiguredHeader(name) =>
        var before, pre, text, post, ip :| LastNamedBy(g, headers[name], r.ip, before, pre, text, post, ip);
        CanonicalIpIdempotent(ip);
      case FromChainHeader(name) =>
        var k: nat :| ChainNames(g, config, headers, k, name, r.ip);
        var header := ChainOrder(config)[k];
        LinesCanonical(g, header.kind, GetAll(headers, name));
        PickedIsHop(config, LinesHops(g, header.kind, GetAll(headers, name)), r.ip);
    }
  }

  // ---------- what cannot influence the answer ----------

  // A peer and its IPv4-mapped form give the same result under every trust model.
  lemma MappedPeerIsSame(g: AddressGrammar, config: ClientIpConfig, headers: HeaderMap, peer: IpAddr)
    requires peer.family.V4?
    ensures Resolution(g, config, headers, MappedForm(peer)) == Resolution(g, config, headers, peer)
  {
    CanonicalIpIdempotent(peer);
  }

  // Whoever may not be read decides nothing; else only the peer's configured header and the chain headers up to the
  // first present one (all of them, when none is present) can matter.
  lemma OnlyDecidingHeadersMatter(g: AddressGrammar, config: ClientIpConfig, peer: IpAddr,
                                  headers: HeaderMap, others: HeaderMap, k: nat)
    requires !Unread(config, peer) ==>
               && DecidedAt(headers, ChainOrder(config), k)
               && SameUpTo(headers, others, ChainOrder(config), k)
               && SameConfigured(headers, others, PeerHeader(config, peer))
    ensures Resolution(g, config, headers, peer) == Resolution(g, config, others, peer)
  {
    ResolutionCases(g, config, headers, peer);
    ResolutionCases(g, config, others, peer);
    if !Unread(config, peer) {
      SameChain(g, headers, others, ChainOrder(config), PickOf(config), k);
    }
  }

  /** Header `k` is the first one present, or `k` is the number of headers and none is present. */
  predicate DecidedAt(headers: HeaderMap, order: seq<ChainHeader>, k: nat) {
    FirstPresent(headers, order, k) || (k == |order| && NonePresent(headers, order))
  }

  predicate SameUpTo(headers: HeaderMap, others: HeaderMap, order: seq<ChainHeader>, k: nat) {
    forall i :: 0 <= i <= k && i < |order| ==> GetAll(headers, order[i].name) == GetAll(others, order[i].name)
  }

  predicate SameConfigured(headers: HeaderMap, others: HeaderMap, name: Option<HeaderName>) {
    name.Some? ==> GetAll(headers, name.value) == GetAll(others, name.value)
  }

  lemma SameChain(g: AddressGrammar, headers: HeaderMap, others: HeaderMap, order: seq<ChainHeader>, pick: Pick, k: nat)
    requires DecidedAt(headers, order, k) && SameUpTo(headers, others, order, k)
    ensures ChainAnswer(g, headers, order, pick) == ChainAnswer(g, others, order, pick)
  {
    if k < |order| {
      assert FirstPresent(others, order, k);
      FirstPresentDecides(g, headers, order, pick, k);
      FirstPresentDecides(g, others, order, pick, k);
    } else {
      NonePresentNoAnswer(g, headers, order, pick);
      NonePresentNoAnswer(g, others, order, pick);
    }
  }

  // ---------- prefix independence of the text ----------

  /** What a sender upstream can add: whole readable lines, or readable text and a comma in front of the first line. */
  ghost predicate Prepended(kind: ChainHeaderKind, values: seq<string>, more: seq<string>) {
    || (exists lines :: AllReadable(lines) && more == lines + values)
    || (values != [] && exists text :: Readable(text) && Complete(kind, text)
                                       && more == [text + "," + values[0]] + values[1..])
  }

  lemma PrependedHops(g: AddressGrammar, kind: ChainHeaderKind, values: seq<string>, more: seq<string>)
    returns (left: seq<ChainEntry>)
    requires Prepended(kind, values, more) && AllReadable(values)
    ensures AllReadable(more) && LinesHops(g, kind, more) == left + LinesHops(g, kind, values)
  {
    hide LineHops;
    if exists lines :: AllReadable(lines) && more == lines + values {
      var lines :| AllReadable(lines) && more == lines + values;
      LinesConcat(g, kind, lines, values);
      left := LinesHops(g, kind, lines);
    } else {
      var text :| Readable(text) && Complete(kind, text) && more == [text + "," + values[0]] + values[1..];
      PrependedText(g, kind, text, values[0], values[1..]);
      assert values == [values[0]] + values[1..];
      left := LineHops(g, kind, text);
    }
  }

  lemma PrependedText(g: AddressGrammar, kind: ChainHeaderKind, text: string, line: string, rest: seq<string>)
    requires Readable(text) && Complete(kind, text) && AllReadable([line] + rest)
    ensures AllReadable([text + "," + line] + rest)
    ensures LinesHops(g, kind, [text + "," + line] + rest) == LineHops(g, kind, text) + LinesHops(g, kind, [line] + rest)
  {
    hide LineHops;
    assert line in [line] + rest && forall v :: v in rest ==> v in [line] + rest;
    JoinedHops(g, kind, text, line);
    LinesCons(g, kind, text + "," + line, rest);
    LinesCons(g, kind, line, rest);
  }

  // A configured header that held no address still holds none after text was put in front of it.
  lemma PrependedConfigured(g: AddressGrammar, kind: ChainHeaderKind, headers: HeaderMap, name: HeaderName,
                            values: seq<string>, more: seq<string>)
    requires values == GetAll(headers, name) != [] && Prepended(kind, values, more)
    requires ConfiguredClientIpHeader(g, headers, name).None?
    ensures ConfiguredClientIpHeader(g, headers[name := more], name).None?
  {
    if more[|more| - 1] != values[|values| - 1] {
      var text :| more == [text + "," + values[0]] + values[1..];
      var last := more[|more| - 1];
      assert last == text + "," + values[0];
      assert last[|text|] == ',';
      TrimKeepsInk(last, ',');
      assert ParseIp(g, Trim(last)).None?;
    }
  }

  // A hop picked from the right stays picked whatever is added on the left.
  lemma PickIgnoresLeft(pick: Pick, left: seq<ChainEntry>, hops: seq<ChainEntry>)
    requires pick != ByPosition(Leftmost) && PickIp(pick, hops).Some?
    ensures PickIp(pick, left + hops) == PickIp(pick, hops)
  {
    match pick {
      case ByPosition(selection) =>
        SelectionIgnoresLeft(selection, left, hops);
      case NonTrustedFromRight(config) =>
        ScanIgnoresLeft(config, left, hops);
        if forall hop :: hop in hops ==> TrustedHop(config, hop) {
          AllTrustedNoAnswer(config, hops);
        }
    }
  }

  lemma PrependedChainAnswer(g: AddressGrammar, headers: HeaderMap, order: seq<ChainHeader>, pick: Pick,
                             k: nat, more: seq<string>)
    requires pick != ByPosition(Leftmost) && FirstPresent(headers, order, k)
    requires ChainAnswer(g, headers, order, pick).Some?
    requires Prepended(order[k].kind, GetAll(headers, order[k].name), more)
    ensures ChainAnswer(g, headers[order[k].name := more], order, pick) == ChainAnswer(g, headers, order, pick)
  {
    var header := order[k];
    var values, changed := GetAll(headers, header.name), headers[header.name := more];
    FirstPresentDecides(g, headers, order, pick, k);
    var left := PrependedHops(g, header.kind, values, more);
    FirstPresentDecides(g, changed, order, pick, k);
    PickIgnoresLeft(pick, left, LinesHops(g, header.kind, values));
  }

  // Once the chain gives an answer, nothing prepended to the deciding header changes it, under either trust
  // model that reads chains; only the leftmost selection, which asks for the oldest hop, is not covered.
  lemma PrefixCannotChangeAnswer(g: AddressGrammar, config: ClientIpConfig, headers: HeaderMap, peer: IpAddr,
                                 k: nat, more: seq<string>)
    requires PickOf(config) != ByPosition(Leftmost) && FirstPresent(headers, ChainOrder(config), k)
    requires Resolution(g, config, headers, peer).source.FromChainHeader?
    requires Prepended(ChainOrder(config)[k].kind, GetAll(headers, ChainOrder(config)[k].name), more)
    ensures Resolution(g, config, headers[ChainOrder(config)[k].name := more], peer)
            == Resolution(g, config, headers, peer)
  {
    ResolutionCases(g, config, headers, peer);
    ResolutionCases(g, config, headers[ChainOrder(config)[k].name := more], peer);
    PrependedAnswer(g, headers, CanonicalIp(peer), PeerHeader(config, peer), ChainOrder(config), PickOf(config), k, more);
  }

  lemma ConfiguredStaysUnused(g: AddressGrammar, headers: HeaderMap, name: Option<HeaderName>,
                              header: ChainHeader, more: seq<string>)
    requires ConfiguredAnswer(g, headers, name).None?
    requires GetAll(headers, header.name) != [] && Prepended(header.kind, GetAll(headers, header.name), more)
    ensures ConfiguredAnswer(g, headers[header.name := more], name).None?
  {
    if name == Some(header.name) {
      PrependedConfigured(g, header.kind, headers, header.name, GetAll(headers, header.name), more);
    } else if name.Some? {
      assert GetAll(headers[header.name := more], name.value) == GetAll(headers, name.value);
    }
  }

  lemma PrependedAnswer(g: AddressGrammar, headers: HeaderMap, peer: IpAddr, name: Option<HeaderName>,
                        order: seq<ChainHeader>, pick: Pick, k: nat, more: seq<string>)
    requires pick != ByPosition(Leftmost) && FirstPresent(headers, order, k)
    requires Answer(g, headers, peer, name, order, pick).source.FromChainHeader?
    requires Prepended(order[k].kind, GetAll(headers, order[k].name), more)
    ensures Answer(g, headers[order[k].name := more], peer, name, order, pick)
            == Answer(g, headers, peer, name, order, pick)
  {
    var header := order[k];
    ChainAnswerSource(g, headers, order, pick);
    assert ConfiguredAnswer(g, headers, name).None?;
    ConfiguredStaysUnused(g, headers, name, header, more);
    PrependedChainAnswer(g, headers, order, pick, k, more);
  }

  // Whole lines put in front leave an answer of the chain alone exactly when they are all readable; one unreadable
  // line hides the whole chain, and the socket peer is the answer.
  lemma LinesInFront(g: AddressGrammar, config: ClientIpConfig, headers: HeaderMap, peer: IpAddr,
                     k: nat, lines: seq<string>)
    requires PickOf(config) != ByPosition(Leftmost) && FirstPresent(headers, ChainOrder(config), k)
    requires Resolution(g, config, headers, peer).source.FromChainHeader?
    ensures var name := ChainOrder(config)[k].name;
            Resolution(g, config, headers[name := lines + GetAll(headers, name)], peer) ==
            if AllReadable(lines) then Resolution(g, config, headers, peer) else ClientIp(CanonicalIp(peer), Socket)
  {
    hide Resolution;
    var header := ChainOrder(config)[k];
    var more := lines + GetAll(headers, header.name);
    if AllReadable(lines) {
      assert Prepended(header.kind, GetAll(headers, header.name), more);
      PrefixCannotChangeAnswer(g, config, headers, peer, k, more);
    } else {
      ResolutionCases(g, config, headers, peer);
      ResolutionCases(g, config, headers[header.name := more], peer);
      ChainAnswerSource(g, headers, ChainOrder(config), PickOf(config));
      ConfiguredSeesLast(g, headers, PeerHeader(config, peer), header.name, lines);
      UnreadableHides(g, headers, ChainOrder(config), PickOf(config), k, lines);
    }
  }

  // The configured header is read from its last line alone, which lines in front leave in place.
  lemma ConfiguredSeesLast(g: AddressGrammar, headers: HeaderMap, name: Option<HeaderName>, changed: HeaderName,
                           lines: seq<string>)
    requires GetAll(headers, changed) != []
    ensures ConfiguredAnswer(g, headers[changed := lines + GetAll(headers, changed)], name)
            == ConfiguredAnswer(g, headers, name)
  {
    hide ParseIp, Trim, Readable;
    var values := GetAll(headers, changed);
    var more := lines + values;
    assert more[|more| - 1] == values[|values| - 1];
    if name.Some? && name.value != changed {
      assert GetAll(headers[changed := more], name.value) == GetAll(headers, name.value);
    }
  }

  lemma UnreadableHides(g: AddressGrammar, headers: HeaderMap, order: seq<ChainHeader>, pick: Pick, k: nat,
                        lines: seq<string>)
    requires FirstPresent(headers, order, k) && !AllReadable(lines)
    ensures ChainAnswer(g, headers[order[k].name := lines + GetAll(headers, order[k].name)], order, pick).None?
  {
    var values := GetAll(headers, order[k].name);
    var changed := headers[order[k].name := lines + values];
    assert FirstPresent(changed, order, k);
    FirstPresentDecides(g, changed, order, pick, k);
    var v :| v in lines && !Readable(v);
    assert v in lines + values;
  }

  // ---------- from the supplied rules to the answer ----------

  // A config built from supplied rules resolves every request as a linear scan over those rules would, and so exactly
  // to the result that the supplied rules explain.
  lemma BuiltResolvesAsSupplied(g: AddressGrammar, built: seq<TrustedProxyRule>, supplied: seq<TrustedProxyRule>,
                                order: seq<ChainHeader>, headers: HeaderMap, peer: IpAddr, r: ClientIp)
    requires BuiltFrom(built, supplied)
    ensures var index := ClientIpConfig(TrustedProxies(built, order));
            var naive := ClientIpConfig(TrustedProxies(Rewritten(supplied), order));
            && Resolution(g, index, headers, peer) == Resolution(g, naive, headers, peer)
            && (Resolution(g, index, headers, peer) == r <==> Explains(g, naive, headers, peer, r))
  {
    var index := ClientIpConfig(TrustedProxies(built, order));
    var naive := ClientIpConfig(TrustedProxies(Rewritten(supplied), order));
    ResolutionCases(g, index, headers, peer);
    ResolutionCases(g, naive, headers, peer);
    IndexRefinesScan(built, supplied, peer);
    ResultIsExplained(g, naive, headers, peer, r);
    SameChainAnswer(g, index, naive, supplied, headers, order);
  }

  // For a built config, the header configured for a peer is the one that a matching supplied rule names, and only a
  // peer that no supplied rule matches is not read.
  lemma PeerHeaderIsGranted(built: seq<TrustedProxyRule>, supplied: seq<TrustedProxyRule>, order: seq<ChainHeader>,
                            peer: IpAddr, name: HeaderName)
    requires BuiltFrom(built, supplied)
    ensures var config := ClientIpConfig(TrustedProxies(built, order));
            && (PeerHeader(config, peer) == Some(name) <==> Grants(supplied, TrustedProxyMetadata(Some(name)), peer))
            && (Unread(config, peer) <==> forall r :: r in supplied ==> !Matches(r, peer))
  {
    hide Grants, Matches, Covered, Unread, TrustedProxy;
    var config := ClientIpConfig(TrustedProxies(built, order));
    ValidIsConsistent(config);
    PeerHeaderExact(config, peer, name);
    GrantsIsCoverage(supplied, TrustedProxyMetadata(Some(name)), peer);
    RuleIsGranted(built, supplied, order, peer);
    TrustIsReading(config, peer);
  }

  // A header that a matching supplied rule names is read: whatever values stand before the last one, a plain address
  // of either family there, with blanks around it, is the answer.
  lemma SuppliedHeaderIsRead(g: AddressGrammar, built: seq<TrustedProxyRule>, supplied: seq<TrustedProxyRule>,
                             order: seq<ChainHeader>, headers: HeaderMap, peer: IpAddr, name: HeaderName,
                             before: seq<string>, pre: string, text: string, post: string, ip: IpAddr)
    requires BuiltFrom(built, supplied) && Grants(supplied, TrustedProxyMetadata(Some(name)), peer)
    requires name in headers && headers[name] == before + [pre + text + post]
    requires Blanks(pre) && Blanks(post) && PlainAddress(g, text, ip)
    ensures Resolution(g, ClientIpConfig(TrustedProxies(built, order)), headers, peer)
            == ClientIp(CanonicalIp(ip), FromConfiguredHeader(name))
  {
    var config := ClientIpConfig(TrustedProxies(built, order));
    ValidIsConsistent(config);
    PeerHeaderIsGranted(built, supplied, order, peer, name);
    PeerHeaderCovers(config, peer);
    assert LastNamedBy(g, headers[name], CanonicalIp(ip), before, pre, text, post, ip);
    ResultIsExplained(g, config, headers, peer, ClientIp(CanonicalIp(ip), FromConfiguredHeader(name)));
  }

  // So it is in trust-all mode, for every peer.
  lemma ModeHeaderIsRead(g: AddressGrammar, mode: TrustAllProxyMode, headers: HeaderMap, peer: IpAddr, name: HeaderName,
                         before: seq<string>, pre: string, text: string, post: string, ip: IpAddr)
    requires mode.clientIpHeader == Some(name)
    requires name in headers && headers[name] == before + [pre + text + post]
    requires Blanks(pre) && Blanks(post) && PlainAddress(g, text, ip)
    ensures Resolution(g, ClientIpConfig(TrustAllProxies(mode)), headers, peer)
            == ClientIp(CanonicalIp(ip), FromConfiguredHeader(name))
  {
    var config := ClientIpConfig(TrustAllProxies(mode));
    assert LastNamedBy(g, headers[name], CanonicalIp(ip), before, pre, text, post, ip);
    ResultIsExplained(g, config, headers, peer, ClientIp(CanonicalIp(ip), FromConfiguredHeader(name)));
  }

  // Under the default order a list in `x-forwarded-for` decides alone, and `forwarded` is read only without it.
  lemma DefaultOrderDecides(g: AddressGrammar, headers: HeaderMap, pick: Pick)
    ensures ChainAnswer(g, headers, DEFAULT_CHAIN_HEADER_ORDER, pick) ==
            if GetAll(headers, "x-forwarded-for") != [] then
              HeaderAnswer(g, headers, ChainHeader("x-forwarded-for", XForwardedFor), pick)
            else if GetAll(headers, "forwarded") != [] then
              HeaderAnswer(g, headers, ChainHeader("forwarded", Forwarded), pick)
            else None
  {
    hide HeaderAnswer;
    var rest := [ChainHeader("forwarded", Forwarded)];
    assert DEFAULT_CHAIN_HEADER_ORDER[1..] == rest && rest[1..] == [];
    assert ChainAnswer(g, headers, rest, pick) ==
           if GetAll(headers, "forwarded") == [] then None else HeaderAnswer(g, headers, rest[0], pick);
  }

  lemma {:induction false} SameScan(index: ClientIpConfig, naive: ClientIpConfig, supplied: seq<TrustedProxyRule>,
                                    hops: seq<ChainEntry>)
    requires index.trust.TrustedProxies? && BuiltFrom(index.trust.rules, supplied)
    requires naive.trust.TrustedProxies? && naive.trust.rules == Rewritten(supplied)
    ensures ScanFromRight(index, hops) == ScanFromRight(naive, hops)
  {
    if hops != [] {
      var n := |hops| - 1;
      SameScan(index, naive, supplied, hops[..n]);
      if hops[n].Ip? {
        IndexRefinesScan(index.trust.rules, supplied, hops[n].ip);
      }
    }
  }

  lemma {:induction false} SameChainAnswer(g: AddressGrammar, index: ClientIpConfig, naive: ClientIpConfig,
                                           supplied: seq<TrustedProxyRule>, headers: HeaderMap, order: seq<ChainHeader>)
    requires index.trust.TrustedProxies? && BuiltFrom(index.trust.rules, supplied)
    requires naive.trust.TrustedProxies? && naive.trust.rules == Rewritten(supplied)
    ensures ChainAnswer(g, headers, order, NonTrustedFromRight(index))
            == ChainAnswer(g, headers, order, NonTrustedFromRight(naive))
  {
    if order != [] {
      var hops := Hops(g, order[0].kind, GetAll(headers, order[0].name));
      if hops.Some? {
        SameScan(index, naive, supplied, hops.value);
      }
      SameChainAnswer(g, index, naive, supplied, headers, order[1..]);
    }
  }
}
