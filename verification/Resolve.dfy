/** Resolving the client IP of a request: the specification functions and the methods that follow them. */
module Resolve {
  import opened Addresses
  import opened Canonical
  import opened Wrappers
  import opened Rules
  import opened Config
  import opened Headers

  datatype ClientIpSource = Socket | FromConfiguredHeader(name: HeaderName) | FromChainHeader(name: HeaderName)

  datatype ClientIp = ClientIp(ip: IpAddr, source: ClientIpSource)

  /** The two ways a hop is chosen from a chain. */
  datatype Pick = NonTrustedFromRight(config: ClientIpConfig) | ByPosition(selection: TrustAllChainIpSelection)

  // ---------- specification ----------

  function ScanFromRight(config: ClientIpConfig, hops: seq<ChainEntry>): Option<IpAddr> {
    if hops == [] then None
    else
      var n := |hops| - 1;
      match hops[n]
      case Opaque => None
      case Ip(ip) => if TrustedProxy(config, ip) then ScanFromRight(config, hops[..n]) else Some(ip)
  }

  function HopIp(hops: seq<ChainEntry>, i: int): Option<IpAddr> {
    if 0 <= i < |hops| && hops[i].Ip? then Some(hops[i].ip) else None
  }

  function SelectByPosition(selection: TrustAllChainIpSelection, hops: seq<ChainEntry>): Option<IpAddr> {
    match selection
    case Leftmost => HopIp(hops, 0)
    case Rightmost => HopIp(hops, |hops| - 1)
    case SkipRightmostHops(n) => HopIp(hops, |hops| - 1 - n)
  }

  function PickIp(pick: Pick, hops: seq<ChainEntry>): Option<IpAddr> {
    match pick
    case NonTrustedFromRight(config) => ScanFromRight(config, hops)
    case ByPosition(selection) => SelectByPosition(selection, hops)
  }

  /** The answer of one chain header, when the request carries it. */
  function HeaderAnswer(g: AddressGrammar, headers: HeaderMap, header: ChainHeader, pick: Pick): Option<ClientIp> {
    match Hops(g, header.kind, GetAll(headers, header.name))
    case None => None
    case Some(hops) =>
      match PickIp(pick, hops)
      case None => None
      case Some(ip) => Some(ClientIp(ip, FromChainHeader(header.name)))
  }

  /** The first chain header the request carries gives the answer, or nothing does. */
  function ChainAnswer(g: AddressGrammar, headers: HeaderMap, order: seq<ChainHeader>, pick: Pick): Option<ClientIp> {
    if order == [] then None
    else if GetAll(headers, order[0].name) == [] then ChainAnswer(g, headers, order[1..], pick)
    else HeaderAnswer(g, headers, order[0], pick)
  }

  function ConfiguredAnswer(g: AddressGrammar, headers: HeaderMap, name: Option<HeaderName>): Option<ClientIp> {
    match name
    case None => None
    case Some(header) =>
      match ConfiguredClientIpHeader(g, headers, header)
      case None => None
      case Some(ip) => Some(ClientIp(ip, FromConfiguredHeader(header)))
  }

  /** The configured header first, then the chain headers, then the socket peer. */
  function Answer(g: AddressGrammar, headers: HeaderMap, peer: IpAddr,
                  name: Option<HeaderName>, order: seq<ChainHeader>, pick: Pick): ClientIp
  {
    match ConfiguredAnswer(g, headers, name)
    case Some(answer) => answer
    case None =>
      match ChainAnswer(g, headers, order, pick)
      case Some(answer) => answer
      case None => ClientIp(peer, Socket)
  }

  function Resolution(g: AddressGrammar, config: ClientIpConfig, headers: HeaderMap, peer: IpAddr): ClientIp {
    var socket := CanonicalIp(peer);
    match config.trust
    case NoProxy => ClientIp(socket, Socket)
    case TrustedProxies(_, order) =>
      (match RuleOf(config, socket)
       case None => ClientIp(socket, Socket)
       case Some(rule) => Answer(g, headers, socket, rule.metadata.clientIpHeader, order, NonTrustedFromRight(config)))
    case TrustAllProxies(mode) =>
      Answer(g, headers, socket, mode.clientIpHeader, mode.chainHeaderOrder, ByPosition(mode.chainIpSelection))
  }

  // ---------- the methods ----------

  /** A double-ended iterator over the hops of one chain header. */
  class HopIterator {
    var hops: seq<ChainEntry>

    constructor (hops: seq<ChainEntry>)
      ensures this.hops == hops
    {
      this.hops := hops;
    }

    method Next() returns (entry: Option<ChainEntry>)
      modifies this
      ensures old(hops) == [] ==> entry.None? && hops == []
      ensures old(hops) != [] ==> entry.Some? && old(hops) == [entry.value] + hops
    {
      if hops == [] {
        return None;
      }
      entry := Some(hops[0]);
      hops := hops[1..];
    }

    method NextBack() returns (entry: Option<ChainEntry>)
      modifies this
      ensures old(hops) == [] ==> entry.None? && hops == []
      ensures old(hops) != [] ==> entry.Some? && old(hops) == hops + [entry.value]
    {
      if hops == [] {
        return None;
      }
      entry := Some(hops[|hops| - 1]);
      hops := hops[..|hops| - 1];
    }

    method NthBack(n: nat) returns (entry: Option<ChainEntry>)
      modifies this
      ensures |old(hops)| <= n ==> entry.None? && hops == []
      ensures n < |old(hops)| ==> entry == Some(old(hops)[|old(hops)| - 1 - n]) && hops == old(hops)[..|old(hops)| - 1 - n]
    {
      for i := 0 to n
        invariant hops == old(hops)[..if i <= |old(hops)| then |old(hops)| - i else 0]
      {
        var skipped := NextBack();
      }
      entry := NextBack();
    }
  }

  method SelectTrustAllChainIp(entries: HopIterator, selection: TrustAllChainIpSelection) returns (r: Option<IpAddr>)
    modifies entries
    ensures r == SelectByPosition(selection, old(entries.hops))
  {
    var entry: Option<ChainEntry>;
    match selection {
      case Leftmost => entry := entries.Next();
      case Rightmost => entry := entries.NextBack();
      case SkipRightmostHops(n) => entry := entries.NthBack(n);
    }
    if entry.None? {
      return None;
    }
    match entry.value {
      case Ip(ip) => return Some(ip);
      case Opaque => return None;
    }
  }

  method FirstNonTrustedFromRight(entries: HopIterator, config: ClientIpConfig) returns (r: Option<IpAddr>)
    requires ValidConfig(config)
    modifies entries
    ensures r == ScanFromRight(config, old(entries.hops))
  {
    while true
      invariant ScanFromRight(config, entries.hops) == ScanFromRight(config, old(entries.hops))
      decreases |entries.hops|
    {
      ghost var before := entries.hops;
      var entry := entries.NextBack();
      if entry.None? {
        return None;
      }
      assert before[..|before| - 1] == entries.hops;
      match entry.value {
        case Opaque => return None;
        case Ip(ip) =>
          var trusted := IsTrustedProxy(config, ip);
          if !trusted {
            return Some(ip);
          }
      }
    }
  }

  method PickFrom(pick: Pick, hops: seq<ChainEntry>) returns (r: Option<IpAddr>)
    requires pick.NonTrustedFromRight? ==> ValidConfig(pick.config)
    ensures r == PickIp(pick, hops)
  {
    var entries := new HopIterator(hops);
    match pick {
      case NonTrustedFromRight(config) => r := FirstNonTrustedFromRight(entries, config);
      case ByPosition(selection) => r := SelectTrustAllChainIp(entries, selection);
    }
  }

  method ClientIpFromChainHeaders(g: AddressGrammar, headers: HeaderMap, order: seq<ChainHeader>, pick: Pick)
    returns (r: Option<ClientIp>)
    requires pick.NonTrustedFromRight? ==> ValidConfig(pick.config)
    ensures r == ChainAnswer(g, headers, order, pick)
  {
    for i := 0 to |order|
      invariant ChainAnswer(g, headers, order, pick) == ChainAnswer(g, headers, order[i..], pick)
    {
      var header := order[i];
      var values := GetAll(headers, header.name);
      assert order[i..][1..] == order[i + 1..];
      if values == [] {
        continue;
      }
      var entries: Option<seq<ChainEntry>>;
      match header.kind {
        case Forwarded => entries := ForwardedEntries(g, values);
        case XForwardedFor => entries := ListHeaderEntries(g, values);
      }
      if entries.None? {
        return None;
      }
      var ip := PickFrom(pick, entries.value);
      if ip.None? {
        return None;
      }
      return Some(ClientIp(ip.value, FromChainHeader(header.name)));
    }
    return None;
  }

  method AnswerFrom(g: AddressGrammar, headers: HeaderMap, socketIp: IpAddr,
                    name: Option<HeaderName>, order: seq<ChainHeader>, pick: Pick) returns (r: ClientIp)
    requires pick.NonTrustedFromRight? ==> ValidConfig(pick.config)
    ensures r == Answer(g, headers, socketIp, name, order, pick)
  {
    if name.Some? {
      var configured := ConfiguredClientIpHeader(g, headers, name.value);
      if configured.Some? {
        return ClientIp(configured.value, FromConfiguredHeader(name.value));
      }
    }
    var chain := ClientIpFromChainHeaders(g, headers, order, pick);
    if chain.Some? {
      return chain.value;
    }
    return ClientIp(socketIp, Socket);
  }

  method ResolveClientIp(g: AddressGrammar, config: ClientIpConfig, headers: HeaderMap, peer: IpAddr) returns (r: ClientIp)
    requires ValidConfig(config)
    ensures r == Resolution(g, config, headers, peer)
  {
    var socketIp := CanonicalIp(peer);
    match config.trust {
      case NoProxy =>
        return ClientIp(socketIp, Socket);
      case TrustedProxies(_, order) =>
        var rule := RuleFor(config, socketIp);
        if rule.None? {
          return ClientIp(socketIp, Socket);
        }
        r := AnswerFrom(g, headers, socketIp, rule.value.metadata.clientIpHeader, order, NonTrustedFromRight(config));
      case TrustAllProxies(mode) =>
        r := AnswerFrom(g, headers, socketIp, mode.clientIpHeader, mode.chainHeaderOrder,
                        ByPosition(mode.chainIpSelection));
    }
  }
}
