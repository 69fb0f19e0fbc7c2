/** Who is found when every proxy appends the hop it received a request from. */
module SenderTheorems {
  import opened Addresses
  import opened Canonical
  import opened Wrappers
  import opened Config
  import opened Text
  import opened Quoted
  import opened Headers
  import opened HeaderTheorems
  import opened NodeTheorems
  import opened ForwardedGrammar
  import opened Resolve
  import opened ResolveTheorems

  // ---------- which hop is picked ----------

  /** With these hops to its right, a hop with this address is the one picked, whatever stands to its left. */
  predicate Reaches(config: ClientIpConfig, sender: IpAddr, right: seq<ChainEntry>) {
    match config.trust
    case NoProxy => false
    case TrustedProxies(_, _) =>
      !TrustedProxy(config, sender) && forall hop :: hop in right ==> TrustedHop(config, hop)
    case TrustAllProxies(mode) =>
      match mode.chainIpSelection
      case Leftmost => false
      case Rightmost => right == []
      case SkipRightmostHops(n) => |right| == n
  }

  lemma ReachedIsPicked(config: ClientIpConfig, left: seq<ChainEntry>, sender: IpAddr, right: seq<ChainEntry>)
    requires Reaches(config, sender, right)
    ensures PickIp(PickOf(config), left + [Ip(sender)] + right) == Some(sender)
  {
    if config.trust.TrustedProxies? {
      ScanIgnoresLeft(config, left + [Ip(sender)], right);
    } else {
      SelectionIsPositional(left, Ip(sender), right);
      assert left + [Ip(sender)] + [] == left + [Ip(sender)];
    }
  }

  // ---------- hops as proxies write them ----------

  /** One hop: an item of a list header, or an element of a `Forwarded` header in any spelling. */
  datatype Written = Item(text: string) | Printed(element: PrintableElement)

  type PrintableElement = element: Element | WellFormedElement(element) witness [Bare([])]

  predicate Writes(g: AddressGrammar, kind: ChainHeaderKind, w: Written, hop: ChainEntry) {
    match w
    case Item(text) =>
      && kind == XForwardedFor && Readable(text) && ',' !in text && Trim(text) != []
      && ChainEntryOf(g, text) == hop
    case Printed(element) =>
      kind == Forwarded && !EmptyElement(element) && ElementMeaning(g, element) == hop
  }

  predicate WritesAll(g: AddressGrammar, kind: ChainHeaderKind, written: seq<Written>, hops: seq<ChainEntry>) {
    |written| == |hops| && forall i :: 0 <= i < |hops| ==> Writes(g, kind, written[i], hops[i])
  }

  function TextOf(w: Written): string {
    match w
    case Item(text) => text
    case Printed(element) => PrintElement(element)
  }

  function Texts(written: seq<Written>): (r: seq<string>)
    ensures |r| == |written| && forall i :: 0 <= i < |r| ==> r[i] == TextOf(written[i])
  {
    seq(|written|, i requires 0 <= i < |written| => TextOf(written[i]))
  }

  lemma WrittenReads(g: AddressGrammar, kind: ChainHeaderKind, w: Written, hop: ChainEntry)
    requires Writes(g, kind, w, hop)
    ensures Readable(TextOf(w)) && Complete(kind, TextOf(w)) && LineHops(g, kind, TextOf(w)) == [hop]
  {
    hide ChainEntryOf, ElementMeaning;
    match w {
      case Item(text) => ItemReads(g, text);
      case Printed(element) => PrintedReads(g, element);
    }
  }

  lemma ItemReads(g: AddressGrammar, text: string)
    requires ',' !in text && Trim(text) != []
    ensures LineHops(g, XForwardedFor, text) == [ChainEntryOf(g, text)]
  {
    hide ParseIpLike, Ink;
    PlainSplitWhole(text, ',');
    TrimAllOne(text);
    EntriesOne(g, XForwardedFor, Trim(text));
    TrimTwice(g, text);
  }

  lemma PrintedReads(g: AddressGrammar, element: Element)
    requires WellFormedElement(element) && !EmptyElement(element)
    ensures var text := PrintElement(element);
            Readable(text) && Complete(Forwarded, text) && LineHops(g, Forwarded, text) == [ElementMeaning(g, element)]
  {
    hide ElementMeaning, PrintElement, LineHops, EmptyElement;
    var line := [element];
    assert line[1..] == [] && PrintElements(line) == [PrintElement(element)];
    LineReads(g, line);
    LineReadable(line);
    ElementClosed(element);
  }

  lemma ElementClosed(element: Element)
    requires WellFormedElement(element)
    ensures Complete(Forwarded, PrintElement(element))
  {
    PairsClosed(element, ',');
    JoinClosed(PrintPieces(element), ';', ',');
  }

  // Hops joined by commas read back one by one.
  lemma {:induction false} WrittenLineReads(g: AddressGrammar, kind: ChainHeaderKind, written: seq<Written>,
                                            hops: seq<ChainEntry>)
    requires written != [] && WritesAll(g, kind, written, hops)
    ensures var line := Join(Texts(written), ','); Readable(line) && LineHops(g, kind, line) == hops
  {
    hide LineHops, Writes, TextOf, Complete;
    assert forall i :: 0 <= i < |written| ==> Writes(g, kind, written[i], hops[i]);
    WrittenReads(g, kind, written[0], hops[0]);
    if |written| == 1 {
      assert hops == [hops[0]];
    } else {
      var first, rest := TextOf(written[0]), Join(Texts(written[1..]), ',');
      WrittenLineReads(g, kind, written[1..], hops[1..]);
      JoinedHops(g, kind, first, rest);
      assert Texts(written)[1..] == Texts(written[1..]);
      assert hops == [hops[0]] + hops[1..];
    }
  }

  function ForPair(value: string, quoted: bool): Piece {
    Pair(ForName(false, false, false), value, quoted, seq(|value|, _ => false), Margins([], [], [], []))
  }

  function NodeElement(g: AddressGrammar, node: Node, ip: IpAddr, quoted: bool): PrintableElement
    requires Names(g, node, ip)
  {
    NodeFits(g, node, ip);
    [ForPair(NodeText(node), quoted)]
  }

  lemma NodeFits(g: AddressGrammar, node: Node, ip: IpAddr)
    requires Names(g, node, ip)
    ensures Token(NodeText(node)) && Readable(NodeText(node)) && ',' !in NodeText(node)
  {
    hide LooksLikeIpv4, LooksLikeIpv6, PortText;
    match node {
      case Plain(text) => PlainIsToken(g, text, ip);
      case Bracketed(text, port) =>
        PlainIsToken(g, text, ip);
        if port.Some? {
          PortIsToken(port.value);
        }
      case HostPort(host, port) =>
        PlainIsToken(g, host, ip);
        PortIsToken(port);
    }
  }

  lemma PlainIsToken(g: AddressGrammar, text: string, ip: IpAddr)
    requires PlainAddress(g, text, ip)
    ensures Token(text)
  {
  }

  lemma PortIsToken(port: NodePort)
    requires IsPort(port)
    ensures Token(PortText(port))
  {
  }

  // Every printed node writes its own address in either kind of header, as a token or as a quoted string.
  lemma NodeIsWritten(g: AddressGrammar, node: Node, ip: IpAddr, quoted: bool)
    requires Names(g, node, ip)
    ensures Writes(g, XForwardedFor, Item(NodeText(node)), Ip(CanonicalIp(ip)))
    ensures Writes(g, Forwarded, Printed(NodeElement(g, node, ip, quoted)), Ip(CanonicalIp(ip)))
  {
    hide ParseIpLike, Names, NodeText;
    var text := NodeText(node);
    NodeFits(g, node, ip);
    assert text == [] + text + [];
    assert NamedBy(g, text, ip, [], node, []);
    HopForms(g, text, CanonicalIp(ip));
    HopHasInk(g, text, CanonicalIp(ip));
  }

  lemma HopHasInk(g: AddressGrammar, text: string, ip: IpAddr)
    requires ChainEntryOf(g, text) == Ip(ip)
    ensures Trim(text) != []
  {
  }

  // ---------- the sender is found ----------

  /** A header line: what the sender wrote itself, if anything, and behind it what proxies appended. */
  function Appended(sent: Option<string>, appended: string): string {
    match sent
    case None => appended
    case Some(text) => text + "," + appended
  }

  lemma AppendedHops(g: AddressGrammar, kind: ChainHeaderKind, sent: Option<string>, appended: string)
    returns (left: seq<ChainEntry>)
    requires sent.Some? ==> Complete(kind, sent.value)
    ensures LineHops(g, kind, Appended(sent, appended)) == left + LineHops(g, kind, appended)
  {
    hide LineHops;
    if sent.Some? {
      JoinedHops(g, kind, sent.value, appended);
      left := LineHops(g, kind, sent.value);
    } else {
      left := [];
    }
  }

  lemma SenderIsPicked(g: AddressGrammar, config: ClientIpConfig, kind: ChainHeaderKind, before: seq<string>,
                       sent: Option<string>, written: seq<Written>, sender: IpAddr, right: seq<ChainEntry>)
    requires Reaches(config, sender, right) && WritesAll(g, kind, written, [Ip(sender)] + right)
    requires sent.Some? ==> Readable(sent.value) && Complete(kind, sent.value)
    ensures var line := Appended(sent, Join(Texts(written), ','));
            && Readable(line)
            && PickIp(PickOf(config), LinesHops(g, kind, before + [line])) == Some(sender)
  {
    hide LineHops, LinesHops, Reaches, PickIp, Complete, Writes, Texts, Join;
    var appended := Join(Texts(written), ',');
    WrittenLineReads(g, kind, written, [Ip(sender)] + right);
    var left := AppendedHops(g, kind, sent, appended);
    LinesSnoc(g, kind, before, Appended(sent, appended));
    var all := LinesHops(g, kind, before) + left;
    assert LinesHops(g, kind, before + [Appended(sent, appended)]) == all + [Ip(sender)] + right;
    ReachedIsPicked(config, all, sender, right);
  }

  // A request whose deciding header ends in the sender's hop and the hops its own proxies appended behind it is
  // answered by the sender's address, whatever the sender sent in front, as long as that closes its quotes.
  lemma SenderIsFound(g: AddressGrammar, config: ClientIpConfig, headers: HeaderMap, peer: IpAddr, k: nat,
                      before: seq<string>, sent: Option<string>, written: seq<Written>,
                      sender: IpAddr, right: seq<ChainEntry>)
    requires !Unread(config, peer) && ConfiguredSilent(g, config, headers, peer)
    requires FirstPresent(headers, ChainOrder(config), k) && Reaches(config, sender, right)
    requires WritesAll(g, ChainOrder(config)[k].kind, written, [Ip(sender)] + right)
    requires AllReadable(before)
    requires sent.Some? ==> Readable(sent.value) && Complete(ChainOrder(config)[k].kind, sent.value)
    requires GetAll(headers, ChainOrder(config)[k].name) == before + [Appended(sent, Join(Texts(written), ','))]
    ensures Resolution(g, config, headers, peer) == ClientIp(sender, FromChainHeader(ChainOrder(config)[k].name))
  {
    hide LinesHops, Reaches, PickIp, Complete, WritesAll, Texts, Join, ConfiguredClientIpHeader;
    var header := ChainOrder(config)[k];
    SenderIsPicked(g, config, header.kind, before, sent, written, sender, right);
    SilentIsNoAnswer(g, config, headers, peer);
    ResolutionCases(g, config, headers, peer);
    FirstPresentDecides(g, headers, ChainOrder(config), PickOf(config), k);
  }
}
