/** What text in front of a `Forwarded` line can do, depending on the quote state it ends in and the hops it holds. */
module PrefixTheorems {
  import opened Addresses
  import opened Canonical
  import opened Wrappers
  import opened Rules
  import opened Config
  import opened Text
  import opened Quoted
  import opened Headers
  import opened HeaderTheorems
  import opened NodeTheorems
  import opened ForwardedGrammar
  import opened Resolve
  import opened ResolveTheorems
  import opened SenderTheorems

  // ---------- a hop swallowed by an open quote ----------

  // No address form holds a comma.
  lemma CommaIsOpaque(g: AddressGrammar, raw: string)
    requires ',' in raw
    ensures ChainEntryOf(g, raw) == Opaque
  {
    hide ParseIpLike;
    var ip := ParseIpLike(g, raw);
    if ip.Some? {
      HopBranches(g, raw, ip.value);
      TrimKeepsInk(raw, ',');
      FormsHoldNoComma(g, Trim(raw), ip.value);
    }
  }

  lemma FormsHoldNoComma(g: AddressGrammar, raw: string, ip: IpAddr)
    requires ParseIp(g, raw) == Some(ip) || BracketedForm(g, raw, ip) || PortForm(g, raw, ip)
    ensures ',' !in raw
  {
    if BracketedForm(g, raw, ip) {
      var text, tail :| BracketedParts(g, raw, text, tail, ip);
      if tail != [] {
        PortHoldsNoComma(tail[1..]);
        assert tail == [tail[0]] + tail[1..];
      }
    } else if PortForm(g, raw, ip) {
      var host, port :| PortParts(g, raw, host, port, ip);
      PortHoldsNoComma(port);
    }
  }

  lemma PortHoldsNoComma(port: string)
    requires ValidNodePort(port)
    ensures ',' !in port
  {
    if !Digits(port) {
      assert port == [port[0]] + port[1..];
    }
  }

  function Hop(h: string): string {
    "for=" + h
  }

  lemma HostShape(h: string)
    requires LooksLikeIpv4(h)
    ensures '"' !in Hop(h) && '\\' !in Hop(h) && ',' !in Hop(h) && h != []
    ensures Token(h) && Readable(Hop(h))
  {
  }

  // Trimming takes nothing off a tail that starts and ends with ink.
  lemma {:induction false} TrimKeepsTail(p: string, tail: string) returns (kept: string)
    requires tail != [] && !Blank(tail[0]) && !Blank(tail[|tail| - 1])
    ensures Trim(p + tail) == kept + tail
  {
    if p != [] && Blank(p[0]) {
      kept := TrimKeepsTail(p[1..], tail);
      assert (p + tail)[1..] == p[1..] + tail;
    } else {
      kept := p;
      assert (p + tail)[0] == if p == [] then tail[0] else p[0];
      assert (p + tail)[|p + tail| - 1] == tail[|tail| - 1];
    }
  }

  // A pair that an open quote stretched over the next hop has no address of its own.
  lemma StretchedPairIsOpaque(g: AddressGrammar, p: string, h: string)
    requires LooksLikeIpv4(h)
    ensures PairsEntry(g, [Trim(p + ("," + Hop(h)))]) == Opaque
  {
    hide ChainEntryOf, Trim;
    HostShape(h);
    var tail := "," + Hop(h);
    assert tail[|tail| - 1] == h[|h| - 1];
    assert h[|h| - 1] in h;
    var kept := TrimKeepsTail(p, tail);
    var pair := kept + tail;
    assert [pair][1..] == [];
    var parts := SplitOnce(kept, '=');
    if parts.None? {
      var name := kept + ",for";
      assert pair == name + ['='] + h;
      SplitOnceAt(name, '=', h);
      assert name[|kept|] == ',';
      TrimKeepsInk(name, ',');
      assert !EqIgnoreCase(Trim(name), "for") by { NotFor(Trim(name)); }
    } else {
      var name, value := parts.value.0, parts.value.1 + tail;
      assert pair == name + ['='] + value;
      SplitOnceAt(name, '=', value);
      StretchedValueIsOpaque(g, parts.value.1, tail);
    }
  }

  lemma NotFor(name: string)
    requires ',' in name
    ensures !EqIgnoreCase(name, "for")
  {
    var i :| 0 <= i < |name| && name[i] == ',';
    assert |name| == 3 ==> Lower("for"[i]) != ',';
  }

  lemma StretchedValueIsOpaque(g: AddressGrammar, v: string, tail: string)
    requires |tail| > 1 && tail[0] == ',' && !Blank(tail[|tail| - 1]) && tail[|tail| - 1] != '"'
    ensures ChainEntryOf(g, Unquote(Trim(v + tail))) == Opaque
  {
    hide ChainEntryOf;
    var kept := TrimKeepsTail(v, tail);
    var t := Trim(v + tail);
    assert t == kept + tail && t[|t| - 1] == tail[|tail| - 1] && t[|kept|] == ',';
    assert Trimmed(t);
    assert Trim(t) == t;
    assert Unquote(t) == t;
    CommaIsOpaque(g, t);
  }

  /** Some pair of the list is a `for` pair. */
  predicate NamesFor(pairs: seq<string>) {
    pairs != [] &&
    (NamesFor(pairs[1..]) ||
     match SplitOnce(pairs[0], '=')
     case Some(parts) => EqIgnoreCase(Trim(parts.0), "for")
     case None => false)
  }

  lemma {:induction false} PairsSnoc(g: AddressGrammar, pairs: seq<string>, last: string)
    ensures PairsEntry(g, pairs + [last]) == if NamesFor(pairs) then PairsEntry(g, pairs) else PairsEntry(g, [last])
  {
    hide ChainEntryOf, Unquote, Trim, SplitOnce;
    if pairs == [] {
      assert pairs + [last] == [last];
    } else {
      assert (pairs + [last])[1..] == pairs[1..] + [last];
      PairsSnoc(g, pairs[1..], last);
    }
  }

  // The hop of an element that swallowed the next one does not depend on the address it swallowed.
  lemma SwallowedHop(g: AddressGrammar, item: string, h: string)
    requires Run(Outside, item) != Outside && LooksLikeIpv4(h)
    ensures var pairs := Split(Outside, item, ';');
            var kept := TrimAll(pairs[..|pairs| - 1]);
            ElementEntry(g, Trim(item + ("," + Hop(h)))) == if NamesFor(kept) then PairsEntry(g, kept) else Opaque
  {
    hide PairsEntry, Trim, NamesFor, Split;
    var x := item + ("," + Hop(h));
    var pairs := Split(Outside, item, ';');
    var n := |pairs| - 1;
    HostShape(h);
    TrimThenSplit(x, ';');
    OpenQuoteGrows(item, ';', Hop(h));
    TrimAllConcat(pairs[..n], [pairs[n] + ("," + Hop(h))]);
    TrimAllOne(pairs[n] + ("," + Hop(h)));
    PairsSnoc(g, TrimAll(pairs[..n]), Trim(pairs[n] + ("," + Hop(h))));
    StretchedPairIsOpaque(g, pairs[n], h);
  }

  lemma SwallowedLine(g: AddressGrammar, text: string, h: string, k: string)
    requires Run(Outside, text) != Outside && LooksLikeIpv4(h) && LooksLikeIpv4(k)
    ensures LineHops(g, Forwarded, text + "," + Hop(h)) == LineHops(g, Forwarded, text + "," + Hop(k))
  {
    hide ElementEntry, Trim, Split, PlainSplit, Ink;
    SwallowedEntries(g, text, h);
    SwallowedEntries(g, text, k);
    var items := Split(Outside, text, ',');
    OpenQuoteGrows(text, ',', "");
    SwallowedHop(g, items[|items| - 1], h);
    SwallowedHop(g, items[|items| - 1], k);
  }

  lemma SwallowedEntries(g: AddressGrammar, text: string, h: string)
    requires Run(Outside, text) != Outside && LooksLikeIpv4(h)
    ensures var items := Split(Outside, text, ',');
            var n := |items| - 1;
            LineHops(g, Forwarded, text + "," + Hop(h))
            == Entries(g, Forwarded, TrimAll(items[..n])) + [ElementEntry(g, Trim(items[n] + ("," + Hop(h))))]
  {
    hide ElementEntry, Trim, Split, PlainSplit, Ink;
    var items := Split(Outside, text, ',');
    var n := |items| - 1;
    var last := items[n] + ("," + Hop(h));
    HostShape(h);
    assert text + "," + Hop(h) == text + ("," + Hop(h));
    OpenQuoteGrows(text, ',', Hop(h));
    assert last[|items[n]|] == ',';
    TrimKeepsInk(last, ',');
    TrimAllConcat(items[..n], [last]);
    TrimAllOne(last);
    EntriesConcat(g, Forwarded, TrimAll(items[..n]), [Trim(last)]);
    EntriesOne(g, Forwarded, Trim(last));
  }

  // ---------- requests of one hop ----------

  lemma HopPairPrints(h: string)
    requires LooksLikeIpv4(h)
    ensures var p := ForPair(h, false);
            WellFormed(p) && PrintValue(p) == h && Print(p) == Hop(h)
  {
    hide LooksLikeIpv4, PrintValue;
    HostShape(h);
    var p := ForPair(h, false);
    assert PrintValue(p) == h by { HostValuePrints(h); }
    assert NameText(p.name) == "for";
    assert ([] + "for" + []) + "=" + ([] + h + []) == Hop(h);
  }

  lemma HostValuePrints(h: string)
    requires WellFormed(ForPair(h, false))
    ensures PrintValue(ForPair(h, false)) == h
  {
  }

  lemma OneHopLine(g: AddressGrammar, h: string)
    requires LooksLikeIpv4(h)
    ensures LineHops(g, Forwarded, Hop(h)) == [ChainEntryOf(g, h)]
  {
    hide ChainEntryOf, LineHops;
    HopPairPrints(h);
    var element := [ForPair(h, false)];
    assert PrintPieces(element) == [Hop(h)];
    PrintedReads(g, element);
    assert ElementMeaning(g, element) == ChainEntryOf(g, h);
  }

  lemma HostEntry(g: AddressGrammar, h: string, a: IpAddr)
    requires ParseIpv4(g, h) == Some(a)
    ensures LooksLikeIpv4(h) && ChainEntryOf(g, h) == Ip(a) && CanonicalIp(a) == a
  {
    Ipv4TextShape(h);
    NotHidden(h);
    assert Trim(h) == h;
  }

  /** Only one header. */
  function Request(name: HeaderName, lines: seq<string>): HeaderMap {
    map[name := lines]
  }

  /** As many more lines of one hop as the selection skips. */
  function Behind(config: ClientIpConfig, h: string): (lines: seq<string>)
    ensures forall i :: 0 <= i < |lines| ==> lines[i] == Hop(h)
  {
    match config.trust
    case TrustAllProxies(mode) =>
      (match mode.chainIpSelection
       case SkipRightmostHops(n) => seq(n, _ => Hop(h))
       case _ => [])
    case _ => []
  }

  lemma {:induction false} OneHopEach(g: AddressGrammar, lines: seq<string>, h: string)
    requires LooksLikeIpv4(h) && forall i :: 0 <= i < |lines| ==> lines[i] == Hop(h)
    ensures |LinesHops(g, Forwarded, lines)| == |lines| && AllReadable(lines)
  {
    hide LineHops;
    HostShape(h);
    if lines == [] {
      assert EachLine(g, Forwarded, lines) == [];
    } else {
      assert lines == [lines[0]] + lines[1..];
      OneHopEach(g, lines[1..], h);
      OneHopLine(g, h);
      LinesCons(g, Forwarded, lines[0], lines[1..]);
    }
  }

  // The hops of those lines leave the hop in front of them as the one picked.
  lemma BehindReaches(g: AddressGrammar, config: ClientIpConfig, a: IpAddr, h: string)
    requires PickOf(config) != ByPosition(Leftmost) && !config.trust.NoProxy?
    requires config.trust.TrustedProxies? ==> !TrustedProxy(config, a)
    requires LooksLikeIpv4(h)
    ensures Reaches(config, a, LinesHops(g, Forwarded, Behind(config, h))) && AllReadable(Behind(config, h))
  {
    hide LinesHops;
    OneHopEach(g, Behind(config, h), h);
    if Behind(config, h) == [] {
      assert LinesHops(g, Forwarded, Behind(config, h)) == [];
    }
  }

  /** Position `k` is the first one in the order with its name. */
  predicate FirstNamed(order: seq<ChainHeader>, k: nat) {
    k < |order| && forall i :: 0 <= i < k ==> order[i].name != order[k].name
  }

  // A line with an equals sign is never a plain address, so such a request is answered by its chain alone.
  lemma RequestAnswer(g: AddressGrammar, config: ClientIpConfig, peer: IpAddr, k: nat, lines: seq<string>)
    requires !Unread(config, peer) && FirstNamed(ChainOrder(config), k)
    requires lines != [] && AllReadable(lines) && '=' in lines[|lines| - 1]
    ensures var header := ChainOrder(config)[k];
            FirstPresent(Request(header.name, lines), ChainOrder(config), k) &&
            Resolution(g, config, Request(header.name, lines), peer) ==
            match PickIp(PickOf(config), LinesHops(g, header.kind, lines))
            case Some(ip) => ClientIp(ip, FromChainHeader(header.name))
            case None => ClientIp(CanonicalIp(peer), Socket)
  {
    hide LinesHops, ParseIp, PickIp;
    var order := ChainOrder(config);
    var header := order[k];
    var headers := Request(header.name, lines);
    assert GetAll(headers, header.name) == lines;
    ResolutionCases(g, config, headers, peer);
    FirstPresentDecides(g, headers, order, PickOf(config), k);
    NoPlainAddress(g, headers, PeerHeader(config, peer), header.name, lines);
  }

  lemma NoPlainAddress(g: AddressGrammar, headers: HeaderMap, name: Option<HeaderName>, present: HeaderName,
                       lines: seq<string>)
    requires headers == Request(present, lines) && lines != [] && '=' in lines[|lines| - 1]
    ensures ConfiguredAnswer(g, headers, name).None?
  {
    var last := lines[|lines| - 1];
    TrimKeepsInk(last, '=');
    assert ParseIp(g, Trim(last)).None?;
  }

  // ---------- harmless text ----------

  /** Putting `text` and a comma in front of the deciding header never changes an answer the chain gives. */
  ghost predicate Harmless(g: AddressGrammar, config: ClientIpConfig, peer: IpAddr, k: nat, text: string)
    requires k < |ChainOrder(config)|
  {
    forall headers :: HarmlessFor(g, config, peer, k, text, headers)
  }

  ghost predicate HarmlessFor(g: AddressGrammar, config: ClientIpConfig, peer: IpAddr, k: nat, text: string,
                              headers: HeaderMap)
    requires k < |ChainOrder(config)|
  {
    var name := ChainOrder(config)[k].name;
    FirstPresent(headers, ChainOrder(config), k) && Resolution(g, config, headers, peer).source.FromChainHeader? ==>
      var values := GetAll(headers, name);
      Resolution(g, config, headers[name := [text + "," + values[0]] + values[1..]], peer)
      == Resolution(g, config, headers, peer)
  }

  // For a `Forwarded` header, under every selection but the leftmost, readable text is harmless for every request
  // exactly when it closes its quotes, as soon as two different addresses that can be picked can be written.
  lemma HarmlessIffComplete(g: AddressGrammar, config: ClientIpConfig, peer: IpAddr, k: nat, text: string,
                            h: string, a: IpAddr, i: string, b: IpAddr)
    requires PickOf(config) != ByPosition(Leftmost) && !Unread(config, peer) && FirstNamed(ChainOrder(config), k)
    requires ChainOrder(config)[k].kind == Forwarded && Readable(text)
    requires ParseIpv4(g, h) == Some(a) && ParseIpv4(g, i) == Some(b) && a != b
    requires config.trust.TrustedProxies? ==> !TrustedProxy(config, a) && !TrustedProxy(config, b)
    ensures Harmless(g, config, peer, k, text) <==> Complete(Forwarded, text)
  {
    if Complete(Forwarded, text) {
      forall headers
        ensures HarmlessFor(g, config, peer, k, text, headers)
      {
        CompleteIsHarmless(g, config, peer, k, text, headers);
      }
    } else {
      HostEntry(g, h, a);
      HostEntry(g, i, b);
      SwallowedLine(g, text, h, i);
      var name, rest := ChainOrder(config)[k].name, Behind(config, h);
      if HarmlessFor(g, config, peer, k, text, Request(name, [Hop(h)] + rest)) {
        if HarmlessFor(g, config, peer, k, text, Request(name, [Hop(i)] + rest)) {
          OneHopAnswers(g, config, peer, k, text, h, a, h);
          OneHopAnswers(g, config, peer, k, text, i, b, h);
        }
      }
    }
  }

  lemma CompleteIsHarmless(g: AddressGrammar, config: ClientIpConfig, peer: IpAddr, k: nat, text: string,
                           headers: HeaderMap)
    requires PickOf(config) != ByPosition(Leftmost) && k < |ChainOrder(config)|
    requires Readable(text) && Complete(ChainOrder(config)[k].kind, text)
    ensures HarmlessFor(g, config, peer, k, text, headers)
  {
    hide Resolution;
    var header := ChainOrder(config)[k];
    var values := GetAll(headers, header.name);
    if FirstPresent(headers, ChainOrder(config), k) && Resolution(g, config, headers, peer).source.FromChainHeader? {
      assert Prepended(header.kind, values, [text + "," + values[0]] + values[1..]);
      PrefixCannotChangeAnswer(g, config, headers, peer, k, [text + "," + values[0]] + values[1..]);
    }
  }

  // The answer to a request that starts with one hop, before and after harmless text was put in front of it.
  lemma OneHopAnswers(g: AddressGrammar, config: ClientIpConfig, peer: IpAddr, k: nat, text: string,
                      h: string, a: IpAddr, behind: string)
    requires PickOf(config) != ByPosition(Leftmost) && !Unread(config, peer) && FirstNamed(ChainOrder(config), k)
    requires ChainOrder(config)[k].kind == Forwarded && Readable(text) && LooksLikeIpv4(behind)
    requires ParseIpv4(g, h) == Some(a) && (config.trust.TrustedProxies? ==> !TrustedProxy(config, a))
    requires HarmlessFor(g, config, peer, k, text, Request(ChainOrder(config)[k].name, [Hop(h)] + Behind(config, behind)))
    ensures PickIp(PickOf(config), LineHops(g, Forwarded, text + "," + Hop(h))
                                   + LinesHops(g, Forwarded, Behind(config, behind))) == Some(a)
  {
    hide LineHops, LinesHops, ParseIpv4, ChainEntryOf, PickIp, Behind, Resolution;
    var name, rest := ChainOrder(config)[k].name, Behind(config, behind);
    var line, changed := [Hop(h)] + rest, [text + "," + Hop(h)] + rest;
    HostEntry(g, h, a);
    OneHopAnswer(g, config, peer, k, h, a, behind);
    HostShape(h);
    LinesFit(config, text + "," + Hop(h), behind);
    RequestAnswer(g, config, peer, k, changed);
    LinesCons(g, Forwarded, text + "," + Hop(h), rest);
    assert GetAll(Request(name, line), name) == line && line[1..] == rest;
    assert Request(name, line)[name := changed] == Request(name, changed);
  }

  lemma LinesFit(config: ClientIpConfig, first: string, behind: string)
    requires Readable(first) && '=' in first && LooksLikeIpv4(behind)
    ensures var lines := [first] + Behind(config, behind);
            AllReadable(lines) && '=' in lines[|lines| - 1]
  {
    hide LooksLikeIpv4;
    HostShape(behind);
  }

  lemma OneHopAnswer(g: AddressGrammar, config: ClientIpConfig, peer: IpAddr, k: nat, h: string,
                     a: IpAddr, behind: string)
    requires PickOf(config) != ByPosition(Leftmost) && !Unread(config, peer) && FirstNamed(ChainOrder(config), k)
    requires ChainOrder(config)[k].kind == Forwarded && LooksLikeIpv4(behind)
    requires ParseIpv4(g, h) == Some(a) && (config.trust.TrustedProxies? ==> !TrustedProxy(config, a))
    ensures var header, lines := ChainOrder(config)[k], [Hop(h)] + Behind(config, behind);
            && FirstPresent(Request(header.name, lines), ChainOrder(config), k)
            && Resolution(g, config, Request(header.name, lines), peer) == ClientIp(a, FromChainHeader(header.name))
  {
    hide LineHops, LinesHops, ParseIpv4, ChainEntryOf, PickIp, Behind, Resolution, Reaches;
    var rest := Behind(config, behind);
    HostEntry(g, h, a);
    HostShape(h);
    LinesFit(config, Hop(h), behind);
    OneHopLine(g, h);
    LinesCons(g, Forwarded, Hop(h), rest);
    BehindReaches(g, config, a, behind);
    ReachedIsPicked(config, [], a, LinesHops(g, Forwarded, rest));
    assert [] + [Ip(a)] + LinesHops(g, Forwarded, rest) == [Ip(a)] + LinesHops(g, Forwarded, rest);
    RequestAnswer(g, config, peer, k, [Hop(h)] + rest);
  }

  // Under the leftmost selection, which asks for the oldest hop, text is harmless exactly when it closes its quotes and
  // adds no hop at all.
  lemma HarmlessLeftmostIff(g: AddressGrammar, config: ClientIpConfig, peer: IpAddr, k: nat, text: string,
                            h: string, a: IpAddr, i: string, b: IpAddr)
    requires PickOf(config) == ByPosition(Leftmost) && FirstNamed(ChainOrder(config), k)
    requires ChainOrder(config)[k].kind == Forwarded && Readable(text)
    requires ParseIpv4(g, h) == Some(a) && ParseIpv4(g, i) == Some(b) && a != b
    ensures Harmless(g, config, peer, k, text) <==> Complete(Forwarded, text) && LineHops(g, Forwarded, text) == []
  {
    hide LineHops, HarmlessFor;
    if Complete(Forwarded, text) && LineHops(g, Forwarded, text) == [] {
      forall headers
        ensures HarmlessFor(g, config, peer, k, text, headers)
      {
        HoplessIsHarmless(g, config, peer, k, text, headers);
      }
    } else {
      HostEntry(g, h, a);
      HostEntry(g, i, b);
      SameFirstHop(g, text, h, i);
      var name := ChainOrder(config)[k].name;
      if HarmlessFor(g, config, peer, k, text, Request(name, [Hop(h)])) {
        if HarmlessFor(g, config, peer, k, text, Request(name, [Hop(i)])) {
          LeftmostAnswers(g, config, peer, k, text, h, a);
          LeftmostAnswers(g, config, peer, k, text, i, b);
        }
      }
    }
  }

  // The first hop is one of the text's own, or one that swallowed the next: never the one behind the text.
  lemma SameFirstHop(g: AddressGrammar, text: string, h: string, i: string)
    requires LooksLikeIpv4(h) && LooksLikeIpv4(i)
    requires !Complete(Forwarded, text) || LineHops(g, Forwarded, text) != []
    ensures HopIp(LineHops(g, Forwarded, text + "," + Hop(h)), 0) == HopIp(LineHops(g, Forwarded, text + "," + Hop(i)), 0)
  {
    hide LineHops;
    if Complete(Forwarded, text) {
      JoinedHops(g, Forwarded, text, Hop(h));
      JoinedHops(g, Forwarded, text, Hop(i));
    } else {
      SwallowedLine(g, text, h, i);
    }
  }

  lemma LeftmostAnswers(g: AddressGrammar, config: ClientIpConfig, peer: IpAddr, k: nat, text: string,
                        h: string, a: IpAddr)
    requires PickOf(config) == ByPosition(Leftmost) && FirstNamed(ChainOrder(config), k)
    requires ChainOrder(config)[k].kind == Forwarded && Readable(text) && ParseIpv4(g, h) == Some(a)
    requires HarmlessFor(g, config, peer, k, text, Request(ChainOrder(config)[k].name, [Hop(h)]))
    ensures HopIp(LineHops(g, Forwarded, text + "," + Hop(h)), 0) == Some(a)
  {
    hide LineHops, LinesHops, ParseIpv4, ChainEntryOf, Resolution;
    var name, line := ChainOrder(config)[k].name, text + "," + Hop(h);
    HostEntry(g, h, a);
    HostShape(h);
    OneHopLine(g, h);
    RequestAnswer(g, config, peer, k, [Hop(h)]);
    RequestAnswer(g, config, peer, k, [line]);
    LinesOne(g, Forwarded, Hop(h));
    LinesOne(g, Forwarded, line);
    assert GetAll(Request(name, [Hop(h)]), name) == [Hop(h)] && [line] + [Hop(h)][1..] == [line];
    assert Request(name, [Hop(h)])[name := [line]] == Request(name, [line]);
  }

  // Text that adds no hop is harmless under every selection.
  lemma HoplessIsHarmless(g: AddressGrammar, config: ClientIpConfig, peer: IpAddr, k: nat, text: string,
                          headers: HeaderMap)
    requires k < |ChainOrder(config)| && Readable(text) && Complete(ChainOrder(config)[k].kind, text)
    requires LineHops(g, ChainOrder(config)[k].kind, text) == []
    ensures HarmlessFor(g, config, peer, k, text, headers)
  {
    hide Resolution, LineHops, LinesHops, Complete, Answer;
    var order, header := ChainOrder(config), ChainOrder(config)[k];
    if FirstPresent(headers, order, k) && Resolution(g, config, headers, peer).source.FromChainHeader? {
      var values := GetAll(headers, header.name);
      var more := [text + "," + values[0]] + values[1..];
      ResolutionCases(g, config, headers, peer);
      ResolutionCases(g, config, headers[header.name := more], peer);
      HoplessAnswer(g, headers, CanonicalIp(peer), PeerHeader(config, peer), order, PickOf(config), k, text);
    }
  }

  lemma HoplessAnswer(g: AddressGrammar, headers: HeaderMap, peer: IpAddr, name: Option<HeaderName>,
                      order: seq<ChainHeader>, pick: Pick, k: nat, text: string)
    requires FirstPresent(headers, order, k) && Answer(g, headers, peer, name, order, pick).source.FromChainHeader?
    requires Readable(text) && Complete(order[k].kind, text) && LineHops(g, order[k].kind, text) == []
    ensures var values := GetAll(headers, order[k].name);
            Answer(g, headers[order[k].name := [text + "," + values[0]] + values[1..]], peer, name, order, pick)
            == Answer(g, headers, peer, name, order, pick)
  {
    hide LineHops, LinesHops, Complete, PickIp, ConfiguredClientIpHeader;
    var values := GetAll(headers, order[k].name);
    var more := [text + "," + values[0]] + values[1..];
    assert Prepended(order[k].kind, values, more);
    ChainAnswerSource(g, headers, order, pick);
    assert ConfiguredAnswer(g, headers, name).None?;
    ConfiguredStaysUnused(g, headers, name, order[k], more);
    FirstPresentDecides(g, headers, order, pick, k);
    FirstPresentDecides(g, headers[order[k].name := more], order, pick, k);
    assert values == [values[0]] + values[1..];
    PrependedText(g, order[k].kind, text, values[0], values[1..]);
    assert LinesHops(g, order[k].kind, more) == LinesHops(g, order[k].kind, values);
  }

  // What an open quote can do: the sender's own hop swallows the one its proxy wrote, and becomes the answer.
  lemma OpenQuoteTakesOver(g: AddressGrammar, config: ClientIpConfig, peer: IpAddr, k: nat,
                           sender: string, a: IpAddr, h: string)
    requires PickOf(config) != ByPosition(Leftmost) && !Unread(config, peer) && FirstNamed(ChainOrder(config), k)
    requires ChainOrder(config)[k].kind == Forwarded && LooksLikeIpv4(h)
    requires ParseIpv4(g, sender) == Some(a) && (config.trust.TrustedProxies? ==> !TrustedProxy(config, a))
    ensures var name := ChainOrder(config)[k].name;
            var lines := [Hop(sender) + ";x=\"" + "," + Hop(h)] + Behind(config, h);
            Resolution(g, config, Request(name, lines), peer) == ClientIp(a, FromChainHeader(name))
  {
    hide LineHops, LinesHops, ParseIpv4, ChainEntryOf, PickIp, Behind, Resolution, Reaches;
    var text, rest := Hop(sender) + ";x=\"", Behind(config, h);
    HostEntry(g, sender, a);
    HostShape(sender);
    assert Readable(";x=\"");
    HostShape(h);
    LinesFit(config, text + "," + Hop(h), h);
    TakenOverLine(g, sender, h);
    LinesCons(g, Forwarded, text + "," + Hop(h), rest);
    BehindReaches(g, config, a, h);
    ReachedIsPicked(config, [], a, LinesHops(g, Forwarded, rest));
    assert [] + [Ip(a)] + LinesHops(g, Forwarded, rest) == [Ip(a)] + LinesHops(g, Forwarded, rest);
    RequestAnswer(g, config, peer, k, [text + "," + Hop(h)] + rest);
  }

  lemma TakenOverLine(g: AddressGrammar, sender: string, h: string)
    requires LooksLikeIpv4(sender) && LooksLikeIpv4(h)
    ensures LineHops(g, Forwarded, Hop(sender) + ";x=\"" + "," + Hop(h)) == [ChainEntryOf(g, sender)]
  {
    hide ChainEntryOf, Trim, Unquote, Ink, PlainSplit;
    var text := Hop(sender) + ";x=\"";
    HostShape(sender);
    HostShape(h);
    var plain := Hop(sender) + ";x=";
    PlainClosed(plain, ',');
    assert text == plain + "\"" && "\""[1..] == [];
    RunConcat(Outside, plain, "\"");
    UncutConcat(Outside, plain, "\"", ',');
    UncutIsWhole(Outside, text, ',');
    SwallowedEntries(g, text, h);
    SwallowedHop(g, text, h);
    KeptPair(g, sender);
  }

  // The pairs in front of the stretched one: the sender's `for` pair alone.
  lemma KeptPair(g: AddressGrammar, sender: string)
    requires LooksLikeIpv4(sender)
    ensures var pairs := Split(Outside, Hop(sender) + ";x=\"", ';');
            var kept := TrimAll(pairs[..|pairs| - 1]);
            NamesFor(kept) && PairsEntry(g, kept) == ChainEntryOf(g, sender)
  {
    hide ChainEntryOf, Split, Trim, Unquote, SplitOnce;
    TwoPairs(sender);
    HopPairPrints(sender);
    var name, value := PairReads(ForPair(sender, false));
    var pairs := Split(Outside, Hop(sender) + ";x=\"", ';');
    assert pairs[..|pairs| - 1] == [Hop(sender)];
    TrimAllOne(Hop(sender));
    assert [Hop(sender)][1..] == [];
    assert EqIgnoreCase("for", "for");
  }

  lemma TwoPairs(sender: string)
    requires LooksLikeIpv4(sender)
    ensures Split(Outside, Hop(sender) + ";x=\"", ';') == [Hop(sender), "x=\""]
  {
    var open := "x=\"";
    HostShape(sender);
    PlainClosed(Hop(sender), ';');
    UncutIsWhole(Outside, Hop(sender), ';');
    assert Hop(sender) + ";x=\"" == Hop(sender) + [';'] + open;
    SplitJoined(Outside, Hop(sender), open, ';');
    assert open[1..] == "=\"" && "=\""[1..] == "\"" && "\""[1..] == [];
    UncutIsWhole(Outside, open, ';');
  }
}
