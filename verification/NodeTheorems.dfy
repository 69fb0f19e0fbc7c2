/** What the text of one hop may be: node identifiers as section 6 of RFC 7239 prints them. */
module NodeTheorems {
  import opened Addresses
  import opened Canonical
  import opened Wrappers
  import opened Rules
  import opened Text
  import opened Headers

  // ---------- printed nodes ----------

  /** A node port: a number of any length, or a name hidden behind an underscore. */
  datatype NodePort = Number(digits: string) | Hidden(name: string)

  predicate IsPort(p: NodePort) {
    match p
    case Number(digits) => digits != [] && forall c :: c in digits ==> '0' <= c <= '9'
    case Hidden(name) =>
      name != [] && forall c :: c in name ==> || 'a' <= c <= 'z' || 'A' <= c <= 'Z' || '0' <= c <= '9'
                                              || c == '.' || c == '_' || c == '-'
  }

  function PortText(p: NodePort): string {
    match p
    case Number(digits) => digits
    case Hidden(name) => "_" + name
  }

  /** A text of one of the two address grammars, with its value. */
  predicate PlainAddress(g: AddressGrammar, text: string, ip: IpAddr) {
    if ip.family.V4? then LooksLikeIpv4(text) && g.v4(text).Some? && g.v4(text).value == ip.value
    else LooksLikeIpv6(text) && g.v6(text).Some? && g.v6(text).value == ip.value
  }

  /** A plain address, a bracketed one, bare or with a port, or an IPv4 host with a port. */
  datatype Node =
    | Plain(text: string)
    | Bracketed(text: string, maybePort: Option<NodePort>)
    | HostPort(host: string, port: NodePort)

  predicate Names(g: AddressGrammar, n: Node, ip: IpAddr) {
    match n
    case Plain(text) => PlainAddress(g, text, ip)
    case Bracketed(text, port) => PlainAddress(g, text, ip) && (port.Some? ==> IsPort(port.value))
    case HostPort(host, port) => ip.family.V4? && PlainAddress(g, host, ip) && IsPort(port)
  }

  function NodeText(n: Node): string {
    match n
    case Plain(text) => text
    case Bracketed(text, None) => "[" + text + "]"
    case Bracketed(text, Some(port)) => "[" + text + "]:" + PortText(port)
    case HostPort(host, port) => host + ":" + PortText(port)
  }

  lemma PlainParses(g: AddressGrammar, text: string, ip: IpAddr)
    ensures ParseIp(g, text) == Some(ip) <==> PlainAddress(g, text, ip)
    ensures ParseIpv4(g, text) == Some(ip) <==> ip.family.V4? && PlainAddress(g, text, ip)
  {
  }

  lemma PortTexts(text: string)
    ensures ValidNodePort(text) <==> exists p :: IsPort(p) && PortText(p) == text
  {
    if ValidNodePort(text) {
      if Digits(text) {
        assert IsPort(Number(text)) && PortText(Number(text)) == text;
      } else {
        assert text == "_" + text[1..];
        assert IsPort(Hidden(text[1..])) && PortText(Hidden(text[1..])) == text;
      }
    }
    forall p | IsPort(p) && PortText(p) == text
      ensures ValidNodePort(text)
    {
      if p.Hidden? {
        assert text[0] == '_' && text[1..] == p.name;
      }
    }
  }

  // ---------- reading hosts, ports and brackets ----------

  lemma Ipv4TextShape(host: string)
    requires LooksLikeIpv4(host)
    ensures host != [] && host[0] != '_' && host[0] != '[' && Lower(host[0]) != 'u'
    ensures ':' !in host && Trimmed(host)
  {
    assert host[0] in host && host[|host| - 1] in host;
  }

  lemma NotHidden(raw: string)
    requires raw != [] && raw[0] != '_' && Lower(raw[0]) != 'u'
    ensures !HiddenNode(raw)
  {
    assert "unknown"[0] == 'u';
  }

  lemma PortShape(port: string)
    requires ValidNodePort(port)
    ensures port != [] && ':' !in port && ']' !in port && !Blank(port[|port| - 1])
  {
    assert port[|port| - 1] in port;
    if !Digits(port) {
      assert port == [port[0]] + port[1..];
      assert port[|port| - 1] in port[1..];
    }
  }

  // A host text followed by a colon and anything is no address text of either family.
  lemma HostPortIsNoAddress(g: AddressGrammar, host: string, port: string)
    requires LooksLikeIpv4(host)
    ensures ParseIp(g, host + ":" + port).None?
  {
    var raw := host + ":" + port;
    assert raw[|host|] == ':' && ':' in raw;
    var i :| 0 <= i < |host| && host[i] == '.';
    assert raw[i] == '.';
  }

  lemma HostWithValidPort(g: AddressGrammar, host: string, port: string)
    requires ParseIpv4(g, host).Some? && ValidNodePort(port)
    ensures ParseIpLike(g, host + ":" + port) == ParseIpLike(g, host) == ParseIpv4(g, host)
  {
    var raw := host + ":" + port;
    Ipv4TextShape(host);
    PortShape(port);
    NotHidden(host);
    assert raw[0] == host[0] && raw[|raw| - 1] == port[|port| - 1];
    NotHidden(raw);
    HostPortIsNoAddress(g, host, port);
    HostAndPortSplit(g, host, port);
  }

  lemma HostAndPortSplit(g: AddressGrammar, host: string, port: string)
    requires ParseIpv4(g, host).Some? && ValidNodePort(port)
    ensures HostWithPort(g, host + ":" + port) == ParseIpv4(g, host)
    ensures ParseSocketAddr(g, host + ":" + port).Some? ==> ParseSocketAddr(g, host + ":" + port) == ParseIpv4(g, host)
  {
    Ipv4TextShape(host);
    PortShape(port);
    SplitOnceAt(host, ':', port);
    RSplitOnceAt(host, ':', port);
  }

  // The socket-address branch, with its 65535 limit, never changes the answer.
  lemma SocketBranchIsRedundant(g: AddressGrammar, raw: string)
    ensures (if ParseSocketAddr(g, raw).Some? then ParseSocketAddr(g, raw) else HostWithPort(g, raw))
            == HostWithPort(g, raw)
  {
    if ParseSocketAddr(g, raw).Some? {
      var parts := SplitOnce(raw, ':').value;
      PortShape(parts.1);
      RSplitOnceAt(parts.0, ':', parts.1);
      assert raw == parts.0 + [':'] + parts.1;
    }
  }

  lemma BracketIsNoAddress(g: AddressGrammar, raw: string)
    requires '[' in raw
    ensures ParseIp(g, raw).None?
  {
  }

  lemma BracketBranch(g: AddressGrammar, rest: string)
    requires rest != [] && !Blank(rest[|rest| - 1])
    ensures ParseIpLike(g, "[" + rest) == BracketedIp(g, rest)
  {
    var raw := "[" + rest;
    assert raw[0] == '[' && raw[|raw| - 1] == rest[|rest| - 1] && raw[1..] == rest;
    NotHidden(raw);
    BracketIsNoAddress(g, raw);
    assert Trim(raw) == raw;
  }

  lemma BracketRead(g: AddressGrammar, text: string, tail: string)
    requires ']' !in text && (tail != [] ==> !Blank(tail[|tail| - 1]))
    ensures ParseIpLike(g, "[" + (text + "]" + tail)) ==
            if tail == [] || (tail[0] == ':' && ValidNodePort(tail[1..])) then ParseIp(g, text) else None
  {
    var rest := text + "]" + tail;
    assert rest[|rest| - 1] == if tail == [] then ']' else tail[|tail| - 1];
    BracketBranch(g, rest);
    SplitOnceAt(text, ']', tail);
  }

  // ---------- what a hop may look like ----------

  predicate BracketedParts(g: AddressGrammar, raw: string, text: string, tail: string, ip: IpAddr) {
    && raw == "[" + (text + "]" + tail) && ']' !in text && ParseIp(g, text) == Some(ip)
    && (tail == [] || (tail[0] == ':' && ValidNodePort(tail[1..])))
  }

  /** A bracketed address, bare or with a node port. */
  ghost predicate BracketedForm(g: AddressGrammar, raw: string, ip: IpAddr) {
    exists text, tail :: BracketedParts(g, raw, text, tail, ip)
  }

  predicate PortParts(g: AddressGrammar, raw: string, host: string, port: string, ip: IpAddr) {
    raw == host + ":" + port && ParseIpv4(g, host) == Some(ip) && ValidNodePort(port)
  }

  /** An IPv4 host with a node port. */
  ghost predicate PortForm(g: AddressGrammar, raw: string, ip: IpAddr) {
    exists host, port :: PortParts(g, raw, host, port, ip)
  }

  lemma HopBranches(g: AddressGrammar, text: string, ip: IpAddr)
    ensures var raw := Trim(text);
            ParseIpLike(g, text) == Some(ip) <==>
            ParseIp(g, raw) == Some(ip) || BracketedForm(g, raw, ip) || PortForm(g, raw, ip)
  {
    hide ParseIpLike, ParseIp, ParseIpv4;
    var raw := Trim(text);
    TrimTwice(g, text);
    if ParseIpLike(g, raw) == Some(ip) {
      HopFormsOnly(g, raw, ip);
    }
    if ParseIp(g, raw) == Some(ip) {
      PlainRead(g, raw, ip);
    } else if BracketedForm(g, raw, ip) {
      BracketedRead(g, raw, ip);
    } else if PortForm(g, raw, ip) {
      var host, port :| PortParts(g, raw, host, port, ip);
      HostWithValidPort(g, host, port);
    }
  }

  lemma TrimTwice(g: AddressGrammar, text: string)
    ensures Trim(Trim(text)) == Trim(text)
    ensures ParseIpLike(g, Trim(text)) == ParseIpLike(g, text)
  {
    hide ParseIp, HiddenNode, BracketedIp, HostWithPort, ParseSocketAddr;
    assert Trimmed(Trim(text));
  }

  lemma PlainRead(g: AddressGrammar, raw: string, ip: IpAddr)
    requires Trim(raw) == raw && ParseIp(g, raw) == Some(ip)
    ensures ParseIpLike(g, raw) == Some(ip)
  {
    AddressNotHidden(g, raw);
  }

  lemma BracketedRead(g: AddressGrammar, raw: string, ip: IpAddr)
    requires BracketedForm(g, raw, ip)
    ensures ParseIpLike(g, raw) == Some(ip)
  {
    hide ParseIpLike, ParseIp;
    var inner, tail :| BracketedParts(g, raw, inner, tail, ip);
    if tail != [] {
      PortShape(tail[1..]);
    }
    BracketRead(g, inner, tail);
  }

  lemma AddressNotHidden(g: AddressGrammar, raw: string)
    requires ParseIp(g, raw).Some?
    ensures raw != [] && !HiddenNode(raw)
  {
    assert raw != [];
    assert raw[0] in raw;
    NotHidden(raw);
  }

  lemma HopFormsOnly(g: AddressGrammar, raw: string, ip: IpAddr)
    requires Trim(raw) == raw && ParseIpLike(g, raw) == Some(ip)
    ensures ParseIp(g, raw) == Some(ip) || BracketedForm(g, raw, ip) || PortForm(g, raw, ip)
  {
    hide ParseIp, HiddenNode, BracketedIp, HostWithPort, ParseSocketAddr, BracketedForm, PortForm;
    if ParseIp(g, raw).None? {
      if raw[0] == '[' {
        assert raw == "[" + raw[1..];
        BracketedIpForm(g, raw[1..], ip);
      } else {
        SocketBranchIsRedundant(g, raw);
        HostWithPortForm(g, raw, ip);
      }
    }
  }

  lemma BracketedIpForm(g: AddressGrammar, rest: string, ip: IpAddr)
    requires BracketedIp(g, rest) == Some(ip)
    ensures BracketedForm(g, "[" + rest, ip)
  {
    var parts := SplitOnce(rest, ']').value;
    assert BracketedParts(g, "[" + rest, parts.0, parts.1, ip);
  }

  lemma HostWithPortForm(g: AddressGrammar, raw: string, ip: IpAddr)
    requires HostWithPort(g, raw) == Some(ip)
    ensures PortForm(g, raw, ip)
  {
    var parts := RSplitOnce(raw, ':').value;
    assert PortParts(g, raw, parts.0, parts.1, ip) by {
      assert ParseIp(g, parts.0) == ParseIpv4(g, parts.0);
    }
  }

  // ---------- the exact forms ----------

  predicate NamedBy(g: AddressGrammar, text: string, ip: IpAddr, pre: string, n: Node, post: string) {
    Names(g, n, ip) && Blanks(pre) && Blanks(post) && text == pre + NodeText(n) + post
  }

  /** The text is a printed node with this address, with blanks around it. */
  ghost predicate HopNames(g: AddressGrammar, text: string, ip: IpAddr) {
    exists pre, n, post :: NamedBy(g, text, ip, pre, n, post)
  }

  // A hop names an address in exactly the printed forms, and then it is that address in canonical form.
  lemma HopForms(g: AddressGrammar, text: string, ip: IpAddr)
    ensures ParseIpLike(g, text) == Some(ip) <==> HopNames(g, text, ip)
    ensures ChainEntryOf(g, text) == Ip(ip) <==> exists raw: IpAddr :: HopNames(g, text, raw) && CanonicalIp(raw) == ip
  {
    hide ParseIpLike, HopNames;
    forall raw: IpAddr
      ensures ParseIpLike(g, text) == Some(raw) <==> HopNames(g, text, raw)
    {
      if ParseIpLike(g, text) == Some(raw) {
        HopIsNode(g, text, raw);
      }
      if HopNames(g, text, raw) {
        NodeIsHop(g, text, raw);
      }
    }
  }

  lemma HopIsNode(g: AddressGrammar, text: string, ip: IpAddr)
    requires ParseIpLike(g, text) == Some(ip)
    ensures HopNames(g, text, ip)
  {
    hide ParseIpLike, BracketedForm, PortForm, Names, NodeText;
    HopBranches(g, text, ip);
    var pre, post := TrimMargins(text);
    var n := FormIsNode(g, Trim(text), ip);
    assert NamedBy(g, text, ip, pre, n, post);
  }

  lemma FormIsNode(g: AddressGrammar, raw: string, ip: IpAddr) returns (n: Node)
    requires ParseIp(g, raw) == Some(ip) || BracketedForm(g, raw, ip) || PortForm(g, raw, ip)
    ensures Names(g, n, ip) && NodeText(n) == raw
  {
    hide ParseIp, ParseIpv4, ValidNodePort, PlainAddress, IsPort, PortText;
    if ParseIp(g, raw) == Some(ip) {
      PlainParses(g, raw, ip);
      n := Plain(raw);
    } else if BracketedForm(g, raw, ip) {
      var text, tail :| BracketedParts(g, raw, text, tail, ip);
      PlainParses(g, text, ip);
      if tail == [] {
        n := Bracketed(text, None);
        assert "[" + (text + "]" + tail) == "[" + text + "]";
      } else {
        PortTexts(tail[1..]);
        var p :| IsPort(p) && PortText(p) == tail[1..];
        n := Bracketed(text, Some(p));
        assert tail == ":" + tail[1..];
        assert "[" + (text + "]" + tail) == "[" + text + "]:" + tail[1..];
      }
    } else {
      var host, port :| PortParts(g, raw, host, port, ip);
      PlainParses(g, host, ip);
      PortTexts(port);
      var p :| IsPort(p) && PortText(p) == port;
      n := HostPort(host, p);
    }
  }

  lemma NodeIsHop(g: AddressGrammar, text: string, ip: IpAddr)
    requires HopNames(g, text, ip)
    ensures ParseIpLike(g, text) == Some(ip)
  {
    hide ParseIpLike, BracketedForm, PortForm, Names, NodeText;
    var pre, n, post :| NamedBy(g, text, ip, pre, n, post);
    NodeIsForm(g, n, ip);
    TrimPadded(pre, NodeText(n), post);
    HopBranches(g, text, ip);
  }

  lemma NodeIsForm(g: AddressGrammar, n: Node, ip: IpAddr)
    requires Names(g, n, ip)
    ensures var raw := NodeText(n);
            && Trimmed(raw)
            && (ParseIp(g, raw) == Some(ip) || BracketedForm(g, raw, ip) || PortForm(g, raw, ip))
  {
    hide ParseIp, ParseIpv4, ValidNodePort, IsPort, PortText, PlainAddress;
    var raw := NodeText(n);
    match n {
      case Plain(text) =>
        PlainParses(g, text, ip);
        PlainShape(g, text, ip);
      case Bracketed(text, port) =>
        PlainParses(g, text, ip);
        PlainShape(g, text, ip);
        var tail := if port.None? then "" else ":" + PortText(port.value);
        assert raw == "[" + (text + "]" + tail);
        if port.Some? {
          PortTexts(PortText(port.value));
          PortShape(PortText(port.value));
          assert tail[1..] == PortText(port.value);
        }
        assert BracketedParts(g, raw, text, tail, ip);
      case HostPort(host, port) =>
        PlainParses(g, host, ip);
        PlainShape(g, host, ip);
        PortTexts(PortText(port));
        PortShape(PortText(port));
        assert PortParts(g, raw, host, PortText(port), ip);
    }
  }

  lemma PlainShape(g: AddressGrammar, text: string, ip: IpAddr)
    requires PlainAddress(g, text, ip)
    ensures text != [] && Trimmed(text) && ']' !in text && Readable(text)
    ensures '"' !in text && ',' !in text && ';' !in text && '=' !in text
  {
    assert text != [] && text[0] in text && text[|text| - 1] in text;
  }

  // `unknown`, in any letter case, and names that start with an underscore would give no address anyway, so the branch
  // that turns them away never changes an answer.
  lemma HiddenBranchIsRedundant(g: AddressGrammar, raw: string)
    requires raw != [] && HiddenNode(raw)
    ensures ParseIp(g, raw).None? && raw[0] != '[' && ParseSocketAddr(g, raw).None? && HostWithPort(g, raw).None?
  {
    hide HiddenNode, ParseSocketAddr;
    HiddenStart(raw);
    assert raw[0] in raw;
    assert ParseIp(g, raw).None?;
    HiddenHost(g, raw);
    SocketBranchIsRedundant(g, raw);
  }

  lemma HiddenStart(raw: string)
    requires raw != [] && HiddenNode(raw)
    ensures raw[0] == 'u' || raw[0] == 'U' || raw[0] == '_'
  {
    if EqIgnoreCase(raw, "unknown") {
      assert Lower(raw[0]) == Lower("unknown"[0]) == 'u';
    }
  }

  lemma HiddenHost(g: AddressGrammar, raw: string)
    requires raw != [] && (raw[0] == 'u' || raw[0] == 'U' || raw[0] == '_')
    ensures HostWithPort(g, raw).None?
  {
    hide ValidNodePort;
    var parts := RSplitOnce(raw, ':');
    if parts.Some? && ParseIpv4(g, parts.value.0).Some? {
      Ipv4TextShape(parts.value.0);
    }
  }

  // Behind an IPv4 host and a colon, and behind a bracket and a colon, exactly the printed ports leave the address
  // readable, and then they never matter.
  lemma PortNeverMatters(g: AddressGrammar, text: string, port: string, ip: IpAddr)
    requires PlainAddress(g, text, ip)
    requires port != [] ==> port[|port| - 1] != ' ' && port[|port| - 1] != '\t'
    ensures var isPort := exists p :: IsPort(p) && PortText(p) == port;
            && ParseIpLike(g, "[" + text + "]:" + port) == (if isPort then Some(ip) else None)
            && (ip.family.V4? ==> ParseIpLike(g, text + ":" + port) == if isPort then Some(ip) else None)
  {
    hide ParseIpLike, ParseIp, ParseIpv4, PlainAddress;
    PlainParses(g, text, ip);
    PlainShape(g, text, ip);
    PortTexts(port);
    assert (":" + port)[1..] == port;
    BracketRead(g, text, ":" + port);
    assert "[" + text + "]:" + port == "[" + (text + "]" + (":" + port));
    if ip.family.V4? {
      if ValidNodePort(port) {
        HostWithValidPort(g, text, port);
      } else {
        HostWithOther(g, text, port);
      }
    }
  }

  lemma HostWithOther(g: AddressGrammar, host: string, port: string)
    requires ParseIpv4(g, host).Some? && !ValidNodePort(port)
    requires port != [] ==> !Blank(port[|port| - 1])
    ensures ParseIpLike(g, host + ":" + port).None?
  {
    hide ParseIp, ValidNodePort, ParseSocketAddr;
    var raw := host + ":" + port;
    Ipv4TextShape(host);
    assert raw[0] == host[0] && raw[|raw| - 1] == if port == [] then ':' else port[|port| - 1];
    NotHidden(raw);
    HostPortIsNoAddress(g, host, port);
    NoHostBehind(g, host, port);
    SocketBranchIsRedundant(g, raw);
    TrimTrimmed(raw);
  }

  lemma NoHostBehind(g: AddressGrammar, host: string, port: string)
    requires ParseIpv4(g, host).Some? && !ValidNodePort(port)
    ensures HostWithPort(g, host + ":" + port).None?
  {
    hide ValidNodePort, ParseIpv4;
    if ':' in port {
      var last := RSplitOnce(port, ':').value;
      RSplitOnceAt(host + ":" + last.0, ':', last.1);
      assert host + ":" + port == host + ":" + last.0 + [':'] + last.1;
      ColonIsNoHost(g, host + ":" + last.0);
    } else {
      RSplitOnceAt(host, ':', port);
    }
  }

  lemma ColonIsNoHost(g: AddressGrammar, text: string)
    requires ':' in text
    ensures ParseIpv4(g, text).None?
  {
  }

  // ---------- the configured header ----------

  predicate LastNamedBy(g: AddressGrammar, values: seq<string>, a: IpAddr,
                        before: seq<string>, pre: string, text: string, post: string, ip: IpAddr)
  {
    && values == before + [pre + text + post] && Blanks(pre) && Blanks(post)
    && PlainAddress(g, text, ip) && a == CanonicalIp(ip)
  }

  /** The last value is a plain address of either family with blanks around it, and `a` is its canonical form. */
  ghost predicate LastNames(g: AddressGrammar, values: seq<string>, a: IpAddr) {
    exists before, pre, text, post, ip :: LastNamedBy(g, values, a, before, pre, text, post, ip)
  }

  // A configured header gives an address exactly when its last value is one, whatever stands in the values before.
  lemma ConfiguredHeaderIff(g: AddressGrammar, headers: HeaderMap, name: HeaderName, a: IpAddr)
    ensures ConfiguredClientIpHeader(g, headers, name) == Some(a) <==> name in headers && LastNames(g, headers[name], a)
  {
    hide ParseIp, PlainAddress, Trim;
    var values := GetAll(headers, name);
    if ConfiguredClientIpHeader(g, headers, name) == Some(a) {
      var last := values[|values| - 1];
      var ip := ParseIp(g, Trim(last)).value;
      PlainParses(g, Trim(last), ip);
      var pre, post := TrimMargins(last);
      assert LastNamedBy(g, values, a, values[..|values| - 1], pre, Trim(last), post, ip);
    }
    if name in headers && LastNames(g, headers[name], a) {
      var before, pre, text, post, ip :| LastNamedBy(g, values, a, before, pre, text, post, ip);
      PlainShape(g, text, ip);
      PlainParses(g, text, ip);
      TrimPadded(pre, text, post);
      assert values[|values| - 1] == pre + text + post;
    }
  }

  // ---------- what the address grammars admit ----------

  // Every dotted quad is a text of the kind the IPv4 grammar is asked about.
  lemma DottedQuadsFit(parts: seq<string>)
    requires |parts| == 4
    requires forall i :: 0 <= i < 4 ==> parts[i] != [] && forall c :: c in parts[i] ==> '0' <= c <= '9'
    ensures LooksLikeIpv4(parts[0] + "." + parts[1] + "." + parts[2] + "." + parts[3])
  {
  }

  // So is every text of hexadecimal groups between colons, some of them empty, with or without a dotted tail, for IPv6.
  lemma ColonGroupsFit(groups: seq<string>, tail: string)
    requires |groups| >= 2
    requires forall i :: 0 <= i < |groups| ==>
               forall c :: c in groups[i] ==> '0' <= c <= '9' || 'a' <= c <= 'f' || 'A' <= c <= 'F'
    requires forall c :: c in tail ==> '0' <= c <= '9' || c == '.'
    ensures LooksLikeIpv6(Join(groups, ':') + tail)
  {
    var text := Join(groups, ':');
    JoinMembers(groups, ':');
    assert text[|groups[0]|] == ':';
    GroupsAndTail(text, tail);
  }

  lemma GroupsAndTail(text: string, tail: string)
    requires ':' in text && forall c :: c in text ==> HexDigit(c) || c == ':'
    requires forall c :: c in tail ==> Digit(c) || c == '.'
    ensures LooksLikeIpv6(text + tail)
  {
    assert ':' in text + tail;
    forall i, j | 0 <= i < j < |text + tail| && (text + tail)[i] == '.'
      ensures (text + tail)[j] != ':'
    {
      assert '.' !in text;
      assert j >= |text| ==> tail[j - |text|] in tail;
    }
  }
}
