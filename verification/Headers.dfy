/** Reading hops out of header values. */
module Headers {
  import opened Addresses
  import opened Canonical
  import opened Wrappers
  import opened Rules
  import opened Config
  import opened Text
  import opened Quoted

  datatype ChainEntry = Ip(ip: IpAddr) | Opaque

  /** Header names to the values of their lines, in arrival order. */
  type HeaderMap = map<HeaderName, seq<string>>

  function GetAll(headers: HeaderMap, name: HeaderName): seq<string> {
    if name in headers then headers[name] else []
  }

  // ---------- address texts ----------

  type Ipv4Value = n: nat | n < Pow2(32) witness 0

  type Ipv6Value = n: nat | n < Pow2(128) witness 0

  /** The standard library's address grammars are parameters: which texts they accept, and with which value. */
  datatype AddressGrammar = AddressGrammar(v4: string -> Option<Ipv4Value>, v6: string -> Option<Ipv6Value>)

  predicate HexDigit(c: char) {
    Digit(c) || 'a' <= c <= 'f' || 'A' <= c <= 'F'
  }

  /** All that is assumed of IPv4 texts: digits and dots, with at least one dot. */
  predicate LooksLikeIpv4(s: string) {
    '.' in s && forall c :: c in s ==> Digit(c) || c == '.'
  }

  /** All that is assumed of IPv6 texts: hexadecimal digits, colons and dots, with no colon behind a dot. */
  predicate LooksLikeIpv6(s: string) {
    && ':' in s
    && (forall c :: c in s ==> HexDigit(c) || c == ':' || c == '.')
    && (forall i, j :: 0 <= i < j < |s| && s[i] == '.' ==> s[j] != ':')
  }

  /** `parse::<Ipv4Addr>`. */
  function ParseIpv4(g: AddressGrammar, s: string): Option<IpAddr> {
    if !LooksLikeIpv4(s) then None
    else match g.v4(s) case Some(n) => Some(Addr(V4, n)) case None => None
  }

  /** `parse::<IpAddr>`: an IPv4 text, or else an IPv6 text. */
  function ParseIp(g: AddressGrammar, s: string): Option<IpAddr> {
    if ParseIpv4(g, s).Some? then ParseIpv4(g, s)
    else if !LooksLikeIpv6(s) then None
    else match g.v6(s) case Some(n) => Some(Addr(V6, n)) case None => None
  }

  predicate Digits(s: string) {
    s != [] && forall c :: c in s ==> Digit(c)
  }

  function Decimal(s: string): nat
    requires forall c :: c in s ==> Digit(c)
  {
    if s == [] then 0
    else
      assert Digit(s[|s| - 1]);
      10 * Decimal(s[..|s| - 1]) + (s[|s| - 1] as int - '0' as int)
  }

  /** `parse::<SocketAddr>` of a text without brackets: an IPv4 host and a decimal port below 2^16. */
  function ParseSocketAddr(g: AddressGrammar, s: string): Option<IpAddr> {
    match SplitOnce(s, ':')
    case None => None
    case Some(parts) =>
      if Digits(parts.1) && Decimal(parts.1) <= 65535 then ParseIpv4(g, parts.0) else None
  }

  predicate ObfuscatedChar(c: char) {
    Letter(c) || Digit(c) || c == '.' || c == '_' || c == '-'
  }

  predicate ValidNodePort(port: string) {
    || Digits(port)
    || (|port| > 1 && port[0] == '_' && forall c :: c in port[1..] ==> ObfuscatedChar(c))
  }

  predicate HiddenNode(raw: string)
    requires raw != []
  {
    EqIgnoreCase(raw, "unknown") || raw[0] == '_'
  }

  function BracketedIp(g: AddressGrammar, rest: string): Option<IpAddr> {
    match SplitOnce(rest, ']')
    case None => None
    case Some(parts) =>
      if parts.1 == [] || (parts.1[0] == ':' && ValidNodePort(parts.1[1..])) then ParseIp(g, parts.0) else None
  }

  function HostWithPort(g: AddressGrammar, raw: string): Option<IpAddr> {
    match RSplitOnce(raw, ':')
    case None => None
    case Some(parts) =>
      if ParseIpv4(g, parts.0).Some? && ValidNodePort(parts.1) then ParseIp(g, parts.0) else None
  }

  function ParseIpLike(g: AddressGrammar, text: string): Option<IpAddr> {
    var raw := Trim(text);
    if raw == [] || HiddenNode(raw) then None
    else if ParseIp(g, raw).Some? then ParseIp(g, raw)
    else if raw[0] == '[' then BracketedIp(g, raw[1..])
    else if ParseSocketAddr(g, raw).Some? then ParseSocketAddr(g, raw)
    else HostWithPort(g, raw)
  }

  function ChainEntryOf(g: AddressGrammar, raw: string): ChainEntry {
    match ParseIpLike(g, raw)
    case Some(ip) => Ip(CanonicalIp(ip))
    case None => Opaque
  }

  // ---------- the configured header ----------

  /** Only the last value counts, and it must be one plain address. */
  function ConfiguredClientIpHeader(g: AddressGrammar, headers: HeaderMap, name: HeaderName): Option<IpAddr> {
    var values := GetAll(headers, name);
    if values == [] || !Readable(values[|values| - 1]) then None
    else match ParseIp(g, Trim(values[|values| - 1]))
      case Some(ip) => Some(CanonicalIp(ip))
      case None => None
  }

  // ---------- chain headers ----------

  /** The `for` value of the first pair named so, in any letter case. */
  function PairsEntry(g: AddressGrammar, pairs: seq<string>): ChainEntry {
    if pairs == [] then Opaque
    else match SplitOnce(pairs[0], '=')
      case Some(parts) =>
        if EqIgnoreCase(Trim(parts.0), "for") then ChainEntryOf(g, Unquote(Trim(parts.1)))
        else PairsEntry(g, pairs[1..])
      case None => PairsEntry(g, pairs[1..])
  }

  function ElementEntry(g: AddressGrammar, element: string): ChainEntry {
    PairsEntry(g, TrimAll(Split(Outside, element, ';')))
  }

  /** The trimmed items of one line, by reading style. */
  function Items(kind: ChainHeaderKind, line: string): seq<string> {
    match kind
    case XForwardedFor => TrimAll(PlainSplit(line, ','))
    case Forwarded => TrimAll(Split(Outside, line, ','))
  }

  function Entry(g: AddressGrammar, kind: ChainHeaderKind, item: string): ChainEntry {
    match kind
    case XForwardedFor => ChainEntryOf(g, item)
    case Forwarded => ElementEntry(g, item)
  }

  /** Empty items are list punctuation; every other item is one hop. */
  function Entries(g: AddressGrammar, kind: ChainHeaderKind, items: seq<string>): (r: seq<ChainEntry>)
    ensures |r| == |Ink(items)| && forall i :: 0 <= i < |r| ==> r[i] == Entry(g, kind, Ink(items)[i])
  {
    var hops := Ink(items);
    seq(|hops|, i requires 0 <= i < |hops| => Entry(g, kind, hops[i]))
  }

  function LineHops(g: AddressGrammar, kind: ChainHeaderKind, line: string): seq<ChainEntry> {
    Entries(g, kind, Items(kind, line))
  }

  function EachLine(g: AddressGrammar, kind: ChainHeaderKind, lines: seq<string>): (r: seq<seq<ChainEntry>>)
    ensures |r| == |lines| && forall i :: 0 <= i < |r| ==> r[i] == LineHops(g, kind, lines[i])
  {
    seq(|lines|, i requires 0 <= i < |lines| => LineHops(g, kind, lines[i]))
  }

  function LinesHops(g: AddressGrammar, kind: ChainHeaderKind, lines: seq<string>): seq<ChainEntry> {
    Flatten(EachLine(g, kind, lines))
  }

  predicate AllReadable(values: seq<string>) {
    forall v :: v in values ==> Readable(v)
  }

  /** The hops of a chain header from left to right, unless one of its lines is unreadable. */
  function Hops(g: AddressGrammar, kind: ChainHeaderKind, values: seq<string>): Option<seq<ChainEntry>> {
    if AllReadable(values) then Some(LinesHops(g, kind, values)) else None
  }

  function ListHeaderEntries(g: AddressGrammar, values: seq<string>): Option<seq<ChainEntry>> {
    Hops(g, XForwardedFor, values)
  }

  method ForwardedElementEntry(g: AddressGrammar, element: string) returns (entry: ChainEntry)
    ensures entry == ElementEntry(g, element)
  {
    var pairs := new SplitQuoted(element, ';');
    while true
      invariant pairs.Valid()
      invariant ElementEntry(g, element) == PairsEntry(g, pairs.Remaining())
      decreases |pairs.Remaining()|
    {
      ghost var before := pairs.Remaining();
      var pair := pairs.Next();
      if pair.None? {
        return Opaque;
      }
      assert before[0] == pair.value && before[1..] == pairs.Remaining();
      var parts := SplitOnce(pair.value, '=');
      if parts.Some? && EqIgnoreCase(Trim(parts.value.0), "for") {
        var value := UnquoteHttpQuotedString(Trim(parts.value.1));
        return ChainEntryOf(g, value);
      }
    }
  }

  lemma EntriesConcat(g: AddressGrammar, kind: ChainHeaderKind, s: seq<string>, t: seq<string>)
    ensures Entries(g, kind, s + t) == Entries(g, kind, s) + Entries(g, kind, t)
  {
    hide Entry;
    InkConcat(s, t);
  }

  lemma EntriesOne(g: AddressGrammar, kind: ChainHeaderKind, item: string)
    ensures Entries(g, kind, [item]) == if item == [] then [] else [Entry(g, kind, item)]
  {
    hide Entry;
    InkOne(item);
  }

  lemma LinesConcat(g: AddressGrammar, kind: ChainHeaderKind, s: seq<string>, t: seq<string>)
    ensures LinesHops(g, kind, s + t) == LinesHops(g, kind, s) + LinesHops(g, kind, t)
  {
    hide LineHops;
    assert EachLine(g, kind, s + t) == EachLine(g, kind, s) + EachLine(g, kind, t);
    FlattenConcat(EachLine(g, kind, s), EachLine(g, kind, t));
  }

  lemma LinesOne(g: AddressGrammar, kind: ChainHeaderKind, line: string)
    ensures LinesHops(g, kind, [line]) == LineHops(g, kind, line)
  {
    hide LineHops;
    assert EachLine(g, kind, [line]) == [LineHops(g, kind, line)];
    FlattenOne(LineHops(g, kind, line));
  }

  lemma LinesSnoc(g: AddressGrammar, kind: ChainHeaderKind, lines: seq<string>, line: string)
    ensures LinesHops(g, kind, lines + [line]) == LinesHops(g, kind, lines) + LineHops(g, kind, line)
  {
    hide LineHops;
    LinesConcat(g, kind, lines, [line]);
    LinesOne(g, kind, line);
  }

  lemma LinesCons(g: AddressGrammar, kind: ChainHeaderKind, line: string, lines: seq<string>)
    ensures LinesHops(g, kind, [line] + lines) == LineHops(g, kind, line) + LinesHops(g, kind, lines)
  {
    hide LineHops;
    LinesConcat(g, kind, [line], lines);
    LinesOne(g, kind, line);
  }

  lemma EntriesStep(g: AddressGrammar, kind: ChainHeaderKind, done: seq<ChainEntry>, item: string, rest: seq<string>)
    ensures done + Entries(g, kind, [item] + rest)
            == (if item == [] then done else done + [Entry(g, kind, item)]) + Entries(g, kind, rest)
  {
    hide Entry;
    EntriesConcat(g, kind, [item], rest);
    EntriesOne(g, kind, item);
  }

  method ForwardedLine(g: AddressGrammar, line: string) returns (entries: seq<ChainEntry>)
    ensures entries == LineHops(g, Forwarded, line)
  {
    hide ElementEntry, Entries, Split;
    entries := [];
    var elements := new SplitQuoted(line, ',');
    while true
      invariant elements.Valid()
      invariant LineHops(g, Forwarded, line) == entries + Entries(g, Forwarded, elements.Remaining())
      decreases |elements.Remaining()|
    {
      ghost var before := elements.Remaining();
      var element := elements.Next();
      if element.None? {
        return;
      }
      assert before == [element.value] + elements.Remaining();
      EntriesStep(g, Forwarded, entries, element.value, elements.Remaining());
      if element.value != [] {
        var entry := ForwardedElementEntry(g, element.value);
        entries := entries + [entry];
      }
    }
  }

  method ForwardedEntries(g: AddressGrammar, values: seq<string>) returns (r: Option<seq<ChainEntry>>)
    ensures r == Hops(g, Forwarded, values)
  {
    hide LineHops;
    var entries := [];
    assert EachLine(g, Forwarded, values[..0]) == [];
    for i := 0 to |values|
      invariant AllReadable(values[..i])
      invariant entries == LinesHops(g, Forwarded, values[..i])
    {
      if !Readable(values[i]) {
        assert values[i] in values;
        return None;
      }
      var line := ForwardedLine(g, values[i]);
      entries := entries + line;
      assert values[..i + 1] == values[..i] + [values[i]];
      LinesSnoc(g, Forwarded, values[..i], values[i]);
    }
    assert values[..|values|] == values;
    return Some(entries);
  }
}
