/** Printing `Forwarded` headers by the grammar of section 4 of RFC 7239, and reading them back. */
module ForwardedGrammar {
  import opened Wrappers
  import opened Config
  import opened Text
  import opened Quoted
  import opened Headers

  /** A parameter name: `for`, with a choice of upper case for each letter, or any other. */
  datatype Name = ForName(f: bool, o: bool, r: bool) | OtherName(text: string)

  /** The blanks around the parts of a pair. */
  datatype Margins = Margins(front: string, behindName: string, beforeValue: string, back: string)

  /** What stands between two semicolons: text without an equals sign, or one `name=value` pair in any spelling, with
      the value as a token or as a quoted string. */
  datatype Piece =
    | Bare(text: string)
    | Pair(name: Name, value: string, quoted: bool, extra: seq<bool>, margins: Margins)

  function NameText(n: Name): string {
    match n
    case ForName(f, o, r) => [if f then 'F' else 'f', if o then 'O' else 'o', if r then 'R' else 'r']
    case OtherName(text) => text
  }

  /** No spelling of `for`: another length, or another letter somewhere. */
  predicate NotFor(text: string) {
    || |text| != 3
    || (text[0] != 'f' && text[0] != 'F')
    || (text[1] != 'o' && text[1] != 'O')
    || (text[2] != 'r' && text[2] != 'R')
  }

  predicate TokenChar(c: char) {
    '!' <= c <= '~' && c != '"' && c != ',' && c != ';' && c != '='
  }

  predicate Token(s: string) {
    forall c :: c in s ==> TokenChar(c)
  }

  predicate WellFormed(p: Piece) {
    match p
    case Bare(text) =>
      Readable(text) && forall c :: c in text ==> c != '"' && c != ',' && c != ';' && c != '='
    case Pair(name, value, quoted, extra, margins) =>
      && Token(NameText(name)) && (name.OtherName? ==> NotFor(name.text))
      && Readable(value) && |extra| == |value| && (!quoted ==> Token(value))
      && Blanks(margins.front) && Blanks(margins.behindName)
      && Blanks(margins.beforeValue) && Blanks(margins.back)
  }

  /** The pieces of one element. Blanks alone are an empty list element. */
  type Element = seq<Piece>

  predicate WellFormedElement(element: Element) {
    element != [] && forall i :: 0 <= i < |element| ==> WellFormed(element[i])
  }

  predicate EmptyElement(element: Element) {
    |element| == 1 && element[0].Bare? && Blanks(element[0].text)
  }

  predicate WellFormedLine(line: seq<Element>) {
    forall i :: 0 <= i < |line| ==> WellFormedElement(line[i])
  }

  function PrintValue(p: Piece): string
    requires p.Pair? && WellFormed(p)
  {
    if p.quoted then QuotedString(p.value, p.extra) else p.value
  }

  function Print(p: Piece): string
    requires WellFormed(p)
  {
    match p
    case Bare(text) => text
    case Pair(name, _, _, _, margins) =>
      (margins.front + NameText(name) + margins.behindName)
      + "=" + (margins.beforeValue + PrintValue(p) + margins.back)
  }

  function PrintPieces(element: Element): (r: seq<string>)
    requires forall i :: 0 <= i < |element| ==> WellFormed(element[i])
    ensures |r| == |element| && forall i :: 0 <= i < |r| ==> r[i] == Print(element[i])
  {
    seq(|element|, i requires 0 <= i < |element| => Print(element[i]))
  }

  function PrintElement(element: Element): string
    requires WellFormedElement(element)
  {
    Join(PrintPieces(element), ';')
  }

  function PrintElements(line: seq<Element>): (r: seq<string>)
    requires WellFormedLine(line)
    ensures |r| == |line| && forall i :: 0 <= i < |r| ==> r[i] == PrintElement(line[i])
  {
    seq(|line|, i requires 0 <= i < |line| => PrintElement(line[i]))
  }

  function PrintLine(line: seq<Element>): string
    requires WellFormedLine(line)
  {
    Join(PrintElements(line), ',')
  }

  function PrintLines(lines: seq<seq<Element>>): (r: seq<string>)
    requires forall i :: 0 <= i < |lines| ==> WellFormedLine(lines[i])
    ensures |r| == |lines| && forall i :: 0 <= i < |r| ==> r[i] == PrintLine(lines[i])
  {
    seq(|lines|, i requires 0 <= i < |lines| => PrintLine(lines[i]))
  }

  // ---------- what a printed header means ----------

  /** The value of the first `for` pair; an element without one hides its hop. */
  function ElementMeaning(g: AddressGrammar, element: Element): ChainEntry {
    if element == [] then Opaque
    else if element[0].Pair? && element[0].name.ForName? then ChainEntryOf(g, element[0].value)
    else ElementMeaning(g, element[1..])
  }

  /** One hop for every element that is not empty. */
  function LineMeaning(g: AddressGrammar, line: seq<Element>): seq<ChainEntry> {
    if line == [] then []
    else (if EmptyElement(line[0]) then [] else [ElementMeaning(g, line[0])]) + LineMeaning(g, line[1..])
  }

  function Meaning(g: AddressGrammar, lines: seq<seq<Element>>): seq<ChainEntry> {
    Flatten(seq(|lines|, i requires 0 <= i < |lines| => LineMeaning(g, lines[i])))
  }

  // ---------- one pair ----------

  lemma ValueClosed(p: Piece, d: char)
    requires p.Pair? && WellFormed(p) && !TokenChar(d)
    ensures Closed(PrintValue(p), d)
  {
    if p.quoted {
      QuotedStringClosed(p.value, p.extra, d);
    } else {
      PlainClosed(p.value, d);
    }
  }

  lemma PrintClosed(p: Piece, d: char)
    requires WellFormed(p) && !TokenChar(d) && d != '=' && !Blank(d)
    ensures Closed(Print(p), d)
  {
    match p {
      case Bare(text) =>
        PlainClosed(text, d);
      case Pair(_, _, _, _, margins) =>
        var head := margins.front + NameText(p.name) + margins.behindName + "=" + margins.beforeValue;
        HeadClosed(p, d);
        ValueClosed(p, d);
        ClosedConcat(head, PrintValue(p), d);
        ClosedConcat(head + PrintValue(p), margins.back, d);
        assert Print(p) == head + PrintValue(p) + margins.back;
    }
  }

  lemma HeadClosed(p: Piece, d: char)
    requires p.Pair? && WellFormed(p) && !TokenChar(d) && d != '=' && !Blank(d)
    ensures var m := p.margins;
            Closed(m.front + NameText(p.name) + m.behindName + "=" + m.beforeValue, d) && Closed(m.back, d)
  {
    hide Closed, NameText;
    var m := p.margins;
    BlanksClosed(m.front, d);
    TokenClosed(NameText(p.name), d);
    BlanksClosed(m.behindName, d);
    PlainClosed("=", d);
    BlanksClosed(m.beforeValue, d);
    BlanksClosed(m.back, d);
    ClosedConcat(m.front, NameText(p.name), d);
    ClosedConcat(m.front + NameText(p.name), m.behindName, d);
    ClosedConcat(m.front + NameText(p.name) + m.behindName, "=", d);
    ClosedConcat(m.front + NameText(p.name) + m.behindName + "=", m.beforeValue, d);
  }

  lemma BlanksClosed(s: string, d: char)
    requires Blanks(s) && !Blank(d)
    ensures Closed(s, d)
  {
    PlainClosed(s, d);
  }

  lemma TokenClosed(s: string, d: char)
    requires Token(s) && !TokenChar(d)
    ensures Closed(s, d)
  {
    PlainClosed(s, d);
  }

  lemma TokenTrimmed(s: string)
    requires Token(s)
    ensures Trimmed(s)
  {
    if s != [] {
      assert s[0] in s && s[|s| - 1] in s;
    }
  }

  lemma ValueTrimmed(p: Piece)
    requires p.Pair? && WellFormed(p)
    ensures Trimmed(PrintValue(p)) && Unquote(PrintValue(p)) == p.value
  {
    if p.quoted {
      UnquoteQuoted(p.value, p.extra);
    } else {
      TokenTrimmed(p.value);
      assert p.value != [] ==> p.value[0] in p.value;
    }
  }

  // A name is `for` in some letter case exactly when it is printed as such.
  lemma ForNames(text: string)
    ensures EqIgnoreCase(text, "for") <==> !NotFor(text)
    ensures !NotFor(text) <==> exists f, o, r :: text == NameText(ForName(f, o, r))
  {
    if EqIgnoreCase(text, "for") {
      assert Lower(text[0]) == 'f' && Lower(text[1]) == 'o' && Lower(text[2]) == 'r';
    }
    if !NotFor(text) {
      assert text == NameText(ForName(text[0] == 'F', text[1] == 'O', text[2] == 'R'));
    }
  }

  // The two sides of the first equals sign, after the pair was trimmed, are still the two sides up to blanks.
  lemma PairSides(left: string, right: string) returns (name: string, value: string)
    requires '=' !in left
    ensures SplitOnce(Trim(left + "=" + right), '=') == Some((name, value))
    ensures Trim(name) == Trim(left) && Trim(value) == Trim(right)
  {
    name, value := TrimAround(left, '=', right);
    SplitOnceAt(name, '=', value);
  }

  lemma UnquoteTrims(s: string, t: string)
    requires Trim(s) == Trim(t)
    ensures Unquote(s) == Unquote(t)
  {
  }

  // A printed pair reads back as its name and its value.
  lemma PairReads(p: Piece) returns (name: string, value: string)
    requires p.Pair? && WellFormed(p)
    ensures SplitOnce(Trim(Print(p)), '=') == Some((name, value))
    ensures Trim(name) == NameText(p.name) && Unquote(Trim(value)) == p.value
  {
    hide Unquote;
    var m := p.margins;
    var left, right := m.front + NameText(p.name) + m.behindName, m.beforeValue + PrintValue(p) + m.back;
    name, value := PairSides(left, right);
    ValueTrimmed(p);
    TokenTrimmed(NameText(p.name));
    TrimPadded(m.front, NameText(p.name), m.behindName);
    TrimPadded(m.beforeValue, PrintValue(p), m.back);
    assert Trim(value) == PrintValue(p);
  }

  lemma BareReads(p: Piece)
    requires p.Bare? && WellFormed(p)
    ensures SplitOnce(Trim(Print(p)), '=').None?
    ensures Trim(Print(p)) == [] <==> Blanks(p.text)
  {
    var pre, post := TrimMargins(p.text);
    assert forall c :: c in Trim(p.text) ==> c in pre + Trim(p.text) + post;
    if Blanks(p.text) {
      TrimPadded(p.text, [], []);
      assert p.text + [] + [] == p.text;
    }
  }

  // ---------- one element ----------

  lemma {:induction false} PairsRead(g: AddressGrammar, element: Element)
    requires forall i :: 0 <= i < |element| ==> WellFormed(element[i])
    ensures PairsEntry(g, TrimAll(PrintPieces(element))) == ElementMeaning(g, element)
  {
    hide ChainEntryOf, Trim, Unquote, SplitOnce, EqIgnoreCase, WellFormed;
    if element != [] {
      PairsRead(g, element[1..]);
      assert TrimAll(PrintPieces(element))[1..] == TrimAll(PrintPieces(element[1..]));
      if element[0].Pair? {
        var name, value := PairReads(element[0]);
        NameReads(element[0]);
      } else {
        BareReads(element[0]);
      }
    }
  }

  lemma NameReads(p: Piece)
    requires p.Pair? && WellFormed(p)
    ensures EqIgnoreCase(NameText(p.name), "for") <==> p.name.ForName?
  {
    ForNames(NameText(p.name));
  }

  lemma PairsClosed(element: Element, d: char)
    requires WellFormedElement(element) && (d == ',' || d == ';')
    ensures forall i :: 0 <= i < |element| ==> Closed(PrintPieces(element)[i], d)
  {
    forall i | 0 <= i < |element|
      ensures Closed(PrintPieces(element)[i], d)
    {
      PrintClosed(element[i], d);
    }
  }

  lemma ElementReads(g: AddressGrammar, element: Element)
    requires WellFormedElement(element)
    ensures Trim(PrintElement(element)) == [] <==> EmptyElement(element)
    ensures ElementEntry(g, Trim(PrintElement(element))) == ElementMeaning(g, element)
  {
    PairsClosed(element, ';');
    SplitOfJoin(PrintPieces(element), ';');
    TrimThenSplit(PrintElement(element), ';');
    PairsRead(g, element);
    ElementInk(element);
  }

  // Only the empty element prints no more than blanks.
  lemma ElementInk(element: Element)
    requires WellFormedElement(element)
    ensures Trim(PrintElement(element)) == [] <==> EmptyElement(element)
  {
    var text := PrintElement(element);
    var first := PrintPieces(element)[0];
    assert first <= text;
    if |element| == 1 && element[0].Bare? {
      BareReads(element[0]);
    } else if |element| == 1 {
      assert '=' in first;
      TrimKeepsInk(text, '=');
    } else {
      assert text[|first|] == ';';
      TrimKeepsInk(text, ';');
    }
  }

  /** A pair that is no `for` pair: without an equals sign, or with another name in front of the first one. */
  predicate Skips(pair: string) {
    match SplitOnce(pair, '=')
    case None => true
    case Some(parts) => NotFor(Trim(parts.0))
  }

  // For any text at all, well formed or not: the first `for` pair gives the hop, and without one it is opaque.
  lemma FirstForDecides(g: AddressGrammar, element: string, k: nat, name: string, value: string)
    requires k <= |Split(Outside, element, ';')|
    requires forall i :: 0 <= i < k ==> Skips(Trim(Split(Outside, element, ';')[i]))
    requires k < |Split(Outside, element, ';')| ==>
               && Trim(Split(Outside, element, ';')[k]) == name + "=" + value
               && '=' !in name && !NotFor(Trim(name))
    ensures ElementEntry(g, element)
            == if k < |Split(Outside, element, ';')| then ChainEntryOf(g, Unquote(value)) else Opaque
  {
    FirstPairDecides(g, TrimAll(Split(Outside, element, ';')), k, name, value);
  }

  lemma {:induction false} FirstPairDecides(g: AddressGrammar, pairs: seq<string>, k: nat, name: string, value: string)
    requires k <= |pairs| && forall i :: 0 <= i < k ==> Skips(pairs[i])
    requires k < |pairs| ==> pairs[k] == name + "=" + value && '=' !in name && !NotFor(Trim(name))
    ensures PairsEntry(g, pairs) == if k < |pairs| then ChainEntryOf(g, Unquote(value)) else Opaque
  {
    hide ChainEntryOf, Unquote, EqIgnoreCase, Trim, SplitOnce;
    if k > 0 {
      FirstPairDecides(g, pairs[1..], k - 1, name, value);
      assert Skips(pairs[0]);
      SkippedName(pairs[0]);
    } else if pairs != [] {
      SplitOnceAt(name, '=', value);
      ForNames(Trim(name));
      TrimTrimmed(Trim(value));
      UnquoteTrims(Trim(value), value);
    }
  }

  lemma SkippedName(pair: string)
    requires Skips(pair)
    ensures match SplitOnce(pair, '=')
            case None => true
            case Some(parts) => !EqIgnoreCase(Trim(parts.0), "for")
  {
    hide SplitOnce, Trim;
    match SplitOnce(pair, '=') {
      case None =>
      case Some(parts) => ForNames(Trim(parts.0));
    }
  }

  // ---------- lines ----------

  lemma {:induction false} ItemsRead(g: AddressGrammar, line: seq<Element>)
    requires WellFormedLine(line)
    ensures Entries(g, Forwarded, TrimAll(PrintElements(line))) == LineMeaning(g, line)
  {
    hide ElementEntry, ElementMeaning, PrintElement, EmptyElement, Trim, Ink;
    if line == [] {
      assert TrimAll(PrintElements(line)) == [];
      NoEntries(g);
    } else {
      var first, rest := PrintElement(line[0]), PrintElements(line[1..]);
      ElementReads(g, line[0]);
      ItemsRead(g, line[1..]);
      assert PrintElements(line) == [first] + rest;
      TrimAllConcat([first], rest);
      TrimAllOne(first);
      EntriesConcat(g, Forwarded, [Trim(first)], TrimAll(rest));
      EntriesOne(g, Forwarded, Trim(first));
    }
  }

  lemma NoEntries(g: AddressGrammar)
    ensures Entries(g, Forwarded, []) == []
  {
  }

  lemma LineReads(g: AddressGrammar, line: seq<Element>)
    requires WellFormedLine(line)
    ensures LineHops(g, Forwarded, PrintLine(line)) == LineMeaning(g, line)
  {
    if line == [] {
      assert Items(Forwarded, PrintLine(line)) == [[]];
      EntriesOne(g, Forwarded, []);
    } else {
      forall i | 0 <= i < |line|
        ensures Closed(PrintElements(line)[i], ',')
      {
        PairsClosed(line[i], ',');
        JoinClosed(PrintPieces(line[i]), ';', ',');
      }
      SplitOfJoin(PrintElements(line), ',');
      ItemsRead(g, line);
    }
  }

  // ---------- readability ----------

  lemma {:induction false} EscapeReadable(s: string, extra: seq<bool>)
    requires |extra| == |s| && Readable(s)
    ensures Readable(Escape(s, extra))
  {
    if s != [] {
      EscapeReadable(s[1..], extra[1..]);
    }
  }

  lemma ReadableConcat(s: string, t: string)
    requires Readable(s) && Readable(t)
    ensures Readable(s + t)
  {
  }

  lemma PartsReadable(p: Piece)
    requires p.Pair? && WellFormed(p)
    ensures var m := p.margins; Readable(m.front) && Readable(m.behindName) && Readable(m.beforeValue) && Readable(m.back)
    ensures Readable(NameText(p.name)) && Readable(PrintValue(p))
  {
    if p.quoted {
      EscapeReadable(p.value, p.extra);
    }
  }

  lemma PrintReadable(p: Piece)
    requires WellFormed(p)
    ensures Readable(Print(p))
  {
    if p.Pair? {
      hide Readable, NameText, PrintValue;
      var m, name, value := p.margins, NameText(p.name), PrintValue(p);
      PartsReadable(p);
      ReadableConcat(m.front, name);
      ReadableConcat(m.front + name, m.behindName);
      EqualsReadable();
      ReadableConcat(m.front + name + m.behindName, "=");
      ReadableConcat(m.beforeValue, value);
      ReadableConcat(m.beforeValue + value, m.back);
      ReadableConcat(m.front + name + m.behindName + "=", m.beforeValue + value + m.back);
    }
  }

  lemma EqualsReadable()
    ensures Readable("=")
  {
  }

  lemma JoinReadable(items: seq<string>, d: char)
    requires Visible(d) && forall i :: 0 <= i < |items| ==> Readable(items[i])
    ensures Readable(Join(items, d))
  {
    JoinMembers(items, d);
  }

  lemma LineReadable(line: seq<Element>)
    requires WellFormedLine(line)
    ensures Readable(PrintLine(line))
  {
    forall i | 0 <= i < |line|
      ensures Readable(PrintElements(line)[i])
    {
      forall j | 0 <= j < |line[i]|
        ensures Readable(PrintPieces(line[i])[j])
      {
        PrintReadable(line[i][j]);
      }
      JoinReadable(PrintPieces(line[i]), ';');
    }
    JoinReadable(PrintElements(line), ',');
  }

  // ---------- the round trip ----------

  lemma LinesRead(g: AddressGrammar, lines: seq<seq<Element>>)
    requires forall i :: 0 <= i < |lines| ==> WellFormedLine(lines[i])
    ensures LinesHops(g, Forwarded, PrintLines(lines)) == Meaning(g, lines)
  {
    var parts := seq(|lines|, i requires 0 <= i < |lines| => LineMeaning(g, lines[i]));
    forall i | 0 <= i < |lines|
      ensures EachLine(g, Forwarded, PrintLines(lines))[i] == parts[i]
    {
      LineReads(g, lines[i]);
    }
    assert EachLine(g, Forwarded, PrintLines(lines)) == parts;
  }

  // Every header the grammar prints, over any number of lines, reads back as exactly the hops it was printed from.
  lemma ForwardedRoundTrip(g: AddressGrammar, lines: seq<seq<Element>>)
    requires forall i :: 0 <= i < |lines| ==> WellFormedLine(lines[i])
    ensures Hops(g, Forwarded, PrintLines(lines)) == Some(Meaning(g, lines))
  {
    forall i | 0 <= i < |lines|
      ensures Readable(PrintLines(lines)[i])
    {
      LineReadable(lines[i]);
    }
    LinesRead(g, lines);
  }
}
