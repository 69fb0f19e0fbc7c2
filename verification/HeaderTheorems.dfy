/** Properties of lines: which are readable, how they combine, and reading them from the back. */
module HeaderTheorems {
  import opened Addresses
  import opened Wrappers
  import opened Config
  import opened Text
  import opened Quoted
  import opened Headers

  // ---------- readable lines ----------

  // A header is read exactly when its lines hold nothing but visible ASCII, spaces and tabs; one other character
  // anywhere hides all its hops.
  lemma ReadableLinesOnly(g: AddressGrammar, kind: ChainHeaderKind, values: seq<string>)
    ensures Hops(g, kind, values).Some? <==>
            forall v :: v in values ==> forall i :: 0 <= i < |v| ==> 0x20 <= v[i] as int <= 0x7E || v[i] == '\t'
  {
    hide LinesHops;
    if Hops(g, kind, values).Some? {
      forall v, i | v in values && 0 <= i < |v|
        ensures 0x20 <= v[i] as int <= 0x7E || v[i] == '\t'
      {
        assert Readable(v) && v[i] in v;
      }
    }
  }

  // ---------- combining field lines (sections 5.3 and 5.6.1 of RFC 9110) ----------

  /** A line that a comma can be put behind: for `Forwarded`, one that closes its quotes. */
  predicate Complete(kind: ChainHeaderKind, line: string) {
    kind == Forwarded ==> Run(Outside, line) == Outside
  }

  // Two lines joined by a comma hold the hops of the first, then the hops of the second.
  lemma JoinedHops(g: AddressGrammar, kind: ChainHeaderKind, line: string, more: string)
    requires Complete(kind, line)
    ensures LineHops(g, kind, line + "," + more) == LineHops(g, kind, line) + LineHops(g, kind, more)
  {
    match kind {
      case XForwardedFor =>
        PlainSplitJoined(line, ',', more);
        TrimAllConcat(PlainSplit(line, ','), PlainSplit(more, ','));
      case Forwarded =>
        SplitJoined(Outside, line, more, ',');
        TrimAllConcat(Split(Outside, line, ','), Split(Outside, more, ','));
    }
    EntriesConcat(g, kind, Items(kind, line), Items(kind, more));
  }

  // Several lines are one chain: they hold the hops of the single comma-joined line.
  lemma {:induction false} LinesCombine(g: AddressGrammar, kind: ChainHeaderKind, lines: seq<string>)
    requires lines != []
    requires forall i :: 0 <= i < |lines| - 1 ==> Complete(kind, lines[i])
    ensures LinesHops(g, kind, lines) == LineHops(g, kind, Join(lines, ','))
  {
    hide LineHops;
    if |lines| == 1 {
      LinesOne(g, kind, lines[0]);
      assert lines == [lines[0]];
    } else {
      LinesCombine(g, kind, lines[1..]);
      JoinedHops(g, kind, lines[0], Join(lines[1..], ','));
      LinesCons(g, kind, lines[0], lines[1..]);
      assert lines == [lines[0]] + lines[1..];
    }
  }

  lemma {:induction false} OpensQuote(s: string)
    requires Run(Outside, s) != Outside
    ensures '"' in s
  {
    if s[0] != '"' {
      OpensQuote(s[1..]);
    }
  }

  lemma {:induction false} StaysInside(s: string, d: char)
    requires '"' !in s && '\\' !in s
    ensures Uncut(Inside, s, d)
  {
    if s != [] {
      assert s[0] in s;
      StaysInside(s[1..], d);
    }
  }

  // Behind an open quote, a comma and text without quotes and backslashes only lengthen the last item.
  lemma OpenQuoteGrows(line: string, d: char, more: string)
    requires Run(Outside, line) != Outside && d != '"'
    requires '"' !in more && '\\' !in more
    ensures var items := Split(Outside, line, d);
            var n := |items| - 1;
            && Split(Outside, line + ("," + more), d) == items[..n] + [items[n] + ("," + more)]
            && Run(Outside, items[n]) == Run(Outside, line) && '"' in items[n]
  {
    var q, items, tail := Run(Outside, line), Split(Outside, line, d), "," + more;
    SplitConcat(Outside, line, tail, d);
    assert tail[0] == ',' && tail[1..] == more;
    StaysInside(more, d);
    assert Uncut(q, tail, d);
    UncutIsWhole(q, tail, d);
    LastItemState(Outside, line, d);
    OpensQuote(items[|items| - 1]);
  }

  // Empty parts are list punctuation: leaving one out shifts no hop.
  lemma EmptyPartsShiftNothing(g: AddressGrammar, kind: ChainHeaderKind, line: string, blank: string, more: string)
    requires Complete(kind, line) && Blanks(blank)
    ensures LineHops(g, kind, line + "," + (blank + "," + more)) == LineHops(g, kind, line + "," + more)
    ensures LineHops(g, kind, blank + "," + more) == LineHops(g, kind, more)
    ensures LineHops(g, kind, line + "," + blank) == LineHops(g, kind, line)
  {
    hide LineHops;
    BlankLine(g, kind, blank);
    JoinedHops(g, kind, blank, more);
    JoinedHops(g, kind, line, more);
    JoinedHops(g, kind, line, blank);
    JoinedHops(g, kind, line, blank + "," + more);
  }

  lemma BlankLine(g: AddressGrammar, kind: ChainHeaderKind, blank: string)
    requires Blanks(blank)
    ensures Complete(kind, blank) && LineHops(g, kind, blank) == []
  {
    PlainClosed(blank, ',');
    UncutIsWhole(Outside, blank, ',');
    PlainSplitWhole(blank, ',');
    TrimPadded(blank, [], []);
    assert blank + [] + [] == blank;
    TrimAllOne(blank);
    InkOne([]);
  }

  // A `Forwarded` line can be combined with every line behind it exactly when it closes its quotes.
  lemma ForwardedCombinesIff(g: AddressGrammar, line: string)
    ensures Complete(Forwarded, line) <==>
            forall more :: LineHops(g, Forwarded, line + "," + more)
                           == LineHops(g, Forwarded, line) + LineHops(g, Forwarded, more)
  {
    if Complete(Forwarded, line) {
      forall more {
        JoinedHops(g, Forwarded, line, more);
      }
    } else {
      OpenLineLosesHop(g, line);
    }
  }

  lemma OpenLineLosesHop(g: AddressGrammar, line: string)
    requires Run(Outside, line) != Outside
    ensures LineHops(g, Forwarded, line + "," + "x") != LineHops(g, Forwarded, line) + LineHops(g, Forwarded, "x")
  {
    hide LineHops;
    OpenLineCount(g, line);
    LoneX(g);
  }

  lemma OpenLineCount(g: AddressGrammar, line: string)
    requires Run(Outside, line) != Outside
    ensures |LineHops(g, Forwarded, line + "," + "x")| == |LineHops(g, Forwarded, line)|
  {
    hide Split, LineHops, Trim, Run;
    var items := Split(Outside, line, ',');
    var lo, last, grown := items[..|items| - 1], items[|items| - 1], items[|items| - 1] + ("," + "x");
    OpenQuoteGrows(line, ',', "x");
    assert line + "," + "x" == line + ("," + "x");
    TrimKeepsInk(last, '"');
    assert items == lo + [last];
    LastItemCounts(g, line, lo, last);
    assert grown[|last|] == ',';
    TrimKeepsInk(grown, ',');
    LastItemCounts(g, line + "," + "x", lo, grown);
  }

  lemma LastItemCounts(g: AddressGrammar, line: string, items: seq<string>, last: string)
    requires Split(Outside, line, ',') == items + [last] && Trim(last) != []
    ensures |LineHops(g, Forwarded, line)| == |Entries(g, Forwarded, TrimAll(items))| + 1
  {
    hide Split, Entries, Trim, TrimAll;
    LastItemHop(g, items, last);
  }

  lemma LastItemHop(g: AddressGrammar, items: seq<string>, last: string)
    requires Trim(last) != []
    ensures |Entries(g, Forwarded, TrimAll(items + [last]))| == |Entries(g, Forwarded, TrimAll(items))| + 1
  {
    TrimAllConcat(items, [last]);
    TrimAllOne(last);
    InkConcat(TrimAll(items), [Trim(last)]);
    InkOne(Trim(last));
  }

  lemma LoneX(g: AddressGrammar)
    ensures |LineHops(g, Forwarded, "x")| == 1
  {
    PlainClosed("x", ',');
    UncutIsWhole(Outside, "x", ',');
    LastItemHop(g, [], "x");
    assert [] + ["x"] == ["x"];
  }

  // A concrete line that cannot be combined: its quote never closes.
  lemma OpenLineExample(g: AddressGrammar)
    ensures var line := "for=" + "\"a";
            !Complete(Forwarded, line)
            && LineHops(g, Forwarded, line + "," + "x") != LineHops(g, Forwarded, line) + LineHops(g, Forwarded, "x")
  {
    var line := "for=" + "\"a";
    PlainClosed("for=", ',');
    RunConcat(Outside, "for=", "\"a");
    assert "\"a"[1..] == "a" && "a"[1..] == [];
    OpenLineLosesHop(g, line);
  }

  // ---------- reading a list header from the back ----------

  /** The hops of a list header in the order `next_back` yields them. */
  function BackHops(g: AddressGrammar, lines: seq<string>): seq<ChainEntry> {
    if lines == [] then []
    else
      var n := |lines| - 1;
      Entries(g, XForwardedFor, TrimAll(BackSplit(lines[n], ','))) + BackHops(g, lines[..n])
  }

  lemma EntriesReverse(g: AddressGrammar, items: seq<string>)
    ensures Entries(g, XForwardedFor, Reverse(items)) == Reverse(Entries(g, XForwardedFor, items))
  {
    hide Entry;
    InkReverse(items);
  }

  // Consuming from the back yields the exact reverse of the forward order, across lines and empty parts.
  lemma {:induction false} BackIsReverse(g: AddressGrammar, lines: seq<string>)
    ensures BackHops(g, lines) == Reverse(LinesHops(g, XForwardedFor, lines))
  {
    hide LineHops, BackSplit;
    if lines != [] {
      var n := |lines| - 1;
      BackIsReverse(g, lines[..n]);
      BackLine(g, lines[n]);
      LastLine(g, lines);
      ReverseConcat(LinesHops(g, XForwardedFor, lines[..n]), LineHops(g, XForwardedFor, lines[n]));
    } else {
      assert EachLine(g, XForwardedFor, lines) == [];
    }
  }

  lemma BackLine(g: AddressGrammar, line: string)
    ensures Entries(g, XForwardedFor, TrimAll(BackSplit(line, ','))) == Reverse(LineHops(g, XForwardedFor, line))
  {
    hide PlainSplit, BackSplit, Ink, Entry, Trim;
    var items := PlainSplit(line, ',');
    BackSplitReverses(line, ',');
    assert TrimAll(Reverse(items)) == Reverse(TrimAll(items));
    EntriesReverse(g, TrimAll(items));
  }

  lemma LastLine(g: AddressGrammar, lines: seq<string>)
    requires lines != []
    ensures var n := |lines| - 1;
            LinesHops(g, XForwardedFor, lines)
            == LinesHops(g, XForwardedFor, lines[..n]) + LineHops(g, XForwardedFor, lines[n])
  {
    hide LineHops;
    var n := |lines| - 1;
    assert lines == lines[..n] + [lines[n]];
    LinesSnoc(g, XForwardedFor, lines[..n], lines[n]);
  }
}
