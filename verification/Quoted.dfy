/** Splitting at delimiters outside HTTP quoted strings (section 5.6.4 of RFC 9110), and undoing the quotes. */
module Quoted {
  import opened Wrappers
  import opened Text

  // ---------- the quote automaton ----------

  datatype Quote = Outside | Inside | Escaped

  function Step(q: Quote, c: char): Quote {
    match q
    case Escaped => Inside
    case Inside => if c == '\\' then Escaped else if c == '"' then Outside else Inside
    case Outside => if c == '"' then Inside else Outside
  }

  /** The state after one left-to-right pass over `s`. */
  function Run(q: Quote, s: string): Quote
    decreases |s|
  {
    if s == [] then q else Run(Step(q, s[0]), s[1..])
  }

  lemma {:induction false} RunConcat(q: Quote, s: string, t: string)
    ensures Run(q, s + t) == Run(Run(q, s), t)
    decreases |s|
  {
    if s == [] {
      assert s + t == t;
    } else {
      assert (s + t)[1..] == s[1..] + t;
      RunConcat(Step(q, s[0]), s[1..], t);
    }
  }

  predicate Cuts(q: Quote, c: char, d: char) {
    q == Outside && c == d && c != '"'
  }

  /** Split at every delimiter that one pass over the text sees outside quotes. */
  function Split(q: Quote, s: string, d: char): (items: seq<string>)
    ensures items != []
    decreases |s|
  {
    if s == [] then [[]]
    else if Cuts(q, s[0], d) then [[]] + Split(Outside, s[1..], d)
    else Extend([s[0]], Split(Step(q, s[0]), s[1..], d))
  }

  // ---------- the restartable iterator ----------

  /** The pass stands in state `q` after `o` characters, and the rest of the split continues from there. */
  ghost predicate Scanned(s: string, d: char, o: nat, q: Quote) {
    && o <= |s| && q == Run(Outside, s[..o])
    && Split(Outside, s, d) == Extend(s[..o], Split(q, s[o..], d))
  }

  lemma ScanStart(s: string, d: char)
    ensures Scanned(s, d, 0, Outside)
  {
    assert s[..0] == [] && s[0..] == s;
    ExtendTwice([], [], Split(Outside, s, d));
  }

  lemma ScanStep(s: string, d: char, o: nat, q: Quote)
    requires Scanned(s, d, o, q) && o < |s| && !Cuts(q, s[o], d)
    ensures Scanned(s, d, o + 1, Step(q, s[o]))
  {
    assert s[..o + 1] == s[..o] + [s[o]];
    RunConcat(Outside, s[..o], [s[o]]);
    assert [s[o]][1..] == [];
    assert s[o..][0] == s[o] && s[o..][1..] == s[o + 1..];
    ExtendTwice(s[..o], [s[o]], Split(Step(q, s[o]), s[o + 1..], d));
  }

  lemma ScanCut(s: string, d: char, o: nat)
    requires Scanned(s, d, o, Outside) && o < |s| && Cuts(Outside, s[o], d)
    ensures Split(Outside, s, d) == [s[..o]] + Split(Outside, s[o + 1..], d)
  {
    assert s[o..][0] == s[o] && s[o..][1..] == s[o + 1..];
    assert s[..o] + [] == s[..o];
  }

  lemma ScanEnd(s: string, d: char, q: Quote)
    requires Scanned(s, d, |s|, q)
    ensures TrimAll(Split(Outside, s, d)) == [Trim(s)]
  {
    assert s[|s|..] == [] && s[..|s|] == s && s + [] == s;
    assert Split(Outside, s, d) == [s];
    TrimAllOne(s);
  }

  // A cut behind `offset` characters splits off the item in front of it and restarts behind it.
  lemma CutRestarts(input: string, from: nat, offset: nat, d: char)
    requires from + offset < |input| && Run(Outside, input[..from]) == Outside
    requires Scanned(input[from..], d, offset, Outside) && Cuts(Outside, input[from + offset], d)
    ensures Run(Outside, input[..from + offset + 1]) == Outside
    ensures TrimAll(Split(Outside, input[from..], d))
            == [Trim(input[from..from + offset])] + TrimAll(Split(Outside, input[from + offset + 1..], d))
  {
    var rest := input[from..];
    ScanCut(rest, d, offset);
    assert rest[..offset] == input[from..from + offset] && rest[offset + 1..] == input[from + offset + 1..];
    TrimAllConcat([rest[..offset]], Split(Outside, rest[offset + 1..], d));
    TrimAllOne(rest[..offset]);
    RestartsOutside(input, from, offset);
  }

  class SplitQuoted {
    const input: string
    const delimiter: char
    var start: Option<nat>

    /** The next item starts where one pass over the whole input stands outside quotes. */
    ghost predicate Valid()
      reads this
    {
      start.Some? ==> start.value <= |input| && Run(Outside, input[..start.value]) == Outside
    }

    /** The items still to come. */
    ghost function Remaining(): seq<string>
      requires Valid()
      reads this
    {
      if start.None? then [] else TrimAll(Split(Outside, input[start.value..], delimiter))
    }

    constructor (input: string, delimiter: char)
      ensures Valid() && this.input == input && this.delimiter == delimiter
      ensures Remaining() == TrimAll(Split(Outside, input, delimiter))
    {
      this.input, this.delimiter, start := input, delimiter, Some(0);
      new;
      assert input[0..] == input;
    }

    method Next() returns (item: Option<string>)
      requires Valid()
      modifies this
      ensures Valid()
      ensures item.None? <==> old(Remaining()) == []
      ensures item.Some? ==> old(Remaining()) == [item.value] + Remaining()
    {
      if start.None? {
        return None;
      }
      var from := start.value;
      var end := NextCut(input, from, delimiter);
      if end.Some? {
        start := Some(end.value + 1);
        return Some(Trim(input[from..end.value]));
      }
      start := None;
      return Some(Trim(input[from..]));
    }
  }

  /** The first delimiter at or behind `from` that is outside quotes, scanned from a fresh quote state. */
  method NextCut(input: string, from: nat, delimiter: char) returns (end: Option<nat>)
    requires from <= |input| && Run(Outside, input[..from]) == Outside
    ensures end.None? ==> TrimAll(Split(Outside, input[from..], delimiter)) == [Trim(input[from..])]
    ensures end.Some? ==>
              && from <= end.value < |input| && Run(Outside, input[..end.value + 1]) == Outside
              && TrimAll(Split(Outside, input[from..], delimiter))
                 == [Trim(input[from..end.value])] + TrimAll(Split(Outside, input[end.value + 1..], delimiter))
  {
    hide Scanned, Split;
    ghost var rest := input[from..];
    ghost var q := Outside;
    var inQuotes, escaped := false, false;
    ScanStart(rest, delimiter);
    for offset := 0 to |input| - from
      invariant Scanned(rest, delimiter, offset, q)
      invariant q == if escaped then Escaped else if inQuotes then Inside else Outside
      invariant escaped ==> inQuotes
    {
      var ch := input[from + offset];
      if !Cuts(q, ch, delimiter) {
        ScanStep(rest, delimiter, offset, q);
      }
      if escaped {
        escaped := false;
      } else if inQuotes && ch == '\\' {
        escaped := true;
      } else if ch == '"' {
        inQuotes := !inQuotes;
      } else if ch == delimiter && !inQuotes {
        CutRestarts(input, from, offset, delimiter);
        return Some(from + offset);
      }
      q := Step(q, ch);
    }
    ScanEnd(rest, delimiter, q);
    return None;
  }

  // Restarting behind a cut agrees with the pass over the whole input.
  lemma RestartsOutside(input: string, from: nat, offset: nat)
    requires from + offset < |input|
    requires Run(Outside, input[..from]) == Outside
    requires Run(Outside, input[from..][..offset]) == Outside && input[from + offset] != '"'
    ensures Run(Outside, input[..from + offset + 1]) == Outside
  {
    var piece := input[from..][..offset];
    RunConcat(Outside, input[..from], piece);
    RunConcat(Outside, input[..from] + piece, [input[from + offset]]);
    assert input[..from + offset + 1] == input[..from] + piece + [input[from + offset]];
  }

  // ---------- exact tokenisation ----------

  // The items joined by the delimiter rebuild the text.
  lemma {:induction false} SplitRebuilds(q: Quote, s: string, d: char)
    ensures Join(Split(q, s, d), d) == s
    decreases |s|
  {
    if s == [] {
    } else if Cuts(q, s[0], d) {
      SplitRebuilds(Outside, s[1..], d);
      JoinFront(Split(Outside, s[1..], d), d, d);
    } else {
      SplitRebuilds(Step(q, s[0]), s[1..], d);
      JoinFront(Split(Step(q, s[0]), s[1..], d), s[0], d);
    }
  }

  /** Position `j` holds a delimiter that the pass over the whole text sees outside quotes. */
  predicate IsCut(q: Quote, s: string, d: char, j: nat) {
    j < |s| && Cuts(Run(q, s[..j]), s[j], d)
  }

  /** Where item `k` ends in the joined text. */
  function EndOf(items: seq<string>, k: nat): nat
    requires k < |items|
  {
    if k == 0 then |items[0]| else EndOf(items, k - 1) + 1 + |items[k]|
  }

  lemma IsCutShift(q: Quote, s: string, d: char, j: nat)
    requires s != []
    ensures IsCut(q, s, d, j + 1) <==> IsCut(Step(q, s[0]), s[1..], d, j)
  {
    if j + 1 < |s| {
      assert s[..j + 1][1..] == s[1..][..j];
    }
  }

  lemma {:induction false} EndOfCons(items: seq<string>, k: nat)
    requires k < |items|
    ensures EndOf([[]] + items, k + 1) == EndOf(items, k) + 1
  {
    if k > 0 {
      EndOfCons(items, k - 1);
    }
  }

  lemma {:induction false} EndOfExtend(c: char, items: seq<string>, k: nat)
    requires k < |items|
    ensures EndOf(Extend([c], items), k) == EndOf(items, k) + 1
  {
    if k > 0 {
      EndOfExtend(c, items, k - 1);
    }
  }

  /** One of the first `n` items ends at `j`. */
  ghost predicate EndsAmong(items: seq<string>, n: nat, j: int)
    requires n <= |items|
  {
    exists k :: 0 <= k < n && EndOf(items, k) == j
  }

  /** An item other than the last ends at `j`. */
  ghost predicate EndsItem(items: seq<string>, j: int)
    requires items != []
  {
    EndsAmong(items, |items| - 1, j)
  }

  // Item boundaries are exactly the unquoted delimiters of one pass over the whole text.
  lemma {:induction false} SplitAtCuts(q: Quote, s: string, d: char, j: nat)
    ensures IsCut(q, s, d, j) <==> EndsItem(Split(q, s, d), j)
    decreases |s|
  {
    if s == [] {
      return;
    }
    assert s[..0] == [];
    var p := Step(q, s[0]);
    if j > 0 {
      IsCutShift(q, s, d, j - 1);
      SplitAtCuts(p, s[1..], d, j - 1);
    }
    if Cuts(q, s[0], d) {
      EndsBehindCut(Split(Outside, s[1..], d), j);
    } else {
      EndsBehindChar(s[0], Split(p, s[1..], d), j);
    }
  }

  lemma EndsBehindCut(rest: seq<string>, j: nat)
    requires rest != []
    ensures EndsItem([[]] + rest, j) <==> j == 0 || EndsItem(rest, j - 1)
  {
    var items := [[]] + rest;
    assert EndOf(items, 0) == 0;
    forall k: nat | k < |rest|
      ensures EndOf(items, k + 1) == EndOf(rest, k) + 1
    {
      EndOfCons(rest, k);
    }
    if j > 0 && EndsItem(rest, j - 1) {
      var k :| 0 <= k < |rest| - 1 && EndOf(rest, k) == j - 1;
      assert EndOf(items, k + 1) == j;
    }
    if EndsItem(items, j) {
      var k :| 0 <= k < |items| - 1 && EndOf(items, k) == j;
      assert k > 0 ==> EndOf(items, k - 1 + 1) == EndOf(rest, k - 1) + 1;
    }
  }

  lemma EndsBehindChar(c: char, rest: seq<string>, j: nat)
    requires rest != []
    ensures EndsItem(Extend([c], rest), j) <==> j > 0 && EndsItem(rest, j - 1)
  {
    var items := Extend([c], rest);
    forall k: nat | k < |rest|
      ensures EndOf(items, k) == EndOf(rest, k) + 1
    {
      EndOfExtend(c, rest, k);
    }
    if j > 0 && EndsItem(rest, j - 1) {
      var k :| 0 <= k < |rest| - 1 && EndOf(rest, k) == j - 1;
      assert EndOf(items, k) == j;
    }
  }

  /** The positions of the unquoted delimiters. */
  ghost function CutSet(q: Quote, s: string, d: char): set<nat> {
    set j: nat | j < |s| && IsCut(q, s, d, j)
  }

  /** Where the first `n` items end. */
  ghost function Ends(items: seq<string>, n: nat): set<nat>
    requires n <= |items|
  {
    if n == 0 then {} else Ends(items, n - 1) + {EndOf(items, n - 1)}
  }

  lemma {:induction false} EndsBound(items: seq<string>, n: nat, j: nat)
    requires n < |items| && j in Ends(items, n)
    ensures j < EndOf(items, n)
  {
    if j != EndOf(items, n - 1) {
      EndsBound(items, n - 1, j);
    }
  }

  lemma {:induction false} EndsSize(items: seq<string>, n: nat)
    requires n <= |items|
    ensures |Ends(items, n)| == n
  {
    if n > 0 {
      EndsSize(items, n - 1);
      if EndOf(items, n - 1) in Ends(items, n - 1) {
        EndsBound(items, n - 1, EndOf(items, n - 1));
      }
    }
  }

  lemma {:induction false} EndsMembers(items: seq<string>, n: nat, j: nat)
    requires n <= |items|
    ensures j in Ends(items, n) <==> EndsAmong(items, n, j)
  {
    if n > 0 {
      EndsMembers(items, n - 1, j);
      if j == EndOf(items, n - 1) {
        assert EndsAmong(items, n, j);
      } else if EndsAmong(items, n, j) {
        var k :| 0 <= k < n && EndOf(items, k) == j;
        assert EndsAmong(items, n - 1, j);
      }
    }
  }

  // There is one item more than there are unquoted delimiters.
  lemma SplitCount(q: Quote, s: string, d: char)
    ensures |Split(q, s, d)| == 1 + |CutSet(q, s, d)|
  {
    var items := Split(q, s, d);
    var n := |items| - 1;
    EndsSize(items, n);
    forall j: nat
      ensures j in CutSet(q, s, d) <==> j in Ends(items, n)
    {
      SplitAtCuts(q, s, d, j);
      EndsMembers(items, n, j);
    }
    assert CutSet(q, s, d) == Ends(items, n);
  }

  /** A pass that starts in `q` meets no unquoted delimiter. */
  predicate Uncut(q: Quote, s: string, d: char)
    decreases |s|
  {
    s == [] || (!Cuts(q, s[0], d) && Uncut(Step(q, s[0]), s[1..], d))
  }

  // No item holds an unquoted delimiter, although each is scanned from a fresh state.
  lemma {:induction false} ItemsUncut(q: Quote, s: string, d: char)
    ensures Uncut(q, Split(q, s, d)[0], d)
    ensures forall k :: 1 <= k < |Split(q, s, d)| ==> Uncut(Outside, Split(q, s, d)[k], d)
    decreases |s|
  {
    if s == [] {
    } else if Cuts(q, s[0], d) {
      ItemsUncut(Outside, s[1..], d);
    } else {
      ItemsUncut(Step(q, s[0]), s[1..], d);
      var first := Split(q, s, d)[0];
      assert first[1..] == Split(Step(q, s[0]), s[1..], d)[0];
    }
  }

  // Scanning the last item afresh ends in the state in which the whole text ends.
  lemma {:induction false} LastItemState(q: Quote, s: string, d: char)
    ensures var items := Split(q, s, d);
            Run(if |items| == 1 then q else Outside, items[|items| - 1]) == Run(q, s)
    decreases |s|
  {
    if s == [] {
    } else if Cuts(q, s[0], d) {
      LastItemState(Outside, s[1..], d);
    } else {
      LastItemState(Step(q, s[0]), s[1..], d);
      var rest := Split(Step(q, s[0]), s[1..], d);
      assert ([s[0]] + rest[0])[1..] == rest[0];
    }
  }

  // ---------- joining texts ----------

  /** Two item lists whose texts touch: the last item of `a` runs on into the first of `b`. */
  function Glue(a: seq<string>, b: seq<string>): seq<string>
    requires a != [] && b != []
  {
    a[..|a| - 1] + Extend(a[|a| - 1], b)
  }

  lemma GlueCons(a: seq<string>, b: seq<string>, c: char)
    requires a != [] && b != []
    ensures Glue([[]] + a, b) == [[]] + Glue(a, b)
    ensures Glue(Extend([c], a), b) == Extend([c], Glue(a, b))
    ensures Glue([[]], b) == b
  {
    var n := |a| - 1;
    assert ([[]] + a)[..n + 1] == [[]] + a[..n];
    if n == 0 {
      ExtendTwice([c], a[0], b);
    } else {
      assert Extend([c], a)[..n] == Extend([c], a[..n]);
    }
    ExtendTwice([], [], b);
  }

  lemma {:induction false} SplitConcat(q: Quote, s: string, t: string, d: char)
    ensures Split(q, s + t, d) == Glue(Split(q, s, d), Split(Run(q, s), t, d))
    decreases |s|
  {
    var b := Split(Run(q, s), t, d);
    if s == [] {
      assert s + t == t;
      GlueCons([[]], b, d);
    } else {
      var p := Step(q, s[0]);
      assert (s + t)[0] == s[0] && (s + t)[1..] == s[1..] + t;
      SplitConcat(p, s[1..], t, d);
      GlueCons(Split(p, s[1..], d), b, s[0]);
    }
  }

  lemma SplitJoinedGlue(q: Quote, s: string, t: string, d: char)
    ensures Split(q, s + [d] + t, d) == Glue(Split(q, s, d), Split(Run(q, s), [d] + t, d))
  {
    assert s + [d] + t == s + ([d] + t);
    SplitConcat(q, s, [d] + t, d);
  }

  lemma SplitAtDelimiter(q: Quote, t: string, d: char)
    requires d != '"'
    ensures q == Outside ==> Split(q, [d] + t, d) == [[]] + Split(Outside, t, d)
    ensures q != Outside ==> Split(q, [d] + t, d)[0] != []
  {
    assert ([d] + t)[0] == d && ([d] + t)[1..] == t;
  }

  // Two texts joined by the delimiter split separately exactly when the first ends outside quotes.
  lemma SplitJoined(q: Quote, s: string, t: string, d: char)
    requires d != '"'
    ensures Run(q, s) == Outside <==> Split(q, s + [d] + t, d) == Split(q, s, d) + Split(Outside, t, d)
  {
    var a, b, c := Split(q, s, d), Split(Run(q, s), [d] + t, d), Split(Outside, t, d);
    SplitJoinedGlue(q, s, t, d);
    SplitAtDelimiter(Run(q, s), t, d);
    if Run(q, s) == Outside {
      GlueAfterCut(a, c);
    } else {
      LastItemGrows(a, b, c);
    }
  }

  lemma GlueAfterCut(a: seq<string>, c: seq<string>)
    requires a != []
    ensures Glue(a, [[]] + c) == a + c
  {
    var n := |a| - 1;
    assert a[n] + [] == a[n];
    assert a == a[..n] + [a[n]];
  }

  lemma LastItemGrows(a: seq<string>, b: seq<string>, c: seq<string>)
    requires a != [] && b != [] && b[0] != []
    ensures Glue(a, b) != a + c
  {
    var n := |a| - 1;
    assert Glue(a, b)[n] == a[n] + b[0];
    assert (a + c)[n] == a[n];
    assert |a[n] + b[0]| > |a[n]|;
  }

  lemma {:induction false} UncutIsWhole(q: Quote, s: string, d: char)
    requires Uncut(q, s, d)
    ensures Split(q, s, d) == [s]
    decreases |s|
  {
    if s != [] {
      assert s == [s[0]] + s[1..];
      UncutIsWhole(Step(q, s[0]), s[1..], d);
    }
  }

  lemma {:induction false} UncutConcat(q: Quote, s: string, t: string, d: char)
    ensures Uncut(q, s + t, d) <==> Uncut(q, s, d) && Uncut(Run(q, s), t, d)
    decreases |s|
  {
    if s == [] {
      assert s + t == t;
    } else {
      assert (s + t)[1..] == s[1..] + t;
      UncutConcat(Step(q, s[0]), s[1..], t, d);
    }
  }

  /** Text that holds no unquoted `d` and closes every quote it opens. */
  predicate Closed(s: string, d: char) {
    Uncut(Outside, s, d) && Run(Outside, s) == Outside
  }

  // Closed items printed with the delimiter between them split back into themselves.
  lemma {:induction false} SplitOfJoin(items: seq<string>, d: char)
    requires d != '"' && items != []
    requires forall i :: 0 <= i < |items| ==> Closed(items[i], d)
    ensures Split(Outside, Join(items, d), d) == items
  {
    UncutIsWhole(Outside, items[0], d);
    if |items| > 1 {
      SplitOfJoin(items[1..], d);
      SplitJoined(Outside, items[0], Join(items[1..], d), d);
    }
  }

  // Closed items joined by one delimiter are closed for another.
  lemma {:induction false} JoinClosed(items: seq<string>, e: char, d: char)
    requires d != e && e != '"'
    requires forall i :: 0 <= i < |items| ==> Closed(items[i], d)
    ensures Closed(Join(items, e), d)
  {
    if |items| > 1 {
      var rest := Join(items[1..], e);
      JoinClosed(items[1..], e, d);
      assert [e][1..] == [];
      assert Uncut(Outside, [e], d) && Run(Outside, [e]) == Outside;
      UncutConcat(Outside, items[0], [e], d);
      RunConcat(Outside, items[0], [e]);
      UncutConcat(Outside, items[0] + [e], rest, d);
      RunConcat(Outside, items[0] + [e], rest);
    }
  }

  // ---------- two levels ----------

  /** One pass that cuts elements at `d` and pairs at `e`, carrying one quote state over the whole text. */
  function OnePass(q: Quote, s: string, d: char, e: char): (r: seq<seq<string>>)
    ensures r != [] && forall i :: 0 <= i < |r| ==> r[i] != []
    decreases |s|
  {
    if s == [] then [[[]]]
    else if Cuts(q, s[0], d) then [[[]]] + OnePass(Outside, s[1..], d, e)
    else
      var rest := OnePass(Step(q, s[0]), s[1..], d, e);
      [if Cuts(q, s[0], e) then [[]] + rest[0] else Extend([s[0]], rest[0])] + rest[1..]
  }

  function SplitEach(items: seq<string>, e: char): (r: seq<seq<string>>)
    ensures |r| == |items| && forall i :: 0 <= i < |r| ==> r[i] == Split(Outside, items[i], e)
  {
    seq(|items|, i requires 0 <= i < |items| => Split(Outside, items[i], e))
  }

  /** Split the first element from state `q`, and every other element from a fresh state. */
  function TwoLevels(q: Quote, items: seq<string>, e: char): seq<seq<string>>
    requires items != []
  {
    [Split(q, items[0], e)] + SplitEach(items[1..], e)
  }

  // Splitting into elements, and each element again from a fresh state, is the one pass over the whole text.
  lemma {:induction false} TwoLevelsAreOnePass(q: Quote, s: string, d: char, e: char)
    requires d != e
    ensures OnePass(q, s, d, e) == TwoLevels(q, Split(q, s, d), e)
    decreases |s|
  {
    if s == [] {
    } else if Cuts(q, s[0], d) {
      TwoLevelsAreOnePass(Outside, s[1..], d, e);
      TwoLevelsCut(q, Split(Outside, s[1..], d), e);
    } else {
      TwoLevelsAreOnePass(Step(q, s[0]), s[1..], d, e);
      TwoLevelsGrow(q, s[0], Split(Step(q, s[0]), s[1..], d), e);
    }
  }

  lemma TwoLevelsCut(q: Quote, rest: seq<string>, e: char)
    requires rest != []
    ensures TwoLevels(q, [[]] + rest, e) == [[[]]] + TwoLevels(Outside, rest, e)
  {
    assert ([[]] + rest)[1..] == rest;
    assert SplitEach(rest, e) == TwoLevels(Outside, rest, e);
  }

  // One more character in front of the first element lands in its first pair, or closes that pair.
  lemma TwoLevelsGrow(q: Quote, c: char, rest: seq<string>, e: char)
    requires rest != []
    ensures TwoLevels(q, Extend([c], rest), e) ==
            [if Cuts(q, c, e) then [[]] + Split(Outside, rest[0], e) else Extend([c], Split(Step(q, c), rest[0], e))]
            + SplitEach(rest[1..], e)
  {
    var items := Extend([c], rest);
    assert items[0][0] == c && items[0][1..] == rest[0];
    assert items[1..] == rest[1..];
  }

  lemma SplitLastBlank(q: Quote, s: string, b: char, d: char)
    requires Blank(b) && !Blank(d)
    ensures var items := Split(q, s, d);
            Split(q, s + [b], d) == items[..|items| - 1] + [items[|items| - 1] + [b]]
  {
    hide Split, Run, Trim;
    SplitConcat(q, s, [b], d);
    SplitOneBlank(Run(q, s), b, d);
    assert Extend(Split(q, s, d)[|Split(q, s, d)| - 1], [[b]])[1..] == [];
  }

  lemma SplitOneBlank(q: Quote, b: char, d: char)
    requires Blank(b) && !Blank(d)
    ensures Split(q, [b], d) == [[b]]
  {
    assert [b][1..] == [] && [b] + [] == [b];
  }

  // Trimming a text before it is split does not change its trimmed items.
  lemma {:induction false} TrimThenSplit(s: string, d: char)
    requires !Blank(d)
    ensures TrimAll(Split(Outside, Trim(s), d)) == TrimAll(Split(Outside, s, d))
    decreases |s|
  {
    if s == [] {
    } else if Blank(s[0]) {
      TrimThenSplit(s[1..], d);
      SplitFrontBlank(s, d);
    } else if Blank(s[|s| - 1]) {
      var n := |s| - 1;
      TrimThenSplit(s[..n], d);
      SplitBackBlank(s[..n], s[n], d);
      assert s == s[..n] + [s[n]];
    }
  }

  lemma SplitFrontBlank(s: string, d: char)
    requires !Blank(d) && s != [] && Blank(s[0])
    ensures TrimAll(Split(Outside, s, d)) == TrimAll(Split(Outside, s[1..], d))
  {
    assert Split(Outside, s, d) == Extend([s[0]], Split(Outside, s[1..], d));
    FirstBlankTrimmed(Split(Outside, s[1..], d), s[0]);
  }

  lemma FirstBlankTrimmed(items: seq<string>, b: char)
    requires items != [] && Blank(b)
    ensures TrimAll(Extend([b], items)) == TrimAll(items)
  {
    hide Trim;
    TrimFirstBlank(b, items[0]);
  }

  lemma SplitBackBlank(s: string, b: char, d: char)
    requires !Blank(d) && Blank(b)
    ensures TrimAll(Split(Outside, s + [b], d)) == TrimAll(Split(Outside, s, d))
  {
    SplitLastBlank(Outside, s, b, d);
    LastBlankTrimmed(Split(Outside, s, d), b);
  }

  lemma LastBlankTrimmed(items: seq<string>, b: char)
    requires items != [] && Blank(b)
    ensures TrimAll(items[..|items| - 1] + [items[|items| - 1] + [b]]) == TrimAll(items)
  {
    TrimLastBlank(items[|items| - 1], b);
  }

  // What the two nested iterators yield is the one pass, item by item.
  lemma NestedItems(s: string, d: char, e: char, k: nat)
    requires d != e && !Blank(e)
    requires k < |TrimAll(Split(Outside, s, d))|
    ensures |OnePass(Outside, s, d, e)| == |Split(Outside, s, d)|
    ensures TrimAll(Split(Outside, TrimAll(Split(Outside, s, d))[k], e)) == TrimAll(OnePass(Outside, s, d, e)[k])
  {
    hide Split, OnePass, Trim;
    TwoLevelsAreOnePass(Outside, s, d, e);
    var items := Split(Outside, s, d);
    assert OnePass(Outside, s, d, e)[k] == Split(Outside, items[k], e);
    TrimThenSplit(Split(Outside, s, d)[k], e);
  }

  // ---------- undoing the quotes ----------

  function Unescape(s: string): string {
    if s == [] then []
    else if s[0] != '\\' then [s[0]] + Unescape(s[1..])
    else if |s| == 1 then []
    else [s[1]] + Unescape(s[2..])
  }

  /** The text of a quoted string, or the trimmed input when it is not one. */
  function Unquote(input: string): string {
    var t := Trim(input);
    if |t| < 2 || t[0] != '"' || t[|t| - 1] != '"' then t else Unescape(t[1..|t| - 1])
  }

  lemma {:induction false} UnescapePlain(s: string)
    requires '\\' !in s
    ensures Unescape(s) == s
  {
    if s != [] {
      UnescapePlain(s[1..]);
    }
  }

  method UnquoteHttpQuotedString(input: string) returns (output: string)
    ensures output == Unquote(input)
  {
    var t := Trim(input);
    if |t| < 2 || t[0] != '"' || t[|t| - 1] != '"' {
      return t;
    }
    var inner := t[1..|t| - 1];
    if '\\' !in inner {
      UnescapePlain(inner);
      return inner;
    }
    output := UnescapeText(inner);
  }

  method UnescapeText(inner: string) returns (output: string)
    ensures output == Unescape(inner)
  {
    output := [];
    var escaped := false;
    assert inner[0..] == inner;
    for i := 0 to |inner|
      invariant output + UnescapeFrom(escaped, inner[i..]) == Unescape(inner)
    {
      var ch := inner[i];
      UnescapeAt(output, escaped, inner, i);
      if escaped {
        output := output + [ch];
        escaped := false;
      } else if ch == '\\' {
        escaped := true;
      } else {
        output := output + [ch];
      }
    }
    assert inner[|inner|..] == [];
  }

  /** What is still to be written when the scan stands before `s`, possibly behind a backslash. */
  ghost function UnescapeFrom(escaped: bool, s: string): string {
    if escaped && s != [] then [s[0]] + Unescape(s[1..]) else Unescape(s)
  }

  lemma UnescapeAt(done: string, escaped: bool, s: string, i: nat)
    requires i < |s|
    ensures done + UnescapeFrom(escaped, s[i..]) ==
            if !escaped && s[i] == '\\' then done + UnescapeFrom(true, s[i + 1..])
            else done + [s[i]] + UnescapeFrom(false, s[i + 1..])
  {
    hide UnescapeFrom;
    var rest := s[i + 1..];
    assert s[i..] == [s[i]] + rest;
    UnescapeStep(escaped, s[i], rest);
    assert done + ([s[i]] + UnescapeFrom(false, rest)) == done + [s[i]] + UnescapeFrom(false, rest);
  }

  lemma UnescapeStep(escaped: bool, ch: char, rest: string)
    ensures UnescapeFrom(escaped, [ch] + rest) ==
            if !escaped && ch == '\\' then UnescapeFrom(true, rest) else [ch] + UnescapeFrom(false, rest)
  {
    var s := [ch] + rest;
    assert s[1..] == rest;
    if rest != [] {
      assert s[2..] == rest[1..];
    }
  }

  /** Any spelling of `s` inside quotes: `"` and `\` are escaped, and `extra` says which others are too. */
  function Escape(s: string, extra: seq<bool>): string
    requires |extra| == |s|
  {
    if s == [] then []
    else (if s[0] == '"' || s[0] == '\\' || extra[0] then ['\\', s[0]] else [s[0]]) + Escape(s[1..], extra[1..])
  }

  function QuotedString(s: string, extra: seq<bool>): string
    requires |extra| == |s|
  {
    "\"" + Escape(s, extra) + "\""
  }

  lemma {:induction false} UnescapeEscape(s: string, extra: seq<bool>)
    requires |extra| == |s|
    ensures Unescape(Escape(s, extra)) == s
  {
    if s != [] {
      var rest := Escape(s[1..], extra[1..]);
      UnescapeEscape(s[1..], extra[1..]);
      assert (['\\', s[0]] + rest)[2..] == rest;
      assert ([s[0]] + rest)[1..] == rest;
    }
  }

  // What a backslash does, at its first place in any text: it goes, and the character behind it stays as it is. A
  // backslash with nothing behind it just goes.
  lemma {:induction false} UnescapeFirst(s: string, c: char, rest: string)
    requires '\\' !in s
    ensures Unescape(s) == s && Unescape(s + "\\") == s
    ensures Unescape(s + "\\" + [c] + rest) == s + [c] + Unescape(rest)
  {
    UnescapePlain(s);
    var t := s + "\\" + [c] + rest;
    if s == [] {
      assert t[2..] == rest;
    } else {
      assert (s + "\\")[1..] == s[1..] + "\\" && t[1..] == s[1..] + "\\" + [c] + rest;
      UnescapeFirst(s[1..], c, rest);
    }
  }

  function InQuotes(body: string): string {
    "\"" + body + "\""
  }

  // Any text with blanks around it: between two quote marks it is unescaped, and else it is left alone.
  lemma UnquoteExact(pre: string, core: string, post: string)
    requires Blanks(pre) && Blanks(post) && Trimmed(core)
    ensures forall body :: core == InQuotes(body) ==> Unquote(pre + core + post) == Unescape(body)
    ensures (forall body :: core != InQuotes(body)) ==> Unquote(pre + core + post) == core
  {
    TrimPadded(pre, core, post);
    if |core| >= 2 && core[0] == '"' && core[|core| - 1] == '"' {
      assert core == InQuotes(core[1..|core| - 1]);
    }
    forall body | core == InQuotes(body)
      ensures core[1..|core| - 1] == body && core[0] == '"' && core[|core| - 1] == '"'
    {
    }
  }

  // Printing as a quoted string and unquoting gives the text back, whatever was escaped.
  lemma UnquoteQuoted(s: string, extra: seq<bool>)
    requires |extra| == |s|
    ensures Unquote(QuotedString(s, extra)) == s
  {
    var t := QuotedString(s, extra);
    assert Trim(t) == t;
    assert t[1..|t| - 1] == Escape(s, extra);
    UnescapeEscape(s, extra);
  }

  // A quoted body never leaves the quotes, so the closing mark is the one the printer wrote.
  lemma {:induction false} EscapedStaysInside(s: string, extra: seq<bool>, d: char)
    requires |extra| == |s|
    ensures Run(Inside, Escape(s, extra)) == Inside && Uncut(Inside, Escape(s, extra), d)
  {
    if s != [] {
      var t := Escape(s, extra);
      var rest := Escape(s[1..], extra[1..]);
      EscapedStaysInside(s[1..], extra[1..], d);
      assert t[1..] == rest || t[1..][1..] == rest;
    }
  }

  lemma QuotedStringClosed(s: string, extra: seq<bool>, d: char)
    requires |extra| == |s|
    ensures Closed(QuotedString(s, extra), d)
  {
    var t := QuotedString(s, extra);
    var body := Escape(s, extra);
    EscapedStaysInside(s, extra, d);
    assert t[1..] == body + ['"'];
    assert ['"'][1..] == [];
    UncutConcat(Inside, body, ['"'], d);
    RunConcat(Inside, body, ['"']);
  }

  lemma {:induction false} PlainClosed(s: string, d: char)
    requires d !in s && '"' !in s
    ensures Closed(s, d)
  {
    if s != [] {
      PlainClosed(s[1..], d);
    }
  }

  lemma ClosedConcat(s: string, t: string, d: char)
    requires Closed(s, d) && Closed(t, d)
    ensures Closed(s + t, d)
  {
    UncutConcat(Outside, s, t, d);
    RunConcat(Outside, s, t);
  }
}
