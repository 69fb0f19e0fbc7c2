/** Text as the crate reads it: header values, trimming, and splitting at a plain delimiter. */
module Text {
  import opened Wrappers

  // ---------- characters ----------

  predicate Blank(c: char) {
    c == ' ' || c == '\t'
  }

  /** What `HeaderValue::to_str` accepts: visible ASCII, space and tab. */
  predicate Visible(c: char) {
    ' ' <= c <= '~' || c == '\t'
  }

  predicate Readable(value: string) {
    forall c :: c in value ==> Visible(c)
  }

  predicate Digit(c: char) {
    '0' <= c <= '9'
  }

  predicate Letter(c: char) {
    'a' <= c <= 'z' || 'A' <= c <= 'Z'
  }

  function Lower(c: char): char {
    if 'A' <= c <= 'Z' then ((c as int) + 32) as char else c
  }

  predicate EqIgnoreCase(s: string, t: string) {
    |s| == |t| && forall i :: 0 <= i < |s| ==> Lower(s[i]) == Lower(t[i])
  }

  // ---------- trimming ----------

  /** Nothing but spaces and tabs. */
  predicate Blanks(s: string) {
    forall i :: 0 <= i < |s| ==> s[i] == ' ' || s[i] == '\t'
  }

  /** No space or tab at either end. */
  predicate Trimmed(s: string) {
    s != [] ==> s[0] != ' ' && s[0] != '\t' && s[|s| - 1] != ' ' && s[|s| - 1] != '\t'
  }

  function Trim(s: string): (t: string)
    ensures Trimmed(t)
    ensures |t| <= |s|
  {
    if s == [] then []
    else if Blank(s[0]) then Trim(s[1..])
    else if Blank(s[|s| - 1]) then Trim(s[..|s| - 1])
    else s
  }

  lemma {:induction false} TrimLastBlank(s: string, b: char)
    requires Blank(b)
    ensures Trim(s + [b]) == Trim(s)
  {
    if s == [] {
      assert Trim([b]) == Trim([b][1..]);
    } else if Blank(s[0]) {
      TrimLastBlank(s[1..], b);
      assert (s + [b])[1..] == s[1..] + [b];
    } else {
      assert (s + [b])[..|s|] == s;
    }
  }

  // Trimming takes the blanks off both ends and nothing else.
  lemma {:induction false} TrimPadded(pre: string, core: string, post: string)
    requires Blanks(pre) && Blanks(post) && Trimmed(core)
    ensures Trim(pre + core + post) == core
    decreases |pre| + |post|
  {
    hide Trim;
    if pre != [] {
      TrimPadded(pre[1..], core, post);
      assert pre + core + post == [pre[0]] + (pre[1..] + core + post);
      TrimFirstBlank(pre[0], pre[1..] + core + post);
    } else if post != [] {
      var n := |post| - 1;
      TrimPadded(pre, core, post[..n]);
      assert pre + core + post == pre + core + post[..n] + [post[n]];
      TrimLastBlank(pre + core + post[..n], post[n]);
    } else {
      assert pre + core + post == core;
      TrimTrimmed(core);
    }
  }

  lemma TrimFirstBlank(b: char, s: string)
    requires Blank(b)
    ensures Trim([b] + s) == Trim(s)
  {
    assert ([b] + s)[1..] == s;
  }

  lemma TrimTrimmed(s: string)
    requires Trimmed(s)
    ensures Trim(s) == s
  {
  }

  lemma {:induction false} TrimMargins(s: string) returns (pre: string, post: string)
    ensures Blanks(pre) && Blanks(post) && s == pre + Trim(s) + post
  {
    pre, post := [], [];
    if s == [] {
    } else if Blank(s[0]) {
      pre, post := TrimMargins(s[1..]);
      pre := [s[0]] + pre;
    } else if Blank(s[|s| - 1]) {
      pre, post := TrimMargins(s[..|s| - 1]);
      post := post + [s[|s| - 1]];
    }
  }

  // Trimming around a character that is no blank trims the two sides apart.
  lemma {:induction false} TrimAround(a: string, c: char, b: string) returns (left: string, right: string)
    requires !Blank(c)
    ensures Trim(a + [c] + b) == left + [c] + right
    ensures Trim(left) == Trim(a) && Trim(right) == Trim(b)
    ensures forall x :: x in left ==> x in a
    decreases |a| + |b|
  {
    var s := a + [c] + b;
    left, right := a, b;
    assert s[0] == if a == [] then c else a[0];
    assert s[|s| - 1] == if b == [] then c else b[|b| - 1];
    if a != [] && Blank(a[0]) {
      assert s[1..] == a[1..] + [c] + b;
      left, right := TrimAround(a[1..], c, b);
    } else if b != [] && Blank(b[|b| - 1]) {
      var n := |b| - 1;
      assert s[..|s| - 1] == a + [c] + b[..n];
      left, right := TrimAround(a, c, b[..n]);
      assert b == b[..n] + [b[n]];
      TrimLastBlank(b[..n], b[n]);
    }
  }

  lemma {:induction false} TrimKeepsInk(s: string, c: char)
    requires c in s && !Blank(c)
    ensures c in Trim(s)
  {
    if Blank(s[0]) {
      assert s == [s[0]] + s[1..];
      TrimKeepsInk(s[1..], c);
    } else if Blank(s[|s| - 1]) {
      var n := |s| - 1;
      assert s == s[..n] + [s[n]];
      TrimKeepsInk(s[..n], c);
    }
  }

  function TrimAll(items: seq<string>): (r: seq<string>)
    ensures |r| == |items| && forall i :: 0 <= i < |r| ==> r[i] == Trim(items[i])
  {
    seq(|items|, i requires 0 <= i < |items| => Trim(items[i]))
  }

  lemma TrimAllConcat(s: seq<string>, t: seq<string>)
    ensures TrimAll(s + t) == TrimAll(s) + TrimAll(t)
  {
  }

  lemma TrimAllOne(s: string)
    ensures TrimAll([s]) == [Trim(s)]
  {
  }

  /** The items that are not empty. */
  function Ink(items: seq<string>): (r: seq<string>)
    ensures |r| <= |items|
  {
    if items == [] then []
    else if items[0] == [] then Ink(items[1..])
    else [items[0]] + Ink(items[1..])
  }

  lemma {:induction false} InkConcat(s: seq<string>, t: seq<string>)
    ensures Ink(s + t) == Ink(s) + Ink(t)
  {
    if s == [] {
      assert s + t == t;
    } else {
      assert (s + t)[1..] == s[1..] + t;
      InkConcat(s[1..], t);
    }
  }

  lemma InkOne(item: string)
    ensures Ink([item]) == if item == [] then [] else [item]
  {
    assert [item][1..] == [];
  }

  function Flatten<T>(parts: seq<seq<T>>): seq<T> {
    if parts == [] then [] else parts[0] + Flatten(parts[1..])
  }

  lemma {:induction false} FlattenConcat<T>(s: seq<seq<T>>, t: seq<seq<T>>)
    ensures Flatten(s + t) == Flatten(s) + Flatten(t)
  {
    if s == [] {
      assert s + t == t;
    } else {
      assert (s + t)[1..] == s[1..] + t;
      FlattenConcat(s[1..], t);
    }
  }

  lemma FlattenOne<T>(part: seq<T>)
    ensures Flatten([part]) == part
  {
    assert [part][1..] == [];
    assert part + [] == part;
  }

  // ---------- splitting ----------

  /** Lists of items are never empty, so an item can be extended at the front of the first. */
  function Extend(prefix: string, items: seq<string>): seq<string>
    requires items != []
  {
    [prefix + items[0]] + items[1..]
  }

  lemma ExtendTwice(s: string, t: string, items: seq<string>)
    requires items != []
    ensures Extend(s, Extend(t, items)) == Extend(s + t, items)
    ensures Extend([], items) == items
  {
    assert s + (t + items[0]) == (s + t) + items[0];
    assert [] + items[0] == items[0];
  }

  /** `str::split`. */
  function PlainSplit(s: string, d: char): (items: seq<string>)
    ensures items != []
  {
    if s == [] then [[]]
    else if s[0] == d then [[]] + PlainSplit(s[1..], d)
    else Extend([s[0]], PlainSplit(s[1..], d))
  }

  lemma {:induction false} PlainSplitJoined(s: string, d: char, t: string)
    ensures PlainSplit(s + [d] + t, d) == PlainSplit(s, d) + PlainSplit(t, d)
  {
    if s == [] {
      assert (s + [d] + t)[1..] == t;
    } else {
      assert (s + [d] + t)[1..] == s[1..] + [d] + t;
      PlainSplitJoined(s[1..], d, t);
    }
  }

  lemma {:induction false} PlainSplitWhole(s: string, d: char)
    requires d !in s
    ensures PlainSplit(s, d) == [s]
  {
    if s != [] {
      assert s[0] in s && s == [s[0]] + s[1..];
      PlainSplitWhole(s[1..], d);
    }
  }

  /** `str::split_once`: around the first delimiter. */
  function SplitOnce(s: string, d: char): (r: Option<(string, string)>)
    ensures r.None? <==> d !in s
    ensures r.Some? ==> d !in r.value.0 && s == r.value.0 + [d] + r.value.1
  {
    if s == [] then None
    else if s[0] == d then Some(([], s[1..]))
    else match SplitOnce(s[1..], d)
      case None => None
      case Some(parts) => Some(([s[0]] + parts.0, parts.1))
  }

  lemma {:induction false} SplitOnceAt(name: string, d: char, rest: string)
    requires d !in name
    ensures SplitOnce(name + [d] + rest, d) == Some((name, rest))
  {
    if name == [] {
      assert (name + [d] + rest)[1..] == rest;
    } else {
      assert (name + [d] + rest)[1..] == name[1..] + [d] + rest;
      assert name[0] in name && name == [name[0]] + name[1..];
      SplitOnceAt(name[1..], d, rest);
    }
  }

  /** `str::rsplit_once`: around the last delimiter. */
  function RSplitOnce(s: string, d: char): (r: Option<(string, string)>)
    ensures r.None? <==> d !in s
    ensures r.Some? ==> d !in r.value.1 && s == r.value.0 + [d] + r.value.1
  {
    if s == [] then None
    else if s[|s| - 1] == d then Some((s[..|s| - 1], []))
    else match RSplitOnce(s[..|s| - 1], d)
      case None => None
      case Some(parts) => Some((parts.0, parts.1 + [s[|s| - 1]]))
  }

  lemma {:induction false} RSplitOnceAt(host: string, d: char, port: string)
    requires d !in port
    ensures RSplitOnce(host + [d] + port, d) == Some((host, port))
  {
    var s := host + [d] + port;
    if port == [] {
      assert s[..|s| - 1] == host;
    } else {
      var n := |port| - 1;
      assert s[..|s| - 1] == host + [d] + port[..n];
      assert port[n] in port && port == port[..n] + [port[n]];
      RSplitOnceAt(host, d, port[..n]);
    }
  }

  /** The items of `str::split` in the order `next_back` finds them: from the last delimiter leftwards. */
  function BackSplit(s: string, d: char): seq<string>
    decreases |s|
  {
    match RSplitOnce(s, d)
    case None => [s]
    case Some(parts) => [parts.1] + BackSplit(parts.0, d)
  }

  function Reverse<T>(s: seq<T>): (r: seq<T>)
    ensures |r| == |s| && forall i :: 0 <= i < |r| ==> r[i] == s[|s| - 1 - i]
  {
    seq(|s|, i requires 0 <= i < |s| => s[|s| - 1 - i])
  }

  lemma ReverseConcat<T>(s: seq<T>, t: seq<T>)
    ensures Reverse(s + t) == Reverse(t) + Reverse(s)
  {
  }

  lemma {:induction false} InkReverse(items: seq<string>)
    ensures Ink(Reverse(items)) == Reverse(Ink(items))
  {
    if items != [] {
      var first, rest := [items[0]], items[1..];
      assert items == first + rest;
      InkReverse(rest);
      ReverseConcat(first, rest);
      InkConcat(Reverse(rest), Reverse(first));
      InkConcat(first, rest);
      ReverseConcat(Ink(first), Ink(rest));
      InkOne(items[0]);
    }
  }

  // Splitting from the back gives the forward items in reverse.
  lemma {:induction false} BackSplitReverses(s: string, d: char)
    ensures BackSplit(s, d) == Reverse(PlainSplit(s, d))
    decreases |s|
  {
    match RSplitOnce(s, d)
    case None =>
      PlainSplitWhole(s, d);
    case Some(parts) =>
      PlainSplitJoined(parts.0, d, parts.1);
      PlainSplitWhole(parts.1, d);
      BackSplitReverses(parts.0, d);
  }

  function Join(items: seq<string>, d: char): string {
    if items == [] then []
    else if |items| == 1 then items[0]
    else items[0] + [d] + Join(items[1..], d)
  }

  // A character or a delimiter put in front of the items lands in front of the joined text.
  lemma JoinFront(items: seq<string>, c: char, d: char)
    requires items != []
    ensures Join([[]] + items, d) == [d] + Join(items, d)
    ensures Join(Extend([c], items), d) == [c] + Join(items, d)
  {
    assert ([[]] + items)[1..] == items;
    assert [] + [d] + Join(items, d) == [d] + Join(items, d);
    if |items| > 1 {
      var rest := Join(items[1..], d);
      assert Extend([c], items)[1..] == items[1..];
      assert ([c] + items[0]) + [d] + rest == [c] + (items[0] + [d] + rest);
    }
  }

  lemma {:induction false} JoinMembers(items: seq<string>, d: char)
    ensures forall c :: c in Join(items, d) ==> c == d || exists i :: 0 <= i < |items| && c in items[i]
  {
    if |items| > 1 {
      JoinMembers(items[1..], d);
      forall c | c in Join(items, d) && c != d && c !in items[0]
        ensures exists i :: 0 <= i < |items| && c in items[i]
      {
        var i :| 0 <= i < |items[1..]| && c in items[1..][i];
        assert c in items[i + 1];
      }
    } else if |items| == 1 {
      assert items[0] == Join(items, d);
    }
  }
}
