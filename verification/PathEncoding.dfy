/** The names that logical paths have on disk, and the order those names give the tree. */
module PathEncoding {
  import opened Wrappers
  import opened Order

  /** The UTF-8 bytes of one component of a path. */
  type Component = seq<byte>

  // ----- one component

  function HexDigit(d: int): (c: char)
    requires 0 <= d < 16
    ensures c != '/'
  {
    if d < 10 then (48 + d) as char else (87 + d) as char
  }

  function HexValue(c: char): (d: Option<int>)
    ensures d.Some? ==> 0 <= d.value < 16
  {
    if '0' <= c <= '9' then Some(c as int - '0' as int)
    else if 'a' <= c <= 'f' then Some(c as int - 'a' as int + 10)
    else if 'A' <= c <= 'F' then Some(c as int - 'A' as int + 10)
    else None
  }

  function Hex(bytes: Component): string {
    if bytes == [] then [] else HexPair(bytes[0]) + Hex(bytes[1..])
  }

  function HexPair(b: byte): (pair: string)
    ensures |pair| == 2 && '/' !in pair
  {
    [HexDigit(b as int / 16), HexDigit(b as int % 16)]
  }

  function FromHex(s: string): Option<Component> {
    if s == [] then Some([])
    else if |s| == 1 then None
    else
      var first, rest := PairValue(s[..2]), FromHex(s[2..]);
      if first.None? || rest.None? then None else Some([first.value] + rest.value)
  }

  function PairValue(pair: string): Option<byte>
    requires |pair| == 2
  {
    var high, low := HexValue(pair[0]), HexValue(pair[1]);
    if high.None? || low.None? then None else Some((high.value * 16 + low.value) as byte)
  }

  /** The disk name of a component. */
  function ComponentName(c: Component): string {
    "p-" + Hex(c)
  }

  function LogicalName(name: string): Option<Component> {
    if |name| >= 2 && name[..2] == "p-" then FromHex(name[2..]) else None
  }

  lemma PairRoundTrip(b: byte)
    ensures PairValue(HexPair(b)) == Some(b)
  {
    var high, low := b as int / 16, b as int % 16;
    assert HexValue(HexDigit(high)) == Some(high) && HexValue(HexDigit(low)) == Some(low);
  }

  lemma {:induction false} HexRoundTrip(c: Component)
    ensures FromHex(Hex(c)) == Some(c)
  {
    hide HexPair, PairValue;
    if c != [] {
      PairRoundTrip(c[0]);
      HexRoundTrip(c[1..]);
      assert Hex(c)[..2] == HexPair(c[0]) && Hex(c)[2..] == Hex(c[1..]);
      assert c == [c[0]] + c[1..];
    }
  }

  lemma ComponentRoundTrip(c: Component)
    ensures LogicalName(ComponentName(c)) == Some(c)
  {
    HexRoundTrip(c);
    assert ComponentName(c)[..2] == "p-" && ComponentName(c)[2..] == Hex(c);
  }

  const HEX_DIGITS: string := "0123456789abcdef"

  /** A component's name is p- and two lower-case hexadecimal digits for each byte. */
  lemma {:induction false} ComponentNameIs(c: Component)
    ensures |Hex(c)| == 2 * |c| && ComponentName(c) == "p-" + Hex(c)
    ensures forall i :: 0 <= i < |c| ==>
      Hex(c)[2 * i] == HEX_DIGITS[c[i] as int / 16] && Hex(c)[2 * i + 1] == HEX_DIGITS[c[i] as int % 16]
  {
    if c != [] {
      ComponentNameIs(c[1..]);
      HexPairIs(c[0]);
      forall i | 0 < i < |c| ensures Hex(c)[2 * i] == Hex(c[1..])[2 * (i - 1)] && Hex(c)[2 * i + 1] == Hex(c[1..])[2 * (i - 1) + 1] {}
    }
  }

  lemma HexPairIs(b: byte)
    ensures HexPair(b)[0] == HEX_DIGITS[b as int / 16] && HexPair(b)[1] == HEX_DIGITS[b as int % 16]
  {
  }

  // ----- paths

  /** The encoded path: the components' names joined by slashes. */
  function TreePath(path: seq<Component>): string
    requires path != []
  {
    if |path| == 1 then ComponentName(path[0]) else ComponentName(path[0]) + "/" + TreePath(path[1..])
  }

  function FirstSlash(s: string): (i: nat)
    ensures i <= |s| && forall j :: 0 <= j < i ==> s[j] != '/'
    ensures i < |s| ==> s[i] == '/'
  {
    if s == [] || s[0] == '/' then 0 else 1 + FirstSlash(s[1..])
  }

  /** The components a path on disk stands for, unless some name is not an encoded one. */
  function LogicalPath(s: string): Option<seq<Component>>
    decreases |s|
  {
    var i := FirstSlash(s);
    var first := LogicalName(s[..i]);
    if first.None? then None
    else if i == |s| then Some([first.value])
    else
      var rest := LogicalPath(s[i + 1..]);
      if rest.None? then None else Some([first.value] + rest.value)
  }

  lemma {:induction false} NamesHaveNoSlash(c: Component)
    ensures '/' !in Hex(c) && '/' !in ComponentName(c)
  {
    hide HexPair;
    if c != [] {
      NamesHaveNoSlash(c[1..]);
    }
  }

  lemma SlashAfterName(c: Component, tail: string)
    requires tail == [] || tail[0] == '/'
    ensures var s := ComponentName(c) + tail; FirstSlash(s) == |ComponentName(c)| && s[..FirstSlash(s)] == ComponentName(c)
  {
    NamesHaveNoSlash(c);
    hide ComponentName;
    var name := ComponentName(c);
    var s := name + tail;
    assert forall j :: 0 <= j < |name| ==> s[j] == name[j];
    assert FirstSlash(s) >= |name|;
    assert tail != [] ==> s[|name|] == '/';
    assert s[..|name|] == name;
  }

  /** Decoding an encoded path gives the path back. */
  lemma {:induction false} PathRoundTrip(path: seq<Component>)
    requires path != []
    ensures LogicalPath(TreePath(path)) == Some(path)
  {
    hide ComponentName, LogicalName;
    ComponentRoundTrip(path[0]);
    var s, tail := TreePath(path), if |path| == 1 then [] else "/" + TreePath(path[1..]);
    SlashAfterName(path[0], tail);
    assert s == ComponentName(path[0]) + tail;
    var i := FirstSlash(s);
    assert s[..i] == ComponentName(path[0]);
    assert path == [path[0]] + path[1..];
    if |path| == 1 {
      assert i == |s| && path == [path[0]];
      assert LogicalPath(s) == Some([path[0]]);
    } else {
      PathRoundTrip(path[1..]);
      assert s[i + 1..] == TreePath(path[1..]);
    }
  }

  // ----- order

  predicate BytesLess(a: Component, b: Component) {
    if b == [] then false
    else if a == [] then true
    else if a[0] != b[0] then a[0] < b[0]
    else BytesLess(a[1..], b[1..])
  }

  /** Lexicographic by component. */
  predicate ComponentsLess(a: seq<Component>, b: seq<Component>) {
    if b == [] then false
    else if a == [] then true
    else if a[0] != b[0] then BytesLess(a[0], b[0])
    else ComponentsLess(a[1..], b[1..])
  }

  /** What may follow a component's digits: nothing, or a slash, which sorts below every digit. */
  predicate EndsName(tail: string) {
    tail == [] || tail[0] == '/'
  }

  lemma CommonPrefix(p: string, a: string, b: string)
    ensures StringLess(p + a, p + b) <==> StringLess(a, b)
  {
    if p == [] {
      assert p + a == a && p + b == b;
    } else {
      CommonPrefix(p[1..], a, b);
      assert (p + a)[1..] == p[1..] + a && (p + b)[1..] == p[1..] + b;
    }
  }

  lemma PairDecides(x: byte, y: byte, s: string, t: string)
    requires x != y
    ensures StringLess(HexPair(x) + s, HexPair(y) + t) <==> x < y
  {
    var a, b := x as int / 16, y as int / 16;
    var c, d := x as int % 16, y as int % 16;
    assert HexDigit(a) < HexDigit(b) <==> a < b;
    assert HexDigit(c) < HexDigit(d) <==> c < d;
    var l, r := HexPair(x) + s, HexPair(y) + t;
    assert l[0] == HexDigit(a) && r[0] == HexDigit(b);
    assert l[1..][0] == HexDigit(c) && r[1..][0] == HexDigit(d);
  }

  lemma {:induction false} HexKeepsOrder(a: Component, b: Component, s: string, t: string)
    requires a != b && EndsName(s) && EndsName(t)
    ensures StringLess(Hex(a) + s, Hex(b) + t) <==> BytesLess(a, b)
  {
    hide HexPair;
    if a == [] {
      assert Hex(a) + s == s;
      SlashSortsFirst(b, s, t);
    } else if b == [] {
      assert Hex(b) + t == t;
      SlashSortsFirst(a, t, s);
    } else {
      assert Hex(a) + s == HexPair(a[0]) + (Hex(a[1..]) + s);
      assert Hex(b) + t == HexPair(b[0]) + (Hex(b[1..]) + t);
      if a[0] == b[0] {
        assert a == [a[0]] + a[1..] && b == [b[0]] + b[1..];
        CommonPrefix(HexPair(a[0]), Hex(a[1..]) + s, Hex(b[1..]) + t);
        HexKeepsOrder(a[1..], b[1..], s, t);
      } else {
        PairDecides(a[0], b[0], Hex(a[1..]) + s, Hex(b[1..]) + t);
      }
    }
  }

  /** What follows the shorter name sorts below the longer name's next digit. */
  lemma SlashSortsFirst(c: Component, s: string, t: string)
    requires c != [] && EndsName(s)
    ensures StringLess(s, Hex(c) + t) && !StringLess(Hex(c) + t, s)
  {
    var long := Hex(c) + t;
    assert long[0] == HexDigit(c[0] as int / 16);
  }

  lemma EmptySortsFirst(s: string, t: string)
    ensures s == [] || t == [] ==> (StringLess(s, t) <==> t != [])
  {
  }

  /** The order of encoded paths as strings is the lexicographic order of their components. */
  lemma {:induction false} TreeOrder(a: seq<Component>, b: seq<Component>)
    requires a != [] && b != []
    ensures StringLess(TreePath(a), TreePath(b)) <==> ComponentsLess(a, b)
  {
    hide Hex, StringLess;
    var s := if |a| == 1 then [] else "/" + TreePath(a[1..]);
    var t := if |b| == 1 then [] else "/" + TreePath(b[1..]);
    assert TreePath(a) == "p-" + (Hex(a[0]) + s) && TreePath(b) == "p-" + (Hex(b[0]) + t);
    CommonPrefix("p-", Hex(a[0]) + s, Hex(b[0]) + t);
    if a[0] != b[0] {
      HexKeepsOrder(a[0], b[0], s, t);
    } else {
      CommonPrefix(Hex(a[0]), s, t);
      if |a| == 1 || |b| == 1 {
        EmptySortsFirst(s, t);
        assert |a| == 1 ==> a[1..] == [];
        assert |b| == 1 ==> b[1..] == [];
      } else {
        CommonPrefix("/", TreePath(a[1..]), TreePath(b[1..]));
        TreeOrder(a[1..], b[1..]);
      }
    }
  }

  /** The logical path as the catalog writes it, one character for each byte. */
  function Plain(path: seq<Component>): string
    requires path != []
  {
    if |path| == 1 then Characters(path[0]) else Characters(path[0]) + "/" + Plain(path[1..])
  }

  function Characters(c: Component): string {
    if c == [] then [] else [c[0] as char] + Characters(c[1..])
  }

  function CommonLength(a: string, b: string): (n: nat)
    ensures n <= |a| && n <= |b|
  {
    if a == [] || b == [] || a[0] != b[0] then 0 else 1 + CommonLength(a[1..], b[1..])
  }

  /** Where the two first differ, one has a slash and the other a character below it. */
  predicate SlashMeetsLess(a: string, b: string) {
    var i := CommonLength(a, b);
    i < |a| && i < |b| && ((a[i] == '/' && b[i] < '/') || (b[i] == '/' && a[i] < '/'))
  }

  predicate Slashless(c: Component) {
    forall i :: 0 <= i < |c| ==> c[i] as char != '/'
  }

  lemma CommonPrefixMeets(p: string, a: string, b: string)
    ensures SlashMeetsLess(p + a, p + b) <==> SlashMeetsLess(a, b)
  {
    if p == [] {
      assert p + a == a && p + b == b;
    } else {
      CommonPrefixMeets(p[1..], a, b);
      assert (p + a)[1..] == p[1..] + a && (p + b)[1..] == p[1..] + b;
    }
  }

  lemma SlashlessRest(c: Component)
    requires c != [] && Slashless(c)
    ensures Slashless(c[1..])
  {
    assert forall i :: 0 <= i < |c[1..]| ==> c[1..][i] == c[i + 1];
  }

  lemma {:induction false} CharactersKeepOrderUnless(a: Component, b: Component, s: string, t: string)
    requires a != b && Slashless(a) && Slashless(b) && EndsName(s) && EndsName(t)
    ensures var l, r := Characters(a) + s, Characters(b) + t;
      (StringLess(l, r) <==> BytesLess(a, b)) <==> !SlashMeetsLess(l, r)
  {
    var l, r := Characters(a) + s, Characters(b) + t;
    if a == [] {
      assert l == s;
    } else if b == [] {
      assert r == t;
    } else if a[0] == b[0] {
      hide StringLess, SlashMeetsLess;
      var c, restA, restB := [a[0] as char], Characters(a[1..]) + s, Characters(b[1..]) + t;
      assert a == [a[0]] + a[1..] && b == [b[0]] + b[1..];
      assert l == c + restA && r == c + restB;
      CommonPrefix(c, restA, restB);
      CommonPrefixMeets(c, restA, restB);
      SlashlessRest(a);
      SlashlessRest(b);
      CharactersKeepOrderUnless(a[1..], b[1..], s, t);
    } else {
      assert l[0] == a[0] as char && r[0] == b[0] as char;
    }
  }

  /**
   The catalog's order of paths and the tree's disagree exactly if, where the paths first differ,
   one has a slash and the other a character below it.
   */
  lemma {:induction false} OrdersDisagreeIff(a: seq<Component>, b: seq<Component>)
    requires a != [] && b != [] && a != b
    requires (forall c :: c in a ==> Slashless(c)) && forall c :: c in b ==> Slashless(c)
    ensures (StringLess(Plain(a), Plain(b)) <==> StringLess(TreePath(a), TreePath(b))) <==> !SlashMeetsLess(Plain(a), Plain(b))
  {
    hide StringLess, SlashMeetsLess, Characters, TreePath;
    var s := if |a| == 1 then [] else "/" + Plain(a[1..]);
    var t := if |b| == 1 then [] else "/" + Plain(b[1..]);
    assert Plain(a) == Characters(a[0]) + s && Plain(b) == Characters(b[0]) + t;
    TreeOrder(a, b);
    if a[0] != b[0] {
      CharactersKeepOrderUnless(a[0], b[0], s, t);
    } else {
      CommonPrefix(Characters(a[0]), s, t);
      CommonPrefixMeets(Characters(a[0]), s, t);
      assert a == [a[0]] + a[1..] && b == [b[0]] + b[1..];
      if |a| == 1 || |b| == 1 {
        EmptySortsFirst(s, t);
        EmptyMeetsNothing(s, t);
      } else {
        CommonPrefix("/", Plain(a[1..]), Plain(b[1..]));
        CommonPrefixMeets("/", Plain(a[1..]), Plain(b[1..]));
        OrdersDisagreeIff(a[1..], b[1..]);
        TreeOrder(a[1..], b[1..]);
      }
    }
  }

  lemma EmptyMeetsNothing(s: string, t: string)
    ensures s == [] || t == [] ==> !SlashMeetsLess(s, t)
  {
  }

  /** So a-x comes before a/b in the catalog and after it in the tree. */
  lemma LogicalOrderDiffers()
    ensures var a, b := [[97, 45, 120]], [[97], [98]];
      && Plain(a) == "a-x" && Plain(b) == "a/b"
      && StringLess(Plain(a), Plain(b)) && StringLess(TreePath(b), TreePath(a))
  {
    var a: seq<Component>, b: seq<Component> := [[97, 45, 120]], [[97], [98]];
    assert Characters([97, 45, 120]) == "a-x" && Characters([97]) == "a" && Characters([98]) == "b" by {
      assert Characters([120]) == "x" && Characters([45, 120]) == "-x";
    }
    assert Plain(b[1..]) == "b";
    assert Plain(a) == "a-x" && Plain(b) == "a/b";
    assert StringLess("-x", "/b");
    assert "a-x"[1..] == "-x" && "a/b"[1..] == "/b";
    assert BytesLess(b[0][1..], a[0][1..]);
    TreeOrder(b, a);
  }
}
