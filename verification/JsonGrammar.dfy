/**
 RFC 8259 as derivation trees: what a JSON text is, independently of how it is read. `Yield` gives the bytes of a
 tree, `Tree` the value it denotes. The reader accepts exactly the yields of trees no deeper than the cap.
 */
module JsonGrammar {
  import opened Options
  import opened Utf8
  import opened Json

  // --- bytes at a place ---------------------------------------------------------------

  predicate Holds(b: seq<byte>, i: nat, w: seq<byte>) {
    i + |w| <= |b| && b[i..i + |w|] == w
  }

  lemma {:induction false} HoldsSplit(b: seq<byte>, i: nat, u: seq<byte>, v: seq<byte>)
    ensures Holds(b, i, u + v) <==> Holds(b, i, u) && Holds(b, i + |u|, v)
    ensures Holds(b, i, u + v) ==> i + |u| + |v| <= |b|
  {
    if Holds(b, i, u + v) {
      assert b[i..i + |u|] == b[i..i + |u + v|][..|u|];
      assert b[i + |u|..i + |u| + |v|] == b[i..i + |u + v|][|u|..];
    }
    if Holds(b, i, u) && Holds(b, i + |u|, v) {
      assert b[i..i + |u + v|] == b[i..i + |u|] + b[i + |u|..i + |u| + |v|];
    }
  }

  lemma {:induction false} HoldsAt(b: seq<byte>, i: nat, w: seq<byte>, k: nat)
    requires Holds(b, i, w) && k < |w|
    ensures i + |w| <= |b| && b[i + k] == w[k]
  {
    assert b[i..i + |w|][k] == b[i + k];
  }

  lemma {:induction false} HoldsOne(b: seq<byte>, i: nat, c: byte)
    ensures Holds(b, i, [c]) <==> At(b, i) == c
  {
  }

  predicate AllWs(w: seq<byte>) {
    forall k | 0 <= k < |w| :: IsWs(w[k])
  }

  predicate AllDigits(w: seq<byte>) {
    forall k | 0 <= k < |w| :: IsDigit(w[k])
  }

  lemma {:induction false} SkipWsOver(b: seq<byte>, i: nat, w: seq<byte>)
    requires Holds(b, i, w) && AllWs(w) && !IsWs(At(b, i + |w|))
    ensures SkipWs(b, i) == i + |w|
    decreases |w|
  {
    if w != [] {
      HoldsAt(b, i, w, 0);
      HoldsSplit(b, i, [w[0]], w[1..]);
      assert w == [w[0]] + w[1..];
      SkipWsOver(b, i + 1, w[1..]);
    }
  }

  lemma {:induction false} SkipDigitsOver(b: seq<byte>, i: nat, w: seq<byte>)
    requires Holds(b, i, w) && AllDigits(w) && !IsDigit(At(b, i + |w|))
    ensures SkipDigits(b, i) == i + |w|
    decreases |w|
  {
    if w != [] {
      HoldsAt(b, i, w, 0);
      HoldsSplit(b, i, [w[0]], w[1..]);
      assert w == [w[0]] + w[1..];
      SkipDigitsOver(b, i + 1, w[1..]);
    }
  }

  // --- strings: section 7 ---------------------------------------------------------------

  /** One `char` of the grammar, with any byte from 0x80 up let through as it stands. */
  datatype Char = Raw(b: byte) | Esc(e: byte) | Uni(h0: byte, h1: byte, h2: byte, h3: byte)

  predicate WfChar(c: Char) {
    match c
    case Raw(b) => b >= 0x20 && b != 0x22 && b != 0x5c
    case Esc(e) => SimpleEscape(e) >= 0
    case Uni(h0, h1, h2, h3) => HexVal(h0) >= 0 && HexVal(h1) >= 0 && HexVal(h2) >= 0 && HexVal(h3) >= 0
  }

  predicate WfChars(cs: seq<Char>) {
    forall k | 0 <= k < |cs| :: WfChar(cs[k])
  }

  function CharBytes(c: Char): (s: seq<byte>)
    ensures s != []
  {
    match c
    case Raw(b) => [b]
    case Esc(e) => [0x5c, e]
    case Uni(h0, h1, h2, h3) => [0x5c, 0x75, h0, h1, h2, h3]
  }

  function Body(cs: seq<Char>): seq<byte> {
    if cs == [] then [] else CharBytes(cs[0]) + Body(cs[1..])
  }

  function UniVal(c: Char): (n: nat)
    requires c.Uni? && WfChar(c)
    ensures n < 0x10000
  {
    ((HexVal(c.h0) * 16 + HexVal(c.h1)) * 16 + HexVal(c.h2)) * 16 + HexVal(c.h3)
  }

  predicate IsLow(c: Char)
    requires WfChar(c)
  {
    c.Uni? && 0xdc00 <= UniVal(c) < 0xe000
  }

  /** How many of the first characters stand for themselves. */
  function RawRun(cs: seq<Char>): (n: nat)
    ensures n <= |cs| && forall k | 0 <= k < n :: cs[k].Raw?
    ensures n < |cs| ==> !cs[n].Raw?
  {
    if cs != [] && cs[0].Raw? then 1 + RawRun(cs[1..]) else 0
  }

  /**
   The text of a string: each maximal stretch of raw bytes read as UTF-8 with one U+FFFD a bad byte, a pair of
   surrogate escapes as one character, a lone one as U+FFFD.
   */
  function Meaning(cs: seq<Char>): string
    requires WfChars(cs)
    decreases |cs|
  {
    if cs == [] then ""
    else
      match cs[0]
      case Raw(_) => Lossy(Body(cs[..RawRun(cs)])) + Meaning(cs[RawRun(cs)..])
      case Esc(e) => [SimpleEscape(e) as char] + Meaning(cs[1..])
      case Uni(_, _, _, _) =>
        var v := UniVal(cs[0]);
        if !IsSurrogate(v) then [v as char] + Meaning(cs[1..])
        else if v < 0xdc00 && |cs| > 1 && IsLow(cs[1]) then [PairOf(v, UniVal(cs[1]))] + Meaning(cs[2..])
        else [REPLACEMENT] + Meaning(cs[1..])
  }

  /** No escape and nothing above 0x7f. */
  predicate Plain(cs: seq<Char>) {
    forall k | 0 <= k < |cs| :: cs[k].Raw? && cs[k].b < 0x80
  }

  // --- numbers: section 6 -----------------------------------------------------------------

  datatype Exponent = Exponent(e: byte, sign: seq<byte>, digits: seq<byte>)
  datatype Numeral = Numeral(minus: bool, whole: seq<byte>, frac: Option<seq<byte>>, exp: Option<Exponent>)

  predicate WfNumeral(n: Numeral) {
    && n.whole != [] && AllDigits(n.whole) && (n.whole[0] == 0x30 ==> |n.whole| == 1)
    && (n.frac.Some? ==> n.frac.value != [] && AllDigits(n.frac.value))
    && (n.exp.Some? ==>
          && n.exp.value.digits != [] && AllDigits(n.exp.value.digits)
          && (n.exp.value.e == 0x65 || n.exp.value.e == 0x45)
          && (n.exp.value.sign == [] || n.exp.value.sign == [0x2b] || n.exp.value.sign == [0x2d]))
  }

  function MinusBytes(n: Numeral): seq<byte> {
    if n.minus then [0x2d] else []
  }

  function FracOf(f: Option<seq<byte>>): seq<byte> {
    if f.Some? then [0x2e] + f.value else []
  }

  function ExpOf(x: Option<Exponent>): seq<byte> {
    if x.Some? then [x.value.e] + (x.value.sign + x.value.digits) else []
  }

  function FracBytes(n: Numeral): seq<byte> {
    FracOf(n.frac)
  }

  function ExpBytes(n: Numeral): seq<byte> {
    ExpOf(n.exp)
  }

  function NumeralBytes(n: Numeral): seq<byte> {
    MinusBytes(n) + (n.whole + (FracBytes(n) + ExpBytes(n)))
  }

  /**
   A byte (or the end, -1) that goes on with a numeral: the reader takes it too, or is refused for it. After a whole
   part that is zero a digit does not, so that `01` begins with the number 0.
   */
  predicate GoesOn(n: Numeral, c: int) {
    if n.exp.Some? then IsDigit(c)
    else if n.frac.Some? then IsDigit(c) || c == 0x65 || c == 0x45
    else c == 0x2e || c == 0x65 || c == 0x45 || (n.whole != [0x30] && IsDigit(c))
  }

  /** A byte (or the end, -1) that no number goes on with. */
  predicate StopsNumber(c: int) {
    !IsDigit(c) && c != 0x2e && c != 0x65 && c != 0x45
  }

  // --- values: sections 2 to 5 ---------------------------------------------------------------

  datatype Cst =
    | CNull | CTrue | CFalse
    | CNum(n: Numeral)
    | CStr(cs: seq<Char>)
    | CEmptyArr(gap: seq<byte>)
    | CArr(items: seq<Item>)
    | CEmptyObj(gap: seq<byte>)
    | CObj(pairs: seq<Pair>)

  /** A value with the whitespace around it. */
  datatype Item = Item(before: seq<byte>, v: Cst, after: seq<byte>)
  datatype Pair = Pair(before: seq<byte>, key: seq<Char>, mid: seq<byte>, item: Item)

  function Quote(cs: seq<Char>): seq<byte> {
    [0x22] + (Body(cs) + [0x22])
  }

  function Yield(c: Cst): (s: seq<byte>)
    decreases c, 0
  {
    match c
    case CNull => NULL
    case CTrue => TRUE
    case CFalse => FALSE
    case CNum(n) => NumeralBytes(n)
    case CStr(cs) => Quote(cs)
    case CEmptyArr(gap) => [0x5b] + (gap + [0x5d])
    case CArr(items) => [0x5b] + YieldItems(items)
    case CEmptyObj(gap) => [0x7b] + (gap + [0x7d])
    case CObj(pairs) => [0x7b] + YieldPairs(pairs)
  }

  /** `item *( "," item ) "]"` */
  function YieldItems(items: seq<Item>): seq<byte>
    decreases items, 0
  {
    if items == [] then []
    else YieldItem(items[0]) + (if |items| == 1 then [0x5d] else [0x2c] + YieldItems(items[1..]))
  }

  function YieldItem(item: Item): seq<byte>
    decreases item, 0
  {
    item.before + (Yield(item.v) + item.after)
  }

  /** `ws string ws ":"` */
  function YieldKey(p: Pair): seq<byte> {
    p.before + (Quote(p.key) + (p.mid + [0x3a]))
  }

  /** `pair *( "," pair ) "}"` */
  function YieldPairs(pairs: seq<Pair>): seq<byte>
    decreases pairs, 0
  {
    if pairs == [] then []
    else YieldKey(pairs[0]) + (YieldItem(pairs[0].item) + (if |pairs| == 1 then [0x7d] else [0x2c] + YieldPairs(pairs[1..])))
  }

  predicate Wf(c: Cst)
    decreases c, 0
  {
    match c
    case CNum(n) => WfNumeral(n)
    case CStr(cs) => WfChars(cs)
    case CEmptyArr(gap) => AllWs(gap)
    case CArr(items) => items != [] && WfItems(items)
    case CEmptyObj(gap) => AllWs(gap)
    case CObj(pairs) => pairs != [] && WfPairs(pairs)
    case _ => true
  }

  predicate WfItems(items: seq<Item>)
    decreases items, 0
  {
    items == [] || (AllWs(items[0].before) && Wf(items[0].v) && AllWs(items[0].after) && WfItems(items[1..]))
  }

  predicate WfPairs(pairs: seq<Pair>)
    decreases pairs, 0
  {
    pairs == [] ||
    (&& AllWs(pairs[0].before) && WfChars(pairs[0].key) && AllWs(pairs[0].mid)
     && AllWs(pairs[0].item.before) && Wf(pairs[0].item.v) && AllWs(pairs[0].item.after)
     && WfPairs(pairs[1..]))
  }

  function Tree(c: Cst): Node
    requires Wf(c)
    decreases c, 0
  {
    match c
    case CNull => Null
    case CTrue => Bool(true)
    case CFalse => Bool(false)
    case CNum(n) => Num(Latin1(NumeralBytes(n)))
    case CStr(cs) => Str(Meaning(cs), Plain(cs))
    case CEmptyArr(_) => Arr([])
    case CArr(items) => Arr(TreeItems(items))
    case CEmptyObj(_) => Obj([])
    case CObj(pairs) => Obj(TreePairs(pairs))
  }

  function TreeItems(items: seq<Item>): seq<Node>
    requires WfItems(items)
    decreases items, 0
  {
    if items == [] then [] else [Tree(items[0].v)] + TreeItems(items[1..])
  }

  function TreePairs(pairs: seq<Pair>): seq<Member>
    requires WfPairs(pairs)
    decreases pairs, 0
  {
    if pairs == [] then [] else [Member(Meaning(pairs[0].key), Tree(pairs[0].item.v))] + TreePairs(pairs[1..])
  }

  function Max(x: nat, y: nat): nat {
    if x < y then y else x
  }

  function Depth(c: Cst): nat
    decreases c, 0
  {
    match c
    case CEmptyArr(_) => 1
    case CArr(items) => 1 + DepthItems(items)
    case CEmptyObj(_) => 1
    case CObj(pairs) => 1 + DepthPairs(pairs)
    case _ => 0
  }

  function DepthItems(items: seq<Item>): nat
    decreases items, 0
  {
    if items == [] then 0 else Max(Depth(items[0].v), DepthItems(items[1..]))
  }

  function DepthPairs(pairs: seq<Pair>): nat
    decreases pairs, 0
  {
    if pairs == [] then 0 else Max(Depth(pairs[0].item.v), DepthPairs(pairs[1..]))
  }

  /** An array denotes what its items denote and an object its members, one by one and in the order they are written. */
  lemma {:induction false} TreeExact(c: Cst, k: nat)
    requires Wf(c)
    ensures c.CArr? ==> |Tree(c).items| == |c.items|
    ensures c.CArr? && k < |c.items| ==> Wf(c.items[k].v) && Tree(c).items[k] == Tree(c.items[k].v)
    ensures c.CObj? ==> |Tree(c).members| == |c.pairs|
    ensures c.CObj? && k < |c.pairs| ==>
      WfChars(c.pairs[k].key) && Wf(c.pairs[k].item.v) && Tree(c).members[k] == Member(Meaning(c.pairs[k].key), Tree(c.pairs[k].item.v))
  {
    hide Meaning, WfItems, WfPairs, TreeItems, TreePairs;
    if c.CArr? { TreeItemAt(c.items, k); }
    if c.CObj? { TreePairAt(c.pairs, k); }
  }

  lemma {:induction false} TreeItemAt(items: seq<Item>, k: nat)
    requires WfItems(items)
    ensures |TreeItems(items)| == |items|
    ensures k < |items| ==> Wf(items[k].v) && TreeItems(items)[k] == Tree(items[k].v)
  {
    hide Wf, Tree;
    if items != [] { TreeItemAt(items[1..], if k == 0 then 0 else k - 1); }
  }

  lemma {:induction false} TreePairAt(pairs: seq<Pair>, k: nat)
    requires WfPairs(pairs)
    ensures |TreePairs(pairs)| == |pairs|
    ensures k < |pairs| ==>
      WfChars(pairs[k].key) && Wf(pairs[k].item.v) && TreePairs(pairs)[k] == Member(Meaning(pairs[k].key), Tree(pairs[k].item.v))
  {
    hide Wf, Tree, Meaning, WfChars;
    if pairs != [] { TreePairAt(pairs[1..], if k == 0 then 0 else k - 1); }
  }

  /** `n` arrays and objects, each inside the one before it. */
  predicate Nested(c: Cst, n: nat)
    decreases c
  {
    || n == 0
    || (n == 1 && (c.CEmptyArr? || c.CArr? || c.CEmptyObj? || c.CObj?))
    || (n > 1 && c.CArr? && exists k | 0 <= k < |c.items| :: Nested(c.items[k].v, n - 1))
    || (n > 1 && c.CObj? && exists k | 0 <= k < |c.pairs| :: Nested(c.pairs[k].item.v, n - 1))
  }

  /** The depth is that of the deepest nesting. */
  lemma {:induction false} DepthExact(c: Cst, n: nat)
    ensures Depth(c) >= n <==> Nested(c, n)
    decreases c
  {
    hide DepthItems, DepthPairs;
    if n > 1 && c.CArr? {
      DepthAtItem(c.items, n - 1);
      forall k | 0 <= k < |c.items| ensures Depth(c.items[k].v) >= n - 1 <==> Nested(c.items[k].v, n - 1) {
        DepthExact(c.items[k].v, n - 1);
      }
    } else if n > 1 && c.CObj? {
      DepthAtPair(c.pairs, n - 1);
      forall k | 0 <= k < |c.pairs| ensures Depth(c.pairs[k].item.v) >= n - 1 <==> Nested(c.pairs[k].item.v, n - 1) {
        DepthExact(c.pairs[k].item.v, n - 1);
      }
    }
  }

  lemma {:induction false} DepthAtItem(items: seq<Item>, n: nat)
    requires n > 0
    ensures DepthItems(items) >= n <==> exists k | 0 <= k < |items| :: Depth(items[k].v) >= n
  {
    hide Depth;
    if items != [] {
      DepthAtItem(items[1..], n);
      assert forall k | 0 < k < |items| :: items[k] == items[1..][k - 1];
      if DepthItems(items[1..]) >= n {
        var k :| 0 <= k < |items[1..]| && Depth(items[1..][k].v) >= n;
        assert Depth(items[k + 1].v) >= n;
      }
    }
  }

  lemma {:induction false} DepthAtPair(pairs: seq<Pair>, n: nat)
    requires n > 0
    ensures DepthPairs(pairs) >= n <==> exists k | 0 <= k < |pairs| :: Depth(pairs[k].item.v) >= n
  {
    hide Depth;
    if pairs != [] {
      DepthAtPair(pairs[1..], n);
      assert forall k | 0 < k < |pairs| :: pairs[k] == pairs[1..][k - 1];
      if DepthPairs(pairs[1..]) >= n {
        var k :| 0 <= k < |pairs[1..]| && Depth(pairs[1..][k].item.v) >= n;
        assert Depth(pairs[k + 1].item.v) >= n;
      }
    }
  }
}
