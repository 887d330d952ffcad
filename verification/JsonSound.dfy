/** What the reader accepts is what the grammar derives. */
module JsonSound {
  import opened Options
  import opened Utf8
  import opened Json
  import opened JsonReader
  import opened JsonGrammar
  import opened JsonComplete

  // --- strings ------------------------------------------------------------------------

  function RawChars(w: seq<byte>): (cs: seq<Char>)
    ensures |cs| == |w|
  {
    seq(|w|, k requires 0 <= k < |w| => Raw(w[k]))
  }

  lemma {:induction false} BodyRawChars(w: seq<byte>)
    ensures Body(RawChars(w)) == w
  {
    if w != [] {
      BodyRawChars(w[1..]);
      assert RawChars(w)[1..] == RawChars(w[1..]);
    }
  }

  lemma {:induction false} HexSound(b: seq<byte>, at: nat, k: nat, v: nat)
    requires k <= 4 && at + k <= |b| && v < HexBound(k) && Hex(b, at, k, v).Ok?
    ensures k <= 0 ==> HexVal(At(b, at)) >= 0
    ensures k <= 1 ==> HexVal(At(b, at + 1)) >= 0
    ensures k <= 2 ==> HexVal(At(b, at + 2)) >= 0
    ensures k <= 3 ==> HexVal(At(b, at + 3)) >= 0
    decreases 4 - k
  {
    if k < 4 {
      HexSound(b, at, k + 1, v * 16 + HexVal(At(b, at + k)));
    }
  }

  lemma {:induction false} UniSound(b: seq<byte>, i: nat) returns (c: Char)
    requires i + 2 <= |b| && b[i] == 0x5c && b[i + 1] == 0x75 && Hex4(b, i + 2).Ok?
    ensures c.Uni? && WfChar(c) && i + 6 <= |b| && b[i..i + 6] == CharBytes(c)
  {
    HexSound(b, i + 2, 0, 0);
    c := Uni(b[i + 2], b[i + 3], b[i + 4], b[i + 5]);
  }

  /** The escapes that make up one accepted character. */
  lemma {:induction false} EscapeSound(b: seq<byte>, i: nat) returns (us: seq<Char>)
    requires i < |b| && b[i] == 0x5c && Unescape(b, i).Ok?
    ensures WfChars(us) && Body(us) == b[i..Unescape(b, i).next]
  {
    hide Hex4, HexVal;
    if b[i + 1] != 0x75 {
      us := [Esc(b[i + 1])];
      assert Body(us[1..]) == [];
      assert Body(us) == [0x5c, b[i + 1]];
    } else {
      var c := UniSound(b, i);
      us := [c];
      assert Body(us[1..]) == [];
      if Unescape(b, i).next != i + 6 {
        var d := UniSound(b, i + 6);
        us := [c, d];
        assert us[1..] == [d] && Body([d][1..]) == [];
        assert b[i..i + 12] == b[i..i + 6] + b[i + 6..i + 12];
      }
    }
  }

  /** The characters of the first step of the reader. */
  lemma {:induction false} StepSound(b: seq<byte>, i: nat) returns (us: seq<Char>, j: nat)
    requires i < |b| && RStr(b, i).Ok? && b[i] != 0x22
    ensures i < j <= |b| && WfChars(us) && Body(us) == b[i..j]
    ensures RStr(b, j).Ok? && RStr(b, j).next == RStr(b, i).next
  {
    hide Unescape, Lossy;
    var c := b[i];
    if c == 0x5c {
      us := EscapeSound(b, i);
      j := Unescape(b, i).next;
    } else {
      j := i + 1;
      if c >= 0x80 && ValidLength(b, i) > 0 {
        j := i + ValidLength(b, i);
        ValidLengthLocal(b, i);
        ValidLengthHigh(b[i..j]);
        assert b[i..j][0] == c;
      } else {
        assert b[i..j] == [c];
      }
      us := RawChars(b[i..j]);
      BodyRawChars(b[i..j]);
    }
  }

  lemma {:induction false} StringSound(b: seq<byte>, i: nat) returns (cs: seq<Char>)
    requires i <= |b| && RStr(b, i).Ok?
    ensures WfChars(cs) && Holds(b, i, Body(cs) + [0x22])
    ensures RStr(b, i) == Ok(Quoted(Meaning(cs), Plain(cs)), i + |Body(cs)| + 1)
    decreases |b| - i
  {
    hide Meaning, Plain, Unescape, RStr, Body;
    StringIsOpen(b, i);
    if b[i] == 0x22 {
      cs := [];
      NoBody();
    } else {
      var us, j := StepSound(b, i);
      var rest := StringSound(b, j);
      cs := us + rest;
      BodyAppend(us, rest);
      Assoc(Body(us), Body(rest), [0x22]);
      HoldsSplit(b, i, Body(us), Body(rest) + [0x22]);
    }
    StringComplete(cs, b, i);
  }

  lemma {:induction false} StringIsOpen(b: seq<byte>, i: nat)
    requires i <= |b| && RStr(b, i).Ok?
    ensures i < |b|
  {
  }

  lemma {:induction false} NoBody()
    ensures Body([]) == [] && [] + [0x22] == [0x22]
  {
  }

  lemma {:induction false} QuoteSound(b: seq<byte>, i: nat) returns (cs: seq<Char>)
    requires i < |b| && b[i] == 0x22 && RStr(b, i + 1).Ok?
    ensures WfChars(cs) && Holds(b, i, Quote(cs))
    ensures RStr(b, i + 1) == Ok(Quoted(Meaning(cs), Plain(cs)), i + |Quote(cs)|)
  {
    hide Meaning, Plain, RStr, Body;
    cs := StringSound(b, i + 1);
    HoldsSplit(b, i, [0x22], Body(cs) + [0x22]);
  }

  // --- numbers and words -----------------------------------------------------------------

  lemma {:induction false} DigitsSlice(b: seq<byte>, i: nat)
    requires i <= |b|
    ensures AllDigits(b[i..SkipDigits(b, i)])
  {
  }

  lemma {:induction false} NumeralSound(b: seq<byte>, i: nat) returns (n: Numeral)
    requires i <= |b| && RNumEnd(b, i).Ok?
    ensures WfNumeral(n) && NumeralBytes(n) == b[i..RNumEnd(b, i).next] && !GoesOn(n, At(b, RNumEnd(b, i).next))
  {
    hide RInt, RFrac, RExp, AllDigits, NumeralBytes, FracOf, ExpOf;
    var p1 := if At(b, i) == 0x2d then i + 1 else i;
    var p2 := RInt(b, p1).next;
    var p3 := RFrac(b, p2).next;
    var whole := WholeSound(b, p1);
    var frac := FracSound(b, p2);
    var exp := ExpSound(b, p3);
    n := Numeral(p1 > i, whole, frac, exp);
    assert MinusBytes(n) == b[i..p1];
    NumeralJoined(n, b, i, p1, p2, p3, RExp(b, p3).next);
  }

  lemma {:induction false} NumeralJoined(n: Numeral, b: seq<byte>, i: nat, p1: nat, p2: nat, p3: nat, p4: nat)
    requires i <= p1 <= p2 <= p3 <= p4 <= |b|
    requires MinusBytes(n) == b[i..p1] && n.whole == b[p1..p2]
    requires FracBytes(n) == b[p2..p3] && ExpBytes(n) == b[p3..p4]
    ensures NumeralBytes(n) == b[i..p4]
  {
    hide MinusBytes, FracBytes, ExpBytes;
    assert b[i..p4] == b[i..p1] + (b[p1..p2] + (b[p2..p3] + b[p3..p4]));
  }

  lemma {:induction false} WholeSound(b: seq<byte>, i: nat) returns (w: seq<byte>)
    requires i <= |b| && RInt(b, i).Ok?
    ensures w == b[i..RInt(b, i).next] && w != [] && AllDigits(w) && (w[0] == 0x30 ==> |w| == 1)
    ensures w != [0x30] ==> !IsDigit(At(b, RInt(b, i).next))
  {
    DigitsSlice(b, i);
    w := b[i..RInt(b, i).next];
  }

  lemma {:induction false} FracSound(b: seq<byte>, i: nat) returns (f: Option<seq<byte>>)
    requires i <= |b| && RFrac(b, i).Ok?
    ensures f.Some? ==> f.value != [] && AllDigits(f.value) && !IsDigit(At(b, RFrac(b, i).next))
    ensures f.None? ==> RFrac(b, i).next == i && At(b, i) != 0x2e
    ensures FracOf(f) == b[i..RFrac(b, i).next]
  {
    if At(b, i) != 0x2e { return None; }
    DigitsSlice(b, i + 1);
    f := Some(b[i + 1..RFrac(b, i).next]);
  }

  lemma {:induction false} ExpSound(b: seq<byte>, i: nat) returns (x: Option<Exponent>)
    requires i <= |b| && RExp(b, i).Ok?
    ensures x.Some? ==>
      && x.value.digits != [] && AllDigits(x.value.digits) && !IsDigit(At(b, RExp(b, i).next))
      && (x.value.e == 0x65 || x.value.e == 0x45)
      && (x.value.sign == [] || x.value.sign == [0x2b] || x.value.sign == [0x2d])
    ensures x.None? ==> RExp(b, i).next == i && At(b, i) != 0x65 && At(b, i) != 0x45
    ensures ExpOf(x) == b[i..RExp(b, i).next]
  {
    if At(b, i) != 0x65 && At(b, i) != 0x45 { return None; }
    var p := if At(b, i + 1) == 0x2b || At(b, i + 1) == 0x2d then i + 2 else i + 1;
    var q := RExp(b, i).next;
    DigitsSlice(b, p);
    x := Some(Exponent(b[i], b[i + 1..p], b[p..q]));
    assert b[i..q] == [b[i]] + (b[i + 1..p] + b[p..q]);
  }

  lemma {:induction false} WordSound(b: seq<byte>, i: nat, word: seq<byte>, k: nat)
    requires k <= |word| && i + k <= |b| && RWord(b, i, word, k).Ok? && b[i..i + k] == word[..k]
    ensures Holds(b, i, word)
    decreases |word| - k
  {
    if k < |word| {
      assert b[i..i + k + 1] == word[..k + 1];
      WordSound(b, i, word, k + 1);
    }
  }

  // --- values -------------------------------------------------------------------------------

  lemma {:induction false} ScalarSound(b: seq<byte>, i: nat) returns (c: Cst)
    requires i <= |b| && RScalar(b, i).Ok?
    ensures Wf(c) && IsScalar(c) && Holds(b, i, Yield(c)) && RScalar(b, i) == Ok(Tree(c), i + |Yield(c)|)
    ensures c.CNum? ==> !GoesOn(c.n, At(b, RScalar(b, i).next))
  {
    hide Meaning, Plain, RStr, Quote, RNumEnd, NumeralBytes;
    var x := At(b, i);
    if x == 0x22 {
      var cs := QuoteSound(b, i);
      c := CStr(cs);
    } else if x == 0x74 {
      WordSound(b, i, TRUE, 0);
      c := CTrue;
    } else if x == 0x66 {
      WordSound(b, i, FALSE, 0);
      c := CFalse;
    } else if x == 0x6e {
      WordSound(b, i, NULL, 0);
      c := CNull;
    } else {
      var n := NumeralSound(b, i);
      c := CNum(n);
    }
  }

  lemma {:induction false} WsSlice(b: seq<byte>, i: nat)
    requires i <= |b|
    ensures AllWs(b[i..SkipWs(b, i)]) && Holds(b, i, b[i..SkipWs(b, i)])
  {
  }

  /** A value the reader accepts, from its first byte. */
  lemma {:induction false} ValueSound(b: seq<byte>, i: nat, d: nat) returns (c: Cst)
    requires i <= |b| && d <= MAX_DEPTH && RValue(b, i, d).Ok?
    ensures Wf(c) && d + Depth(c) <= MAX_DEPTH
    ensures Holds(b, SkipWs(b, i), Yield(c)) && RValue(b, i, d) == Ok(Tree(c), SkipWs(b, i) + |Yield(c)|)
    ensures c.CNum? ==> !GoesOn(c.n, At(b, RValue(b, i, d).next))
    decreases |b| - i, 1
  {
    hide RItems, RMembers, RKey, RScalar, YieldItems, YieldPairs;
    var s := SkipWs(b, i);
    ValueSkipsWs(b, i, d);
    if At(b, s) != 0x7b && At(b, s) != 0x5b {
      c := ScalarSound(b, s);
    } else {
      c := ContainerSound(b, s, d);
    }
  }

  lemma {:induction false} ContainerSound(b: seq<byte>, i: nat, d: nat) returns (c: Cst)
    requires i < |b| && (b[i] == 0x7b || b[i] == 0x5b) && d <= MAX_DEPTH && RValue(b, i, d).Ok?
    ensures Wf(c) && d + Depth(c) <= MAX_DEPTH && !c.CNum?
    ensures Holds(b, i, Yield(c)) && RValue(b, i, d) == Ok(Tree(c), i + |Yield(c)|)
    decreases |b| - i, 0
  {
    hide RItems, RMembers, RKey, RScalar, RValue, YieldItems, YieldPairs, Holds;
    if d >= MAX_DEPTH {
      ValueTooDeep(b, i, d);
    }
    ValueContainer(b, i, d);
    var j := SkipWs(b, i + 1);
    var open: byte := b[i];
    var close: byte := if b[i] == 0x7b then 0x7d else 0x5d;
    HoldsOne(b, i, open);
    if At(b, j) == close {
      EmptySound(b, i, open, close);
      var gap := b[i + 1..j];
      c := if open == 0x7b then CEmptyObj(gap) else CEmptyArr(gap);
    } else if open == 0x7b {
      KeySkipsWs(b, i + 1);
      var pairs := PairsSound(b, i + 1, d + 1);
      HoldsSplit(b, i, [open], YieldPairs(pairs));
      c := CObj(pairs);
    } else {
      ItemsSkipWs(b, i + 1, d + 1);
      var items := ItemsSound(b, i + 1, d + 1);
      HoldsSplit(b, i, [open], YieldItems(items));
      c := CArr(items);
    }
  }

  lemma {:induction false} EmptySound(b: seq<byte>, i: nat, open: byte, close: byte)
    requires i < |b| && b[i] == open && At(b, SkipWs(b, i + 1)) == close
    ensures var gap := b[i + 1..SkipWs(b, i + 1)];
            AllWs(gap) && Holds(b, i, [open] + (gap + [close])) && SkipWs(b, i + 1) + 1 == i + |[open] + (gap + [close])|
  {
    hide Holds;
    var j := SkipWs(b, i + 1);
    WsSlice(b, i + 1);
    var gap := b[i + 1..j];
    HoldsOne(b, i, open);
    HoldsOne(b, j, close);
    HoldsSplit(b, i + 1, gap, [close]);
    HoldsSplit(b, i, [open], gap + [close]);
  }

  /** One item with the whitespace around it; `p` is where the reader goes on. */
  lemma {:induction false} ItemSound(b: seq<byte>, i: nat, d: nat) returns (item: Item, p: nat)
    requires i <= |b| && d <= MAX_DEPTH && RValue(b, i, d).Ok?
    ensures AllWs(item.before) && Wf(item.v) && AllWs(item.after) && d + Depth(item.v) <= MAX_DEPTH
    ensures Holds(b, i, YieldItem(item)) && p == i + |YieldItem(item)| == SkipWs(b, RValue(b, i, d).next)
    ensures RValue(b, i, d).v == Tree(item.v)
    decreases |b| - i, 2
  {
    hide RValue, Holds, Wf, Tree, Yield, Depth;
    var s := SkipWs(b, i);
    var c := ValueSound(b, i, d);
    var j := RValue(b, i, d).next;
    p := SkipWs(b, j);
    WsSlice(b, i);
    WsSlice(b, j);
    item := Item(b[i..s], c, b[j..p]);
    HoldsSplit(b, s, Yield(c), item.after);
    HoldsSplit(b, i, item.before, Yield(c) + item.after);
  }

  lemma {:induction false} ItemsSound(b: seq<byte>, i: nat, d: nat) returns (items: seq<Item>)
    requires i <= |b| && d <= MAX_DEPTH && RItems(b, i, d).Ok?
    ensures items != [] && WfItems(items) && d + DepthItems(items) <= MAX_DEPTH
    ensures Holds(b, i, YieldItems(items)) && RItems(b, i, d) == Ok(TreeItems(items), i + |YieldItems(items)|)
    decreases |b| - i, 3
  {
    hide RValue, Holds, Wf, Tree, Depth, YieldItem;
    var item, p := ItemSound(b, i, d);
    var j := RValue(b, i, d).next;
    var rest: seq<Item> := [];
    if At(b, p) == 0x2c {
      rest := ItemsSound(b, p + 1, d);
      HoldsOne(b, p, 0x2c);
      HoldsSplit(b, p, [0x2c], YieldItems(rest));
    } else {
      HoldsOne(b, p, 0x5d);
    }
    items := [item] + rest;
    assert items[1..] == rest;
    HoldsSplit(b, i, YieldItem(item), if |items| == 1 then [0x5d] else [0x2c] + YieldItems(rest));
  }

  lemma {:induction false} KeySound(b: seq<byte>, i: nat) returns (before: seq<byte>, key: seq<Char>, mid: seq<byte>)
    requires i <= |b| && RKey(b, i).Ok?
    ensures AllWs(before) && WfChars(key) && AllWs(mid)
    ensures var w := before + (Quote(key) + (mid + [0x3a]));
            Holds(b, i, w) && RKey(b, i) == Ok(Meaning(key), i + |w|)
  {
    hide RStr, Meaning, Quote, Holds, Plain;
    var j := SkipWs(b, i);
    WsSlice(b, i);
    before := b[i..j];
    key := QuoteSound(b, j);
    var k := RStr(b, j + 1).next;
    var m := SkipWs(b, k);
    WsSlice(b, k);
    mid := b[k..m];
    HoldsOne(b, m, 0x3a);
    HoldsSplit(b, k, mid, [0x3a]);
    HoldsSplit(b, j, Quote(key), mid + [0x3a]);
    HoldsSplit(b, i, before, Quote(key) + (mid + [0x3a]));
  }

  lemma {:induction false} PairsSound(b: seq<byte>, i: nat, d: nat) returns (pairs: seq<Pair>)
    requires i <= |b| && d <= MAX_DEPTH && RKey(b, i).Ok? && RMembers(b, RKey(b, i).next, d, RKey(b, i).v).Ok?
    ensures pairs != [] && WfPairs(pairs) && d + DepthPairs(pairs) <= MAX_DEPTH
    ensures Holds(b, i, YieldPairs(pairs))
    ensures RMembers(b, RKey(b, i).next, d, RKey(b, i).v) == Ok(TreePairs(pairs), i + |YieldPairs(pairs)|)
    decreases |b| - i, 3
  {
    hide RValue, RKey, Holds, Wf, Tree, Depth, YieldItem, Meaning, Quote;
    var before, key, mid := KeySound(b, i);
    var k := RKey(b, i).next;
    var item, p := ItemSound(b, k, d);
    var j := RValue(b, k, d).next;
    var rest: seq<Pair> := [];
    assert RMembersRest(b, j, d).Ok?;
    if At(b, p) == 0x2c {
      rest := PairsSound(b, p + 1, d);
      HoldsOne(b, p, 0x2c);
      HoldsSplit(b, p, [0x2c], YieldPairs(rest));
    } else {
      HoldsOne(b, p, 0x7d);
    }
    pairs := [Pair(before, key, mid, item)] + rest;
    assert pairs[1..] == rest;
    JoinPair(pairs, b, i, k, p);
    assert RMembersRest(b, j, d) == if rest == [] then Ok([], p + 1) else RMembers(b, RKey(b, p + 1).next, d, RKey(b, p + 1).v);
  }

  lemma {:induction false} JoinPair(pairs: seq<Pair>, b: seq<byte>, i: nat, k: nat, p: nat)
    requires pairs != [] && Holds(b, i, YieldKey(pairs[0])) && k == i + |YieldKey(pairs[0])|
    requires Holds(b, k, YieldItem(pairs[0].item)) && p == k + |YieldItem(pairs[0].item)|
    requires Holds(b, p, PairsTail(pairs))
    ensures Holds(b, i, YieldPairs(pairs)) && i + |YieldPairs(pairs)| == p + |PairsTail(pairs)|
  {
    hide Holds, YieldItem, YieldKey;
    HoldsSplit(b, k, YieldItem(pairs[0].item), PairsTail(pairs));
    HoldsSplit(b, i, YieldKey(pairs[0]), YieldItem(pairs[0].item) + PairsTail(pairs));
  }

  // --- the two agree ------------------------------------------------------------------------

  /** `JSON-text = ws value ws`, no deeper than the cap, yields `b` and denotes `t`. */
  ghost predicate IsDocument(b: seq<byte>, item: Item, t: Node) {
    && AllWs(item.before) && Wf(item.v) && AllWs(item.after)
    && YieldItem(item) == b && Tree(item.v) == t && Depth(item.v) <= 10000
  }

  /** `parseJson` accepts exactly the JSON texts nested at most 10000 deep, and returns the value they denote. */
  lemma {:induction false} ParseExact(b: seq<byte>, t: Node)
    ensures Parse(b, false) == Ok(t, |b|) <==> exists item :: IsDocument(b, item, t)
    ensures Parse(b, false).Ok? ==> Parse(b, false).next == |b|
  {
    hide RValue, Tree, Wf, Yield, Depth;
    if Parse(b, false).Ok? {
      var item, p := ItemSound(b, 0, 0);
      assert p == |b| && YieldItem(item) == b[0..|b|] == b;
      assert IsDocument(b, item, Parse(b, false).v);
    }
    if exists item :: IsDocument(b, item, t) {
      var item :| IsDocument(b, item, t);
      assert Holds(b, 0, YieldItem(item));
      var j := ItemComplete(item, b, 0, 0);
    }
  }

  /** A document has one meaning, whichever way it is derived. */
  lemma {:induction false} Unambiguous(b: seq<byte>, x: Item, y: Item, t: Node, u: Node)
    requires IsDocument(b, x, t) && IsDocument(b, y, u)
    ensures t == u
  {
    hide IsDocument;
    ParseExact(b, t);
    ParseExact(b, u);
  }

  /** A well-formed document that is too deep is refused, and for a reason that no further input could mend. */
  lemma {:induction false} TooDeep(item: Item)
    requires AllWs(item.before) && Wf(item.v) && AllWs(item.after) && Depth(item.v) > 10000
    ensures Parse(YieldItem(item), false) == Fail(false) && Parse(YieldItem(item), true) == Fail(false)
  {
    hide RValue, Tree, Wf, Yield, Depth;
    var b := YieldItem(item);
    assert Holds(b, 0, b);
    var j := ItemComplete(item, b, 0, 0);
  }

  /** The first `k` bytes are white space and one value `t` nested within the cap, and the text does not go on with it. */
  ghost predicate BeginsWith(b: seq<byte>, k: nat, t: Node, before: seq<byte>, c: Cst) {
    && k <= |b| && b[..k] == before + Yield(c)
    && AllWs(before) && Wf(c) && Depth(c) <= 10000 && Tree(c) == t
    && (c.CNum? ==> !GoesOn(c.n, At(b, k)))
  }

  /**
   `parseFirstJson` accepts exactly the texts that begin with a JSON value nested at most 10000 deep, and returns that
   value and its end. A number is the longest there: `12` is not read as 1, `1.` is refused, and `01` is read as 0.
   */
  lemma {:induction false} ParseFirstExact(b: seq<byte>, t: Node, k: nat)
    ensures Parse(b, true) == Ok(t, k) <==> exists before, c :: BeginsWith(b, k, t, before, c)
  {
    hide BeginsWith;
    if Parse(b, true) == Ok(t, k) {
      var before, c := ParseFirstSound(b);
    }
    if exists before, c :: BeginsWith(b, k, t, before, c) {
      var before, c :| BeginsWith(b, k, t, before, c);
      ParseFirstComplete(b, k, t, before, c);
    }
  }

  lemma {:induction false} ParseFirstComplete(b: seq<byte>, k: nat, t: Node, before: seq<byte>, c: Cst)
    requires BeginsWith(b, k, t, before, c)
    ensures Parse(b, true) == Ok(t, k)
  {
    hide RValue, Tree, Wf, Yield, Depth, Holds, GoesOn;
    HoldsPrefix(b, before + Yield(c));
    HoldsSplit(b, 0, before, Yield(c));
    FirstByte(c, b, |before|);
    SkipWsOver(b, 0, before);
    ValueSkipsWs(b, 0, 0);
    ValueComplete(c, b, |before|, 0);
  }

  lemma {:induction false} HoldsPrefix(b: seq<byte>, w: seq<byte>)
    requires w <= b
    ensures Holds(b, 0, w)
  {
  }

  lemma {:induction false} ParseFirstSound(b: seq<byte>) returns (before: seq<byte>, c: Cst)
    requires Parse(b, true).Ok?
    ensures BeginsWith(b, Parse(b, true).next, Parse(b, true).v, before, c)
  {
    hide RValue, Tree, Wf, Yield, Depth, GoesOn;
    c := ValueSound(b, 0, 0);
    WsSlice(b, 0);
    var s := SkipWs(b, 0);
    before := b[0..s];
    assert b[..s + |Yield(c)|] == b[0..s] + b[s..s + |Yield(c)|];
  }

  /** The zero of `01` is a number the text does not go on with, although a digit follows. */
  lemma {:induction false} LeadingZero()
    ensures Parse([0x30, 0x31], true) == Ok(Num("0"), 1)
  {
    var b: seq<byte> := [0x30, 0x31];
    var c := CNum(Numeral(false, [0x30], None, None));
    assert Yield(c) == [0x30] by {
      assert [0x30] + ([] + []) == [0x30] && [] + [0x30] == [0x30];
    }
    assert b[..1] == [] + Yield(c);
    assert Tree(c) == Num("0") by { assert Latin1([0x30]) == "0"; }
    assert BeginsWith(b, 1, Num("0"), [], c);
    ParseFirstExact(b, Num("0"), 1);
  }
}
