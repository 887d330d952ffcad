/** Every derivation tree within the depth cap is read, as the value that it denotes. */
module JsonComplete {
  import opened Utf8
  import opened Json
  import opened JsonReader
  import opened JsonGrammar

  // --- strings ------------------------------------------------------------------------

  /** A sequence is judged alike in a text and cut out of it, when nothing that follows could belong to it. */
  lemma {:induction false} ValidLengthSlice(b: seq<byte>, i: nat, m: nat)
    requires i < m <= |b| && (m < |b| ==> b[m] < 0x80)
    ensures ValidLength(b, i) == ValidLength(b[i..m], 0)
  {
    var s := b[i..m];
    assert forall k | 0 <= k < m - i :: At(s, k) == At(b, i + k);
  }

  predicate AllRaw(b: seq<byte>) {
    forall k | 0 <= k < |b| :: b[k] >= 0x20 && b[k] != 0x22 && b[k] != 0x5c
  }

  predicate AllAscii(b: seq<byte>) {
    forall k | 0 <= k < |b| :: b[k] < 0x80
  }

  /** The step of the reader over one raw byte or sequence is the step of the cut. */
  lemma {:induction false} RawStep(b: seq<byte>, i: nat, m: nat)
    requires i < m <= |b| && AllRaw(b[i..m]) && (m < |b| ==> b[m] < 0x80)
    ensures var k := if ValidLength(b[i..m], 0) > 0 then ValidLength(b[i..m], 0) else 1;
            && i + k <= m && (b[i] < 0x80 ==> k == 1)
            && exists ch: char ::
                 && Lossy(b[i..m]) == [ch] + Lossy(b[i + k..m])
                 && RStr(b, i) == Prepend([ch], b[i] < 0x80, RStr(b, i + k))
  {
    hide RStr, Lossy, ValidLength, DecodeRune;
    var s := b[i..m];
    assert s[0] == b[i];
    ValidLengthSlice(b, i, m);
    LossyStep(s);
    var k := ValidLength(s, 0);
    ReaderStep(b, i);
    if k > 0 {
      assert s[..k] == b[i..i + k] && s[k..] == b[i + k..m];
      assert Lossy(s) == [DecodeRune(b[i..i + k])] + Lossy(b[i + k..m]);
    } else {
      assert s[1..] == b[i + 1..m];
      assert Lossy(s) == [REPLACEMENT] + Lossy(b[i + 1..m]);
    }
  }

  /** One step of the reader over a raw byte or sequence. */
  lemma {:induction false} ReaderStep(b: seq<byte>, i: nat)
    requires i < |b| && b[i] >= 0x20 && b[i] != 0x22 && b[i] != 0x5c
    ensures var k := ValidLength(b, i);
            && i + k <= |b| && (b[i] < 0x80 ==> k == 1)
            && RStr(b, i) == if k > 0 then Prepend([DecodeRune(b[i..i + k])], b[i] < 0x80, RStr(b, i + k))
                             else Prepend([REPLACEMENT], false, RStr(b, i + 1))
  {
    hide Prepend;
    if ValidLength(b, i) > 0 { ValidLengthLocal(b, i); }
    if b[i] < 0x80 {
      assert b[i..i + 1] == [b[i]];
      assert DecodeRune([b[i]]) == b[i] as char;
    }
  }

  lemma {:induction false} ValidLengthHigh(b: seq<byte>)
    requires b != [] && ValidLength(b, 0) > 1
    ensures forall k | 0 <= k < ValidLength(b, 0) :: b[k] >= 0x80
  {
    var n := ValidLength(b, 0);
    assert At(b, 1) == b[1];
    if n > 2 { assert At(b, 2) == b[2]; }
    if n > 3 { assert At(b, 3) == b[3]; }
  }

  /** Over a stretch of raw bytes the reader reads them as UTF-8, whichever of its paths it is on. */
  lemma {:induction false} RawRead(b: seq<byte>, i: nat, m: nat)
    requires i <= m < |b| && AllRaw(b[i..m]) && b[m] < 0x80
    ensures RStr(b, i) == Prepend(Lossy(b[i..m]), AllAscii(b[i..m]), RStr(b, m))
    decreases m - i
  {
    hide RStr, Lossy, ValidLength;
    if i == m {
      assert b[i..m] == [];
      NothingRead(b, m);
    } else {
      RawStep(b, i, m);
      var k := if ValidLength(b[i..m], 0) > 0 then ValidLength(b[i..m], 0) else 1;
      var ch: char :| Lossy(b[i..m]) == [ch] + Lossy(b[i + k..m]) && RStr(b, i) == Prepend([ch], b[i] < 0x80, RStr(b, i + k));
      assert b[i..m] == b[i..i + k] + b[i + k..m];
      assert AllRaw(b[i + k..m]) by {
        assert b[i + k..m] == b[i..m][k..];
      }
      RawRead(b, i + k, m);
      PrependAppend([ch], b[i] < 0x80, Lossy(b[i + k..m]), AllAscii(b[i + k..m]), RStr(b, m));
      assert AllAscii(b[i..m]) <==> b[i] < 0x80 && AllAscii(b[i + k..m]) by {
        AsciiSplit(b, i, k, m);
      }
    }
  }

  lemma {:induction false} NothingRead(b: seq<byte>, m: nat)
    requires m <= |b|
    ensures Lossy([]) == "" && RStr(b, m) == Prepend("", true, RStr(b, m))
  {
    if RStr(b, m).Ok? {
      assert "" + RStr(b, m).v.text == RStr(b, m).v.text;
    }
  }

  lemma {:induction false} AsciiSplit(b: seq<byte>, i: nat, k: nat, m: nat)
    requires i < m <= |b| && 1 <= k && i + k <= m
    requires k == if ValidLength(b[i..m], 0) > 0 then ValidLength(b[i..m], 0) else 1
    ensures AllAscii(b[i..m]) <==> b[i] < 0x80 && AllAscii(b[i + k..m])
  {
    var s := b[i..m];
    assert s[0] == b[i];
    assert b[i + k..m] == s[k..];
    if k > 1 {
      ValidLengthHigh(s);
    } else {
      assert s == [b[i]] + b[i + 1..m];
    }
  }

  lemma {:induction false} BodyAppend(cs: seq<Char>, ds: seq<Char>)
    ensures Body(cs + ds) == Body(cs) + Body(ds)
  {
    if cs == [] {
      assert cs + ds == ds;
    } else {
      BodyAppend(cs[1..], ds);
      assert (cs + ds)[0] == cs[0] && (cs + ds)[1..] == cs[1..] + ds;
      Assoc(CharBytes(cs[0]), Body(cs[1..]), Body(ds));
    }
  }

  lemma {:induction false} BodyOfRaw(cs: seq<Char>)
    requires WfChars(cs) && forall k | 0 <= k < |cs| :: cs[k].Raw?
    ensures |Body(cs)| == |cs| && forall k | 0 <= k < |cs| :: Body(cs)[k] == cs[k].b
  {
    if cs != [] {
      BodyOfRaw(cs[1..]);
      assert forall k | 0 < k < |cs| :: Body(cs)[k] == Body(cs[1..])[k - 1] && cs[k] == cs[1..][k - 1];
    }
  }

  lemma {:induction false} HexRead(b: seq<byte>, at: nat, c: Char)
    requires c.Uni? && WfChar(c)
    requires Holds(b, at, [c.h0, c.h1, c.h2, c.h3])
    ensures Hex4(b, at) == Ok(UniVal(c), at + 4)
  {
    var w := [c.h0, c.h1, c.h2, c.h3];
    HoldsAt(b, at, w, 0);
    HoldsAt(b, at, w, 1);
    HoldsAt(b, at, w, 2);
    HoldsAt(b, at, w, 3);
    assert Hex(b, at, 3, (HexVal(c.h0) * 16 + HexVal(c.h1)) * 16 + HexVal(c.h2)) == Ok(UniVal(c), at + 4);
    assert Hex(b, at, 2, HexVal(c.h0) * 16 + HexVal(c.h1)) == Ok(UniVal(c), at + 4);
    assert Hex(b, at, 1, HexVal(c.h0)) == Ok(UniVal(c), at + 4);
  }

  lemma {:induction false} UniRead(b: seq<byte>, i: nat, c: Char)
    requires c.Uni? && WfChar(c) && Holds(b, i, CharBytes(c))
    ensures At(b, i) == 0x5c && At(b, i + 1) == 0x75 && i + 6 <= |b| && Hex4(b, i + 2) == Ok(UniVal(c), i + 6)
  {
    var w := [c.h0, c.h1, c.h2, c.h3];
    assert CharBytes(c) == [0x5c, 0x75] + w;
    HoldsSplit(b, i, [0x5c, 0x75], w);
    HoldsAt(b, i, CharBytes(c), 0);
    HoldsAt(b, i, CharBytes(c), 1);
    HexRead(b, i + 2, c);
  }

  /** Where `cs` and the closing quote stand, its first character stands and then the rest. */
  lemma {:induction false} SplitChars(b: seq<byte>, i: nat, cs: seq<Char>)
    requires Holds(b, i, Body(cs) + [0x22]) && cs != []
    ensures Holds(b, i, CharBytes(cs[0])) && Holds(b, i + |CharBytes(cs[0])|, Body(cs[1..]) + [0x22])
  {
    Assoc(CharBytes(cs[0]), Body(cs[1..]), [0x22]);
    HoldsSplit(b, i, CharBytes(cs[0]), Body(cs[1..]) + [0x22]);
  }

  /** And its first bytes tell what kind of character that is. */
  lemma {:induction false} NextByte(b: seq<byte>, i: nat, cs: seq<Char>)
    requires WfChars(cs) && Holds(b, i, Body(cs) + [0x22])
    ensures cs == [] ==> At(b, i) == 0x22
    ensures At(b, i) == 0x5c && At(b, i + 1) == 0x75 <==> cs != [] && cs[0].Uni?
    ensures cs != [] && !cs[0].Raw? ==> At(b, i) == 0x5c
    ensures cs == [] || !cs[0].Raw? ==> 0 <= At(b, i) < 0x80
  {
    if cs == [] {
      HoldsOne(b, i, 0x22);
    } else {
      SplitChars(b, i, cs);
      var w := CharBytes(cs[0]);
      HoldsAt(b, i, w, 0);
      if !cs[0].Raw? {
        HoldsAt(b, i, w, 1);
      }
    }
  }

  /** The escape at `i`, as the grammar's meaning has it: how many `Char`s it takes, and its character. */
  lemma {:induction false} EscapeRead(b: seq<byte>, i: nat, cs: seq<Char>) returns (n: nat)
    requires WfChars(cs) && cs != [] && !cs[0].Raw? && Holds(b, i, Body(cs) + [0x22])
    ensures 1 <= n <= |cs| && At(b, i) == 0x5c
    ensures var u := Unescape(b, i);
            && u.Ok? && u.next <= |b|
            && Meaning(cs) == [u.v] + Meaning(cs[n..])
            && Holds(b, u.next, Body(cs[n..]) + [0x22])
            && u.next + |Body(cs[n..])| == i + |Body(cs)|
  {
    hide Holds, Meaning, Unescape, Body;
    n := if TakesTwo(cs) then 2 else 1;
    if cs[0].Esc? {
      SimpleRead(b, i, cs);
    } else if n == 1 {
      LoneRead(b, i, cs);
    } else {
      PairRead(b, i, cs);
    }
  }

  /** Whether the meaning takes the first two escapes together. */
  predicate TakesTwo(cs: seq<Char>)
    requires WfChars(cs)
  {
    |cs| > 1 && cs[0].Uni? && 0xd800 <= UniVal(cs[0]) < 0xdc00 && IsLow(cs[1])
  }

  lemma {:induction false} SimpleRead(b: seq<byte>, i: nat, cs: seq<Char>)
    requires WfChars(cs) && cs != [] && cs[0].Esc? && Holds(b, i, Body(cs) + [0x22])
    ensures At(b, i) == 0x5c && Unescape(b, i) == Ok(SimpleEscape(cs[0].e) as char, i + 2) && i + 2 <= |b|
    ensures Holds(b, i + 2, Body(cs[1..]) + [0x22]) && |Body(cs)| == 2 + |Body(cs[1..])|
    ensures Meaning(cs) == [Unescape(b, i).v] + Meaning(cs[1..])
  {
    hide Holds, Lossy, RawRun, Hex;
    SplitChars(b, i, cs);
    HoldsAt(b, i, CharBytes(cs[0]), 0);
    HoldsAt(b, i, CharBytes(cs[0]), 1);
  }

  lemma {:induction false} LoneRead(b: seq<byte>, i: nat, cs: seq<Char>)
    requires WfChars(cs) && cs != [] && cs[0].Uni? && !TakesTwo(cs) && Holds(b, i, Body(cs) + [0x22])
    ensures At(b, i) == 0x5c && i + 6 <= |b|
    ensures var v := UniVal(cs[0]); Unescape(b, i) == Ok(if IsSurrogate(v) then REPLACEMENT else v as char, i + 6)
    ensures Holds(b, i + 6, Body(cs[1..]) + [0x22]) && |Body(cs)| == 6 + |Body(cs[1..])|
    ensures Meaning(cs) == [Unescape(b, i).v] + Meaning(cs[1..])
  {
    hide Holds, Lossy, RawRun, Hex;
    SplitChars(b, i, cs);
    UniRead(b, i, cs[0]);
    NextByte(b, i + 6, cs[1..]);
    if |cs| > 1 && cs[1].Uni? {
      SplitChars(b, i + 6, cs[1..]);
      UniRead(b, i + 6, cs[1]);
    }
  }

  lemma {:induction false} PairRead(b: seq<byte>, i: nat, cs: seq<Char>)
    requires WfChars(cs) && TakesTwo(cs) && Holds(b, i, Body(cs) + [0x22])
    ensures At(b, i) == 0x5c && i + 12 <= |b|
    ensures Unescape(b, i) == Ok(PairOf(UniVal(cs[0]), UniVal(cs[1])), i + 12)
    ensures Holds(b, i + 12, Body(cs[2..]) + [0x22]) && |Body(cs)| == 12 + |Body(cs[2..])|
    ensures Meaning(cs) == [Unescape(b, i).v] + Meaning(cs[2..])
  {
    hide Holds, Lossy, RawRun, Hex4, HexVal, UniVal, PairOf, Unescape, Meaning;
    SplitChars(b, i, cs);
    UniRead(b, i, cs[0]);
    SplitChars(b, i + 6, cs[1..]);
    UniRead(b, i + 6, cs[1]);
    assert cs[1..][1..] == cs[2..];
    assert |Body(cs[1..])| == 6 + |Body(cs[2..])|;
    PairUnescape(b, i, UniVal(cs[0]), UniVal(cs[1]));
    PairMeaning(cs);
  }

  lemma {:induction false} PairUnescape(b: seq<byte>, i: nat, hi: nat, lo: nat)
    requires i + 12 <= |b| && 0xd800 <= hi < 0xdc00 <= lo < 0xe000
    requires b[i] == 0x5c && b[i + 1] == 0x75 && Hex4(b, i + 2) == Ok(hi, i + 6)
    requires b[i + 6] == 0x5c && b[i + 7] == 0x75 && Hex4(b, i + 8) == Ok(lo, i + 12)
    ensures Unescape(b, i) == Ok(PairOf(hi, lo), i + 12)
  {
    hide Hex4, PairOf;
  }

  lemma {:induction false} PairMeaning(cs: seq<Char>)
    requires WfChars(cs) && TakesTwo(cs)
    ensures Meaning(cs) == [PairOf(UniVal(cs[0]), UniVal(cs[1]))] + Meaning(cs[2..])
  {
    hide Lossy, UniVal, PairOf, HexVal;
  }

  lemma {:induction false} StringComplete(cs: seq<Char>, b: seq<byte>, i: nat)
    requires WfChars(cs) && Holds(b, i, Body(cs) + [0x22])
    ensures RStr(b, i) == Ok(Quoted(Meaning(cs), Plain(cs)), i + |Body(cs)| + 1)
    decreases |cs|
  {
    NextByte(b, i, cs);
    if cs == [] {
    } else if cs[0].Raw? {
      RawComplete(cs, b, i);
    } else {
      var n := EscapeRead(b, i, cs);
      var u := Unescape(b, i);
      StringComplete(cs[n..], b, u.next);
      assert RStr(b, i) == Prepend([u.v], false, RStr(b, u.next));
    }
  }

  lemma {:induction false} RawComplete(cs: seq<Char>, b: seq<byte>, i: nat)
    requires WfChars(cs) && Holds(b, i, Body(cs) + [0x22]) && cs != [] && cs[0].Raw?
    ensures RStr(b, i) == Ok(Quoted(Meaning(cs), Plain(cs)), i + |Body(cs)| + 1)
    decreases |cs|, 0
  {
    hide RStr, Lossy, Meaning, Plain, Body, Holds, WfChars, AllRaw, AllAscii;
    var n := RawRun(cs);
    RawSplit(cs, b, i);
    RawMeaning(cs);
    RawRead(b, i, i + n);
    StringComplete(cs[n..], b, i + n);
  }

  /** Where the raw stretch ends, and what is left to read. */
  lemma {:induction false} RawSplit(cs: seq<Char>, b: seq<byte>, i: nat)
    requires WfChars(cs) && Holds(b, i, Body(cs) + [0x22]) && cs != [] && cs[0].Raw?
    ensures var n := RawRun(cs); var m := i + n;
            && n > 0 && m < |b| && b[m] < 0x80 && b[i..m] == Body(cs[..n]) && AllRaw(b[i..m])
            && WfChars(cs[n..]) && Holds(b, m, Body(cs[n..]) + [0x22]) && |Body(cs)| == n + |Body(cs[n..])|
  {
    hide Body;
    var n := RawRun(cs);
    var raw, rest := cs[..n], cs[n..];
    assert cs == raw + rest;
    BodyAppend(raw, rest);
    BodyOfRaw(raw);
    Assoc(Body(raw), Body(rest), [0x22]);
    HoldsSplit(b, i, Body(raw), Body(rest) + [0x22]);
    NextByte(b, i + n, rest);
  }

  lemma {:induction false} RawMeaning(cs: seq<Char>)
    requires WfChars(cs) && cs != [] && cs[0].Raw?
    ensures var n := RawRun(cs);
            && WfChars(cs[n..]) && Meaning(cs) == Lossy(Body(cs[..n])) + Meaning(cs[n..])
            && (Plain(cs) <==> AllAscii(Body(cs[..n])) && Plain(cs[n..]))
  {
    hide Lossy, Body;
    var n := RawRun(cs);
    BodyOfRaw(cs[..n]);
    assert forall k | 0 <= k < |cs[n..]| :: cs[n..][k] == cs[n + k];
  }

  // --- escapes as UTF-16 ----------------------------------------------------------------

  /** The UTF-16 code units of a character. */
  function UnitsOf(c: char): seq<nat> {
    var n := c as int;
    if n < 0x10000 then [n] else [0xd800 + (n - 0x10000) / 0x400, 0xdc00 + (n - 0x10000) % 0x400]
  }

  function Units(text: string): seq<nat> {
    if text == "" then [] else UnitsOf(text[0]) + Units(text[1..])
  }

  /** The escapes spell these code units, in hexadecimal digits of either case. */
  predicate SpellUnits(cs: seq<Char>, units: seq<nat>) {
    |cs| == |units| && forall k | 0 <= k < |cs| :: cs[k].Uni? && WfChar(cs[k]) && UniVal(cs[k]) == units[k]
  }

  /** Whatever text is written as escapes of its UTF-16 code units, is read as that text. */
  lemma {:induction false} Utf16Read(text: string, cs: seq<Char>, b: seq<byte>, i: nat)
    requires SpellUnits(cs, Units(text)) && Holds(b, i, Body(cs) + [0x22])
    ensures RStr(b, i) == Ok(Quoted(text, cs == []), i + |Body(cs)| + 1)
  {
    hide RStr, Holds, Body, Meaning, Units;
    UnitsMean(text, cs);
    StringComplete(cs, b, i);
    assert cs != [] ==> cs[0].Uni?;
  }

  lemma {:induction false} UnitsMean(text: string, cs: seq<Char>)
    requires SpellUnits(cs, Units(text))
    ensures WfChars(cs) && Meaning(cs) == text
    decreases |text|
  {
    hide UniVal, HexVal, Meaning, SpellUnits, UnitsOf;
    if text == "" {
      NoUnits(cs);
    } else {
      SpellSplit(cs, UnitsOf(text[0]), Units(text[1..]));
      UnitsMean(text[1..], cs[|UnitsOf(text[0])|..]);
      FirstMeans(text[0], cs);
      assert text == [text[0]] + text[1..];
    }
  }

  lemma {:induction false} NoUnits(cs: seq<Char>)
    requires SpellUnits(cs, [])
    ensures WfChars(cs) && Meaning(cs) == ""
  {
  }

  /** What spells one list of units and then another, is split between them. */
  lemma {:induction false} SpellSplit(cs: seq<Char>, u: seq<nat>, v: seq<nat>)
    requires SpellUnits(cs, u + v)
    ensures |u| <= |cs| && WfChars(cs) && SpellUnits(cs[..|u|], u) && SpellUnits(cs[|u|..], v)
  {
    hide UniVal, HexVal, WfChar;
    var head, tail := cs[..|u|], cs[|u|..];
    forall k | 0 <= k < |head| ensures head[k] == cs[k] && (u + v)[k] == u[k] { }
    forall k | 0 <= k < |tail| ensures tail[k] == cs[|u| + k] && (u + v)[|u| + k] == v[k] { }
  }

  lemma {:induction false} FirstMeans(c: char, cs: seq<Char>)
    requires |UnitsOf(c)| <= |cs| && WfChars(cs) && SpellUnits(cs[..|UnitsOf(c)|], UnitsOf(c))
    ensures Meaning(cs) == [c] + Meaning(cs[|UnitsOf(c)|..])
  {
    hide UniVal, HexVal, Meaning;
    var n := |UnitsOf(c)|;
    assert cs[..n][0] == cs[0];
    if n == 2 {
      assert cs[..n][1] == cs[1];
      PairExact(UniVal(cs[0]), UniVal(cs[1]), c);
      PairMeaning(cs);
    } else {
      OneUnit(cs, c);
    }
  }

  lemma {:induction false} OneUnit(cs: seq<Char>, c: char)
    requires WfChars(cs) && cs != [] && cs[0].Uni? && UniVal(cs[0]) == c as int
    ensures Meaning(cs) == [c] + Meaning(cs[1..])
  {
    hide UniVal, HexVal, Lossy;
  }

  /** A surrogate that is not the first of a pair is U+FFFD, and what follows it is read on its own. */
  lemma {:induction false} LoneSurrogate(cs: seq<Char>)
    requires WfChars(cs) && cs != [] && cs[0].Uni? && 0xd800 <= UniVal(cs[0]) < 0xe000
    requires UniVal(cs[0]) < 0xdc00 && |cs| > 1 && cs[1].Uni? ==> !(0xdc00 <= UniVal(cs[1]) < 0xe000)
    ensures Meaning(cs) == ['\U{fffd}'] + Meaning(cs[1..])
  {
    hide UniVal, HexVal, Lossy;
  }

  // --- numbers and words ----------------------------------------------------------------

  lemma {:induction false} WholeRead(n: Numeral, b: seq<byte>, i: nat)
    requires WfNumeral(n) && Holds(b, i, n.whole) && (n.whole != [0x30] ==> !IsDigit(At(b, i + |n.whole|)))
    ensures RInt(b, i) == Ok((), i + |n.whole|) && IsDigit(At(b, i))
  {
    HoldsAt(b, i, n.whole, 0);
    if n.whole[0] == 0x30 {
      assert n.whole == [0x30];
    } else {
      SkipDigitsOver(b, i, n.whole);
    }
  }

  lemma {:induction false} FracRead(n: Numeral, b: seq<byte>, i: nat)
    requires WfNumeral(n) && Holds(b, i, FracBytes(n))
    requires if n.frac.Some? then !IsDigit(At(b, i + |FracBytes(n)|)) else At(b, i) != 0x2e
    ensures RFrac(b, i) == Ok((), i + |FracBytes(n)|)
  {
    if n.frac.Some? {
      HoldsSplit(b, i, [0x2e], n.frac.value);
      HoldsOne(b, i, 0x2e);
      HoldsAt(b, i + 1, n.frac.value, 0);
      SkipDigitsOver(b, i + 1, n.frac.value);
    }
  }

  lemma {:induction false} ExpRead(n: Numeral, b: seq<byte>, i: nat)
    requires WfNumeral(n) && Holds(b, i, ExpBytes(n))
    requires if n.exp.Some? then !IsDigit(At(b, i + |ExpBytes(n)|)) else At(b, i) != 0x65 && At(b, i) != 0x45
    ensures RExp(b, i) == Ok((), i + |ExpBytes(n)|)
  {
    hide Holds, SkipDigits;
    if n.exp.Some? {
      var x := n.exp.value;
      HoldsSplit(b, i, [x.e], x.sign + x.digits);
      HoldsOne(b, i, x.e);
      HoldsSplit(b, i + 1, x.sign, x.digits);
      HoldsAt(b, i + 1 + |x.sign|, x.digits, 0);
      if x.sign != [] {
        HoldsAt(b, i + 1, x.sign, 0);
      }
      SkipDigitsOver(b, i + 1 + |x.sign|, x.digits);
    }
  }

  /** The four parts of a numeral, one behind the other. */
  lemma {:induction false} NumeralParts(n: Numeral, b: seq<byte>, i: nat)
    requires Holds(b, i, NumeralBytes(n))
    ensures var p1 := i + |MinusBytes(n)|; var p2 := p1 + |n.whole|; var p3 := p2 + |FracBytes(n)|;
            && Holds(b, i, MinusBytes(n)) && Holds(b, p1, n.whole) && Holds(b, p2, FracBytes(n)) && Holds(b, p3, ExpBytes(n))
            && i + |NumeralBytes(n)| == p3 + |ExpBytes(n)|
  {
    hide Holds, MinusBytes, FracBytes, ExpBytes;
    var p1 := i + |MinusBytes(n)|;
    HoldsSplit(b, i, MinusBytes(n), n.whole + (FracBytes(n) + ExpBytes(n)));
    HoldsSplit(b, p1, n.whole, FracBytes(n) + ExpBytes(n));
    HoldsSplit(b, p1 + |n.whole|, FracBytes(n), ExpBytes(n));
  }

  /** What the fraction and the exponent begin with. */
  lemma {:induction false} PartBytes(n: Numeral, b: seq<byte>, p2: nat, p3: nat)
    requires WfNumeral(n) && Holds(b, p2, FracBytes(n)) && Holds(b, p3, ExpBytes(n))
    ensures n.frac.Some? ==> At(b, p2) == 0x2e
    ensures n.exp.Some? ==> At(b, p3) == 0x65 || At(b, p3) == 0x45
  {
    hide Holds, AllDigits;
    if n.frac.Some? { HoldsAt(b, p2, FracBytes(n), 0); }
    if n.exp.Some? { HoldsAt(b, p3, ExpBytes(n), 0); }
  }

  /** Behind each part stands a byte that does not go on with it. */
  lemma {:induction false} PartsEnd(n: Numeral, b: seq<byte>, p2: nat)
    requires var p3 := p2 + |FracBytes(n)|;
             WfNumeral(n) && Holds(b, p2, FracBytes(n)) && Holds(b, p3, ExpBytes(n)) && !GoesOn(n, At(b, p3 + |ExpBytes(n)|))
    ensures var p3 := p2 + |FracBytes(n)|;
            && (n.whole != [0x30] ==> !IsDigit(At(b, p2)))
            && (if n.frac.Some? then !IsDigit(At(b, p3)) else At(b, p2) != 0x2e)
            && (if n.exp.Some? then !IsDigit(At(b, p3 + |ExpBytes(n)|)) else At(b, p3) != 0x65 && At(b, p3) != 0x45)
  {
    hide Holds, AllDigits, WfNumeral;
    PartBytes(n, b, p2, p2 + |FracBytes(n)|);
  }

  /** A numeral is read to its end, given that the text does not go on with it. */
  lemma {:induction false} NumeralComplete(n: Numeral, b: seq<byte>, i: nat)
    requires WfNumeral(n) && Holds(b, i, NumeralBytes(n)) && !GoesOn(n, At(b, i + |NumeralBytes(n)|))
    ensures RNumEnd(b, i) == Ok((), i + |NumeralBytes(n)|)
    ensures At(b, i) == 0x2d || IsDigit(At(b, i))
  {
    hide Holds, RInt, RFrac, RExp, AllDigits, WfNumeral, GoesOn, FracBytes, ExpBytes, NumeralBytes;
    var p1 := i + |MinusBytes(n)|;
    var p2 := p1 + |n.whole|;
    NumeralParts(n, b, i);
    PartsEnd(n, b, p2);
    if n.minus { HoldsOne(b, i, 0x2d); }
    WholeRead(n, b, p1);
    FracRead(n, b, p2);
    ExpRead(n, b, p2 + |FracBytes(n)|);
  }

  lemma {:induction false} WordRead(b: seq<byte>, i: nat, word: seq<byte>, k: nat)
    requires k <= |word| && Holds(b, i, word)
    ensures RWord(b, i, word, k) == Ok((), i + |word|)
    decreases |word| - k
  {
    if k < |word| {
      HoldsAt(b, i, word, k);
      WordRead(b, i, word, k + 1);
    }
  }

  // --- values -----------------------------------------------------------------------------

  predicate IsScalar(c: Cst) {
    c.CNull? || c.CTrue? || c.CFalse? || c.CNum? || c.CStr?
  }

  lemma {:induction false} QuoteRead(b: seq<byte>, i: nat, cs: seq<Char>)
    requires WfChars(cs) && Holds(b, i, Quote(cs))
    ensures At(b, i) == 0x22
    ensures RStr(b, i + 1) == Ok(Quoted(Meaning(cs), Plain(cs)), i + |Quote(cs)|)
  {
    HoldsAt(b, i, Quote(cs), 0);
    HoldsSplit(b, i, [0x22], Body(cs) + [0x22]);
    StringComplete(cs, b, i + 1);
  }

  lemma {:induction false} ScalarComplete(c: Cst, b: seq<byte>, i: nat)
    requires Wf(c) && IsScalar(c) && Holds(b, i, Yield(c))
    requires c.CNum? ==> !GoesOn(c.n, At(b, i + |Yield(c)|))
    ensures RScalar(b, i) == Ok(Tree(c), i + |Yield(c)|)
    ensures !IsWs(At(b, i)) && At(b, i) != 0x7b && At(b, i) != 0x5b && At(b, i) != 0x5d
  {
    hide RStr, Meaning, RNumEnd, NumeralBytes, Quote;
    match c
    case CNum(n) =>
      NumeralComplete(n, b, i);
    case CStr(cs) =>
      QuoteRead(b, i, cs);
    case CNull =>
      HoldsAt(b, i, NULL, 0);
      WordRead(b, i, NULL, 0);
    case CTrue =>
      HoldsAt(b, i, TRUE, 0);
      WordRead(b, i, TRUE, 0);
    case CFalse =>
      HoldsAt(b, i, FALSE, 0);
      WordRead(b, i, FALSE, 0);
  }

  lemma {:induction false} FirstByte(c: Cst, b: seq<byte>, i: nat)
    requires Wf(c) && Holds(b, i, Yield(c)) && (c.CNum? ==> !GoesOn(c.n, At(b, i + |Yield(c)|)))
    ensures !IsWs(At(b, i)) && At(b, i) != 0x5d
    ensures IsScalar(c) ==> At(b, i) != 0x7b && At(b, i) != 0x5b
    ensures c.CArr? || c.CEmptyArr? ==> At(b, i) == 0x5b
    ensures c.CObj? || c.CEmptyObj? ==> At(b, i) == 0x7b
  {
    if IsScalar(c) {
      ScalarComplete(c, b, i);
    } else {
      HoldsAt(b, i, Yield(c), 0);
    }
  }

  /** Nothing that may follow an item goes on with a number. */
  lemma {:induction false} AfterItem(b: seq<byte>, i: nat, w: seq<byte>)
    requires Holds(b, i, w) && AllWs(w)
    requires var c := At(b, i + |w|); c == -1 || c == 0x2c || c == 0x5d || c == 0x7d
    ensures StopsNumber(At(b, i)) && SkipWs(b, i) == i + |w|
  {
    SkipWsOver(b, i, w);
    if w != [] {
      HoldsAt(b, i, w, 0);
    }
  }

  lemma {:induction false} EmptyComplete(c: Cst, b: seq<byte>, i: nat, d: nat)
    requires Wf(c) && (c.CEmptyArr? || c.CEmptyObj?) && Holds(b, i, Yield(c)) && d < MAX_DEPTH
    ensures RValue(b, i, d) == Ok(Tree(c), i + |Yield(c)|)
  {
    hide RItems, RMembers, RKey;
    var open: byte := if c.CEmptyArr? then 0x5b else 0x7b;
    var close: byte := if c.CEmptyArr? then 0x5d else 0x7d;
    HoldsSplit(b, i, [open], c.gap + [close]);
    HoldsOne(b, i, open);
    HoldsSplit(b, i + 1, c.gap, [close]);
    HoldsOne(b, i + 1 + |c.gap|, close);
    SkipWsOver(b, i + 1, c.gap);
    ValueContainer(b, i, d);
  }

  lemma {:induction false} ItemsSkipWs(b: seq<byte>, i: nat, d: nat)
    requires i <= |b|
    ensures RItems(b, i, d) == RItems(b, SkipWs(b, i), d)
  {
    hide RValue;
    ValueSkipsWs(b, i, d);
  }

  lemma {:induction false} KeySkipsWs(b: seq<byte>, i: nat)
    requires i <= |b|
    ensures RKey(b, i) == RKey(b, SkipWs(b, i))
  {
    hide RStr;
    assert SkipWs(b, SkipWs(b, i)) == SkipWs(b, i);
  }

  function Deep<T>(d: nat, depth: nat, v: T, next: nat): Res<T> {
    if d + depth <= MAX_DEPTH then Ok(v, next) else Fail(false)
  }

  /** A tree is read as its value when it is no deeper than the cap, and else refused as too deep. */
  lemma {:induction false} ValueComplete(c: Cst, b: seq<byte>, i: nat, d: nat)
    requires Wf(c) && Holds(b, i, Yield(c)) && d <= MAX_DEPTH
    requires c.CNum? ==> !GoesOn(c.n, At(b, i + |Yield(c)|))
    ensures RValue(b, i, d) == Deep(d, Depth(c), Tree(c), i + |Yield(c)|)
    decreases c, 0
  {
    hide RItems, RMembers, RKey, RScalar, TreeItems, TreePairs;
    FirstByte(c, b, i);
    assert SkipWs(b, i) == i;
    if IsScalar(c) {
      ScalarComplete(c, b, i);
    } else if d >= MAX_DEPTH {
      ValueTooDeep(b, i, d);
    } else if c.CArr? {
      ArrayComplete(c, b, i, d);
    } else if c.CObj? {
      ObjectComplete(c, b, i, d);
    } else {
      EmptyComplete(c, b, i, d);
    }
  }

  lemma {:induction false} ArrayComplete(c: Cst, b: seq<byte>, i: nat, d: nat)
    requires c.CArr? && Wf(c) && Holds(b, i, Yield(c)) && d < MAX_DEPTH
    ensures RValue(b, i, d) == Deep(d, Depth(c), Tree(c), i + |Yield(c)|)
    decreases c.items, 2
  {
    hide RItems, RMembers, RKey, RValue, TreeItems, YieldItems, WfItems;
    var rest := YieldItems(c.items);
    HoldsAt(b, i, Yield(c), 0);
    HoldsSplit(b, i, [0x5b], rest);
    ItemsComplete(c.items, b, i + 1, d + 1);
    ItemsSkipWs(b, i + 1, d + 1);
    ValueContainer(b, i, d);
  }

  lemma {:induction false} ItemsComplete(items: seq<Item>, b: seq<byte>, i: nat, d: nat)
    requires items != [] && WfItems(items) && Holds(b, i, YieldItems(items)) && d <= MAX_DEPTH
    ensures RItems(b, i, d) == Deep(d, DepthItems(items), TreeItems(items), i + |YieldItems(items)|)
    ensures At(b, SkipWs(b, i)) != 0x5d
    decreases items, 1
  {
    hide Holds, RItems, RMembers, RKey, RValue, RItemsRest, YieldItem, DepthItems, TreeItems, Depth, Tree;
    var item := items[0];
    var tail := if |items| == 1 then [0x5d] else [0x2c] + YieldItems(items[1..]);
    HoldsSplit(b, i, YieldItem(item), tail);
    var p := i + |YieldItem(item)|;
    HoldsAt(b, p, tail, 0);
    var j := ItemComplete(item, b, i, d);
    if |items| > 1 {
      HoldsSplit(b, p, [0x2c], YieldItems(items[1..]));
      ItemsComplete(items[1..], b, p + 1, d);
    }
    ItemsJoin(items, b, i, j, p, d);
  }

  /** One item: its value is read, and what follows it is at `p`. */
  lemma {:induction false} ItemComplete(item: Item, b: seq<byte>, i: nat, d: nat) returns (j: nat)
    requires AllWs(item.before) && Wf(item.v) && AllWs(item.after) && Holds(b, i, YieldItem(item)) && d <= MAX_DEPTH
    requires var c := At(b, i + |YieldItem(item)|); c == -1 || c == 0x2c || c == 0x5d || c == 0x7d
    ensures j <= |b| && RValue(b, i, d) == Deep(d, Depth(item.v), Tree(item.v), j)
    ensures SkipWs(b, j) == i + |YieldItem(item)|
    ensures At(b, SkipWs(b, i)) != 0x5d
    decreases item, 1
  {
    hide Holds, RValue, Wf, Yield, Tree, Depth;
    var q := i + |item.before|;
    HoldsSplit(b, i, item.before, Yield(item.v) + item.after);
    HoldsSplit(b, q, Yield(item.v), item.after);
    j := q + |Yield(item.v)|;
    AfterItem(b, j, item.after);
    FirstByte(item.v, b, q);
    SkipWsOver(b, i, item.before);
    ValueComplete(item.v, b, q, d);
    ValueSkipsWs(b, i, d);
  }

  lemma {:induction false} ItemsJoin(items: seq<Item>, b: seq<byte>, i: nat, j: nat, p: nat, d: nat)
    requires items != [] && WfItems(items) && i <= |b| && j <= |b| && d <= MAX_DEPTH
    requires RValue(b, i, d) == Deep(d, Depth(items[0].v), Tree(items[0].v), j)
    requires SkipWs(b, j) == p < |b| && p + 1 <= |b|
    requires if |items| == 1 then b[p] == 0x5d
             else b[p] == 0x2c && RItems(b, p + 1, d) == Deep(d, DepthItems(items[1..]), TreeItems(items[1..]), p + 1 + |YieldItems(items[1..])|)
    requires p + (if |items| == 1 then 1 else 1 + |YieldItems(items[1..])|) == i + |YieldItems(items)|
    ensures RItems(b, i, d) == Deep(d, DepthItems(items), TreeItems(items), i + |YieldItems(items)|)
  {
    hide RValue, YieldItems, Tree, Depth, Wf;
    if |items| == 1 {
      assert items[1..] == [];
    }
    assert RItemsRest(b, j, d) == if |items| == 1 then Ok([], p + 1) else RItems(b, p + 1, d);
  }

  lemma {:induction false} ObjectComplete(c: Cst, b: seq<byte>, i: nat, d: nat)
    requires c.CObj? && Wf(c) && Holds(b, i, Yield(c)) && d < MAX_DEPTH
    ensures RValue(b, i, d) == Deep(d, Depth(c), Tree(c), i + |Yield(c)|)
    decreases c.pairs, 2
  {
    hide RItems, RMembers, RKey, RValue, TreePairs, YieldPairs, WfPairs;
    var rest := YieldPairs(c.pairs);
    HoldsAt(b, i, Yield(c), 0);
    HoldsSplit(b, i, [0x7b], rest);
    PairsComplete(c.pairs, b, i + 1, d + 1);
    KeySkipsWs(b, i + 1);
    ValueContainer(b, i, d);
  }

  lemma {:induction false} KeyComplete(p: Pair, b: seq<byte>, i: nat)
    requires AllWs(p.before) && WfChars(p.key) && AllWs(p.mid) && Holds(b, i, YieldKey(p))
    ensures RKey(b, i) == Ok(Meaning(p.key), i + |YieldKey(p)|)
    ensures At(b, SkipWs(b, i)) == 0x22
  {
    hide Holds, RStr, Meaning, Quote, SkipWs, Body;
    var q := i + |p.before|;
    HoldsSplit(b, i, p.before, Quote(p.key) + (p.mid + [0x3a]));
    HoldsSplit(b, q, Quote(p.key), p.mid + [0x3a]);
    QuoteRead(b, q, p.key);
    SkipWsOver(b, i, p.before);
    var r := q + |Quote(p.key)|;
    HoldsSplit(b, r, p.mid, [0x3a]);
    HoldsOne(b, r + |p.mid|, 0x3a);
    SkipWsOver(b, r, p.mid);
  }

  function PairsTail(pairs: seq<Pair>): (s: seq<byte>)
    requires pairs != []
    ensures s != [] && s[0] == if |pairs| == 1 then 0x7d else 0x2c
  {
    if |pairs| == 1 then [0x7d] else [0x2c] + YieldPairs(pairs[1..])
  }

  lemma {:induction false} PairsComplete(pairs: seq<Pair>, b: seq<byte>, i: nat, d: nat)
    requires pairs != [] && WfPairs(pairs) && Holds(b, i, YieldPairs(pairs)) && d <= MAX_DEPTH
    ensures RKey(b, i).Ok? && At(b, SkipWs(b, i)) == 0x22
    ensures RMembers(b, RKey(b, i).next, d, RKey(b, i).v) == Deep(d, DepthPairs(pairs), TreePairs(pairs), i + |YieldPairs(pairs)|)
    decreases pairs, 1
  {
    hide Holds, RItems, RMembers, RKey, RValue, RItemsRest, RMembersRest, YieldKey, YieldItem, DepthPairs, TreePairs, Depth, Tree, SkipWs, Meaning;
    var pair := pairs[0];
    var item := pair.item;
    var tail := PairsTail(pairs);
    HoldsSplit(b, i, YieldKey(pair), YieldItem(item) + tail);
    KeyComplete(pair, b, i);
    var k := i + |YieldKey(pair)|;
    HoldsSplit(b, k, YieldItem(item), tail);
    var p := k + |YieldItem(item)|;
    HoldsAt(b, p, tail, 0);
    var j := ItemComplete(item, b, k, d);
    if |pairs| > 1 {
      HoldsSplit(b, p, [0x2c], YieldPairs(pairs[1..]));
      PairsComplete(pairs[1..], b, p + 1, d);
    }
    PairsJoin(pairs, b, k, j, p, d);
  }

  lemma {:induction false} PairsJoin(pairs: seq<Pair>, b: seq<byte>, i: nat, j: nat, p: nat, d: nat)
    requires pairs != [] && WfPairs(pairs) && i <= |b| && j <= |b| && d <= MAX_DEPTH
    requires RValue(b, i, d) == Deep(d, Depth(pairs[0].item.v), Tree(pairs[0].item.v), j)
    requires SkipWs(b, j) == p < |b| && p + 1 <= |b|
    requires if |pairs| == 1 then b[p] == 0x7d
             else b[p] == 0x2c && RKey(b, p + 1).Ok? &&
                  RMembers(b, RKey(b, p + 1).next, d, RKey(b, p + 1).v) == Deep(d, DepthPairs(pairs[1..]), TreePairs(pairs[1..]), p + 1 + |YieldPairs(pairs[1..])|)
    ensures RMembers(b, i, d, Meaning(pairs[0].key)) ==
            Deep(d, DepthPairs(pairs), TreePairs(pairs), p + (if |pairs| == 1 then 1 else 1 + |YieldPairs(pairs[1..])|))
  {
    hide RValue, YieldPairs, Tree, Depth, Wf, RKey, Meaning;
    if |pairs| == 1 {
      assert pairs[1..] == [];
    }
    assert RMembersRest(b, j, d) == if |pairs| == 1 then Ok([], p + 1) else RMembers(b, RKey(b, p + 1).next, d, RKey(b, p + 1).v);
  }
}
