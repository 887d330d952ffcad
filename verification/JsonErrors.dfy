/** What a refusal says about bytes still to come. */
module JsonErrors {
  import opened Utf8
  import opened Json
  import opened JsonReader
  import opened JsonGrammar
  import opened JsonComplete
  import opened JsonSound

  lemma {:induction false} AtAppend(b: seq<byte>, s: seq<byte>, k: nat)
    ensures k < |b| ==> At(b + s, k) == At(b, k)
    ensures k >= |b| ==> At(b + s, k) == At(s, k - |b|)
  {
  }

  lemma {:induction false} HoldsAppend(b: seq<byte>, s: seq<byte>, i: nat, w: seq<byte>)
    requires Holds(b, i, w)
    ensures Holds(b + s, i, w)
  {
    assert (b + s)[i..i + |w|] == b[i..i + |w|];
  }

  // --- whitespace and digits ------------------------------------------------------------

  lemma {:induction false} WsStable(b: seq<byte>, s: seq<byte>, i: nat)
    requires i <= |b|
    ensures SkipWs(b, i) < |b| ==> SkipWs(b + s, i) == SkipWs(b, i)
    ensures SkipWs(b, i) == |b| ==> SkipWs(b + s, i) == SkipWs(b + s, |b|)
    decreases |b| - i
  {
    if IsWs(At(b, i)) {
      WsStable(b, s, i + 1);
    }
  }

  lemma {:induction false} DigitsStable(b: seq<byte>, s: seq<byte>, i: nat)
    requires i <= |b| && (SkipDigits(b, i) < |b| || !IsDigit(At(s, 0)))
    ensures SkipDigits(b + s, i) == SkipDigits(b, i)
    decreases |b| - i
  {
    if IsDigit(At(b, i)) {
      DigitsStable(b, s, i + 1);
    }
  }

  // --- strings -----------------------------------------------------------------------------

  /** Where a string ends or why it does not, with no regard to what it says. */
  function Scan(b: seq<byte>, i: nat): (r: Res<()>)
    requires i <= |b|
    ensures r.Ok? ==> i < r.next <= |b|
    decreases |b| - i
  {
    if i == |b| then Fail(true)
    else if b[i] == 0x22 then Ok((), i + 1)
    else if b[i] < 0x20 then Fail(false)
    else if b[i] != 0x5c then Scan(b, i + 1)
    else if At(b, i + 1) == 0x75 then
      match Hex4(b, i + 2)
      case Fail(eof) => Fail(eof)
      case Ok(_, j) => Scan(b, j)
    else if SimpleEscape(At(b, i + 1)) >= 0 then Scan(b, i + 2)
    else FailAt(b, i + 1)
  }

  /** The shape of a result: how it ended and where. */
  function Shape<T>(r: Res<T>): Res<()> {
    match r
    case Fail(eof) => Fail(eof)
    case Ok(_, j) => Ok((), j)
  }

  lemma {:induction false} ScanSkips(b: seq<byte>, i: nat, k: nat)
    requires i + k <= |b| && forall j | i <= j < i + k :: b[j] >= 0x80
    ensures Scan(b, i) == Scan(b, i + k)
    decreases k
  {
    if k > 0 {
      ScanSkips(b, i + 1, k - 1);
    }
  }

  lemma {:induction false} HighRun(b: seq<byte>, i: nat)
    requires i < |b| && b[i] >= 0x80
    ensures forall j | i <= j < i + ValidLength(b, i) :: b[j] >= 0x80
  {
    var k := ValidLength(b, i);
    if k > 1 { assert At(b, i + 1) == b[i + 1]; }
    if k > 2 { assert At(b, i + 2) == b[i + 2]; }
    if k > 3 { assert At(b, i + 3) == b[i + 3]; }
  }

  /** Unquoting decides nothing about where a string ends. */
  lemma {:induction false} ScanShape(b: seq<byte>, i: nat)
    requires i <= |b|
    ensures Shape(RStr(b, i)) == Scan(b, i)
    decreases |b| - i
  {
    if i == |b| || b[i] == 0x22 || b[i] < 0x20 {
    } else if b[i] == 0x5c {
      EscapeShape(b, i);
    } else if b[i] < 0x80 {
      hide ValidLength, Unescape;
      ScanShape(b, i + 1);
    } else {
      hide Unescape;
      var len := ValidLength(b, i);
      HighRun(b, i);
      ScanSkips(b, i, if len > 0 then len else 1);
      ScanShape(b, if len > 0 then i + len else i + 1);
    }
  }

  lemma {:induction false} EscapeShape(b: seq<byte>, i: nat)
    requires i < |b| && b[i] == 0x5c
    ensures Shape(RStr(b, i)) == Scan(b, i)
    decreases |b| - i, 0
  {
    hide Hex4, ValidLength;
    var u := Unescape(b, i);
    assert RStr(b, i) == if u.Fail? then Fail(u.eof) else Prepend([u.v], false, RStr(b, u.next));
    if u.Ok? {
      ScanShape(b, u.next);
      hide RStr;
      if At(b, i + 1) == 0x75 && u.next != i + 6 {
        assert Scan(b, i + 6) == Scan(b, i + 12);
      }
    } else if At(b, i + 1) == 0x75 && Hex4(b, i + 2).Ok? {
      hide RStr;
      assert Scan(b, i) == Scan(b, i + 6);
    }
  }

  lemma {:induction false} HexRefused(b: seq<byte>, s: seq<byte>, at: nat, k: nat, v: nat)
    requires k <= 4 && at + k <= |b| && v < HexBound(k) && Hex(b, at, k, v) != Fail(true)
    ensures Hex(b + s, at, k, v) == Hex(b, at, k, v)
    decreases 4 - k
  {
    hide HexVal;
    if k < 4 {
      AtAppend(b, s, at + k);
      if HexVal(At(b, at + k)) >= 0 {
        HexRefused(b, s, at, k + 1, v * 16 + HexVal(At(b, at + k)));
      }
    }
  }

  lemma {:induction false} Hex4Refused(b: seq<byte>, s: seq<byte>, at: nat)
    requires at <= |b| && Hex4(b, at) != Fail(true)
    ensures Hex4(b + s, at) == Hex4(b, at)
  {
    HexRefused(b, s, at, 0, 0);
  }

  lemma {:induction false} ScanRefused(b: seq<byte>, s: seq<byte>, i: nat)
    requires i <= |b| && Scan(b, i) == Fail(false)
    ensures Scan(b + s, i) == Fail(false)
    decreases |b| - i
  {
    hide Hex4;
    if b[i] == 0x22 || b[i] < 0x20 {
    } else if b[i] != 0x5c {
      ScanRefused(b, s, i + 1);
    } else {
      AtAppend(b, s, i + 1);
      if At(b, i + 1) == 0x75 {
        Hex4Refused(b, s, i + 2);
        if Hex4(b, i + 2).Ok? {
          ScanRefused(b, s, i + 6);
        }
      } else if SimpleEscape(At(b, i + 1)) >= 0 {
        ScanRefused(b, s, i + 2);
      }
    }
  }

  /** A string that is read, or refused for good, stays so. */
  lemma {:induction false} StringStable(b: seq<byte>, s: seq<byte>, i: nat)
    requires i <= |b| && RStr(b, i) != Fail(true)
    ensures RStr(b + s, i) == RStr(b, i)
  {
    hide RStr, Scan, Meaning;
    if RStr(b, i).Ok? {
      var cs := StringSound(b, i);
      HoldsAppend(b, s, i, Body(cs) + [0x22]);
      StringComplete(cs, b + s, i);
    } else {
      ScanShape(b, i);
      ScanRefused(b, s, i);
      ScanShape(b + s, i);
    }
  }

  /** The hexadecimal digits that are missing. */
  lemma {:induction false} HexViable(b: seq<byte>, at: nat, k: nat, v: nat, t: seq<byte>) returns (z: seq<byte>)
    requires k <= 4 && at + k <= |b| && v < HexBound(k) && Hex(b, at, k, v) == Fail(true)
    ensures |b + z| == at + 4 && Hex(b + z + t, at, k, v).Ok?
    decreases 4 - k
  {
    AtAppend(b, [], at + k);
    if at + k == |b| {
      z := seq(4 - k, _ => 0x30);
      HexZeros(b + z + t, at, k, v);
    } else {
      z := HexViable(b, at, k + 1, v * 16 + HexVal(At(b, at + k)), t);
      assert At(b + z + t, at + k) == At(b, at + k);
    }
  }

  lemma {:induction false} HexZeros(b: seq<byte>, at: nat, k: nat, v: nat)
    requires k <= 4 && at + 4 <= |b| && v < HexBound(k) && forall j | at + k <= j < at + 4 :: b[j] == 0x30
    ensures Hex(b, at, k, v).Ok?
    decreases 4 - k
  {
    if k < 4 {
      HexZeros(b, at, k + 1, v * 16);
    }
  }

  /** What closes a string that the end has cut. */
  lemma {:induction false} ScanViable(b: seq<byte>, i: nat, t: seq<byte>) returns (s: seq<byte>)
    requires i <= |b| && Scan(b, i) == Fail(true)
    ensures Scan(b + s + t, i) == Ok((), |b + s|)
    decreases |b| - i
  {
    hide Hex4;
    if i == |b| {
      s := [0x22];
    } else if b[i] != 0x5c {
      s := ScanViable(b, i + 1, t);
    } else if i + 1 == |b| {
      s := [0x22, 0x22];
      var x := b + s + t;
      assert x[i + 1] == 0x22 && x[i + 2] == 0x22;
      assert Scan(x, i + 2) == Ok((), i + 3);
    } else if b[i + 1] != 0x75 {
      s := ScanViable(b, i + 2, t);
    } else if Hex4(b, i + 2).Ok? {
      s := ScanViable(b, i + 6, t);
      Assoc(b, s, t);
      Hex4Refused(b, s + t, i + 2);
    } else {
      s := UniViable(b, i, t);
    }
  }

  lemma {:induction false} UniViable(b: seq<byte>, i: nat, t: seq<byte>) returns (s: seq<byte>)
    requires i + 2 <= |b| && b[i] == 0x5c && b[i + 1] == 0x75 && Hex4(b, i + 2) == Fail(true)
    ensures Scan(b + s + t, i) == Ok((), |b + s|)
  {
    var z := HexViable(b, i + 2, 0, 0, [0x22] + t);
    s := z + [0x22];
    var x := b + s + t;
    assert x == b + z + ([0x22] + t);
    assert x[i] == 0x5c && x[i + 1] == 0x75 && x[i + 6] == 0x22;
    assert Scan(x, i + 6) == Ok((), i + 7);
  }

  lemma {:induction false} StringViable(b: seq<byte>, i: nat, t: seq<byte>) returns (s: seq<byte>)
    requires i <= |b| && RStr(b, i) == Fail(true)
    ensures RStr(b + s + t, i).Ok? && RStr(b + s + t, i).next == |b + s|
  {
    hide RStr, Scan;
    ScanShape(b, i);
    s := ScanViable(b, i, t);
    ScanShape(b + s + t, i);
  }

  // --- numbers and words ----------------------------------------------------------------------

  /** A number that is read stays so, unless it touches the end and what comes goes on with it. */
  lemma {:induction false} NumberStable(b: seq<byte>, s: seq<byte>, i: nat)
    requires i <= |b| && RNumEnd(b, i) != Fail(true)
    requires RNumEnd(b, i).Ok? ==> RNumEnd(b, i).next < |b| || StopsNumber(At(s, 0))
    ensures RNumEnd(b + s, i) == RNumEnd(b, i)
  {
    var x := b + s;
    AtAppend(b, s, i);
    var p1 := if At(b, i) == 0x2d then i + 1 else i;
    if i < |b| {
      IntStable(b, s, p1);
      if RInt(b, p1).Ok? {
        var p2 := RInt(b, p1).next;
        FracStable(b, s, p2);
        if RFrac(b, p2).Ok? {
          ExpStable(b, s, RFrac(b, p2).next);
        }
      }
    }
  }

  lemma {:induction false} IntStable(b: seq<byte>, s: seq<byte>, i: nat)
    requires i <= |b| && RInt(b, i) != Fail(true)
    requires RInt(b, i).Ok? ==> RInt(b, i).next < |b| || StopsNumber(At(s, 0))
    ensures RInt(b + s, i) == RInt(b, i)
  {
    AtAppend(b, s, i);
    if IsDigit(At(b, i)) && At(b, i) != 0x30 { DigitsStable(b, s, i); }
  }

  lemma {:induction false} TailStable(b: seq<byte>, s: seq<byte>, i: nat)
    requires i <= |b| && RDigits(b, i) != Fail(true)
    requires RDigits(b, i).Ok? ==> RDigits(b, i).next < |b| || StopsNumber(At(s, 0))
    ensures RDigits(b + s, i) == RDigits(b, i)
  {
    AtAppend(b, s, i);
    if IsDigit(At(b, i)) { DigitsStable(b, s, i); }
  }

  lemma {:induction false} FracStable(b: seq<byte>, s: seq<byte>, i: nat)
    requires i <= |b| && RFrac(b, i) != Fail(true)
    requires RFrac(b, i).Ok? ==> RFrac(b, i).next < |b| || StopsNumber(At(s, 0))
    ensures RFrac(b + s, i) == RFrac(b, i)
  {
    AtAppend(b, s, i);
    if At(b, i) == 0x2e { TailStable(b, s, i + 1); }
  }

  lemma {:induction false} ExpStable(b: seq<byte>, s: seq<byte>, i: nat)
    requires i <= |b| && RExp(b, i) != Fail(true)
    requires RExp(b, i).Ok? ==> RExp(b, i).next < |b| || StopsNumber(At(s, 0))
    ensures RExp(b + s, i) == RExp(b, i)
  {
    AtAppend(b, s, i);
    AtAppend(b, s, i + 1);
    if At(b, i) == 0x65 || At(b, i) == 0x45 {
      TailStable(b, s, if At(b, i + 1) == 0x2b || At(b, i + 1) == 0x2d then i + 2 else i + 1);
    }
  }

  /** One digit completes a number that the end has cut. */
  lemma {:induction false} NumberViable(b: seq<byte>, i: nat, t: seq<byte>)
    requires i <= |b| && RNumEnd(b, i) == Fail(true) && StopsNumber(At(t, 0))
    ensures RNumEnd(b + [0x30] + t, i) == Ok((), |b| + 1)
  {
    hide SkipDigits;
    var x := b + [0x30] + t;
    Assoc(b, [0x30], t);
    var s := [0x30] + t;
    assert x == b + s && At(x, |b|) == 0x30 && At(x, |b| + 1) == At(t, 0);
    AtAppend(b, s, i);
    var p1 := if At(b, i) == 0x2d then i + 1 else i;
    DigitAtEnd(x, |b|);
    if RInt(b, p1).Ok? {
      IntStable(b, s, p1);
      FracOrExpViable(b, RInt(b, p1).next, t);
    }
  }

  lemma {:induction false} FracOrExpViable(b: seq<byte>, i: nat, t: seq<byte>)
    requires i <= |b| && StopsNumber(At(t, 0))
    requires RFrac(b, i) == Fail(true) || (RFrac(b, i).Ok? && RExp(b, RFrac(b, i).next) == Fail(true))
    ensures i < |b|
    ensures var x := b + ([0x30] + t);
            RFrac(x, i).Ok? && RExp(x, RFrac(x, i).next) == Ok((), |b| + 1)
  {
    hide SkipDigits;
    var s := [0x30] + t;
    var x := b + s;
    assert At(x, |b|) == 0x30 && At(x, |b| + 1) == At(t, 0);
    DigitAtEnd(x, |b|);
    AtAppend(b, s, i);
    if RFrac(b, i).Ok? {
      var j := RFrac(b, i).next;
      AtAppend(b, s, j);
      AtAppend(b, s, j + 1);
      FracStable(b, s, i);
    }
  }

  lemma {:induction false} DigitAtEnd(x: seq<byte>, n: nat)
    requires n < |x| && x[n] == 0x30 && StopsNumber(At(x, n + 1))
    ensures RDigits(x, n) == Ok((), n + 1)
  {
    assert SkipDigits(x, n + 1) == n + 1;
  }

  lemma {:induction false} WordRefused(b: seq<byte>, s: seq<byte>, i: nat, word: seq<byte>, k: nat)
    requires k <= |word| && i + k <= |b| && RWord(b, i, word, k) == Fail(false)
    ensures RWord(b + s, i, word, k) == Fail(false)
    decreases |word| - k
  {
    AtAppend(b, s, i + k);
    if At(b, i + k) == word[k] {
      WordRefused(b, s, i, word, k + 1);
    }
  }

  lemma {:induction false} WordViable(b: seq<byte>, i: nat, word: seq<byte>, k: nat, t: seq<byte>)
    requires k <= |word| && i + k <= |b| && RWord(b, i, word, k) == Fail(true)
    ensures |b| < i + |word| && i <= |b|
    ensures RWord(b + word[|b| - i..] + t, i, word, k) == Ok((), i + |word|)
    decreases |word| - k
  {
    if i + k < |b| {
      WordViable(b, i, word, k + 1, t);
      assert At(b + word[|b| - i..] + t, i + k) == At(b, i + k);
    } else {
      WordTail(b + word[|b| - i..] + t, i, word, k);
    }
  }

  lemma {:induction false} WordTail(x: seq<byte>, i: nat, word: seq<byte>, k: nat)
    requires k <= |word| && i + |word| <= |x| && forall j | k <= j < |word| :: x[i + j] == word[j]
    ensures RWord(x, i, word, k) == Ok((), i + |word|)
    decreases |word| - k
  {
    if k < |word| {
      WordTail(x, i, word, k + 1);
    }
  }

  // --- keys and scalars -----------------------------------------------------------------------

  lemma {:induction false} KeyStable(b: seq<byte>, s: seq<byte>, i: nat)
    requires i <= |b| && RKey(b, i) != Fail(true)
    ensures RKey(b + s, i) == RKey(b, i)
  {
    hide RStr, SkipWs;
    var j := SkipWs(b, i);
    WsStable(b, s, i);
    AtAppend(b, s, j);
    if At(b, j) == 0x22 {
      StringStable(b, s, j + 1);
      if RStr(b, j + 1).Ok? {
        var k := RStr(b, j + 1).next;
        WsStable(b, s, k);
        AtAppend(b, s, SkipWs(b, k));
      }
    }
  }

  lemma {:induction false} KeyViable(b: seq<byte>, i: nat, t: seq<byte>) returns (s: seq<byte>)
    requires i <= |b| && RKey(b, i) == Fail(true)
    ensures RKey(b + s + t, i).Ok? && RKey(b + s + t, i).next == |b + s|
  {
    var j := SkipWs(b, i);
    if j == |b| {
      s := [0x22, 0x22, 0x3a];
      var x := b + s + t;
      Assoc(b, s, t);
      WsStable(b, s + t, i);
      assert x[j] == 0x22 && x[j + 1] == 0x22 && x[j + 2] == 0x3a;
      assert SkipWs(x, i) == j;
      assert RStr(x, j + 1) == Ok(Quoted("", true), j + 2);
      assert SkipWs(x, j + 2) == j + 2;
    } else if RStr(b, j + 1).Fail? {
      s := KeyViableString(b, i, t);
    } else {
      s := KeyViableColon(b, i, t);
    }
  }

  lemma {:induction false} KeyViableString(b: seq<byte>, i: nat, t: seq<byte>) returns (s: seq<byte>)
    requires i <= |b|
    requires var j := SkipWs(b, i); j < |b| && b[j] == 0x22 && RStr(b, j + 1) == Fail(true)
    ensures RKey(b + s + t, i).Ok? && RKey(b + s + t, i).next == |b + s|
  {
    hide RStr;
    var j := SkipWs(b, i);
    var q := StringViable(b, j + 1, [0x3a] + t);
    s := q + [0x3a];
    var x := b + s + t;
    assert x == b + q + ([0x3a] + t);
    Assoc(b, s, t);
    WsStable(b, s + t, i);
    AtAppend(b, s + t, j);
    assert x[|b + q|] == 0x3a;
    assert SkipWs(x, |b + q|) == |b + q|;
  }

  lemma {:induction false} KeyViableColon(b: seq<byte>, i: nat, t: seq<byte>) returns (s: seq<byte>)
    requires i <= |b|
    requires var j := SkipWs(b, i); j < |b| && b[j] == 0x22 && RStr(b, j + 1).Ok? && SkipWs(b, RStr(b, j + 1).next) == |b|
    ensures RKey(b + s + t, i).Ok? && RKey(b + s + t, i).next == |b + s|
  {
    hide RStr;
    var j := SkipWs(b, i);
    s := [0x3a];
    var x := b + s + t;
    Assoc(b, s, t);
    WsStable(b, s + t, i);
    AtAppend(b, s + t, j);
    StringStable(b, s + t, j + 1);
    WsStable(b, s + t, RStr(b, j + 1).next);
    assert x[|b|] == 0x3a;
    assert SkipWs(x, |b|) == |b|;
  }

  lemma {:induction false} LiteralRefused(b: seq<byte>, s: seq<byte>, i: nat, word: seq<byte>, node: Node)
    requires i <= |b| && RLiteral(b, i, word, node) == Fail(false)
    ensures RLiteral(b + s, i, word, node) == Fail(false)
  {
    WordRefused(b, s, i, word, 0);
  }

  lemma {:induction false} ScalarRefused(b: seq<byte>, s: seq<byte>, i: nat)
    requires i <= |b| && RScalar(b, i) == Fail(false)
    ensures i < |b| && RScalar(b + s, i) == Fail(false)
  {
    hide RStr, RWord, RNumEnd, RLiteral;
    AtAppend(b, s, i);
    var c := At(b, i);
    if c == 0x22 {
      StringStable(b, s, i + 1);
    } else if c == 0x74 {
      LiteralRefused(b, s, i, TRUE, Bool(true));
    } else if c == 0x66 {
      LiteralRefused(b, s, i, FALSE, Bool(false));
    } else if c == 0x6e {
      LiteralRefused(b, s, i, NULL, Null);
    } else if c == 0x2d || IsDigit(c) {
      NumberStable(b, s, i);
    }
  }

  lemma {:induction false} LiteralViable(b: seq<byte>, i: nat, word: seq<byte>, node: Node, t: seq<byte>) returns (s: seq<byte>)
    requires i <= |b| && RLiteral(b, i, word, node) == Fail(true)
    ensures RLiteral(b + s + t, i, word, node) == Ok(node, |b + s|)
  {
    WordViable(b, i, word, 0, t);
    s := word[|b| - i..];
  }

  lemma {:induction false} ScalarViable(b: seq<byte>, i: nat, t: seq<byte>) returns (s: seq<byte>)
    requires i < |b| && RScalar(b, i) == Fail(true) && StopsNumber(At(t, 0))
    ensures RScalar(b + s + t, i).Ok? && RScalar(b + s + t, i).next == |b + s|
  {
    hide RStr, RWord, RNumEnd, RLiteral;
    var c := At(b, i);
    if c == 0x22 {
      s := StringViable(b, i + 1, t);
    } else if c == 0x74 {
      s := LiteralViable(b, i, TRUE, Bool(true), t);
    } else if c == 0x66 {
      s := LiteralViable(b, i, FALSE, Bool(false), t);
    } else if c == 0x6e {
      s := LiteralViable(b, i, NULL, Null, t);
    } else {
      NumberViable(b, i, t);
      s := [0x30];
    }
    assert At(b + s + t, i) == c;
  }

  lemma {:induction false} ScalarStable(b: seq<byte>, s: seq<byte>, i: nat)
    requires i <= |b| && RScalar(b, i).Ok? && (RScalar(b, i).next < |b| || StopsNumber(At(s, 0)))
    ensures RScalar(b + s, i) == RScalar(b, i)
  {
    hide RStr, RLiteral, RNumEnd, Yield, Tree;
    AtAppend(b, s, i);
    if At(b, i) == 0x2d || IsDigit(At(b, i)) {
      NumberStable(b, s, i);
      assert (b + s)[i..RNumEnd(b, i).next] == b[i..RNumEnd(b, i).next];
    } else {
      var c := ScalarSound(b, i);
      NotNumber(c, b, i);
      HoldsAppend(b, s, i, Yield(c));
      ScalarComplete(c, b + s, i);
    }
  }

  lemma {:induction false} NotNumber(c: Cst, b: seq<byte>, i: nat)
    requires Wf(c) && Holds(b, i, Yield(c)) && At(b, i) != 0x2d && !IsDigit(At(b, i))
    ensures !c.CNum?
  {
  }

  // --- values ------------------------------------------------------------------------------------

  /** A value that is read stays so, unless it is a number that touches the end. */
  lemma {:induction false} ValueStable(b: seq<byte>, s: seq<byte>, i: nat, d: nat)
    requires i <= |b| && d <= MAX_DEPTH && RValue(b, i, d).Ok?
    requires RValue(b, i, d).next < |b| || StopsNumber(At(s, 0))
    ensures RValue(b + s, i, d) == RValue(b, i, d)
  {
    hide RItems, RMembers, RKey, RScalar, Yield, Tree, Depth, Wf, Holds;
    var j := SkipWs(b, i);
    AtAppend(b, s, j);
    WsStable(b, s, i);
    if At(b, j) != 0x7b && At(b, j) != 0x5b {
      assert j < |b| by { if j == |b| { NoScalarAtEnd(b); } }
      ScalarStable(b, s, j);
    } else {
      ContainerStable(b, s, j, d);
      ValueSkipsWs(b, i, d);
      ValueSkipsWs(b + s, i, d);
    }
  }

  lemma {:induction false} NoScalarAtEnd(b: seq<byte>)
    ensures RScalar(b, |b|) == Fail(true)
  {
  }

  lemma {:induction false} ContainerStable(b: seq<byte>, s: seq<byte>, j: nat, d: nat)
    requires j < |b| && (b[j] == 0x7b || b[j] == 0x5b) && d <= MAX_DEPTH && RValue(b, j, d).Ok?
    ensures RValue(b + s, j, d) == RValue(b, j, d)
  {
    hide RValue, Yield, Tree, Depth, Wf, Holds;
    assert SkipWs(b, j) == j;
    var c := ValueSound(b, j, d);
    HoldsAppend(b, s, j, Yield(c));
    assert !IsScalar(c) by {
      if IsScalar(c) { ScalarFirst(c, b, j); }
    }
    ValueComplete(c, b + s, j, d);
  }

  lemma {:induction false} ScalarFirst(c: Cst, b: seq<byte>, i: nat)
    requires Wf(c) && IsScalar(c) && Holds(b, i, Yield(c))
    ensures At(b, i) != 0x7b && At(b, i) != 0x5b
  {
    if c.CNum? {
      HoldsAt(b, i, NumeralBytes(c.n), 0);
      assert NumeralBytes(c.n)[0] == if c.n.minus then 0x2d else c.n.whole[0];
    } else {
      ScalarComplete(c, b, i);
    }
  }

  /** What is refused for good stays refused. */
  lemma {:induction false} ValueRefused(b: seq<byte>, s: seq<byte>, i: nat, d: nat)
    requires i <= |b| && d <= MAX_DEPTH && RValue(b, i, d) == Fail(false)
    ensures RValue(b + s, i, d) == Fail(false)
    decreases |b| - i, 1
  {
    hide RItems, RMembers, RKey, RScalar;
    var w := SkipWs(b, i);
    var c := At(b, w);
    WsStable(b, s, i);
    AtAppend(b, s, w);
    if c != 0x7b && c != 0x5b {
      ScalarRefused(b, s, w);
    } else if d < MAX_DEPTH {
      var j := SkipWs(b, w + 1);
      WsStable(b, s, w + 1);
      AtAppend(b, s, j);
      if c == 0x7b {
        assert j < |b| by { if j == |b| { NoKeyAtEnd(b); } }
        KeyStable(b, s, j);
        if RKey(b, j).Ok? {
          MembersRefused(b, s, RKey(b, j).next, d + 1, RKey(b, j).v);
        }
      } else {
        assert j < |b| by { if j == |b| { NoItemsAtEnd(b, d + 1); } }
        ItemsRefused(b, s, j, d + 1);
      }
    }
  }

  lemma {:induction false} NoKeyAtEnd(b: seq<byte>)
    ensures RKey(b, |b|) == Fail(true)
  {
  }

  lemma {:induction false} NoItemsAtEnd(b: seq<byte>, d: nat)
    ensures RValue(b, |b|, d) == Fail(true) && RItems(b, |b|, d) == Fail(true)
  {
    NoScalarAtEnd(b);
    assert SkipWs(b, |b|) == |b|;
  }

  lemma {:induction false} ItemsRefused(b: seq<byte>, s: seq<byte>, i: nat, d: nat)
    requires i <= |b| && d <= MAX_DEPTH && RItems(b, i, d) == Fail(false)
    ensures RItems(b + s, i, d) == Fail(false)
    decreases |b| - i, 2
  {
    hide RValue;
    if RValue(b, i, d).Fail? {
      ValueRefused(b, s, i, d);
    } else {
      var j := RValue(b, i, d).next;
      var p := SkipWs(b, j);
      assert RItemsRest(b, j, d) == Fail(false);
      WsStable(b, s, j);
      AtAppend(b, s, p);
      ValueStable(b, s, i, d);
      if At(b, p) == 0x2c {
        ItemsRefused(b, s, p + 1, d);
      }
    }
  }

  lemma {:induction false} MembersRefused(b: seq<byte>, s: seq<byte>, i: nat, d: nat, key: string)
    requires i <= |b| && d <= MAX_DEPTH && RMembers(b, i, d, key) == Fail(false)
    ensures RMembers(b + s, i, d, key) == Fail(false)
    decreases |b| - i, 2
  {
    hide RValue, RKey;
    if RValue(b, i, d).Fail? {
      ValueRefused(b, s, i, d);
    } else {
      var j := RValue(b, i, d).next;
      var p := SkipWs(b, j);
      assert RMembersRest(b, j, d) == Fail(false);
      WsStable(b, s, j);
      AtAppend(b, s, p);
      ValueStable(b, s, i, d);
      if At(b, p) == 0x2c {
        KeyStable(b, s, p + 1);
        if RKey(b, p + 1).Ok? {
          MembersRefused(b, s, RKey(b, p + 1).next, d, RKey(b, p + 1).v);
        }
      }
    }
  }

  // --- viable prefixes ---------------------------------------------------------------------------

  /** A zero, where a value was to come. */
  lemma {:induction false} ZeroRead(x: seq<byte>, i: nat, d: nat)
    requires i < |x| && x[i] == 0x30 && StopsNumber(At(x, i + 1))
    ensures RValue(x, i, d) == Ok(Num(Latin1(x[i..i + 1])), i + 1)
  {
    hide RItems, RMembers, RKey;
    assert SkipWs(x, i) == i;
    assert RNumEnd(x, i) == Ok((), i + 1);
  }

  /** What completes a value that the end has cut, whatever stands after it that no number goes on with. */
  lemma {:induction false} ValueViable(b: seq<byte>, i: nat, d: nat, t: seq<byte>) returns (s: seq<byte>)
    requires i <= |b| && d <= MAX_DEPTH && RValue(b, i, d) == Fail(true) && StopsNumber(At(t, 0))
    ensures RValue(b + s + t, i, d).Ok? && RValue(b + s + t, i, d).next == |b + s|
    decreases |b| - i, 1
  {
    hide RItems, RMembers, RKey, RScalar;
    var w := SkipWs(b, i);
    if w == |b| {
      s := [0x30];
      var x := b + s + t;
      Assoc(b, s, t);
      WsStable(b, s + t, i);
      assert x[w] == 0x30 && At(x, w + 1) == At(t, 0);
      assert SkipWs(x, i) == w;
      ValueSkipsWs(x, i, d);
      ZeroRead(x, w, d);
    } else if b[w] == 0x7b || b[w] == 0x5b {
      s := ContainerViable(b, w, d, t);
      Assoc(b, s, t);
      WsStable(b, s + t, i);
      ValueSkipsWs(b, i, d);
      ValueSkipsWs(b + s + t, i, d);
    } else {
      s := ScalarViable(b, w, t);
      Assoc(b, s, t);
      WsStable(b, s + t, i);
      AtAppend(b, s + t, w);
    }
  }

  lemma {:induction false} ContainerViable(b: seq<byte>, i: nat, d: nat, t: seq<byte>) returns (s: seq<byte>)
    requires i < |b| && (b[i] == 0x7b || b[i] == 0x5b) && d <= MAX_DEPTH && RValue(b, i, d) == Fail(true)
    ensures RValue(b + s + t, i, d).Ok? && RValue(b + s + t, i, d).next == |b + s|
    decreases |b| - i, 0
  {
    hide RValue, RItems, RMembers, RKey, RScalar;
    if d >= MAX_DEPTH { ValueTooDeep(b, i, d); }
    ValueContainer(b, i, d);
    if b[i] == 0x7b {
      KeySkipsWs(b, i + 1);
      s := ObjectViable(b, i + 1, d + 1, t);
    } else {
      ItemsSkipWs(b, i + 1, d + 1);
      s := ItemsViable(b, i + 1, d + 1, t);
    }
    var x := b + s + t;
    Assoc(b, s, t);
    AtAppend(b, s + t, i);
    ValueContainer(x, i, d);
    KeySkipsWs(x, i + 1);
    ItemsSkipWs(x, i + 1, d + 1);
    if b[i] == 0x7b { KeyFirst(x, i + 1); } else { ItemsFirst(x, i + 1, d + 1); }
  }

  lemma {:induction false} KeyFirst(x: seq<byte>, i: nat)
    requires i <= |x| && RKey(x, i).Ok?
    ensures At(x, SkipWs(x, i)) == 0x22
  {
  }

  lemma {:induction false} ItemsFirst(x: seq<byte>, i: nat, d: nat)
    requires i <= |x| && RItems(x, i, d).Ok?
    ensures At(x, SkipWs(x, i)) != 0x5d
  {
    assert RValue(x, i, d).Ok?;
  }

  /** The members of an object from a key on. */
  lemma {:induction false} ObjectViable(b: seq<byte>, i: nat, d: nat, t: seq<byte>) returns (s: seq<byte>)
    requires i <= |b| && d <= MAX_DEPTH && MembersOf(b, RKey(b, i), d) == Fail(true)
    ensures var x := b + s + t;
            && RKey(x, i).Ok? && RMembers(x, RKey(x, i).next, d, RKey(x, i).v).Ok?
            && RMembers(x, RKey(x, i).next, d, RKey(x, i).v).next == |b + s|
    decreases |b| - i, 4
  {
    hide RValue, RItems, RMembers, RKey, RScalar;
    if RKey(b, i).Fail? {
      var k := KeyViable(b, i, [0x30, 0x7d] + t);
      s := k + [0x30, 0x7d];
      assert b + s + t == b + k + ([0x30, 0x7d] + t);
      ZeroMember(b + s + t, |b + k|, d, RKey(b + s + t, i).v);
    } else {
      s := MembersViable(b, RKey(b, i).next, d, RKey(b, i).v, t);
      Assoc(b, s, t);
      KeyStable(b, s + t, i);
    }
  }

  lemma {:induction false} ZeroMember(x: seq<byte>, i: nat, d: nat, key: string)
    requires i + 1 < |x| && x[i] == 0x30 && x[i + 1] == 0x7d
    ensures RMembers(x, i, d, key).Ok? && RMembers(x, i, d, key).next == i + 2
  {
    hide RValue, RKey;
    ZeroRead(x, i, d);
    assert SkipWs(x, i + 1) == i + 1;
    assert RMembersRest(x, i + 1, d) == Ok([], i + 2);
  }

  lemma {:induction false} ItemsViable(b: seq<byte>, i: nat, d: nat, t: seq<byte>) returns (s: seq<byte>)
    requires i <= |b| && d <= MAX_DEPTH && RItems(b, i, d) == Fail(true)
    ensures RItems(b + s + t, i, d).Ok? && RItems(b + s + t, i, d).next == |b + s|
    decreases |b| - i, 3
  {
    hide RValue;
    if RValue(b, i, d).Fail? {
      var v := ValueViable(b, i, d, [0x5d] + t);
      s := v + [0x5d];
      assert b + s + t == b + v + ([0x5d] + t);
      CloseItems(b + s + t, i, |b + v|, d);
    } else {
      var j := RValue(b, i, d).next;
      assert RItemsRest(b, j, d) == Fail(true);
      if SkipWs(b, j) == |b| {
        s := [0x5d];
        ValueThenClose(b, i, d, [0x5d] + t);
        assert b + s + t == b + ([0x5d] + t);
        CloseItems(b + s + t, i, j, d);
      } else {
        s := ItemsViable(b, SkipWs(b, j) + 1, d, t);
        Assoc(b, s, t);
        ValueStable(b, s + t, i, d);
        WsStable(b, s + t, j);
        AtAppend(b, s + t, SkipWs(b, j));
      }
    }
  }

  lemma {:induction false} CloseItems(x: seq<byte>, i: nat, j: nat, d: nat)
    requires i <= |x| && RValue(x, i, d).Ok? && RValue(x, i, d).next == j && At(x, SkipWs(x, j)) == 0x5d
    ensures RItems(x, i, d).Ok? && RItems(x, i, d).next == SkipWs(x, j) + 1
  {
    hide RValue;
    assert RItemsRest(x, j, d) == Ok([], SkipWs(x, j) + 1);
  }

  /** A value with nothing but whitespace after it, and then `u`. */
  lemma {:induction false} ValueThenClose(b: seq<byte>, i: nat, d: nat, u: seq<byte>)
    requires i <= |b| && d <= MAX_DEPTH && RValue(b, i, d).Ok? && SkipWs(b, RValue(b, i, d).next) == |b|
    requires StopsNumber(At(u, 0)) && !IsWs(At(u, 0))
    ensures RValue(b + u, i, d) == RValue(b, i, d) && SkipWs(b + u, RValue(b, i, d).next) == |b|
  {
    hide RValue;
    ValueStable(b, u, i, d);
    WsStable(b, u, RValue(b, i, d).next);
    AtAppend(b, u, |b|);
    assert SkipWs(b + u, |b|) == |b|;
  }

  lemma {:induction false} MembersViable(b: seq<byte>, i: nat, d: nat, key: string, t: seq<byte>) returns (s: seq<byte>)
    requires i <= |b| && d <= MAX_DEPTH && RMembers(b, i, d, key) == Fail(true)
    ensures RMembers(b + s + t, i, d, key).Ok? && RMembers(b + s + t, i, d, key).next == |b + s|
    decreases |b| - i, 3
  {
    hide RValue, RKey;
    if RValue(b, i, d).Fail? {
      var v := ValueViable(b, i, d, [0x7d] + t);
      s := v + [0x7d];
      assert b + s + t == b + v + ([0x7d] + t);
      CloseMembers(b + s + t, i, |b + v|, d, key);
    } else {
      var j := RValue(b, i, d).next;
      var p := SkipWs(b, j);
      assert RMembersRest(b, j, d) == Fail(true);
      if p == |b| {
        s := [0x7d];
        ValueThenClose(b, i, d, [0x7d] + t);
        assert b + s + t == b + ([0x7d] + t);
        CloseMembers(b + s + t, i, j, d, key);
      } else {
        s := ObjectViable(b, p + 1, d, t);
        Assoc(b, s, t);
        ValueStable(b, s + t, i, d);
        WsStable(b, s + t, j);
        AtAppend(b, s + t, p);
      }
    }
  }

  lemma {:induction false} CloseMembers(x: seq<byte>, i: nat, j: nat, d: nat, key: string)
    requires i <= |x| && RValue(x, i, d).Ok? && RValue(x, i, d).next == j && At(x, SkipWs(x, j)) == 0x7d
    ensures RMembers(x, i, d, key).Ok? && RMembers(x, i, d, key).next == SkipWs(x, j) + 1
  {
    hide RValue, RKey;
    assert RMembersRest(x, j, d) == Ok([], SkipWs(x, j) + 1);
  }

  // --- the classification is exact -----------------------------------------------------------------

  /** A refusal without `eof` is final: every longer text is refused, and without `eof` too. */
  lemma {:induction false} RefusedForGood(b: seq<byte>, s: seq<byte>, ignoreRest: bool)
    requires Parse(b, ignoreRest) == Fail(false)
    ensures Parse(b + s, ignoreRest) == Fail(false)
  {
    hide RValue;
    var r := RValue(b, 0, 0);
    if r.Fail? {
      ValueRefused(b, s, 0, 0);
    } else {
      ValueStable(b, s, 0, 0);
      WsStable(b, s, r.next);
    }
  }

  /** A refusal with `eof` is provisional: some longer text is accepted. */
  lemma {:induction false} RefusedForNow(b: seq<byte>, ignoreRest: bool) returns (s: seq<byte>)
    requires Parse(b, ignoreRest) == Fail(true)
    ensures Parse(b + s, ignoreRest).Ok?
  {
    hide RValue;
    s := ValueViable(b, 0, 0, []);
    assert b + s + [] == b + s;
    assert SkipWs(b + s, |b + s|) == |b + s|;
  }

  /** `eof` says exactly that the bytes could still become the beginning of something accepted. */
  lemma {:induction false} EofExact(b: seq<byte>, ignoreRest: bool)
    ensures Parse(b, ignoreRest) == Fail(true) <==>
            Parse(b, ignoreRest).Fail? && exists s: seq<byte> :: Parse(b + s, ignoreRest).Ok?
  {
    hide Parse;
    if Parse(b, ignoreRest) == Fail(true) {
      var s := RefusedForNow(b, ignoreRest);
    }
    if Parse(b, ignoreRest) == Fail(false) {
      forall s: seq<byte> ensures !Parse(b + s, ignoreRest).Ok? {
        RefusedForGood(b, s, ignoreRest);
      }
    }
  }

  /** The first value of a text is also that of every longer one, unless it is a number that touches the end. */
  lemma {:induction false} FirstStable(b: seq<byte>, s: seq<byte>)
    requires Parse(b, true).Ok? && (Parse(b, true).next < |b| || !Parse(b, true).v.Num?)
    ensures Parse(b + s, true) == Parse(b, true)
  {
    hide RValue;
    var r := RValue(b, 0, 0);
    if r.next < |b| {
      ValueStable(b, s, 0, 0);
    } else {
      SelfDelimited(b, s, 0, 0);
    }
  }

  lemma {:induction false} SelfDelimited(b: seq<byte>, s: seq<byte>, i: nat, d: nat)
    requires i <= |b| && d <= MAX_DEPTH && RValue(b, i, d).Ok? && !RValue(b, i, d).v.Num?
    ensures RValue(b + s, i, d) == RValue(b, i, d)
  {
    hide RValue, Wf, Yield, Depth, Holds;
    var c := ValueSound(b, i, d);
    var w := SkipWs(b, i);
    HoldsAppend(b, s, w, Yield(c));
    FirstByte(c, b, w);
    WsStable(b, s, i);
    AtAppend(b, s, w);
    ValueComplete(c, b + s, w, d);
    ValueSkipsWs(b + s, i, d);
  }

  /** A number at the end may go on, or be refused, but it never becomes anything else. */
  lemma {:induction false} NumberStaysNumber(b: seq<byte>, s: seq<byte>)
    requires Parse(b, true).Ok? && Parse(b, true).v.Num?
    ensures Parse(b + s, true).Ok? ==> Parse(b + s, true).v.Num?
  {
    hide RItems, RMembers, RKey, RStr, RNumEnd;
    var w := SkipWs(b, 0);
    WsStable(b, s, 0);
    AtAppend(b, s, w);
  }
}
