/** Bytes, UTF-8, and the cut of a byte string into runes and bad bytes. */
module Utf8 {

  type byte = x: int | 0 <= x < 256

  /** JavaScript's `b[i]`, with -1 for `undefined`. */
  function At(b: seq<byte>, i: int): int {
    if 0 <= i < |b| then b[i] else -1
  }

  predicate Cont(b: seq<byte>, i: nat, lo: int, hi: int)
    requires 0 <= lo
  {
    lo <= At(b, i) <= hi
  }

  /** The length of the well-formed sequence at `i`, or 0. */
  function ValidLength(b: seq<byte>, i: nat): (k: nat)
    requires i < |b|
    ensures k <= 4 && i + k <= |b|
  {
    var b0 := b[i];
    if b0 < 0x80 then 1
    else if 0xc2 <= b0 <= 0xdf then
      if Cont(b, i + 1, 0x80, 0xbf) then 2 else 0
    else if 0xe0 <= b0 <= 0xef then
      if && Cont(b, i + 1, if b0 == 0xe0 then 0xa0 else 0x80, if b0 == 0xed then 0x9f else 0xbf)
         && Cont(b, i + 2, 0x80, 0xbf) then 3 else 0
    else if 0xf0 <= b0 <= 0xf4 then
      if && Cont(b, i + 1, if b0 == 0xf0 then 0x90 else 0x80, if b0 == 0xf4 then 0x8f else 0xbf)
         && Cont(b, i + 2, 0x80, 0xbf)
         && Cont(b, i + 3, 0x80, 0xbf) then 4 else 0
    else 0
  }

  /** The encoding of one scalar value: section 3 of RFC 3629. */
  function EncodeRune(c: char): (s: seq<byte>)
    ensures 1 <= |s| <= 4
  {
    var n := c as int;
    if n < 0x80 then [n]
    else if n < 0x800 then [0xc0 + n / 64, 0x80 + n % 64]
    else if n < 0x10000 then [0xe0 + n / 4096, 0x80 + n / 64 % 64, 0x80 + n % 64]
    else [0xf0 + n / 262144, 0x80 + n / 4096 % 64, 0x80 + n / 64 % 64, 0x80 + n % 64]
  }

  predicate IsRune(s: seq<byte>) {
    s != [] && ValidLength(s, 0) == |s|
  }

  function DecodeRune(s: seq<byte>): char
    requires IsRune(s)
  {
    var x0: int, x1: int, x2: int, x3: int := s[0], At(s, 1) - 0x80, At(s, 2) - 0x80, At(s, 3) - 0x80;
    if |s| == 1 then x0 as char
    else if |s| == 2 then ((x0 - 0xc0) * 64 + x1) as char
    else if |s| == 3 then ((x0 - 0xe0) * 4096 + x1 * 64 + x2) as char
    else ((x0 - 0xf0) * 262144 + x1 * 4096 + x2 * 64 + x3) as char
  }

  const REPLACEMENT: char := '\U{FFFD}'

  /** `validLength` looks at no byte outside the sequence it accepts. */
  lemma {:induction false} ValidLengthLocal(b: seq<byte>, i: nat)
    requires i < |b| && ValidLength(b, i) > 0
    ensures IsRune(b[i..i + ValidLength(b, i)])
  {
    var k := ValidLength(b, i);
    var s := b[i..i + k];
    assert forall j | 0 <= j < k :: At(s, j) == At(b, i + j);
  }

  /** The base-64 digits of a scalar value. */
  lemma {:induction false} Digits64(n: nat)
    ensures n == (n / 64) * 64 + n % 64
    ensures n == (n / 4096) * 4096 + (n / 64 % 64) * 64 + n % 64
    ensures n == (n / 262144) * 262144 + (n / 4096 % 64) * 4096 + (n / 64 % 64) * 64 + n % 64
  {
    assert n / 64 / 64 == n / 4096;
    assert n / 4096 / 64 == n / 262144;
  }

  lemma {:induction false} Digits64Unique(d0: nat, d1: nat, d2: nat, d3: nat)
    requires d1 < 64 && d2 < 64 && d3 < 64
    ensures var n := d0 * 262144 + d1 * 4096 + d2 * 64 + d3;
            n / 262144 == d0 && n / 4096 % 64 == d1 && n / 64 % 64 == d2 && n % 64 == d3
  {
    var n := d0 * 262144 + d1 * 4096 + d2 * 64 + d3;
    assert n / 64 == d0 * 4096 + d1 * 64 + d2;
    assert n / 4096 == d0 * 64 + d1;
  }

  lemma {:induction false} EncodeRuneIsRune(c: char)
    ensures IsRune(EncodeRune(c)) && DecodeRune(EncodeRune(c)) == c
  {
    var n := c as int;
    Digits64(n);
    if n < 0x80 {
    } else if n < 0x800 {
      assert 2 <= n / 64 < 32;
    } else if n < 0x10000 {
      EncodeRuneIsRune3(c);
    } else {
      EncodeRuneIsRune4(c);
    }
  }

  lemma {:induction false} EncodeRuneIsRune3(c: char)
    requires 0x800 <= c as int < 0x10000
    ensures IsRune(EncodeRune(c)) && DecodeRune(EncodeRune(c)) == c
  {
    var n := c as int;
    var s := EncodeRune(c);
    var d0, d1, d2 := n / 4096, n / 64 % 64, n % 64;
    Digits64(n);
    assert s == [0xe0 + d0, 0x80 + d1, 0x80 + d2];
    assert d0 < 16 && n == d0 * 4096 + d1 * 64 + d2;
    assert d0 == 0 ==> d1 >= 0x20;
    assert d0 == 0xd ==> d1 < 0x20;
  }

  lemma {:induction false} EncodeRuneIsRune4(c: char)
    requires 0x10000 <= c as int
    ensures IsRune(EncodeRune(c)) && DecodeRune(EncodeRune(c)) == c
  {
    var n := c as int;
    var s := EncodeRune(c);
    var d0, d1, d2, d3 := n / 262144, n / 4096 % 64, n / 64 % 64, n % 64;
    Digits64(n);
    assert s == [0xf0 + d0, 0x80 + d1, 0x80 + d2, 0x80 + d3];
    assert d0 <= 4 && n == d0 * 262144 + d1 * 4096 + d2 * 64 + d3;
    assert d0 == 0 ==> d1 >= 0x10;
    assert d0 == 4 ==> d1 < 0x10;
  }

  lemma {:induction false} DecodeRuneEncodes(s: seq<byte>)
    requires IsRune(s)
    ensures EncodeRune(DecodeRune(s)) == s
  {
    if |s| == 2 {
      Digits64Unique(0, 0, s[0] - 0xc0, s[1] - 0x80);
    } else if |s| == 3 {
      DecodeRuneEncodes3(s);
    } else if |s| == 4 {
      DecodeRuneEncodes4(s);
    }
  }

  lemma {:induction false} DecodeRuneEncodes3(s: seq<byte>)
    requires IsRune(s) && |s| == 3
    ensures EncodeRune(DecodeRune(s)) == s
  {
    Digits64Unique(0, s[0] - 0xe0, s[1] - 0x80, s[2] - 0x80);
    var n := DecodeRune(s) as int;
    assert 0x800 <= n < 0x10000;
    assert n / 4096 == s[0] - 0xe0;
  }

  lemma {:induction false} DecodeRuneEncodes4(s: seq<byte>)
    requires IsRune(s) && |s| == 4
    ensures EncodeRune(DecodeRune(s)) == s
  {
    Digits64Unique(s[0] - 0xf0, s[1] - 0x80, s[2] - 0x80, s[3] - 0x80);
    assert DecodeRune(s) as int >= 0x10000;
  }

  /** `validLength(b, i) = k > 0` exactly when b[i..i+k] encodes one scalar value. */
  lemma {:induction false} ValidLengthExact(b: seq<byte>, i: nat, k: nat)
    requires i < |b| && k > 0
    ensures ValidLength(b, i) == k <==> i + k <= |b| && exists c: char :: EncodeRune(c) == b[i..i + k]
  {
    if ValidLength(b, i) == k {
      ValidLengthLocal(b, i);
      DecodeRuneEncodes(b[i..i + k]);
    }
    if i + k <= |b| && exists c: char :: EncodeRune(c) == b[i..i + k] {
      var c: char :| EncodeRune(c) == b[i..i + k];
      EncodeRuneIsRune(c);
      ValidLengthGrows(b, i, k);
    }
  }

  /** One comes before the other, byte by byte. */
  ghost predicate Before(a: seq<byte>, b: seq<byte>) {
    exists k: nat | k < |a| && k < |b| :: a[..k] == b[..k] && a[k] < b[k]
  }

  /** Encodings are ordered as the characters are (section 1 of RFC 3629): with the sequences that are well-formed, this leaves one encoding. */
  lemma {:induction false} EncodeOrdered(c: char, d: char)
    requires c < d
    ensures Before(EncodeRune(c), EncodeRune(d))
  {
    var a, b := EncodeRune(c), EncodeRune(d);
    if |a| != |b| {
      LeadByLength(c);
      LeadByLength(d);
      assert a[..0] == b[..0];
    } else {
      var k := FirstDifference(c, d);
    }
  }

  /** The lead byte tells the length, and longer encodings are of later characters. */
  lemma {:induction false} LeadByLength(c: char)
    ensures var s, n := EncodeRune(c), c as int;
            && (|s| == 1 ==> s[0] < 0x80 && n < 0x80)
            && (|s| == 2 ==> 0xc0 <= s[0] < 0xe0 && 0x80 <= n < 0x800)
            && (|s| == 3 ==> 0xe0 <= s[0] < 0xf0 && 0x800 <= n < 0x10000)
            && (|s| == 4 ==> 0xf0 <= s[0] && 0x10000 <= n)
  {
  }

  lemma {:induction false} FirstDifference(c: char, d: char) returns (k: nat)
    requires c < d && |EncodeRune(c)| == |EncodeRune(d)|
    ensures var a, b := EncodeRune(c), EncodeRune(d); k < |a| && a[..k] == b[..k] && a[k] < b[k]
  {
    var m, n := c as int, d as int;
    var a, b := EncodeRune(c), EncodeRune(d);
    DigitsOrdered(m, n);
    LeadDigits(m);
    LeadDigits(n);
    k := if a[0] < b[0] then 0 else if a[1] < b[1] then 1 else if a[2] < b[2] then 2 else 3;
  }

  lemma {:induction false} LeadDigits(n: nat)
    ensures n < 0x10000 ==> n / 262144 == 0 && n / 4096 % 64 == n / 4096
    ensures n < 0x800 ==> n / 4096 == 0 && n / 64 % 64 == n / 64
  {
  }

  lemma {:induction false} DigitsOrdered(m: nat, n: nat)
    requires m < n
    ensures
      || m / 262144 < n / 262144
      || (m / 262144 == n / 262144 &&
          (|| m / 4096 % 64 < n / 4096 % 64
           || (m / 4096 % 64 == n / 4096 % 64 && (m / 64 % 64 < n / 64 % 64 || (m / 64 % 64 == n / 64 % 64 && m % 64 < n % 64)))))
  {
    Digits64(m);
    Digits64(n);
  }

  /** A rune stays one whatever surrounds it. */
  lemma {:induction false} ValidLengthGrows(b: seq<byte>, i: nat, k: nat)
    requires 0 < k && i + k <= |b| && IsRune(b[i..i + k])
    ensures ValidLength(b, i) == k
  {
    var s := b[i..i + k];
    assert forall j | 0 <= j < k :: At(s, j) == At(b, i + j);
    assert At(s, 0) == At(b, i);
    if k > 1 { assert At(s, 1) == At(b, i + 1); }
    if k > 2 { assert At(s, 2) == At(b, i + 2); }
    if k > 3 { assert At(s, 3) == At(b, i + 3); }
  }

  // --- cutting a byte string ------------------------------------------------------

  datatype Rune = Good(c: char) | Bad(b: byte)

  function RuneBytes(r: Rune): seq<byte> {
    match r
    case Good(c) => EncodeRune(c)
    case Bad(b) => [b]
  }

  function Flat(rs: seq<Rune>): seq<byte> {
    if rs == [] then [] else RuneBytes(rs[0]) + Flat(rs[1..])
  }

  function Shown(rs: seq<Rune>): string {
    if rs == [] then "" else [if rs[0].Good? then rs[0].c else REPLACEMENT] + Shown(rs[1..])
  }

  /** The bytes from the left: a well-formed sequence where there is one, else one bad byte. */
  function Cut(b: seq<byte>): seq<Rune> {
    if b == [] then []
    else
      var k := ValidLength(b, 0);
      if k > 0 then
        ValidLengthLocal(b, 0);
        [Good(DecodeRune(b[0..k]))] + Cut(b[k..])
      else [Bad(b[0])] + Cut(b[1..])
  }

  /** No bad byte of `rs` could start a well-formed sequence where it stands. */
  predicate Proper(rs: seq<Rune>) {
    rs == [] || ((rs[0].Bad? ==> ValidLength(Flat(rs), 0) == 0) && Proper(rs[1..]))
  }

  lemma {:induction false} FlatCons(r: Rune, rs: seq<Rune>)
    ensures Flat([r] + rs) == RuneBytes(r) + Flat(rs)
    ensures Proper([r] + rs) <==> (r.Bad? ==> ValidLength(RuneBytes(r) + Flat(rs), 0) == 0) && Proper(rs)
  {
    hide ValidLength, RuneBytes;
    assert ([r] + rs)[1..] == rs;
  }

  lemma {:induction false} CutProper(b: seq<byte>)
    ensures Flat(Cut(b)) == b && Proper(Cut(b))
  {
    hide Flat, Proper, ValidLength, DecodeRune, EncodeRune;
    if b == [] {
      NothingIsProper();
    } else {
      var k := ValidLength(b, 0);
      if k > 0 {
        ValidLengthLocal(b, 0);
        DecodeRuneEncodes(b[0..k]);
        CutProper(b[k..]);
        FlatCons(Good(DecodeRune(b[0..k])), Cut(b[k..]));
        assert b == b[0..k] + b[k..];
      } else {
        CutProper(b[1..]);
        FlatCons(Bad(b[0]), Cut(b[1..]));
        assert b == [b[0]] + b[1..];
      }
    }
  }

  lemma {:induction false} NothingIsProper()
    ensures Flat([]) == [] && Proper([])
  {
  }

  lemma {:induction false} FlatOne(r: Rune, tail: seq<byte>)
    requires r.Bad? ==> ValidLength([r.b] + tail, 0) == 0
    ensures var b := RuneBytes(r) + tail;
            b != [] && Cut(b) == [r] + Cut(tail)
  {
    var b := RuneBytes(r) + tail;
    if r.Good? {
      var s := EncodeRune(r.c);
      EncodeRuneIsRune(r.c);
      assert b[0..|s|] == s && b[|s|..] == tail;
      ValidLengthGrows(b, 0, |s|);
    } else {
      assert b[1..] == tail;
    }
  }

  lemma {:induction false} ProperIsCut(rs: seq<Rune>)
    requires Proper(rs)
    ensures Cut(Flat(rs)) == rs
  {
    if rs != [] {
      ProperIsCut(rs[1..]);
      assert Flat(rs) == RuneBytes(rs[0]) + Flat(rs[1..]);
      FlatOne(rs[0], Flat(rs[1..]));
      assert rs == [rs[0]] + rs[1..];
    }
  }

  /** Every byte string is cut in one way only into scalar values and single bad bytes. */
  lemma {:induction false} CutUnique(b: seq<byte>, rs: seq<Rune>)
    ensures rs == Cut(b) <==> Flat(rs) == b && Proper(rs)
  {
    CutProper(b);
    if Proper(rs) {
      ProperIsCut(rs);
    }
  }

  /** The bytes as text, each bad byte one U+FFFD: what Go makes of them. */
  function Lossy(b: seq<byte>): string {
    Shown(Cut(b))
  }

  /** Each rune of the cut is one character: its own, or U+FFFD. */
  lemma {:induction false} LossyExact(b: seq<byte>)
    ensures |Lossy(b)| == |Cut(b)|
    ensures forall k | 0 <= k < |Cut(b)| :: Lossy(b)[k] == match Cut(b)[k] case Good(c) => c case Bad(_) => '\U{fffd}'
  {
    hide Cut;
    ShownAt(Cut(b));
  }

  lemma {:induction false} ShownAt(rs: seq<Rune>)
    ensures |Shown(rs)| == |rs|
    ensures forall k | 0 <= k < |rs| :: Shown(rs)[k] == match rs[k] case Good(c) => c case Bad(_) => '\U{fffd}'
  {
    if rs != [] {
      ShownAt(rs[1..]);
      assert forall k | 0 < k < |rs| :: rs[k] == rs[1..][k - 1] && Shown(rs)[k] == Shown(rs[1..])[k - 1];
    }
  }

  function Encode(text: string): seq<byte> {
    if text == "" then [] else EncodeRune(text[0]) + Encode(text[1..])
  }

  predicate AllGood(rs: seq<Rune>) {
    forall k | 0 <= k < |rs| :: rs[k].Good?
  }

  predicate WellFormed(b: seq<byte>) {
    AllGood(Cut(b))
  }

  lemma {:induction false} Assoc<T>(a: seq<T>, b: seq<T>, c: seq<T>)
    ensures (a + b) + c == a + (b + c)
  {
  }

  /** One step of the cut, seen from a position in a longer text. */
  lemma {:induction false} LossyStep(b: seq<byte>)
    requires b != []
    ensures var k := ValidLength(b, 0);
            if k > 0 then IsRune(b[..k]) && Lossy(b) == [DecodeRune(b[..k])] + Lossy(b[k..])
            else Lossy(b) == [REPLACEMENT] + Lossy(b[1..])
  {
    var k := ValidLength(b, 0);
    if k > 0 {
      ValidLengthLocal(b, 0);
      assert b[0..k] == b[..k];
      assert Cut(b)[1..] == Cut(b[k..]);
    } else {
      assert Cut(b)[1..] == Cut(b[1..]);
    }
  }

  lemma {:induction false} CutFlat(rs: seq<Rune>, tail: seq<byte>)
    requires AllGood(rs)
    ensures Cut(Flat(rs) + tail) == rs + Cut(tail)
  {
    if rs == [] {
      assert Flat(rs) + tail == tail;
    } else {
      CutFlat(rs[1..], tail);
      FlatOne(rs[0], Flat(rs[1..]) + tail);
      Assoc(RuneBytes(rs[0]), Flat(rs[1..]), tail);
      Assoc([rs[0]], rs[1..], Cut(tail));
      assert rs == [rs[0]] + rs[1..];
    }
  }

  lemma {:induction false} CutAppend(a: seq<byte>, b: seq<byte>)
    requires WellFormed(a)
    ensures Cut(a + b) == Cut(a) + Cut(b)
  {
    CutProper(a);
    CutFlat(Cut(a), b);
  }

  lemma {:induction false} ShownAppend(a: seq<Rune>, b: seq<Rune>)
    ensures Shown(a + b) == Shown(a) + Shown(b)
  {
    if a == [] {
      assert a + b == b;
    } else {
      ShownAppend(a[1..], b);
      assert (a + b)[0] == a[0] && (a + b)[1..] == a[1..] + b;
      Assoc([if a[0].Good? then a[0].c else REPLACEMENT], Shown(a[1..]), Shown(b));
    }
  }

  lemma {:induction false} LossyAppend(a: seq<byte>, b: seq<byte>)
    requires WellFormed(a)
    ensures Lossy(a + b) == Lossy(a) + Lossy(b)
  {
    CutAppend(a, b);
    ShownAppend(Cut(a), Cut(b));
  }

  /** Text survives the wire. */
  lemma {:induction false} EncodeRoundTrip(text: string)
    ensures Lossy(Encode(text)) == text && WellFormed(Encode(text))
  {
    if text != "" {
      EncodeRoundTrip(text[1..]);
      FlatOne(Good(text[0]), Encode(text[1..]));
      assert Cut(Encode(text))[1..] == Cut(Encode(text[1..]));
    }
  }

  /** And well-formed bytes survive being text. */
  lemma {:induction false} LossyRoundTrip(b: seq<byte>)
    ensures WellFormed(b) <==> Encode(Lossy(b)) == b
  {
    CutProper(b);
    if WellFormed(b) {
      ShownEncodes(Cut(b));
    }
    if Encode(Lossy(b)) == b {
      EncodeRoundTrip(Lossy(b));
    }
  }

  lemma {:induction false} ShownEncodes(rs: seq<Rune>)
    requires AllGood(rs)
    ensures Encode(Shown(rs)) == Flat(rs)
  {
    if rs != [] {
      ShownEncodes(rs[1..]);
      assert Shown(rs)[1..] == Shown(rs[1..]);
    }
  }

  lemma {:induction false} EncodeCons(c: char, text: string)
    ensures Encode([c] + text) == EncodeRune(c) + Encode(text)
  {
    assert ([c] + text)[1..] == text;
  }

  lemma {:induction false} EncodeAppend(a: string, b: string)
    ensures Encode(a + b) == Encode(a) + Encode(b)
  {
    if a == "" {
      assert a + b == b;
    } else {
      EncodeAppend(a[1..], b);
      EncodeCons(a[0], a[1..] + b);
      assert a + b == [a[0]] + (a[1..] + b);
      Assoc(EncodeRune(a[0]), Encode(a[1..]), Encode(b));
    }
  }
}
