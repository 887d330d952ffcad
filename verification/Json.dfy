/**
 The JSON reader by recursive descent: what each function of the iterative parser makes of the bytes from a
 position. Every failure carries only whether the input had ended there (`eof`), which is all that a caller sees.
 */
module Json {
  import opened Utf8

  /** encoding/json's maxNestingDepth. */
  const MAX_DEPTH: nat := 10000

  datatype Node =
    | Null
    | Bool(b: bool)
    | Num(raw: string)
    | Str(v: string, plain: bool)
    | Arr(items: seq<Node>)
    | Obj(members: seq<Member>)

  datatype Member = Member(key: string, value: Node)

  /** A value read and the position after it, or a syntax error. */
  datatype Res<+T> = Ok(v: T, next: nat) | Fail(eof: bool)

  function FailAt<T>(b: seq<byte>, i: nat): Res<T> {
    Fail(i >= |b|)
  }

  predicate IsWs(c: int) {
    c == 0x20 || c == 0x09 || c == 0x0a || c == 0x0d
  }

  predicate IsDigit(c: int) {
    0x30 <= c <= 0x39
  }

  /** Bytes as characters, one for one. */
  function Latin1(b: seq<byte>): (s: string)
    ensures |s| == |b|
  {
    seq(|b|, k requires 0 <= k < |b| => b[k] as char)
  }

  function SkipWs(b: seq<byte>, i: nat): (j: nat)
    requires i <= |b|
    ensures i <= j <= |b| && !IsWs(At(b, j))
    ensures forall k | i <= k < j :: IsWs(b[k])
    decreases |b| - i
  {
    if IsWs(At(b, i)) then SkipWs(b, i + 1) else i
  }

  // --- strings --------------------------------------------------------------------

  /** A string as unquoted, and whether that is also what stood between the quotes. */
  datatype Quoted = Quoted(text: string, plain: bool)

  function HexVal(c: int): (d: int)
    ensures -1 <= d < 16
  {
    if 0x30 <= c <= 0x39 then c - 0x30
    else if 0x61 <= c <= 0x66 then c - 0x57
    else if 0x41 <= c <= 0x46 then c - 0x37
    else -1
  }

  /** A digit's value is its place among the hexadecimal digits, in either case; nothing else is a digit. */
  lemma {:induction false} HexValExact(c: int, d: nat)
    ensures HexVal(c) == d <==> d < 16 && (c == "0123456789abcdef"[d] as int || c == "0123456789ABCDEF"[d] as int)
  {
    if d < 16 {
      var low, high := "0123456789abcdef", "0123456789ABCDEF";
      assert low[d] as int == if d < 10 then 0x30 + d else 0x57 + d;
      assert high[d] as int == if d < 10 then 0x30 + d else 0x37 + d;
    }
  }

  function HexBound(k: nat): nat {
    if k == 0 then 1 else if k == 1 then 0x10 else if k == 2 then 0x100 else if k == 3 then 0x1000 else 0x10000
  }

  /** `hex4` with the first `k` digits already read as `v`. */
  function Hex(b: seq<byte>, at: nat, k: nat, v: nat): (r: Res<nat>)
    requires k <= 4 && at + k <= |b| && v < HexBound(k)
    ensures r.Ok? ==> r.next == at + 4 <= |b| && r.v < 0x10000
    decreases 4 - k
  {
    if k == 4 then Ok(v, at + 4)
    else
      var d := HexVal(At(b, at + k));
      if d < 0 then FailAt(b, at + k) else Hex(b, at, k + 1, v * 16 + d)
  }

  function Hex4(b: seq<byte>, at: nat): (r: Res<nat>)
    requires at <= |b|
    ensures r.Ok? ==> r.next == at + 4 <= |b| && r.v < 0x10000
  {
    Hex(b, at, 0, 0)
  }

  /** The two-character escapes; -1 for anything else. */
  function SimpleEscape(e: int): (c: int)
    ensures -1 <= c < 0x80
  {
    if e == 0x22 || e == 0x5c || e == 0x2f then e
    else if e == 0x62 then 0x08
    else if e == 0x66 then 0x0c
    else if e == 0x6e then 0x0a
    else if e == 0x72 then 0x0d
    else if e == 0x74 then 0x09
    else -1
  }

  /** The letters that may follow a backslash, and the characters they stand for (section 7 of RFC 8259). */
  lemma {:induction false} SimpleEscapeExact(e: int, c: nat)
    ensures SimpleEscape(e) == c <==>
            (e, c) in {(0x22, 0x22), (0x5c, 0x5c), (0x2f, 0x2f), (0x62, 0x08), (0x66, 0x0c), (0x6e, 0x0a), (0x72, 0x0d), (0x74, 0x09)}
  {
  }

  predicate IsSurrogate(n: int) {
    0xd800 <= n < 0xe000
  }

  /** The scalar value of a surrogate pair. */
  function PairOf(hi: nat, lo: nat): char
    requires 0xd800 <= hi < 0xdc00 <= lo < 0xe000
  {
    (0x10000 + (hi - 0xd800) * 1024 + (lo - 0xdc00)) as char
  }

  /** A pair stands for the character whose UTF-16 it is. */
  lemma {:induction false} PairExact(hi: nat, lo: nat, c: char)
    requires 0xd800 <= hi < 0xdc00 <= lo < 0xe000
    ensures PairOf(hi, lo) == c <==>
            c as int >= 0x10000 && 0xd800 + (c as int - 0x10000) / 0x400 == hi && 0xdc00 + (c as int - 0x10000) % 0x400 == lo
  {
  }

  /** The escape at `i`: one character, for a pair of surrogate escapes too. */
  function Unescape(b: seq<byte>, i: nat): (r: Res<char>)
    requires i < |b| && b[i] == 0x5c
    ensures r.Ok? ==> i + 2 <= r.next <= |b|
  {
    var e := At(b, i + 1);
    if e == 0x75 then
      match Hex4(b, i + 2)
      case Fail(eof) => Fail(eof)
      case Ok(cp, j) =>
        if !IsSurrogate(cp) then Ok(cp as char, j)
        else if cp < 0xdc00 && At(b, j) == 0x5c && At(b, j + 1) == 0x75 then
          match Hex4(b, j + 2)
          case Fail(eof) => Fail(eof)
          case Ok(lo, k) => if 0xdc00 <= lo < 0xe000 then Ok(PairOf(cp, lo), k) else Ok(REPLACEMENT, j)
        else Ok(REPLACEMENT, j)
    else if SimpleEscape(e) >= 0 then Ok(SimpleEscape(e) as char, i + 2)
    else FailAt(b, i + 1)
  }

  /** `r` with `text` read before it. */
  function Prepend(text: string, plain: bool, r: Res<Quoted>): Res<Quoted> {
    match r
    case Fail(eof) => Fail(eof)
    case Ok(q, next) => Ok(Quoted(text + q.text, plain && q.plain), next)
  }

  /** The rest of a string from `i`, inside the quotes. */
  function RStr(b: seq<byte>, i: nat): (r: Res<Quoted>)
    requires i <= |b|
    ensures r.Ok? ==> i < r.next <= |b|
    decreases |b| - i
  {
    if i == |b| then Fail(true)
    else
      var c := b[i];
      if c == 0x22 then Ok(Quoted("", true), i + 1)
      else if c < 0x20 then Fail(false)
      else if c == 0x5c then
        match Unescape(b, i)
        case Fail(eof) => Fail(eof)
        case Ok(ch, j) => Prepend([ch], false, RStr(b, j))
      else if c < 0x80 then Prepend([c as char], true, RStr(b, i + 1))
      else
        var len := ValidLength(b, i);
        if len > 0 then
          ValidLengthLocal(b, i);
          Prepend([DecodeRune(b[i..i + len])], false, RStr(b, i + len))
        else Prepend([REPLACEMENT], false, RStr(b, i + 1))
  }

  // --- literals and numbers ---------------------------------------------------------

  /** `literal`: the rest of `word` from its k-th character. */
  function RWord(b: seq<byte>, i: nat, word: seq<byte>, k: nat): (r: Res<()>)
    requires k <= |word| && i + k <= |b|
    ensures r.Ok? ==> r.next == i + |word| <= |b|
    decreases |word| - k
  {
    if k == |word| then Ok((), i + |word|)
    else if At(b, i + k) != word[k] then FailAt(b, i + k)
    else RWord(b, i, word, k + 1)
  }

  const TRUE: seq<byte> := [0x74, 0x72, 0x75, 0x65]
  const FALSE: seq<byte> := [0x66, 0x61, 0x6c, 0x73, 0x65]
  const NULL: seq<byte> := [0x6e, 0x75, 0x6c, 0x6c]

  function RLiteral(b: seq<byte>, i: nat, word: seq<byte>, node: Node): (r: Res<Node>)
    requires i <= |b|
    ensures r.Ok? ==> r.next == i + |word| <= |b|
  {
    match RWord(b, i, word, 0)
    case Fail(eof) => Fail(eof)
    case Ok(_, j) => Ok(node, j)
  }

  function SkipDigits(b: seq<byte>, i: nat): (j: nat)
    requires i <= |b|
    ensures i <= j <= |b| && !IsDigit(At(b, j))
    ensures forall k | i <= k < j :: IsDigit(b[k])
    ensures IsDigit(At(b, i)) ==> i < j
    decreases |b| - i
  {
    if IsDigit(At(b, i)) then SkipDigits(b, i + 1) else i
  }

  function RInt(b: seq<byte>, i: nat): (r: Res<()>)
    requires i <= |b|
    ensures r.Ok? ==> i < r.next <= |b|
  {
    if At(b, i) == 0x30 then Ok((), i + 1)
    else if IsDigit(At(b, i)) then Ok((), SkipDigits(b, i))
    else FailAt(b, i)
  }

  function RDigits(b: seq<byte>, i: nat): (r: Res<()>)
    requires i <= |b|
    ensures r.Ok? ==> i < r.next <= |b|
  {
    if IsDigit(At(b, i)) then Ok((), SkipDigits(b, i)) else FailAt(b, i)
  }

  function RFrac(b: seq<byte>, i: nat): (r: Res<()>)
    requires i <= |b|
    ensures r.Ok? ==> i <= r.next <= |b|
  {
    if At(b, i) == 0x2e then RDigits(b, i + 1) else Ok((), i)
  }

  function RExp(b: seq<byte>, i: nat): (r: Res<()>)
    requires i <= |b|
    ensures r.Ok? ==> i <= r.next <= |b|
  {
    if At(b, i) == 0x65 || At(b, i) == 0x45 then
      RDigits(b, if At(b, i + 1) == 0x2b || At(b, i + 1) == 0x2d then i + 2 else i + 1)
    else Ok((), i)
  }

  /** The end of the number that starts at `i`. */
  function RNumEnd(b: seq<byte>, i: nat): (r: Res<()>)
    requires i <= |b|
    ensures r.Ok? ==> i < r.next <= |b|
  {
    match RInt(b, if At(b, i) == 0x2d then i + 1 else i)
    case Fail(eof) => Fail(eof)
    case Ok(_, j) =>
      match RFrac(b, j)
      case Fail(eof) => Fail(eof)
      case Ok(_, k) => RExp(b, k)
  }

  function RNumber(b: seq<byte>, i: nat): (r: Res<Node>)
    requires i <= |b|
    ensures r.Ok? ==> i < r.next <= |b|
  {
    match RNumEnd(b, i)
    case Fail(eof) => Fail(eof)
    case Ok(_, j) => Ok(Num(Latin1(b[i..j])), j)
  }

  /** White space, digits and the three words (sections 2, 3 and 6 of RFC 8259), in ASCII. */
  lemma {:induction false} LettersExact(c: byte)
    ensures IsWs(c) <==> c as char in " \t\n\r"
    ensures IsDigit(c) <==> c as char in "0123456789"
    ensures Latin1(TRUE) == "true" && Latin1(FALSE) == "false" && Latin1(NULL) == "null"
  {
    var digits := "0123456789";
    if IsDigit(c) { assert digits[c - 0x30] == c as char; }
  }

  // --- values -------------------------------------------------------------------------

  function RKey(b: seq<byte>, i: nat): (r: Res<string>)
    requires i <= |b|
    ensures r.Ok? ==> i < r.next <= |b|
  {
    var j := SkipWs(b, i);
    if At(b, j) != 0x22 then FailAt(b, j)
    else
      match RStr(b, j + 1)
      case Fail(eof) => Fail(eof)
      case Ok(q, k) =>
        var m := SkipWs(b, k);
        if At(b, m) != 0x3a then FailAt(b, m) else Ok(q.text, m + 1)
  }

  /** A value that is not an array or an object, at its first byte. */
  function RScalar(b: seq<byte>, i: nat): (r: Res<Node>)
    requires i <= |b|
    ensures r.Ok? ==> i < r.next <= |b|
  {
    var c := At(b, i);
    if c == 0x22 then
      match RStr(b, i + 1)
      case Fail(eof) => Fail(eof)
      case Ok(q, j) => Ok(Str(q.text, q.plain), j)
    else if c == 0x74 then RLiteral(b, i, TRUE, Bool(true))
    else if c == 0x66 then RLiteral(b, i, FALSE, Bool(false))
    else if c == 0x6e then RLiteral(b, i, NULL, Null)
    else if c == 0x2d || IsDigit(c) then RNumber(b, i)
    else FailAt(b, i)
  }

  /** A value from `i`, inside `d` open arrays and objects. */
  function RValue(b: seq<byte>, i: nat, d: nat): (r: Res<Node>)
    requires i <= |b|
    ensures r.Ok? ==> i < r.next <= |b|
    decreases |b| - i, 1
  {
    var s := SkipWs(b, i);
    var c := At(b, s);
    if c == 0x7b || c == 0x5b then
      if d >= MAX_DEPTH then Fail(false)
      else
        var j := SkipWs(b, s + 1);
        if c == 0x7b then
          if At(b, j) == 0x7d then Ok(Obj([]), j + 1)
          else
            match RKey(b, j)
            case Fail(eof) => Fail(eof)
            case Ok(key, k) => ObjOf(RMembers(b, k, d + 1, key))
        else if At(b, j) == 0x5d then Ok(Arr([]), j + 1)
        else ArrOf(RItems(b, j, d + 1))
    else RScalar(b, s)
  }

  function ArrOf(r: Res<seq<Node>>): Res<Node> {
    match r
    case Fail(eof) => Fail(eof)
    case Ok(items, j) => Ok(Arr(items), j)
  }

  function ObjOf(r: Res<seq<Member>>): Res<Node> {
    match r
    case Fail(eof) => Fail(eof)
    case Ok(members, j) => Ok(Obj(members), j)
  }

  function Push<T>(x: T, r: Res<seq<T>>): Res<seq<T>> {
    match r
    case Fail(eof) => Fail(eof)
    case Ok(xs, j) => Ok([x] + xs, j)
  }

  /** The items of an array from one of them on, up to and over the bracket. */
  function RItems(b: seq<byte>, i: nat, d: nat): (r: Res<seq<Node>>)
    requires i <= |b|
    ensures r.Ok? ==> i < r.next <= |b|
    decreases |b| - i, 2
  {
    match RValue(b, i, d)
    case Fail(eof) => Fail(eof)
    case Ok(v, j) => Push(v, RItemsRest(b, j, d))
  }

  function RItemsRest(b: seq<byte>, i: nat, d: nat): (r: Res<seq<Node>>)
    requires i <= |b|
    ensures r.Ok? ==> i < r.next <= |b|
    decreases |b| - i, 0
  {
    var j := SkipWs(b, i);
    if At(b, j) == 0x2c then RItems(b, j + 1, d)
    else if At(b, j) == 0x5d then Ok([], j + 1)
    else FailAt(b, j)
  }

  /** The members of an object from the value of `key` on, up to and over the brace. */
  function RMembers(b: seq<byte>, i: nat, d: nat, key: string): (r: Res<seq<Member>>)
    requires i <= |b|
    ensures r.Ok? ==> i < r.next <= |b|
    decreases |b| - i, 2
  {
    match RValue(b, i, d)
    case Fail(eof) => Fail(eof)
    case Ok(v, j) => Push(Member(key, v), RMembersRest(b, j, d))
  }

  function RMembersRest(b: seq<byte>, i: nat, d: nat): (r: Res<seq<Member>>)
    requires i <= |b|
    ensures r.Ok? ==> i < r.next <= |b|
    decreases |b| - i, 0
  {
    var j := SkipWs(b, i);
    if At(b, j) == 0x2c then
      match RKey(b, j + 1)
      case Fail(eof) => Fail(eof)
      case Ok(key, k) => RMembers(b, k, d, key)
    else if At(b, j) == 0x7d then Ok([], j + 1)
    else FailAt(b, j)
  }

  /** What stands after the value: nothing but whitespace, unless it is not looked at. */
  function Finish(b: seq<byte>, ignoreRest: bool, r: Res<Node>): Res<Node>
    requires r.Ok? ==> r.next <= |b|
  {
    match r
    case Fail(eof) => Fail(eof)
    case Ok(v, i) =>
      if ignoreRest then Ok(v, i)
      else
        var j := SkipWs(b, i);
        if j < |b| then Fail(false) else Ok(v, j)
  }

  /** `parseFirstJson` (`ignoreRest`) and `parseJson`. */
  function Parse(b: seq<byte>, ignoreRest: bool): (r: Res<Node>)
    ensures r.Ok? ==> r.next <= |b|
  {
    Finish(b, ignoreRest, RValue(b, 0, 0))
  }
}
