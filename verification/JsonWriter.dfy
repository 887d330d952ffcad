/** Writing a decoded value: the pieces of its text, what makes it throw, and the derivation tree that the text has. */
module JsonWriter {
  import opened Utf8
  import opened Json
  import opened JsonGrammar
  import opened JsonComplete
  import opened Decode
  import Decimal

  // --- jsonPieces -----------------------------------------------------------------------

  /** True when the value holds a time Go could not encode. */
  predicate HasUnencodable(v: Value)
    decreases v, 0
  {
    v.VUnencodable? || (v.VList? && AnyItem(v.items)) || (v.VObj? && AnySlot(v.slots))
  }

  predicate AnyItem(items: seq<Value>)
    decreases items, 0
  {
    items != [] && (HasUnencodable(items[0]) || AnyItem(items[1..]))
  }

  predicate AnySlot(slots: seq<Slot>)
    decreases slots, 0
  {
    slots != [] && (HasUnencodable(slots[0].value) || AnySlot(slots[1..]))
  }

  /** What a generator yielded, and whether it ended by throwing. */
  datatype Yielded = Yielded(pieces: seq<string>, threw: bool)

  function Then(a: Yielded, b: Yielded): Yielded {
    if a.threw then a else Yielded(a.pieces + b.pieces, b.threw)
  }

  function One(piece: string): Yielded {
    Yielded([piece], false)
  }

  function HexDigit(d: nat): (c: char)
    requires d < 16
    ensures c as int < 0x80 && HexVal(c as int) == d
  {
    if d < 10 then ('0' as int + d) as char else ('a' as int + d - 10) as char
  }

  /** One character as JSON.stringify writes it. */
  function EscapeChar(c: char): string {
    if c == '"' then "\\\""
    else if c == '\\' then "\\\\"
    else if c == '\n' then "\\n"
    else if c == '\r' then "\\r"
    else if c == '\t' then "\\t"
    else if c as int == 8 then "\\b"
    else if c as int == 12 then "\\f"
    else if c as int < 0x20 then "\\u00" + [HexDigit(c as int / 16), HexDigit(c as int % 16)]
    else [c]
  }

  function EscapeText(s: string): string {
    if s == "" then "" else EscapeChar(s[0]) + EscapeText(s[1..])
  }

  /** `JSON.stringify` of a string. */
  function QuoteText(s: string): string {
    "\"" + (EscapeText(s) + "\"")
  }

  function ShowInt(n: int): string {
    if n < 0 then "-" + Decimal.Show(-n) else Decimal.Show(n)
  }

  function Pieces(v: Value): Yielded
    decreases v, 0
  {
    match v
    case VNull => One("null")
    case VInt(n) => One(ShowInt(n))
    case VFloat(lit) => One(lit)
    case VBool(b) => One(if b then "true" else "false")
    case VStr(s) => One(QuoteText(s))
    case VTime(t) => One(QuoteText(t))
    case VUnencodable(_) => Yielded([], true)
    case VList(items) => Then(One("["), Then(ItemPieces(items, true), One("]")))
    case VObj(slots) => Then(One("{"), Then(SlotPieces(slots, true), One("}")))
  }

  function ItemPieces(items: seq<Value>, first: bool): Yielded
    decreases items, 0
  {
    if items == [] then Yielded([], false)
    else Then(if first then Yielded([], false) else One(","), Then(Pieces(items[0]), ItemPieces(items[1..], false)))
  }

  function SlotPieces(slots: seq<Slot>, first: bool): Yielded
    decreases slots, 0
  {
    if slots == [] then Yielded([], false)
    else Then(One((if first then "" else ",") + (QuoteText(slots[0].name) + ":")), Then(Pieces(slots[0].value), SlotPieces(slots[1..], false)))
  }

  /** The writer throws exactly on what `hasUnencodable` finds. */
  lemma {:induction false} ThrowsExactly(v: Value)
    ensures Pieces(v).threw <==> HasUnencodable(v)
    decreases v, 0
  {
    hide QuoteText, ShowInt;
    match v
    case VList(items) => ItemsThrow(items, true);
    case VObj(slots) => SlotsThrow(slots, true);
    case _ =>
  }

  lemma {:induction false} ItemsThrow(items: seq<Value>, first: bool)
    ensures ItemPieces(items, first).threw <==> AnyItem(items)
    decreases items, 0
  {
    if items != [] {
      ThrowsExactly(items[0]);
      ItemsThrow(items[1..], false);
    }
  }

  lemma {:induction false} SlotsThrow(slots: seq<Slot>, first: bool)
    ensures SlotPieces(slots, first).threw <==> AnySlot(slots)
    decreases slots, 0
  {
    hide QuoteText;
    if slots != [] {
      ThrowsExactly(slots[0].value);
      SlotsThrow(slots[1..], false);
    }
  }

  function Glue(pieces: seq<string>): string {
    if pieces == [] then "" else pieces[0] + Glue(pieces[1..])
  }

  lemma {:induction false} GlueAppend(a: seq<string>, b: seq<string>)
    ensures Glue(a + b) == Glue(a) + Glue(b)
    decreases |a|
  {
    if a == [] {
      assert a + b == b;
    } else {
      GlueAppend(a[1..], b);
      assert (a + b)[0] == a[0] && (a + b)[1..] == a[1..] + b;
      Assoc(a[0], Glue(a[1..]), Glue(b));
    }
  }

  /** `stringifyJson`; what it is given is known to be encodable. */
  function Stringify(v: Value): string {
    Glue(Pieces(v).pieces)
  }

  lemma {:induction false} GlueThen(a: Yielded, b: Yielded)
    requires !a.threw
    ensures Glue(Then(a, b).pieces) == Glue(a.pieces) + Glue(b.pieces)
  {
    GlueAppend(a.pieces, b.pieces);
  }

  lemma {:induction false} GlueOne(s: string)
    ensures Glue(One(s).pieces) == s && !One(s).threw
  {
    assert One(s).pieces[1..] == [];
    assert s + "" == s;
  }

  // --- the text itself ------------------------------------------------------------------------

  /** The value itself, or a part of one of its items or fields. */
  predicate PartOf(x: Value, v: Value)
    decreases v
  {
    || x == v
    || (v.VList? && exists k | 0 <= k < |v.items| :: PartOf(x, v.items[k]))
    || (v.VObj? && exists k | 0 <= k < |v.slots| :: PartOf(x, v.slots[k].value))
  }

  /** `hasUnencodable` finds such a time wherever it is. */
  lemma {:induction false} UnencodableExact(v: Value)
    ensures HasUnencodable(v) <==> exists x :: PartOf(x, v) && x.VUnencodable?
    decreases v
  {
    hide AnyItem, AnySlot;
    if v.VList? {
      AnyItemAt(v.items);
      forall k | 0 <= k < |v.items| ensures HasUnencodable(v.items[k]) <==> exists x :: PartOf(x, v.items[k]) && x.VUnencodable? {
        UnencodableExact(v.items[k]);
      }
      UnencodableInList(v);
    } else if v.VObj? {
      AnySlotAt(v.slots);
      forall k | 0 <= k < |v.slots| ensures HasUnencodable(v.slots[k].value) <==> exists x :: PartOf(x, v.slots[k].value) && x.VUnencodable? {
        UnencodableExact(v.slots[k].value);
      }
      UnencodableInObject(v);
    } else {
      assert PartOf(v, v);
    }
  }

  lemma {:induction false} UnencodableInList(v: Value)
    requires v.VList?
    ensures (exists x :: PartOf(x, v) && x.VUnencodable?) <==>
            exists k | 0 <= k < |v.items| :: exists x :: PartOf(x, v.items[k]) && x.VUnencodable?
  {
    forall k, x | 0 <= k < |v.items| && PartOf(x, v.items[k]) ensures PartOf(x, v) { }
  }

  lemma {:induction false} UnencodableInObject(v: Value)
    requires v.VObj?
    ensures (exists x :: PartOf(x, v) && x.VUnencodable?) <==>
            exists k | 0 <= k < |v.slots| :: exists x :: PartOf(x, v.slots[k].value) && x.VUnencodable?
  {
    forall k, x | 0 <= k < |v.slots| && PartOf(x, v.slots[k].value) ensures PartOf(x, v) { }
  }

  lemma {:induction false} AnyItemAt(items: seq<Value>)
    ensures AnyItem(items) <==> exists k | 0 <= k < |items| :: HasUnencodable(items[k])
  {
    hide HasUnencodable;
    if items != [] {
      AnyItemAt(items[1..]);
      forall k | 0 < k < |items| ensures items[k] == items[1..][k - 1] { }
      if AnyItem(items[1..]) {
        var k :| 0 <= k < |items[1..]| && HasUnencodable(items[1..][k]);
        assert HasUnencodable(items[k + 1]);
      }
    }
  }

  lemma {:induction false} AnySlotAt(slots: seq<Slot>)
    ensures AnySlot(slots) <==> exists k | 0 <= k < |slots| :: HasUnencodable(slots[k].value)
  {
    hide HasUnencodable;
    if slots != [] {
      AnySlotAt(slots[1..]);
      forall k | 0 < k < |slots| ensures slots[k] == slots[1..][k - 1] { }
      if AnySlot(slots[1..]) {
        var k :| 0 <= k < |slots[1..]| && HasUnencodable(slots[1..][k].value);
        assert HasUnencodable(slots[k + 1].value);
      }
    }
  }

  /** These texts with a comma between any two. */
  function Commas(texts: seq<string>): string {
    if texts == [] then "" else if |texts| == 1 then texts[0] else texts[0] + ("," + Commas(texts[1..]))
  }

  function TextsOf(items: seq<Value>): (texts: seq<string>)
    ensures |texts| == |items| && forall k | 0 <= k < |items| :: texts[k] == Stringify(items[k])
  {
    hide Stringify;
    if items == [] then [] else [Stringify(items[0])] + TextsOf(items[1..])
  }

  function FieldTexts(slots: seq<Slot>): (texts: seq<string>)
    ensures |texts| == |slots| && forall k | 0 <= k < |slots| :: texts[k] == QuoteText(slots[k].name) + (":" + Stringify(slots[k].value))
  {
    hide Stringify, QuoteText;
    if slots == [] then [] else [QuoteText(slots[0].name) + (":" + Stringify(slots[0].value))] + FieldTexts(slots[1..])
  }

  /** Put together, the pieces of a list are its items' texts between commas, and those of an object its fields'; no blank anywhere. */
  lemma {:induction false} TextExact(v: Value)
    requires !HasUnencodable(v)
    ensures v.VList? ==> Stringify(v) == "[" + (Commas(TextsOf(v.items)) + "]")
    ensures v.VObj? ==> Stringify(v) == "{" + (Commas(FieldTexts(v.slots)) + "}")
  {
    hide ItemPieces, SlotPieces, Glue, Commas, TextsOf, FieldTexts, AnyItem, AnySlot;
    if v.VList? {
      ListText(v.items, true);
      Bracketed("[", ItemPieces(v.items, true), "]");
    } else if v.VObj? {
      ObjectText(v.slots, true);
      Bracketed("{", SlotPieces(v.slots, true), "}");
    }
  }

  lemma {:induction false} Bracketed(open: string, a: Yielded, close: string)
    requires !a.threw
    ensures Glue(Then(One(open), Then(a, One(close))).pieces) == open + (Glue(a.pieces) + close)
  {
    hide Glue, Then, One;
    GlueOne(open);
    GlueOne(close);
    GlueThen(a, One(close));
    GlueThen(One(open), Then(a, One(close)));
  }

  lemma {:induction false} ListText(items: seq<Value>, first: bool)
    requires !AnyItem(items)
    ensures !ItemPieces(items, first).threw
    ensures Glue(ItemPieces(items, first).pieces) == (if first || items == [] then "" else ",") + Commas(TextsOf(items))
    decreases |items|
  {
    hide HasUnencodable, Pieces, Glue, Then, One;
    if items == [] {
      NoGlue();
    } else {
      ThrowsExactly(items[0]);
      ItemsThrow(items, first);
      ListText(items[1..], false);
      GlueItem(if first then "" else ",", first, Pieces(items[0]), ItemPieces(items[1..], false));
      assert TextsOf(items)[0] == Stringify(items[0]) && TextsOf(items)[1..] == TextsOf(items[1..]);
    }
  }

  lemma {:induction false} ObjectText(slots: seq<Slot>, first: bool)
    requires !AnySlot(slots)
    ensures !SlotPieces(slots, first).threw
    ensures Glue(SlotPieces(slots, first).pieces) == (if first || slots == [] then "" else ",") + Commas(FieldTexts(slots))
    decreases |slots|
  {
    hide HasUnencodable, Pieces, Glue, Then, One, QuoteText;
    if slots == [] {
      NoGlue();
    } else {
      ThrowsExactly(slots[0].value);
      SlotsThrow(slots, first);
      ObjectText(slots[1..], false);
      var comma, name := if first then "" else ",", QuoteText(slots[0].name);
      GlueItem(comma + (name + ":"), false, Pieces(slots[0].value), SlotPieces(slots[1..], false));
      assert FieldTexts(slots)[0] == name + (":" + Stringify(slots[0].value)) && FieldTexts(slots)[1..] == FieldTexts(slots[1..]);
      assert comma + (name + ":") + (Stringify(slots[0].value) + Glue(SlotPieces(slots[1..], false).pieces))
          == comma + (name + (":" + Stringify(slots[0].value)) + Glue(SlotPieces(slots[1..], false).pieces));
    }
  }

  lemma {:induction false} NoGlue()
    ensures Glue([]) == ""
  {
  }

  /** What comes before an item, the item, and the rest. */
  lemma {:induction false} GlueItem(before: string, nothing: bool, item: Yielded, rest: Yielded)
    requires !item.threw && !rest.threw && (nothing ==> before == "")
    ensures var all := Then(if nothing then Yielded([], false) else One(before), Then(item, rest));
            !all.threw && Glue(all.pieces) == before + (Glue(item.pieces) + Glue(rest.pieces))
  {
    hide Glue;
    GlueOne(before);
    NoGlue();
    GlueThen(item, rest);
    GlueThen(if nothing then Yielded([], false) else One(before), Then(item, rest));
  }

  /** A string is written character by character: seven have a letter, the other control characters a code, the rest stand for themselves. */
  lemma {:induction false} QuotedExact(s: string, c: char, t: string)
    ensures EscapeText(s + [c] + t) == EscapeText(s) + EscapeText([c]) + EscapeText(t)
    ensures forall k | 0 <= k < 7 && c == "\"\\\n\r\t\U{8}\U{c}"[k] :: EscapeText([c]) == ['\\', "\"\\nrtbf"[k]]
    ensures c < ' ' && c !in "\n\r\t\U{8}\U{c}" ==>
      EscapeText([c]) == "\\u00" + [if c as int < 16 then '0' else '1', "0123456789abcdef"[c as int % 16]]
    ensures c >= ' ' && c != '"' && c != '\\' ==> EscapeText([c]) == [c]
  {
    hide EscapeChar, EscapeText;
    EscapeAppend(s, [c] + t);
    EscapeAppend([c], t);
    assert s + [c] + t == s + ([c] + t);
    EscapeOne(c);
    LettersWritten(c);
    CodeWritten(c);
  }

  lemma {:induction false} LettersWritten(c: char)
    ensures forall k | 0 <= k < 7 && c == "\"\\\n\r\t\U{8}\U{c}"[k] :: EscapeChar(c) == ['\\', "\"\\nrtbf"[k]]
    ensures c >= ' ' && c != '"' && c != '\\' ==> EscapeChar(c) == [c]
  {
  }

  lemma {:induction false} CodeWritten(c: char)
    ensures c < ' ' && c !in "\n\r\t\U{8}\U{c}" ==>
      EscapeChar(c) == "\\u00" + [if c as int < 16 then '0' else '1', "0123456789abcdef"[c as int % 16]]
  {
    var low := "0123456789abcdef";
    if c < ' ' {
      assert HexDigit(c as int % 16) == low[c as int % 16];
      assert HexDigit(c as int / 16) == if c as int < 16 then '0' else '1';
      LetterList(c);
    }
  }

  lemma {:induction false} LetterList(c: char)
    ensures c in "\n\r\t\U{8}\U{c}" <==> c == '\n' || c == '\r' || c == '\t' || c as int == 8 || c as int == 12
  {
    var all := "\n\r\t\U{8}\U{c}";
    assert all[0] == '\n' && all[1] == '\r' && all[2] == '\t' && all[3] as int == 8 && all[4] as int == 12;
  }

  lemma {:induction false} EscapeOne(c: char)
    ensures EscapeText([c]) == EscapeChar(c)
  {
    hide EscapeChar;
    var none := "";
    assert [c][1..] == none;
    assert EscapeText([c]) == EscapeChar(c) + none;
  }

  lemma {:induction false} EscapeAppend(s: string, t: string)
    ensures EscapeText(s + t) == EscapeText(s) + EscapeText(t)
  {
    hide EscapeChar;
    if s == "" {
      assert s + t == t;
    } else {
      EscapeAppend(s[1..], t);
      assert (s + t)[0] == s[0] && (s + t)[1..] == s[1..] + t;
      Assoc(EscapeChar(s[0]), EscapeText(s[1..]), EscapeText(t));
    }
  }

  // --- the tree of the text ----------------------------------------------------------------

  function RawOf(b: seq<byte>): (cs: seq<Char>)
    ensures |cs| == |b|
    ensures forall k | 0 <= k < |b| :: cs[k] == Raw(b[k])
  {
    seq(|b|, k requires 0 <= k < |b| => Raw(b[k]))
  }

  /** The characters of the grammar that stand for one character of text. */
  function CharsOf(c: char): seq<Char> {
    if c == '"' then [Esc(0x22)]
    else if c == '\\' then [Esc(0x5c)]
    else if c == '\n' then [Esc(0x6e)]
    else if c == '\r' then [Esc(0x72)]
    else if c == '\t' then [Esc(0x74)]
    else if c as int == 8 then [Esc(0x62)]
    else if c as int == 12 then [Esc(0x66)]
    else if c as int < 0x20 then [Uni(0x30, 0x30, HexDigit(c as int / 16) as int, HexDigit(c as int % 16) as int)]
    else RawOf(EncodeRune(c))
  }

  function TextChars(s: string): seq<Char> {
    if s == "" then [] else CharsOf(s[0]) + TextChars(s[1..])
  }

  /** The first sequence of an encoding is at least 0x20 and stands for itself. */
  lemma {:induction false} RawBytes(c: char)
    requires c as int >= 0x20 && c != '"' && c != '\\'
    ensures WfChars(RawOf(EncodeRune(c))) && Body(RawOf(EncodeRune(c))) == EncodeRune(c)
  {
    var s := EncodeRune(c);
    EncodeRuneIsRune(c);
    if |s| > 1 {
      assert s[0] >= 0x80;
      ValidLengthHigh(s);
    }
    BodyOfRaw(RawOf(s));
  }

  lemma {:induction false} BodyOne(c: Char)
    ensures Body([c]) == CharBytes(c)
  {
    assert [c][1..] == [];
    assert Body([c]) == CharBytes(c) + [];
  }

  lemma {:induction false} EncodeAscii1(a: char)
    requires a as int < 0x80
    ensures Encode([a]) == [a as int]
  {
    assert [a][1..] == "";
    assert Encode([a]) == EncodeRune(a) + [];
  }

  lemma {:induction false} EncodeAscii2(a: char, b: char)
    requires a as int < 0x80 && b as int < 0x80
    ensures Encode([a, b]) == [a as int, b as int]
  {
    EncodeCons(a, [b]);
    EncodeAscii1(b);
    assert [a] + [b] == [a, b];
  }

  lemma {:induction false} EncodeControl(a: char, b: char)
    requires a as int < 0x80 && b as int < 0x80
    ensures Encode("\\u00" + [a, b]) == [0x5c, 0x75, 0x30, 0x30, a as int, b as int]
  {
    EncodeAscii2('\\', 'u');
    EncodeAscii2('0', '0');
    EncodeAscii2(a, b);
    assert "\\u00" == ['\\', 'u'] + ['0', '0'];
    EncodeAppend(['\\', 'u'], ['0', '0']);
    EncodeAppend("\\u00", [a, b]);
  }

  /** An escaped character is written as its grammar characters are. */
  lemma {:induction false} CharWritten(c: char)
    ensures WfChars(CharsOf(c)) && Encode(EscapeChar(c)) == Body(CharsOf(c))
  {
    var n := c as int;
    if n >= 0x20 && c != '"' && c != '\\' {
      RawBytes(c);
      EncodeCons(c, "");
      assert [c] + "" == [c] && EncodeRune(c) + [] == EncodeRune(c);
    } else if c == '"' || c == '\\' || c == '\n' || c == '\r' || c == '\t' || n == 8 || n == 12 {
      BodyOne(CharsOf(c)[0]);
      EncodeAscii2('\\', EscapeChar(c)[1]);
      assert EscapeChar(c) == ['\\', EscapeChar(c)[1]];
    } else {
      BodyOne(CharsOf(c)[0]);
      EncodeControl(HexDigit(n / 16), HexDigit(n % 16));
    }
  }

  lemma {:induction false} TextWritten(s: string)
    ensures WfChars(TextChars(s)) && Encode(EscapeText(s)) == Body(TextChars(s))
  {
    hide CharsOf, EscapeChar;
    if s != "" {
      CharWritten(s[0]);
      TextWritten(s[1..]);
      EncodeAppend(EscapeChar(s[0]), EscapeText(s[1..]));
      BodyAppend(CharsOf(s[0]), TextChars(s[1..]));
      assert TextChars(s) == CharsOf(s[0]) + TextChars(s[1..]);
    }
  }

  lemma {:induction false} QuoteWritten(s: string)
    ensures WfChars(TextChars(s)) && Encode(QuoteText(s)) == Quote(TextChars(s))
  {
    hide TextChars, EscapeText, Body;
    TextWritten(s);
    EncodeAscii1('"');
    EncodeAppend(EscapeText(s), "\"");
    EncodeAppend("\"", EscapeText(s) + "\"");
  }

  /** The escape letter of a character that has one. */
  predicate HasLetter(c: char) {
    c == '"' || c == '\\' || c == '\n' || c == '\r' || c == '\t' || c as int == 8 || c as int == 12
  }

  lemma {:induction false} LetterRead(c: char, b: seq<byte>, i: nat)
    requires HasLetter(c) && Holds(b, i, Body(CharsOf(c)))
    ensures |Body(CharsOf(c))| == 2 && i + 2 <= |b| && RStr(b, i) == Prepend([c], false, RStr(b, i + 2))
  {
    hide RStr, Holds, Body;
    BodyOne(CharsOf(c)[0]);
    var e := CharsOf(c)[0].e;
    assert CharsOf(c) == [Esc(e)] && SimpleEscape(e) == c as int;
    HoldsAt(b, i, [0x5c, e], 0);
    HoldsAt(b, i, [0x5c, e], 1);
    EscapeStep(b, i);
  }

  /** What is written for one character is read back as that character. */
  lemma {:induction false} CharRead(c: char, b: seq<byte>, i: nat) returns (p: bool)
    requires Holds(b, i, Body(CharsOf(c)))
    ensures i + |Body(CharsOf(c))| <= |b|
    ensures RStr(b, i) == Prepend([c], p, RStr(b, i + |Body(CharsOf(c))|))
  {
    hide RStr, Holds, Prepend, Body;
    p := false;
    if HasLetter(c) {
      LetterRead(c, b, i);
    } else if c as int >= 0x20 {
      RawBytes(c);
      RuneRead(c, b, i);
      p := c as int < 0x80;
    } else {
      BodyOne(CharsOf(c)[0]);
      ControlRead(c, b, i);
    }
  }

  lemma {:induction false} EscapeStep(b: seq<byte>, i: nat)
    requires i < |b| && b[i] == 0x5c && Unescape(b, i).Ok?
    ensures RStr(b, i) == Prepend([Unescape(b, i).v], false, RStr(b, Unescape(b, i).next))
  {
  }

  lemma {:induction false} ControlRead(c: char, b: seq<byte>, i: nat)
    requires c as int < 0x20
    requires var u := Uni(0x30, 0x30, HexDigit(c as int / 16) as int, HexDigit(c as int % 16) as int);
             Holds(b, i, CharBytes(u))
    ensures i + 6 <= |b| && RStr(b, i) == Prepend([c], false, RStr(b, i + 6))
  {
    var n := c as int;
    var u := Uni(0x30, 0x30, HexDigit(n / 16) as int, HexDigit(n % 16) as int);
    UniRead(b, i, u);
    assert UniVal(u) == n;
    EscapeStep(b, i);
  }

  lemma {:induction false} RuneRead(c: char, b: seq<byte>, i: nat)
    requires c as int >= 0x20 && c != '"' && c != '\\' && Holds(b, i, EncodeRune(c))
    ensures var j := i + |EncodeRune(c)|;
            j <= |b| && RStr(b, i) == Prepend([c], c as int < 0x80, RStr(b, j))
  {
    var s := EncodeRune(c);
    EncodeRuneIsRune(c);
    ValidLengthGrows(b, i, |s|);
    assert b[i..i + |s|][0] == b[i];
  }

  /** Text is read back as it was written. */
  lemma {:induction false} TextRead(s: string, b: seq<byte>, i: nat)
    requires Holds(b, i, Body(TextChars(s)) + [0x22])
    ensures RStr(b, i).Ok? && RStr(b, i).v.text == s
    decreases |s|
  {
    hide RStr, CharsOf, Holds;
    if s == "" {
      assert Body([]) + [0x22] == [0x22];
      HoldsOne(b, i, 0x22);
      EmptyRead(b, i);
    } else {
      var cs, rest := CharsOf(s[0]), TextChars(s[1..]);
      BodyAppend(cs, rest);
      Assoc(Body(cs), Body(rest), [0x22]);
      HoldsSplit(b, i, Body(cs), Body(rest) + [0x22]);
      var p := CharRead(s[0], b, i);
      TextRead(s[1..], b, i + |Body(cs)|);
      assert s == [s[0]] + s[1..];
    }
  }

  lemma {:induction false} EmptyRead(b: seq<byte>, i: nat)
    requires i < |b| && b[i] == 0x22
    ensures RStr(b, i) == Ok(Quoted("", true), i + 1)
  {
  }

  /** The grammar's meaning of written text is that text. */
  lemma {:induction false} TextMeaning(s: string)
    ensures WfChars(TextChars(s)) && Meaning(TextChars(s)) == s
  {
    hide TextChars, Meaning, RStr, Plain, Body;
    TextWritten(s);
    var b := Body(TextChars(s)) + [0x22];
    assert Holds(b, 0, b);
    StringComplete(TextChars(s), b, 0);
    TextRead(s, b, 0);
  }

  predicate IsPlainText(s: string) {
    forall k | 0 <= k < |s| :: 0x20 <= s[k] as int < 0x80 && s[k] != '"' && s[k] != '\\'
  }

  lemma {:induction false} PlainTextChars(s: string)
    requires IsPlainText(s)
    ensures Plain(TextChars(s))
  {
    if s != "" {
      PlainTextChars(s[1..]);
      assert CharsOf(s[0]) == [Raw(s[0] as int)];
    }
  }
}
