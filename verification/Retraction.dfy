/** Decoding what was written for a value gives it back. */
module Retraction {
  import opened Options
  import opened Utf8
  import opened Json
  import opened JsonGrammar
  import JsonComplete
  import opened JsonSound
  import opened Decode
  import opened JsonWriter
  import Decimal
  import Time

  ghost predicate IsNumberText(s: string) {
    exists n :: WfNumeral(n) && Latin1(NumeralBytes(n)) == s
  }

  ghost function NumeralFor(s: string): (n: Numeral)
    requires IsNumberText(s)
    ensures WfNumeral(n) && Latin1(NumeralBytes(n)) == s
  {
    var n :| WfNumeral(n) && Latin1(NumeralBytes(n)) == s;
    n
  }

  /** Of the float64 writer: its text is a JSON number that reads back as the same double, and "0" is its zero. */
  ghost predicate Lawful(e: Env) {
    && (forall raw :: e.canon(raw).Some? ==> e.canon(e.canon(raw).value) == e.canon(raw) && IsNumberText(e.canon(raw).value))
    && e.canon("0") == Some("0")
  }

  // --- decoded values are in canonical form --------------------------------------------------

  predicate Canonical(e: Env, v: Value)
    decreases v, 0
  {
    match v
    case VFloat(lit) => e.canon(lit) == Some(lit)
    case VTime(t) => Time.NormaliseTime(t) == Time.Normal(t)
    case VList(items) => CanonicalItems(e, items)
    case VObj(slots) => CanonicalSlots(e, slots)
    case _ => true
  }

  predicate CanonicalItems(e: Env, items: seq<Value>)
    decreases items, 0
  {
    items == [] || (Canonical(e, items[0]) && CanonicalItems(e, items[1..]))
  }

  predicate CanonicalSlots(e: Env, slots: seq<Slot>)
    decreases slots, 0
  {
    slots == [] || (Canonical(e, slots[0].value) && CanonicalSlots(e, slots[1..]))
  }

  lemma {:induction false} CanonicalSlotsAt(e: Env, slots: seq<Slot>)
    ensures CanonicalSlots(e, slots) <==> forall k | 0 <= k < |slots| :: Canonical(e, slots[k].value)
  {
    hide Canonical;
    if slots != [] {
      CanonicalSlotsAt(e, slots[1..]);
      assert forall k | 0 <= k < |slots[1..]| :: slots[1..][k] == slots[k + 1];
      if CanonicalSlots(e, slots) {
        forall k | 0 < k < |slots| ensures Canonical(e, slots[k].value) { assert slots[1..][k - 1] == slots[k]; }
      }
    }
  }

  lemma {:induction false} ZeroCanonical(e: Env, schema: Schema)
    requires Lawful(e)
    ensures Canonical(e, Zero(schema))
    decreases schema, 0
  {
    match schema
    case STime => Time.ZeroTimeIsZero();
    case SStruct(fields) => ZeroSlotsCanonical(e, fields);
    case _ =>
  }

  lemma {:induction false} ZeroSlotsCanonical(e: Env, fields: seq<Field>)
    requires Lawful(e)
    ensures CanonicalSlots(e, ZeroSlots(fields))
    decreases fields, 0
  {
    if fields != [] {
      ZeroCanonical(e, fields[0].schema);
      ZeroSlotsCanonical(e, fields[1..]);
      assert ZeroSlots(fields)[1..] == ZeroSlots(fields[1..]);
    }
  }

  predicate Neat(e: Env, existing: Option<Value>) {
    existing.Some? ==> Canonical(e, existing.value)
  }

  lemma {:induction false} BindCanonical(e: Env, node: Node, schema: Schema, existing: Option<Value>)
    requires Lawful(e) && Decode.Settled(existing, schema) && Neat(e, existing) && Bind(e, node, schema, existing).Val?
    ensures Canonical(e, Bind(e, node, schema, existing).v)
    decreases node, 1
  {
    hide Bind, Fits, Canonical;
    if node.Null? {
      ZeroCanonical(e, schema);
      NullCanonical(e, schema, existing);
    } else {
      match schema
      case SList(of) => ListCanonical(e, node, of, existing);
      case SStruct(fields) => StructCanonical(e, node, fields, existing);
      case _ => ScalarCanonical(e, node, schema, existing);
    }
  }

  lemma {:induction false} NullCanonical(e: Env, schema: Schema, existing: Option<Value>)
    requires Decode.Settled(existing, schema) && Neat(e, existing) && Canonical(e, Zero(schema))
    ensures Bind(e, Null, schema, existing).Val? && Canonical(e, Bind(e, Null, schema, existing).v)
  {
    hide Zero, Fits;
  }

  lemma {:induction false} ScalarCanonical(e: Env, node: Node, schema: Schema, existing: Option<Value>)
    requires Lawful(e) && Decode.Settled(existing, schema) && !node.Null? && !schema.SList? && !schema.SStruct?
    requires Bind(e, node, schema, existing).Val?
    ensures Canonical(e, Bind(e, node, schema, existing).v)
  {
    hide Fits, ParseInt64, BindItems, BindMembers, IsNumberText, Zero;
    if schema.STime? && Time.NormaliseTime(node.v).Normal? {
      hide Time.NormaliseTime;
      TimeCanonical(node.v);
    }
  }

  lemma {:induction false} StructCanonical(e: Env, node: Node, fields: seq<Field>, existing: Option<Value>)
    requires Lawful(e) && !node.Null? && Decode.Settled(existing, SStruct(fields)) && Neat(e, existing) && Bind(e, node, SStruct(fields), existing).Val?
    ensures Canonical(e, Bind(e, node, SStruct(fields), existing).v)
    decreases node, 0
  {
    hide BindMembers, Lawful, IsNumberText;
    ZeroCanonical(e, SStruct(fields));
    BindMembersCanonical(e, node.members, fields, Start(existing, SStruct(fields)).slots);
  }

  lemma {:induction false} TimeCanonical(text: string)
    requires Time.NormaliseTime(text).Normal?
    ensures var t := Time.NormaliseTime(text).text; Time.NormaliseTime(t) == Time.Normal(t)
  {
    Time.NormaliseIdempotent(text);
  }

  lemma {:induction false} ListCanonical(e: Env, node: Node, of: Schema, existing: Option<Value>)
    requires Lawful(e) && !node.Null? && Decode.Settled(existing, SList(of)) && Neat(e, existing) && Bind(e, node, SList(of), existing).Val?
    ensures Canonical(e, Bind(e, node, SList(of), existing).v)
    decreases node, 0
  {
    hide BindItems, Lawful, IsNumberText;
    var before := if existing.Some? && existing.value.VList? then existing.value.items else [];
    BindItemsCanonical(e, node.items, of, before);
  }

  lemma {:induction false} BindItemsCanonical(e: Env, items: seq<Node>, of: Schema, before: seq<Value>)
    requires Lawful(e) && FitItems(before, of) && CanonicalItems(e, before) && BindItems(e, items, of, before).Val?
    ensures CanonicalItems(e, BindItems(e, items, of, before).v)
    decreases items, 0
  {
    hide Bind, Canonical, Fits;
    if items != [] {
      BindCanonical(e, items[0], of, HeadOf(before));
      BindItemsCanonical(e, items[1..], of, TailOf(before));
      var v := Bind(e, items[0], of, HeadOf(before)).v;
      var rest := BindItems(e, items[1..], of, TailOf(before)).v;
      assert ([v] + rest)[1..] == rest;
    }
  }

  lemma {:induction false} BindMembersCanonical(e: Env, members: seq<Member>, fields: seq<Field>, into: seq<Slot>)
    requires Lawful(e) && FitSlots(into, fields) && CanonicalSlots(e, into) && BindMembers(e, members, fields, into).Val?
    ensures CanonicalSlots(e, BindMembers(e, members, fields, into).v)
    decreases members, 0
  {
    hide Bind, Canonical, Fits, FitSlots, CanonicalSlots, Lookup;
    if members != [] {
      var k := Lookup(e, fields, members[0].key);
      if k.None? {
        BindMembersCanonical(e, members[1..], fields, into);
      } else {
        FitSlotsAt(into, fields);
        CanonicalSlotsAt(e, into);
        BindCanonical(e, members[0].value, fields[k.value].schema, Some(into[k.value].value));
        var v := Bind(e, members[0].value, fields[k.value].schema, Some(into[k.value].value)).v;
        UpdateFits(into, fields, k.value, v);
        CanonicalSlotsAt(e, Update(into, k.value, v));
        BindMembersCanonical(e, members[1..], fields, Update(into, k.value, v));
      }
    }
  }

  // --- the derivation tree of a value ----------------------------------------------------------

  predicate Encodable(e: Env, v: Value) {
    Canonical(e, v) && !HasUnencodable(v)
  }

  function IntNumeral(n: int): Numeral {
    Numeral(n < 0, Encode(Decimal.Show(if n < 0 then -n else n)), None, None)
  }

  ghost function CstOf(e: Env, v: Value): Cst
    requires Lawful(e) && Encodable(e, v)
    decreases v, 0
  {
    match v
    case VNull => CNull
    case VStr(s) => CStr(TextChars(s))
    case VInt(n) => CNum(IntNumeral(n))
    case VFloat(lit) => assert e.canon(lit) == Some(lit); CNum(NumeralFor(lit))
    case VBool(b) => if b then CTrue else CFalse
    case VTime(t) => CStr(TextChars(t))
    case VList(items) => if items == [] then CEmptyArr([]) else CArr(ItemsOf(e, items))
    case VObj(slots) => if slots == [] then CEmptyObj([]) else CObj(PairsOf(e, slots))
  }

  ghost function ItemsOf(e: Env, items: seq<Value>): (r: seq<Item>)
    requires Lawful(e) && CanonicalItems(e, items) && !AnyItem(items)
    ensures |r| == |items|
    decreases items, 0
  {
    if items == [] then [] else [Item([], CstOf(e, items[0]), [])] + ItemsOf(e, items[1..])
  }

  ghost function PairsOf(e: Env, slots: seq<Slot>): (r: seq<Pair>)
    requires Lawful(e) && CanonicalSlots(e, slots) && !AnySlot(slots)
    ensures |r| == |slots|
    decreases slots, 0
  {
    if slots == [] then []
    else [Pair([], TextChars(slots[0].name), [], Item([], CstOf(e, slots[0].value), []))] + PairsOf(e, slots[1..])
  }

  /** How deep arrays and objects nest in a value. */
  function ValueDepth(v: Value): nat
    decreases v, 0
  {
    match v
    case VList(items) => 1 + ItemsDepth(items)
    case VObj(slots) => 1 + SlotsDepth(slots)
    case _ => 0
  }

  function ItemsDepth(items: seq<Value>): nat
    decreases items, 0
  {
    if items == [] then 0 else Max(ValueDepth(items[0]), ItemsDepth(items[1..]))
  }

  function SlotsDepth(slots: seq<Slot>): nat
    decreases slots, 0
  {
    if slots == [] then 0 else Max(ValueDepth(slots[0].value), SlotsDepth(slots[1..]))
  }

  lemma {:induction false} AsciiText(s: string)
    requires forall k | 0 <= k < |s| :: s[k] as int < 0x80
    ensures |Encode(s)| == |s| && (forall k | 0 <= k < |s| :: Encode(s)[k] == s[k] as int) && Latin1(Encode(s)) == s
  {
    if s != "" {
      AsciiText(s[1..]);
      assert Encode(s) == [s[0] as int] + Encode(s[1..]);
    }
  }

  /** Digits with no needless zero are a numeral. */
  lemma {:induction false} DigitsNumeral(minus: bool, d: string)
    requires d != "" && Decimal.AllDigits(d) && (d[0] == '0' ==> |d| == 1)
    ensures var n := Numeral(minus, Encode(d), None, None);
            WfNumeral(n) && NumeralBytes(n) == (if minus then [0x2d] else []) + Encode(d)
  {
    hide Encode;
    AsciiText(d);
    var w := Encode(d);
    assert w + ([] + []) == w;
  }

  lemma {:induction false} IntWritten(n: int)
    ensures WfNumeral(IntNumeral(n)) && NumeralBytes(IntNumeral(n)) == Encode(ShowInt(n)) && Latin1(NumeralBytes(IntNumeral(n))) == ShowInt(n)
  {
    hide Decimal.Show, Encode, EncodeRune, NumeralBytes, WfNumeral;
    var m := if n < 0 then -n else n;
    var d := Decimal.Show(m);
    Decimal.ShowRoundTrip(m);
    DigitsNumeral(n < 0, d);
    AsciiText(ShowInt(n));
    if n < 0 {
      EncodeCons('-', d);
      DashByte();
    } else {
      assert [] + Encode(d) == Encode(d);
    }
  }

  lemma {:induction false} DashByte()
    ensures EncodeRune('-') == [0x2d]
  {
  }

  /** The tree of a value is well-formed, and as deep as the value. */
  lemma {:induction false} CstWf(e: Env, v: Value)
    requires Lawful(e) && Encodable(e, v)
    ensures Wf(CstOf(e, v)) && Depth(CstOf(e, v)) == ValueDepth(v)
    decreases v, 0
  {
    hide TextChars, WfNumeral, IntNumeral, IsNumberText, NumeralBytes, WfChars, ItemsOf, PairsOf, WfItems, WfPairs, DepthItems, DepthPairs,
      CanonicalItems, CanonicalSlots, AnyItem, AnySlot;
    match v
    case VStr(s) => TextWritten(s);
    case VTime(t) => TextWritten(t);
    case VInt(n) => IntWritten(n);
    case VList(items) => ItemsWf(e, items);
    case VObj(slots) => PairsWf(e, slots);
    case _ =>
  }

  lemma {:induction false} ItemsWf(e: Env, items: seq<Value>)
    requires Lawful(e) && CanonicalItems(e, items) && !AnyItem(items)
    ensures WfItems(ItemsOf(e, items)) && DepthItems(ItemsOf(e, items)) == ItemsDepth(items)
    decreases items, 0
  {
    hide Canonical, Lawful, HasUnencodable, Wf, Depth, ValueDepth;
    if items != [] {
      CstWf(e, items[0]);
      ItemsWf(e, items[1..]);
      assert ItemsOf(e, items)[1..] == ItemsOf(e, items[1..]);
    }
  }

  lemma {:induction false} PairsWf(e: Env, slots: seq<Slot>)
    requires Lawful(e) && CanonicalSlots(e, slots) && !AnySlot(slots)
    ensures WfPairs(PairsOf(e, slots)) && DepthPairs(PairsOf(e, slots)) == SlotsDepth(slots)
    decreases slots, 0
  {
    hide Canonical, Lawful, HasUnencodable, Wf, Depth, ValueDepth, TextChars;
    if slots != [] {
      CstWf(e, slots[0].value);
      TextWritten(slots[0].name);
      PairsWf(e, slots[1..]);
      assert PairsOf(e, slots)[1..] == PairsOf(e, slots[1..]);
    }
  }

  // --- the text is the yield of that tree ----------------------------------------------------------

  lemma {:induction false} WordsWritten()
    ensures Encode("null") == NULL && Encode("true") == TRUE && Encode("false") == FALSE
  {
    AsciiText("null");
    AsciiText("true");
    AsciiText("false");
    assert Encode("null") == NULL;
    assert Encode("true") == TRUE;
    assert Encode("false") == FALSE;
  }

  lemma {:induction false} LitWritten(lit: string)
    requires IsNumberText(lit)
    ensures NumeralBytes(NumeralFor(lit)) == Encode(lit)
  {
    hide NumeralBytes, WfNumeral;
    var n := NumeralFor(lit);
    NumeralAscii(n);
    AsciiText(lit);
    assert Latin1(NumeralBytes(n)) == lit;
    forall k | 0 <= k < |lit| ensures Encode(lit)[k] == NumeralBytes(n)[k] {
      assert lit[k] as int == NumeralBytes(n)[k];
    }
  }

  lemma {:induction false} NumeralParts(n: Numeral)
    ensures NumeralBytes(n) == MinusBytes(n) + (n.whole + (FracBytes(n) + ExpBytes(n)))
  {
  }

  lemma {:induction false} NumeralAscii(n: Numeral)
    requires WfNumeral(n)
    ensures forall k | 0 <= k < |Latin1(NumeralBytes(n))| :: Latin1(NumeralBytes(n))[k] as int < 0x80
  {
    hide NumeralBytes, FracBytes, ExpBytes, MinusBytes;
    NumeralParts(n);
    PartsAscii(n);
    AsciiBoth(FracBytes(n), ExpBytes(n));
    AsciiBoth(n.whole, FracBytes(n) + ExpBytes(n));
    AsciiBoth(MinusBytes(n), n.whole + (FracBytes(n) + ExpBytes(n)));
  }

  lemma {:induction false} PartsAscii(n: Numeral)
    requires WfNumeral(n)
    ensures JsonComplete.AllAscii(MinusBytes(n)) && JsonComplete.AllAscii(n.whole) && JsonComplete.AllAscii(FracBytes(n)) && JsonComplete.AllAscii(ExpBytes(n))
  {
  }

  lemma {:induction false} AsciiBoth(a: seq<byte>, b: seq<byte>)
    requires JsonComplete.AllAscii(a) && JsonComplete.AllAscii(b)
    ensures JsonComplete.AllAscii(a + b)
  {
  }

  lemma {:induction false} ScalarWritten(e: Env, v: Value)
    requires Lawful(e) && Encodable(e, v) && !v.VList? && !v.VObj?
    ensures Encode(Stringify(v)) == Yield(CstOf(e, v))
  {
    hide Encode, TextChars, QuoteText, Quote, NumeralBytes, IntNumeral, IsNumberText, ShowInt;
    GlueOne(Pieces(v).pieces[0]);
    match v
    case VInt(n) => IntWritten(n);
    case VFloat(lit) =>
      assert e.canon(lit) == Some(lit);
      LitWritten(lit);
    case VStr(s) => QuoteWritten(s);
    case VTime(t) => QuoteWritten(t);
    case _ => WordsWritten();
  }

  /** What is written for a value is the yield of its tree. */
  lemma {:induction false} ValueWritten(e: Env, v: Value)
    requires Lawful(e) && Encodable(e, v)
    ensures Encode(Stringify(v)) == Yield(CstOf(e, v))
    decreases v, 1
  {
    hide Encode, Canonical, Pieces, Yield, CstOf;
    match v
    case VList(items) => ListWritten(e, v);
    case VObj(slots) => ObjectWritten(e, v);
    case _ => ScalarWritten(e, v);
  }

  lemma {:induction false} Bracketed(open: char, a: Yielded, close: char)
    requires open as int < 0x80 && close as int < 0x80 && !a.threw
    ensures Encode(Glue(Then(One([open]), Then(a, One([close]))).pieces)) == [open as int] + (Encode(Glue(a.pieces)) + [close as int])
  {
    hide Encode, Glue;
    GlueOne([open]);
    GlueOne([close]);
    GlueThen(a, One([close]));
    GlueThen(One([open]), Then(a, One([close])));
    EncodeAppend(Glue(a.pieces), [close]);
    EncodeAppend([open], Glue(a.pieces) + [close]);
    EncodeAscii1(open);
    EncodeAscii1(close);
  }

  lemma {:induction false} ListWritten(e: Env, v: Value)
    requires Lawful(e) && Encodable(e, v) && v.VList?
    ensures Encode(Stringify(v)) == Yield(CstOf(e, v))
    decreases v, 0
  {
    hide Encode, Glue, ItemPieces, ItemsOf, YieldItems, Lawful, CanonicalItems, AnyItem;
    var items := v.items;
    ItemsThrow(items, true);
    Bracketed('[', ItemPieces(items, true), ']');
    if items == [] {
      NoPieces();
    } else {
      ItemsWritten(e, items, true);
      assert [] + YieldItems(ItemsOf(e, items)) == YieldItems(ItemsOf(e, items));
    }
  }

  lemma {:induction false} NoPieces()
    ensures Encode(Glue(ItemPieces([], true).pieces)) == [] && Encode(Glue(SlotPieces([], true).pieces)) == []
  {
  }

  lemma {:induction false} ItemsWritten(e: Env, items: seq<Value>, first: bool)
    requires Lawful(e) && CanonicalItems(e, items) && !AnyItem(items) && items != []
    ensures Encode(Glue(ItemPieces(items, first).pieces)) + [0x5d] == (if first then [] else [0x2c]) + YieldItems(ItemsOf(e, items))
    decreases items, 0
  {
    hide Encode, Glue, Canonical, HasUnencodable, Pieces, Yield, CstOf, Lawful, YieldItems, ItemsOf;
    var v, rest := items[0], items[1..];
    ItemsThrow(items, first);
    ThrowsExactly(v);
    ItemsThrow(rest, false);
    ValueWritten(e, v);
    var comma := if first then Yielded([], false) else One(",");
    var text := Encode(Stringify(v));
    var more := ItemPieces(rest, false);
    CommaWritten(first);
    GlueThen(Pieces(v), more);
    GlueThen(comma, Then(Pieces(v), more));
    EncodeAppend(Stringify(v), Glue(more.pieces));
    EncodeAppend(Glue(comma.pieces), Stringify(v) + Glue(more.pieces));
    ItemsJoined(e, items);
    var tail := Encode(Glue(more.pieces));
    if rest == [] {
      NoMore();
    } else {
      ItemsWritten(e, rest, false);
    }
    var c: seq<byte> := if first then [] else [0x2c];
    Regroup(c, [], text, tail, [0x5d]);
    assert c + [] == c && [] + (text + (tail + [0x5d])) == text + (tail + [0x5d]);
  }

  lemma {:induction false} Regroup(c: seq<byte>, key: seq<byte>, text: seq<byte>, tail: seq<byte>, end: seq<byte>)
    ensures (c + key) + (text + tail) + end == c + (key + (text + (tail + end)))
  {
  }

  lemma {:induction false} CommaWritten(first: bool)
    ensures var comma := if first then Yielded([], false) else One(",");
            Encode(Glue(comma.pieces)) == if first then [] else [0x2c]
  {
    GlueOne(",");
    EncodeAscii1(',');
  }

  lemma {:induction false} NoMore()
    ensures Encode(Glue(ItemPieces([], false).pieces)) == [] && Encode(Glue(SlotPieces([], false).pieces)) == []
  {
  }

  lemma {:induction false} ItemsJoined(e: Env, items: seq<Value>)
    requires Lawful(e) && CanonicalItems(e, items) && !AnyItem(items) && items != []
    ensures YieldItems(ItemsOf(e, items)) ==
            Yield(CstOf(e, items[0])) + (if |items| == 1 then [0x5d] else [0x2c] + YieldItems(ItemsOf(e, items[1..])))
  {
    hide Yield, CstOf, Canonical, HasUnencodable, Lawful;
    var its := ItemsOf(e, items);
    assert its[1..] == ItemsOf(e, items[1..]);
    var y := Yield(CstOf(e, items[0]));
    assert [] + (y + []) == y;
  }

  lemma {:induction false} ObjectWritten(e: Env, v: Value)
    requires Lawful(e) && Encodable(e, v) && v.VObj?
    ensures Encode(Stringify(v)) == Yield(CstOf(e, v))
    decreases v, 0
  {
    hide Encode, Glue, SlotPieces, PairsOf, YieldPairs, Lawful, CanonicalSlots, AnySlot;
    var slots := v.slots;
    SlotsThrow(slots, true);
    Bracketed('{', SlotPieces(slots, true), '}');
    if slots == [] {
      NoPieces();
    } else {
      SlotsWritten(e, slots, true);
      assert [] + YieldPairs(PairsOf(e, slots)) == YieldPairs(PairsOf(e, slots));
    }
  }

  lemma {:induction false} SlotsWritten(e: Env, slots: seq<Slot>, first: bool)
    requires Lawful(e) && CanonicalSlots(e, slots) && !AnySlot(slots) && slots != []
    ensures Encode(Glue(SlotPieces(slots, first).pieces)) + [0x7d] == (if first then [] else [0x2c]) + YieldPairs(PairsOf(e, slots))
    decreases slots, 0
  {
    hide Encode, Glue, Canonical, HasUnencodable, Pieces, Yield, CstOf, Lawful, QuoteText, Quote, TextChars, YieldPairs, PairsOf;
    var v, rest, name := slots[0].value, slots[1..], slots[0].name;
    SlotsThrow(slots, first);
    ThrowsExactly(v);
    SlotsThrow(rest, false);
    ValueWritten(e, v);
    var head := (if first then "" else ",") + (QuoteText(name) + ":");
    var text := Encode(Stringify(v));
    var more := SlotPieces(rest, false);
    KeyWritten(name, first);
    GlueOne(head);
    GlueThen(Pieces(v), more);
    GlueThen(One(head), Then(Pieces(v), more));
    EncodeAppend(Stringify(v), Glue(more.pieces));
    EncodeAppend(head, Stringify(v) + Glue(more.pieces));
    PairsJoined(e, slots);
    var tail := Encode(Glue(more.pieces));
    if rest == [] {
      NoMore();
    } else {
      SlotsWritten(e, rest, false);
    }
    var c: seq<byte> := if first then [] else [0x2c];
    var key := Quote(TextChars(name)) + [0x3a];
    Regroup(c, key, text, tail, [0x7d]);
  }

  lemma {:induction false} KeyWritten(name: string, first: bool)
    ensures Encode((if first then "" else ",") + (QuoteText(name) + ":")) == (if first then [] else [0x2c]) + (Quote(TextChars(name)) + [0x3a])
  {
    hide QuoteText, Quote, TextChars;
    QuoteWritten(name);
    EncodeAscii1(':');
    EncodeAppend(QuoteText(name), ":");
    EncodeAscii1(',');
    EncodeAppend(if first then "" else ",", QuoteText(name) + ":");
  }

  lemma {:induction false} PairsJoined(e: Env, slots: seq<Slot>)
    requires Lawful(e) && CanonicalSlots(e, slots) && !AnySlot(slots) && slots != []
    ensures YieldPairs(PairsOf(e, slots)) ==
            (Quote(TextChars(slots[0].name)) + [0x3a]) +
            (Yield(CstOf(e, slots[0].value)) + (if |slots| == 1 then [0x7d] else [0x2c] + YieldPairs(PairsOf(e, slots[1..]))))
  {
    hide Yield, CstOf, Canonical, HasUnencodable, Lawful, Quote, TextChars;
    var ps := PairsOf(e, slots);
    assert ps[1..] == PairsOf(e, slots[1..]);
    var y := Yield(CstOf(e, slots[0].value));
    assert [] + (y + []) == y;
    var q := Quote(TextChars(slots[0].name));
    assert [] + (q + ([] + [0x3a])) == q + [0x3a];
  }

  // --- reading the tree back -----------------------------------------------------------------------

  /** No struct of the schema has two fields of one name. */
  predicate DistinctNames(schema: Schema)
    decreases schema, 0
  {
    match schema
    case SList(of) => DistinctNames(of)
    case SStruct(fields) => (forall j, k | 0 <= j < k < |fields| :: fields[j].name != fields[k].name) && DistinctFields(fields)
    case _ => true
  }

  predicate DistinctFields(fields: seq<Field>)
    decreases fields, 0
  {
    fields == [] || (DistinctNames(fields[0].schema) && DistinctFields(fields[1..]))
  }

  lemma {:induction false} DistinctFieldsAt(fields: seq<Field>, k: nat)
    requires DistinctFields(fields) && k < |fields|
    ensures DistinctNames(fields[k].schema)
  {
    if k > 0 {
      DistinctFieldsAt(fields[1..], k - 1);
    }
  }

  lemma {:induction false} FindsField(fields: seq<Field>, k: nat)
    requires k < |fields| && forall i, j | 0 <= i < j < |fields| :: fields[i].name != fields[j].name
    ensures ExactField(fields, fields[k].name) == Some(k)
  {
    var r := ExactField(fields, fields[k].name);
    assert r.Some?;
  }

  lemma {:induction false} IntBack(n: int)
    requires IsInt64(n)
    ensures ParseInt64(ShowInt(n)) == Val(n)
  {
    var m := if n < 0 then -n else n;
    Decimal.ShowRoundTrip(m);
    if n < 0 {
      assert ShowInt(n)[1..] == Decimal.Show(m);
    }
  }

  /** The text of a time is plain: digits and a few ASCII signs. */
  lemma {:induction false} TimeTextPlain(f: Time.Fields)
    requires Time.IsFields(f)
    ensures IsPlainText(Time.Text(f))
  {
    assert IsPlainText(Time.DateText(f));
    assert IsPlainText(Time.ClockText(f));
    assert IsPlainText(Time.FracText(f));
    assert IsPlainText(Time.ZoneText(f.zone));
  }

  lemma {:induction false} TimeBack(e: Env, t: string, existing: Option<Value>)
    requires Time.NormaliseTime(t) == Time.Normal(t) && Decode.Settled(existing, STime)
    ensures WfChars(TextChars(t)) && Bind(e, Str(Meaning(TextChars(t)), Plain(TextChars(t))), STime, existing) == Val(VTime(t))
  {
    hide Time.NormaliseTime, Time.Text, Time.IsFields, TextChars, Meaning, Plain, IsPlainText;
    TextMeaning(t);
    TimeIsMatched(t);
    Time.MatchFields(t);
    TimeTextPlain(Time.Match(t).value);
    PlainTextChars(t);
  }

  lemma {:induction false} TimeIsMatched(t: string)
    requires Time.NormaliseTime(t).Normal?
    ensures Time.Match(t).Some?
  {
  }

  /** Nothing there yet, or the zero value. */
  predicate IsFresh(existing: Option<Value>, schema: Schema) {
    existing == None || existing == Some(Zero(schema))
  }

  lemma {:induction false} ValueBack(e: Env, v: Value, schema: Schema, existing: Option<Value>)
    requires Lawful(e) && Fits(v, schema) && Encodable(e, v) && DistinctNames(schema) && IsFresh(existing, schema)
    ensures Wf(CstOf(e, v)) && Bind(e, Tree(CstOf(e, v)), schema, existing) == Val(v)
    decreases v, 1
  {
    hide Bind, Tree, CstOf, Fits, DistinctNames, Canonical, Zero, Wf;
    CstWf(e, v);
    match schema
    case SList(of) => ListBack(e, v, of, existing);
    case SStruct(fields) => StructBack(e, v, fields, existing);
    case _ => ScalarBack(e, v, schema, existing);
  }

  lemma {:induction false} ScalarBack(e: Env, v: Value, schema: Schema, existing: Option<Value>)
    requires Lawful(e) && Fits(v, schema) && Encodable(e, v) && IsFresh(existing, schema) && !schema.SList? && !schema.SStruct?
    requires Wf(CstOf(e, v))
    ensures Bind(e, Tree(CstOf(e, v)), schema, existing) == Val(v)
  {
    hide TextChars, Meaning, Plain, NumeralBytes, IntNumeral, ShowInt, ParseInt64, WfNumeral, WfChars, IsNumberText, Zero, Time.NormaliseTime, IsInt64;
    match v
    case VStr(s) => TextMeaning(s);
    case VTime(t) => TimeBack(e, t, existing);
    case VInt(n) =>
      IntWritten(n);
      IntBack(n);
    case VFloat(lit) => assert e.canon(lit) == Some(lit);
    case VBool(b) =>
  }

  lemma {:induction false} ListBack(e: Env, v: Value, of: Schema, existing: Option<Value>)
    requires Lawful(e) && Fits(v, SList(of)) && Encodable(e, v) && DistinctNames(SList(of)) && IsFresh(existing, SList(of))
    requires Wf(CstOf(e, v))
    ensures Bind(e, Tree(CstOf(e, v)), SList(of), existing) == Val(v)
    decreases v, 0
  {
    hide BindItems, TreeItems, ItemsOf, WfItems, Lawful, IsNumberText;
    if v.VList? {
      if v.items == [] {
        NothingBack(e, of);
      } else {
        ItemsBack(e, v.items, of);
      }
    }
  }

  lemma {:induction false} NothingBack(e: Env, of: Schema)
    ensures BindItems(e, [], of, []) == Val([])
  {
  }

  lemma {:induction false} ItemsBack(e: Env, items: seq<Value>, of: Schema)
    requires Lawful(e) && FitItems(items, of) && CanonicalItems(e, items) && !AnyItem(items) && DistinctNames(of)
    ensures WfItems(ItemsOf(e, items)) && BindItems(e, TreeItems(ItemsOf(e, items)), of, []) == Val(items)
    decreases items, 0
  {
    hide Bind, Fits, Canonical, HasUnencodable, Lawful, Wf, Tree, CstOf;
    ItemsWf(e, items);
    if items != [] {
      ValueBack(e, items[0], of, None);
      ItemsBack(e, items[1..], of);
      var nodes := TreeItems(ItemsOf(e, items));
      assert ItemsOf(e, items)[1..] == ItemsOf(e, items[1..]);
      assert nodes[1..] == TreeItems(ItemsOf(e, items[1..]));
      assert items == [items[0]] + items[1..];
    }
  }

  lemma {:induction false} StructBack(e: Env, v: Value, fields: seq<Field>, existing: Option<Value>)
    requires Lawful(e) && Fits(v, SStruct(fields)) && Encodable(e, v) && DistinctNames(SStruct(fields)) && IsFresh(existing, SStruct(fields))
    requires Wf(CstOf(e, v))
    ensures Bind(e, Tree(CstOf(e, v)), SStruct(fields), existing) == Val(v)
    decreases v, 0
  {
    hide BindMembers, TreePairs, PairsOf, WfPairs, Lawful, IsNumberText, ZeroSlots, FitSlots, DistinctFields, CanonicalSlots, AnySlot;
    assert Start(existing, SStruct(fields)) == VObj(ZeroSlots(fields));
    SlotsFromZero(e, v.slots, fields);
    if v.slots == [] {
      NoPairs(e);
    }
  }

  lemma {:induction false} SlotsFromZero(e: Env, slots: seq<Slot>, fields: seq<Field>)
    requires Lawful(e) && FitSlots(slots, fields) && DistinctNames(SStruct(fields))
    requires CanonicalSlots(e, slots) && !AnySlot(slots)
    ensures WfPairs(PairsOf(e, slots)) && BindMembers(e, TreePairs(PairsOf(e, slots)), fields, ZeroSlots(fields)) == Val(slots)
    decreases slots, 1
  {
    hide BindMembers, TreePairs, PairsOf, WfPairs, Lawful, IsNumberText, ZeroSlots, FitSlots, DistinctFields, CanonicalSlots, AnySlot;
    FitSlotsAt(slots, fields);
    FitSlotsAt(ZeroSlots(fields), fields);
    assert slots[0..] == slots;
    SlotsBack(e, slots, fields, 0);
    assert slots[..0] + ZeroSlots(fields)[0..] == ZeroSlots(fields);
  }

  lemma {:induction false} NoPairs(e: Env)
    requires Lawful(e)
    ensures PairsOf(e, []) == [] && TreePairs([]) == []
  {
  }

  /** The slots from `k` on bind one by one into their zero values, after those before `k`. */
  lemma {:induction false} SlotsBack(e: Env, slots: seq<Slot>, fields: seq<Field>, k: nat)
    requires Lawful(e) && FitSlots(slots, fields) && k <= |slots| && |slots| == |fields| == |ZeroSlots(fields)|
    requires forall i, j | 0 <= i < j < |fields| :: fields[i].name != fields[j].name
    requires DistinctFields(fields)
    requires CanonicalSlots(e, slots[k..]) && !AnySlot(slots[k..])
    ensures WfPairs(PairsOf(e, slots[k..])) && FitSlots(Partly(slots, fields, k), fields)
    ensures BindMembers(e, TreePairs(PairsOf(e, slots[k..])), fields, Partly(slots, fields, k)) == Val(slots)
    decreases slots[k..], 0
  {
    hide Bind, Fits, FitSlots, Canonical, HasUnencodable, Lawful, Wf, Tree, CstOf, DistinctFields, ZeroSlots, Meaning, TextChars, Zero, Partly, Lookup, ExactField;
    var into := Partly(slots, fields, k);
    PartlyFits(slots, fields, k);
    FitSlotsAt(slots, fields);
    PairsWf(e, slots[k..]);
    if k < |slots| {
      var rest := slots[k..][1..];
      assert rest == slots[k + 1..];
      DistinctFieldsAt(fields, k);
      ValueBack(e, slots[k].value, fields[k].schema, Some(Zero(fields[k].schema)));
      TextMeaning(slots[k].name);
      FindsField(fields, k);
      SlotsBack(e, slots, fields, k + 1);
      SlotBack(e, slots[k..], fields, into, k);
    }
  }

  /** The first `k` slots as they will be, the others still zero. */
  function Partly(slots: seq<Slot>, fields: seq<Field>, k: nat): seq<Slot>
    requires k <= |slots| == |fields| == |ZeroSlots(fields)|
  {
    slots[..k] + ZeroSlots(fields)[k..]
  }

  lemma {:induction false} PartlyFits(slots: seq<Slot>, fields: seq<Field>, k: nat)
    requires FitSlots(slots, fields) && k <= |slots| == |fields| == |ZeroSlots(fields)|
    ensures FitSlots(Partly(slots, fields, k), fields) && |Partly(slots, fields, k)| == |fields|
    ensures k == |slots| ==> Partly(slots, fields, k) == slots && slots[k..] == []
    ensures k < |slots| ==>
      && Partly(slots, fields, k)[k].value == Zero(fields[k].schema)
      && Update(Partly(slots, fields, k), k, slots[k].value) == Partly(slots, fields, k + 1)
  {
    hide FitSlots, Fits, ZeroSlots, Zero;
    var zeros := ZeroSlots(fields);
    FitSlotsAt(slots, fields);
    FitSlotsAt(zeros, fields);
    FitSlotsAt(Partly(slots, fields, k), fields);
    if k < |slots| {
      ZeroSlotsAt(fields, k);
    }
  }

  lemma {:induction false} ZeroSlotsAt(fields: seq<Field>, k: nat)
    requires k < |fields| && |ZeroSlots(fields)| == |fields|
    ensures ZeroSlots(fields)[k] == Slot(fields[k].name, Zero(fields[k].schema))
  {
    if k > 0 {
      ZeroSlotsAt(fields[1..], k - 1);
    }
  }

  lemma {:induction false} SlotBack(e: Env, slots: seq<Slot>, fields: seq<Field>, into: seq<Slot>, k: nat)
    requires Lawful(e) && slots != [] && CanonicalSlots(e, slots) && !AnySlot(slots) && WfPairs(PairsOf(e, slots))
    requires FitSlots(into, fields) && k < |fields| == |into| && ExactField(fields, slots[0].name) == Some(k)
    requires WfChars(TextChars(slots[0].name)) && Meaning(TextChars(slots[0].name)) == slots[0].name
    requires Wf(CstOf(e, slots[0].value)) && Fits(slots[0].value, fields[k].schema) && Fits(into[k].value, fields[k].schema)
    requires Bind(e, Tree(CstOf(e, slots[0].value)), fields[k].schema, Some(into[k].value)) == Val(slots[0].value)
    ensures FitSlots(Update(into, k, slots[0].value), fields) && WfPairs(PairsOf(e, slots[1..]))
    ensures BindMembers(e, TreePairs(PairsOf(e, slots)), fields, into) ==
            BindMembers(e, TreePairs(PairsOf(e, slots[1..])), fields, Update(into, k, slots[0].value))
  {
    hide Bind, Fits, FitSlots, Canonical, HasUnencodable, Lawful, Wf, Tree, CstOf, Meaning, TextChars, ExactField;
    UpdateFits(into, fields, k, slots[0].value);
    var pairs := PairsOf(e, slots);
    assert pairs[1..] == PairsOf(e, slots[1..]);
    var members := TreePairs(pairs);
    assert members[0] == Member(slots[0].name, Tree(CstOf(e, slots[0].value)));
    assert members[1..] == TreePairs(pairs[1..]);
    assert Lookup(e, fields, members[0].key) == Some(k);
  }

  // --- the retraction ----------------------------------------------------------------------------------

  /** The parser undoes the writer: the text of a value is read as its tree, unless the value is too deep to be read. */
  lemma {:induction false} PrinterUndone(e: Env, v: Value)
    requires Lawful(e) && Encodable(e, v)
    ensures Wf(CstOf(e, v)) && Encode(Stringify(v)) != []
    ensures Parse(Encode(Stringify(v)), false) ==
            if ValueDepth(v) <= 10000 then Ok(Tree(CstOf(e, v)), |Encode(Stringify(v))|) else Fail(false)
  {
    hide Encode, Yield, Tree, CstOf, Wf, Parse, Depth, ValueDepth, Canonical, HasUnencodable, Pieces;
    CstWf(e, v);
    ValueWritten(e, v);
    var c := CstOf(e, v);
    var b := Encode(Stringify(v));
    var item := Item([], c, []);
    assert [] + (Yield(c) + []) == Yield(c);
    YieldNonEmpty(c);
    if Depth(c) <= MAX_DEPTH {
      assert IsDocument(b, item, Tree(c));
      ParseExact(b, Tree(c));
    } else {
      TooDeep(item);
    }
  }

  lemma {:induction false} YieldNonEmpty(c: Cst)
    requires Wf(c)
    ensures Yield(c) != []
  {
    if c.CNum? {
      assert NumeralBytes(c.n) != [];
    }
  }

  /**
   Decoding is a retraction: what is written for a decoded value decodes to that value, whatever body it came from,
   exactly when it is no deeper than the reader's cap.
   */
  lemma {:induction false} DecodeRetraction(e: Env, schema: Schema, body: seq<byte>)
    requires Lawful(e) && DistinctNames(schema)
    requires Decode.Decode(e, schema, body).Val? && !HasUnencodable(Decode.Decode(e, schema, body).v)
    ensures var v := Decode.Decode(e, schema, body).v;
            Decode.Decode(e, schema, Encode(Stringify(v))) == if ValueDepth(v) <= 10000 then Val(v) else Err
  {
    hide Encode, Tree, CstOf, Wf, Parse, ValueDepth, Canonical, HasUnencodable, Pieces, Bind, Fits, Zero, DistinctNames;
    var v := Decode.Decode(e, schema, body).v;
    if body == [] {
      ZeroCanonical(e, schema);
    } else {
      BindCanonical(e, Parse(body, false).v, schema, None);
    }
    PrinterUndone(e, v);
    ValueBack(e, v, schema, None);
  }
}
