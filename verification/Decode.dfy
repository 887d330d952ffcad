/** Typed decoding: a schema, the value a JSON tree binds to, and how repeated members merge into earlier values. */
module Decode {
  import opened Options
  import opened Utf8
  import opened Json
  import opened JsonGrammar
  import Decimal
  import Time

  datatype Schema =
    | SString | SInt | SFloat | SBool | STime
    | SList(of: Schema)
    | SStruct(fields: seq<Field>)

  datatype Field = Field(name: string, schema: Schema)

  /** A JavaScript value as the decoder builds it; a float64 is held as the text the writer gives it. */
  datatype Value =
    | VNull
    | VStr(s: string)
    | VInt(n: int)
    | VFloat(lit: string)
    | VBool(b: bool)
    | VTime(text: string)
    | VUnencodable(source: string)
    | VList(items: seq<Value>)
    | VObj(slots: seq<Slot>)

  datatype Slot = Slot(name: string, value: Value)

  /**
   The two foreign parts: `canon`, a number literal read as a float64 and written back (`None` beyond the range), and
   `fold`, a member name under simple case folding.
   */
  datatype Env = Env(canon: string -> Option<string>, fold: string -> string)

  /** A decoded value, or a DecodeError. */
  datatype Out<+T> = Err | Val(v: T)

  const INT64_MIN: int := -0x8000_0000_0000_0000
  const INT64_MAX: int := 0x7fff_ffff_ffff_ffff

  predicate IsInt64(n: int) {
    INT64_MIN <= n <= INT64_MAX
  }

  // --- shape ---------------------------------------------------------------------------

  /** The value has exactly the shape of the schema: its fields in order, every integer an int64. */
  predicate Fits(v: Value, schema: Schema)
    decreases v, 0
  {
    match schema
    case SString => v.VStr?
    case SInt => v.VInt? && IsInt64(v.n)
    case SFloat => v.VFloat?
    case SBool => v.VBool?
    case STime => v.VTime? || v.VUnencodable?
    case SList(of) => v.VNull? || (v.VList? && FitItems(v.items, of))
    case SStruct(fields) => v.VObj? && FitSlots(v.slots, fields)
  }

  predicate FitItems(items: seq<Value>, of: Schema)
    decreases items, 0
  {
    items == [] || (Fits(items[0], of) && FitItems(items[1..], of))
  }

  predicate FitSlots(slots: seq<Slot>, fields: seq<Field>)
    decreases slots, 0
  {
    |slots| == |fields| &&
    (slots == [] || (slots[0].name == fields[0].name && Fits(slots[0].value, fields[0].schema) && FitSlots(slots[1..], fields[1..])))
  }

  lemma {:induction false} FitSlotsAt(slots: seq<Slot>, fields: seq<Field>)
    ensures FitSlots(slots, fields) <==>
            |slots| == |fields| && forall k | 0 <= k < |slots| :: slots[k].name == fields[k].name && Fits(slots[k].value, fields[k].schema)
  {
    if |slots| == |fields| && slots != [] {
      FitSlotsAt(slots[1..], fields[1..]);
      var rest, tail := slots[1..], fields[1..];
      assert forall k | 0 <= k < |rest| :: rest[k] == slots[k + 1] && tail[k] == fields[k + 1];
      if forall k | 0 <= k < |rest| :: rest[k].name == tail[k].name && Fits(rest[k].value, tail[k].schema) {
        forall k | 0 < k < |slots|
          ensures slots[k].name == fields[k].name && Fits(slots[k].value, fields[k].schema)
        {
          assert rest[k - 1] == slots[k] && tail[k - 1] == fields[k];
        }
      }
    }
  }

  lemma {:induction false} FitItemsAt(items: seq<Value>, of: Schema)
    ensures FitItems(items, of) <==> forall k | 0 <= k < |items| :: Fits(items[k], of)
  {
    if items != [] {
      FitItemsAt(items[1..], of);
      assert forall k | 0 <= k < |items[1..]| :: items[1..][k] == items[k + 1];
      if FitItems(items, of) {
        forall k | 0 < k < |items| ensures Fits(items[k], of) { assert items[1..][k - 1] == items[k]; }
      }
    }
  }

  // --- zero values -----------------------------------------------------------------------

  function Zero(schema: Schema): (v: Value)
    ensures Fits(v, schema)
    decreases schema, 0
  {
    match schema
    case SString => VStr("")
    case SInt => VInt(0)
    case SFloat => VFloat("0")
    case SBool => VBool(false)
    case STime => VTime(Time.ZERO_TIME)
    case SList(_) => VNull
    case SStruct(fields) => VObj(ZeroSlots(fields))
  }

  function ZeroSlots(fields: seq<Field>): (slots: seq<Slot>)
    ensures FitSlots(slots, fields)
    decreases fields, 0
  {
    if fields == [] then [] else [Slot(fields[0].name, Zero(fields[0].schema))] + ZeroSlots(fields[1..])
  }

  lemma {:induction false} ZeroSlotAt(fields: seq<Field>, k: nat)
    requires k < |fields|
    ensures |ZeroSlots(fields)| == |fields| && ZeroSlots(fields)[k] == Slot(fields[k].name, Zero(fields[k].schema))
  {
    if k > 0 { ZeroSlotAt(fields[1..], k - 1); }
  }

  /** Empty text, no number, false, the zero time, null, and fields that are all like that. */
  predicate Blank(v: Value)
    decreases v
  {
    match v
    case VNull => true
    case VStr(s) => s == ""
    case VInt(n) => n == 0
    case VFloat(lit) => lit == "0"
    case VBool(b) => !b
    case VTime(text) => text == "0001-01-01T00:00:00Z"
    case VObj(slots) => forall k | 0 <= k < |slots| :: Blank(slots[k].value)
    case _ => false
  }

  /** The zero value is the one blank value of the schema's shape. */
  lemma {:induction false} ZeroExact(schema: Schema, v: Value)
    requires Fits(v, schema)
    ensures v == Zero(schema) <==> Blank(v)
    decreases schema
  {
    hide ZeroSlots, FitSlots, FitItems;
    if schema.SStruct? {
      var fields, slots := schema.fields, v.slots;
      FitSlotsAt(slots, fields);
      FitSlotsAt(ZeroSlots(fields), fields);
      forall k | 0 <= k < |fields|
        ensures slots[k] == ZeroSlots(fields)[k] <==> Blank(slots[k].value)
      {
        ZeroSlotAt(fields, k);
        ZeroExact(fields[k].schema, slots[k].value);
      }
    }
  }

  // --- scalars ------------------------------------------------------------------------------

  /** `parseInt64` on what the JSON grammar let through. */
  function ParseInt64(raw: string): (r: Out<int>)
    ensures r.Val? ==> IsInt64(r.v)
  {
    var minus := raw != "" && raw[0] == '-';
    var digits := if minus then raw[1..] else raw;
    if digits == "" || !Decimal.AllDigits(digits) then Err
    else
      var n: int := if minus then 0 - Decimal.Value(digits) else Decimal.Value(digits);
      if IsInt64(n) then Val(n) else Err
  }

  function Signed(minus: bool, digits: string): string {
    (if minus then "-" else "") + digits
  }

  /** The text is these digits, with a minus or without, and they spell `n`. */
  predicate Spells(raw: string, n: int, minus: bool, digits: string) {
    && digits != "" && Decimal.AllDigits(digits) && raw == Signed(minus, digits)
    && n == if minus then 0 - Decimal.Value(digits) else Decimal.Value(digits)
  }

  /** Accepted are exactly digits, with a minus or without, that spell an int64; what is returned is the number they spell. */
  lemma {:induction false} ParseInt64Exact(raw: string, n: int)
    ensures ParseInt64(raw) == Val(n) <==> IsInt64(n) && exists minus, digits :: Spells(raw, n, minus, digits)
  {
    if ParseInt64(raw) == Val(n) {
      var minus := raw[0] == '-';
      var digits := if minus then raw[1..] else raw;
      assert Spells(raw, n, minus, digits);
    }
    if exists minus, digits :: Spells(raw, n, minus, digits) {
      var minus, digits :| Spells(raw, n, minus, digits);
      SpelledIsRead(raw, n, minus, digits);
    }
  }

  lemma {:induction false} SpelledIsRead(raw: string, n: int, minus: bool, digits: string)
    requires Spells(raw, n, minus, digits)
    ensures ParseInt64(raw) == if IsInt64(n) then Val(n) else Err
  {
    assert Decimal.IsDigit(digits[0]);
    assert raw == if minus then ['-'] + digits else digits;
    assert minus ==> raw[1..] == digits;
  }

  function TimeValue(r: Time.TimeRead): Out<Value> {
    match r
    case Refused => Err
    case Unencodable(source) => Val(VUnencodable(source))
    case Normal(text) => Val(VTime(text))
  }

  // --- member names ----------------------------------------------------------------------------

  /** The field of exactly this name. */
  function ExactField(fields: seq<Field>, key: string): (r: Option<nat>)
    ensures r.Some? ==> r.value < |fields| && fields[r.value].name == key
    ensures r.None? ==> forall k | 0 <= k < |fields| :: fields[k].name != key
  {
    if fields == [] then None
    else if fields[0].name == key then Some(0)
    else
      match ExactField(fields[1..], key)
      case None => assert forall k | 0 < k < |fields| :: fields[k] == fields[1..][k - 1]; None
      case Some(k) => Some(k + 1)
  }

  /** The last field whose name folds like this: a later entry of a Map replaces an earlier one. */
  function FoldedField(e: Env, fields: seq<Field>, key: string): (r: Option<nat>)
    ensures r.Some? ==> r.value < |fields|
  {
    if fields == [] then None
    else
      var m := |fields| - 1;
      if e.fold(fields[m].name) == e.fold(key) then Some(m) else FoldedField(e, fields[..m], key)
  }

  /** The field a member binds to: the exact name first, then the folded one. */
  function Lookup(e: Env, fields: seq<Field>, key: string): (r: Option<nat>)
    ensures r.Some? ==> r.value < |fields|
  {
    var exact := ExactField(fields, key);
    if exact.Some? then exact else FoldedField(e, fields, key)
  }

  lemma {:induction false} ExactIsFirst(fields: seq<Field>, key: string)
    ensures var r := ExactField(fields, key);
            r.Some? ==> fields[r.value].name == key && forall j | 0 <= j < r.value :: fields[j].name != key
  {
    if fields != [] && fields[0].name != key {
      ExactIsFirst(fields[1..], key);
      assert forall j | 0 < j < |fields| :: fields[j] == fields[1..][j - 1];
    }
  }

  lemma {:induction false} FoldedIsLast(e: Env, fields: seq<Field>, key: string)
    ensures var r := FoldedField(e, fields, key);
            && (r.Some? ==> e.fold(fields[r.value].name) == e.fold(key))
            && forall j | (if r.Some? then r.value else -1) < j < |fields| :: e.fold(fields[j].name) != e.fold(key)
  {
    if fields != [] {
      FoldedIsLast(e, fields[..|fields| - 1], key);
    }
  }

  /** The field of exactly this name comes before all others; without one it is the last whose name folds alike. */
  ghost predicate IsFieldOf(e: Env, fields: seq<Field>, key: string, k: nat) {
    && k < |fields|
    && if exists j | 0 <= j < |fields| :: fields[j].name == key then
         fields[k].name == key && forall j | 0 <= j < k :: fields[j].name != key
       else
         e.fold(fields[k].name) == e.fold(key) && forall j | k < j < |fields| :: e.fold(fields[j].name) != e.fold(key)
  }

  lemma {:induction false} LookupExact(e: Env, fields: seq<Field>, key: string, k: nat)
    ensures Lookup(e, fields, key) == Some(k) <==> IsFieldOf(e, fields, key, k)
  {
    hide ExactField, FoldedField;
    ExactIsFirst(fields, key);
    FoldedIsLast(e, fields, key);
  }

  // --- binding -------------------------------------------------------------------------------------

  predicate Settled(existing: Option<Value>, schema: Schema) {
    existing.Some? ==> Fits(existing.value, schema)
  }

  /** `existing ?? zero(schema)` */
  function Start(existing: Option<Value>, schema: Schema): (v: Value)
    requires Settled(existing, schema)
    ensures Fits(v, schema)
  {
    if existing.Some? && !existing.value.VNull? then existing.value else Zero(schema)
  }

  /** `existing` is what an earlier repeat of the member produced. */
  function Bind(e: Env, node: Node, schema: Schema, existing: Option<Value>): (r: Out<Value>)
    requires Settled(existing, schema)
    ensures r.Val? ==> Fits(r.v, schema)
    decreases node, 0
  {
    if node.Null? then Val(if schema.SList? then VNull else Start(existing, schema))
    else
      match schema
      case SString => if node.Str? then Val(VStr(node.v)) else Err
      case SBool => if node.Bool? then Val(VBool(node.b)) else Err
      case SInt =>
        if !node.Num? then Err
        else
          (match ParseInt64(node.raw)
           case Err => Err
           case Val(n) => Val(VInt(n)))
      case SFloat =>
        if !node.Num? then Err
        else
          (match e.canon(node.raw)
           case None => Err
           case Some(lit) => Val(VFloat(lit)))
      case STime => if node.Str? && node.plain then TimeValue(Time.NormaliseTime(node.v)) else Err
      case SList(of) =>
        if !node.Arr? then Err
        else
          (match BindItems(e, node.items, of, if existing.Some? && existing.value.VList? then existing.value.items else [])
           case Err => Err
           case Val(items) => Val(VList(items)))
      case SStruct(fields) =>
        if !node.Obj? then Err
        else
          (match BindMembers(e, node.members, fields, Start(existing, schema).slots)
           case Err => Err
           case Val(slots) => Val(VObj(slots)))
  }

  function HeadOf(before: seq<Value>): Option<Value> {
    if before == [] then None else Some(before[0])
  }

  function TailOf(before: seq<Value>): seq<Value> {
    if before == [] then [] else before[1..]
  }

  /** An array merges item by item into what was there; what was there beyond its end is dropped. */
  function BindItems(e: Env, items: seq<Node>, of: Schema, before: seq<Value>): (r: Out<seq<Value>>)
    requires FitItems(before, of)
    ensures r.Val? ==> FitItems(r.v, of) && |r.v| == |items|
    decreases items, 0
  {
    if items == [] then Val([])
    else
      match Bind(e, items[0], of, HeadOf(before))
      case Err => Err
      case Val(v) =>
        match BindItems(e, items[1..], of, TailOf(before))
        case Err => Err
        case Val(vs) => Val([v] + vs)
  }

  function Update(slots: seq<Slot>, k: nat, v: Value): (r: seq<Slot>)
    requires k < |slots|
    ensures |r| == |slots|
  {
    slots[k := Slot(slots[k].name, v)]
  }

  lemma {:induction false} UpdateFits(slots: seq<Slot>, fields: seq<Field>, k: nat, v: Value)
    requires FitSlots(slots, fields) && k < |fields| && Fits(v, fields[k].schema)
    ensures FitSlots(Update(slots, k, v), fields)
  {
    FitSlotsAt(slots, fields);
    FitSlotsAt(Update(slots, k, v), fields);
  }

  /** The members in source order: each one known binds into its field, on top of what is there. */
  function BindMembers(e: Env, members: seq<Member>, fields: seq<Field>, into: seq<Slot>): (r: Out<seq<Slot>>)
    requires FitSlots(into, fields)
    ensures r.Val? ==> FitSlots(r.v, fields)
    decreases members, 0
  {
    if members == [] then Val(into)
    else
      match Lookup(e, fields, members[0].key)
      case None => BindMembers(e, members[1..], fields, into)
      case Some(k) =>
        FitSlotsAt(into, fields);
        match Bind(e, members[0].value, fields[k].schema, Some(into[k].value))
        case Err => Err
        case Val(v) =>
          UpdateFits(into, fields, k, v);
          BindMembers(e, members[1..], fields, Update(into, k, v))
  }

  // --- decode and decodeFirstValue --------------------------------------------------------------------

  function Decode(e: Env, schema: Schema, body: seq<byte>): (r: Out<Value>)
    ensures r.Val? ==> Fits(r.v, schema)
  {
    if body == [] then Val(Zero(schema))
    else
      match Parse(body, false)
      case Fail(_) => Err
      case Ok(node, _) => Bind(e, node, schema, None)
  }

  /** What the first value of a request body comes to: the two ends of input keep their own names. */
  datatype First = Decoded(v: Value) | NoValue | CutShort | Refused

  function DecodeFirst(e: Env, schema: Schema, body: seq<byte>): First {
    match Parse(body, true)
    case Fail(eof) => if !eof then Refused else if AllWs(body) then NoValue else CutShort
    case Ok(node, _) =>
      match Bind(e, node, schema, None)
      case Err => Refused
      case Val(v) => Decoded(v)
  }
}
