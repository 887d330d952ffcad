/** Binding as the program does it, on objects that are assigned in place. */
module BindInPlace {
  import opened Options
  import opened Utf8
  import opened Json
  import JsonGrammar
  import opened JsonReader
  import opened Decode
  import Time

  /** A JavaScript value: a scalar, an array of values, or an object on the heap. */
  datatype HVal = Scalar(x: Value) | Items(items: seq<HVal>) | Ref(o: JsObject)

  /** A decoded object: one value for each of its field names. `repr` is what may be reached from it. */
  class JsObject {
    const names: seq<string>
    var vals: seq<HVal>
    ghost var repr: set<JsObject>

    constructor (names: seq<string>, vals: seq<HVal>, ghost below: set<JsObject>)
      ensures this.names == names && this.vals == vals && repr == {this} + below
    {
      this.names := names;
      this.vals := vals;
      this.repr := {this} + below;
    }
  }

  /** The objects a value holds itself. */
  ghost function Direct(v: HVal): set<JsObject>
  {
    match v
    case Scalar(_) => {}
    case Ref(o) => {o}
    case Items(items) => set i, o | 0 <= i < |items| && o in Direct(items[i]) :: o
  }

  /** Everything that may be reached from a value. */
  ghost function Foot(v: HVal): set<JsObject>
    reads Direct(v)
  {
    Direct(v) + set o, p | o in Direct(v) && p in o.repr :: p
  }

  ghost predicate Apart(vs: seq<HVal>)
    reads set i, o | 0 <= i < |vs| && o in Direct(vs[i]) :: o
  {
    forall i, j | 0 <= i < j < |vs| :: Foot(vs[i]) !! Foot(vs[j])
  }

  /** What is below an object belongs to it, and no two of its fields share anything. */
  ghost predicate Owns(o: JsObject)
    reads o, o.repr
  {
    && o in o.repr
    && (forall i | 0 <= i < |o.vals| :: Direct(o.vals[i]) <= o.repr)
    && (forall i | 0 <= i < |o.vals| :: Foot(o.vals[i]) <= o.repr && o !in Foot(o.vals[i]))
    && Apart(o.vals)
  }

  /** The value on the heap stands for the pure one, and is a tree. */
  ghost predicate Stands(v: HVal, x: Value)
    reads Foot(v)
    decreases x
  {
    match x
    case VList(xs) => v.Items? && |v.items| == |xs| && Apart(v.items) && forall i | 0 <= i < |xs| :: Stands(v.items[i], xs[i])
    case VObj(slots) =>
      v.Ref? && Owns(v.o) && |v.o.vals| == |v.o.names| == |slots| &&
      forall i | 0 <= i < |slots| :: v.o.names[i] == slots[i].name && Stands(v.o.vals[i], slots[i].value)
    case _ => v == Scalar(x)
  }

  // --- what a change elsewhere leaves alone ---------------------------------------------------------------

  ghost function FootAll(vs: seq<HVal>): set<JsObject>
    reads set i, o | 0 <= i < |vs| && o in Direct(vs[i]) :: o
  {
    set i, p | 0 <= i < |vs| && p in Foot(vs[i]) :: p
  }

  /** Values on the heap for a list of pure ones, sharing nothing. */
  ghost predicate StandAll(vs: seq<HVal>, xs: seq<Value>)
    reads FootAll(vs), set i, o | 0 <= i < |vs| && o in Direct(vs[i]) :: o
  {
    |vs| == |xs| && Apart(vs) && forall i | 0 <= i < |vs| :: Stands(vs[i], xs[i])
  }

  lemma {:induction false} AllInFoot(vs: seq<HVal>)
    ensures forall i | 0 <= i < |vs| :: Direct(vs[i]) <= Foot(vs[i]) <= FootAll(vs)
  {
    hide Direct;
  }

  // --- zero values -------------------------------------------------------------------------------------

  function NamesOf(fields: seq<Field>): (r: seq<string>)
    ensures |r| == |fields| && forall k | 0 <= k < |fields| :: r[k] == fields[k].name
  {
    if fields == [] then [] else [fields[0].name] + NamesOf(fields[1..])
  }

  lemma {:induction false} StandOneMore(vs: seq<HVal>, xs: seq<Value>, v: HVal, x: Value)
    requires StandAll(vs, xs) && Stands(v, x) && Foot(v) !! FootAll(vs)
    ensures StandAll(vs + [v], xs + [x]) && FootAll(vs + [v]) == FootAll(vs) + Foot(v)
  {
    hide Stands, Foot;
    var more := vs + [v];
    assert forall i | 0 <= i < |vs| :: more[i] == vs[i] && Foot(vs[i]) <= FootAll(vs);
    forall p | p in FootAll(vs) + Foot(v) ensures p in FootAll(more) {
      if p in FootAll(vs) {
        var i :| 0 <= i < |vs| && p in Foot(vs[i]);
        assert p in Foot(more[i]);
      } else {
        assert p in Foot(more[|vs|]);
      }
    }
  }

  function Values(slots: seq<Slot>): (r: seq<Value>)
    ensures |r| == |slots| && forall k | 0 <= k < |slots| :: r[k] == slots[k].value
  {
    if slots == [] then [] else [slots[0].value] + Values(slots[1..])
  }

  /** A new object around values that stand for the slots. */
  method Wrap(names: seq<string>, vals: seq<HVal>, ghost slots: seq<Slot>) returns (o: JsObject)
    requires |names| == |slots| && forall k | 0 <= k < |slots| :: names[k] == slots[k].name
    requires StandAll(vals, Values(slots))
    ensures fresh(o) && Stands(Ref(o), VObj(slots)) && Foot(Ref(o)) == {o} + old(FootAll(vals))
  {
    ghost var below := FootAll(vals);
    AllInFoot(vals);
    assert allocated(below);
    label Before:
    o := new JsObject(names, vals, below);
    forall i | 0 <= i < |vals| ensures Stands(vals[i], slots[i].value) && Foot(vals[i]) == old@Before(Foot(vals[i])) {
    }
    assert o !in below;
    forall i | 0 <= i < |vals| ensures Foot(vals[i]) <= o.repr && o !in Foot(vals[i]) {
      assert old@Before(Foot(vals[i])) <= below;
    }
    assert Owns(o);
  }

  method MakeZero(schema: Schema) returns (v: HVal)
    ensures Stands(v, Zero(schema)) && fresh(Foot(v))
    decreases schema, 1
  {
    match schema
    case SStruct(fields) =>
      var o := MakeZeroObject(fields);
      v := Ref(o);
    case _ =>
      v := Scalar(Zero(schema));
  }

  /** One more zero value beside those there are. */
  method AppendZero(schema: Schema, vals: seq<HVal>, ghost xs: seq<Value>) returns (more: seq<HVal>)
    requires StandAll(vals, xs)
    ensures StandAll(more, xs + [Zero(schema)]) && |more| == |vals| + 1
    ensures fresh(FootAll(more) - old(FootAll(vals)))
    decreases schema, 2
  {
    hide Stands, Zero, Foot;
    ghost var below := FootAll(vals);
    AllInFoot(vals);
    assert allocated(below);
    var val := MakeZero(schema);
    forall i | 0 <= i < |vals| ensures Stands(vals[i], xs[i]) && Foot(vals[i]) == old(Foot(vals[i])) {
    }
    assert FootAll(vals) == below;
    StandOneMore(vals, xs, val, Zero(schema));
    more := vals + [val];
  }

  method MakeZeroObject(fields: seq<Field>) returns (o: JsObject)
    ensures Stands(Ref(o), VObj(ZeroSlots(fields))) && fresh(Foot(Ref(o)))
    decreases fields, 0
  {
    hide Stands, StandAll, Zero, ZeroSlots, Foot, FootAll;
    var vals: seq<HVal> := [];
    ghost var xs: seq<Value> := [];
    NoneStand();
    for k := 0 to |fields|
      invariant StandAll(vals, xs) && fresh(FootAll(vals))
      invariant |xs| == k && forall j | 0 <= j < k :: xs[j] == Zero(fields[j].schema)
    {
      vals := AppendZero(fields[k].schema, vals, xs);
      xs := xs + [Zero(fields[k].schema)];
    }
    ghost var slots := ZeroSlots(fields);
    forall k | 0 <= k < |fields| ensures |slots| == |fields| && slots[k] == Slot(fields[k].name, Zero(fields[k].schema)) {
      ZeroSlotAt(fields, k);
    }
    ZeroSlotsLength(fields);
    assert Values(slots) == xs;
    o := Wrap(NamesOf(fields), vals, slots);
  }

  lemma {:induction false} ZeroSlotsLength(fields: seq<Field>)
    ensures |ZeroSlots(fields)| == |fields|
  {
    if fields != [] { ZeroSlotAt(fields, 0); }
  }

  lemma {:induction false} NoneStand()
    ensures StandAll([], []) && FootAll([]) == {}
  {
  }

  // --- binding -------------------------------------------------------------------------------------------

  ghost function Below(existing: Option<HVal>): set<JsObject>
    reads if existing.Some? then Direct(existing.value) else {}
  {
    if existing.Some? then Foot(existing.value) else {}
  }

  ghost predicate StandsMaybe(existing: Option<HVal>, was: Option<Value>)
    reads Below(existing)
  {
    existing.Some? == was.Some? && (existing.Some? ==> Stands(existing.value, was.value))
  }

  /**
   `bind`, on the heap: what an earlier repeat of the member produced is changed in place, nothing else is, and what
   comes back stands for what the pure binding makes of it.
   */
  method BindInto(e: Env, node: Node, schema: Schema, existing: Option<HVal>, ghost was: Option<Value>) returns (r: Out<HVal>)
    requires Settled(was, schema) && StandsMaybe(existing, was)
    modifies Below(existing)
    ensures r.Val? <==> Bind(e, node, schema, was).Val?
    ensures r.Val? ==> Stands(r.v, Bind(e, node, schema, was).v) && fresh(Foot(r.v) - old(Below(existing)))
    decreases node, 1
  {
    hide Fits, Foot, Stands;
    if node.Null? {
      if schema.SList? {
        NullStands();
        return Val(Scalar(VNull));
      }
      r := StartOn(schema, existing, was);
      return;
    }
    match schema
    case SList(of) =>
      if !node.Arr? { return Err; }
      r := BindArray(e, node, of, existing, was);
    case SStruct(fields) =>
      if !node.Obj? { return Err; }
      r := BindStruct(e, node, fields, existing, was);
    case _ =>
      var scalar := BindScalar(e, node, schema, was);
      if scalar.Err? { return Err; }
      ScalarStands(scalar.v, schema);
      r := Val(Scalar(scalar.v));
  }

  /** The cases without parts: the node's kind must fit, whatever was there before. */
  method BindScalar(e: Env, node: Node, schema: Schema, ghost was: Option<Value>) returns (r: Out<Value>)
    requires !node.Null? && !schema.SList? && !schema.SStruct? && Settled(was, schema)
    ensures r == Bind(e, node, schema, was)
    ensures r.Val? ==> Fits(r.v, schema)
  {
    match schema
    case SString =>
      if !node.Str? { return Err; }
      return Val(VStr(node.v));
    case SBool =>
      if !node.Bool? { return Err; }
      return Val(VBool(node.b));
    case SInt =>
      if !node.Num? { return Err; }
      var n := ParseInt64(node.raw);
      return if n.Val? then Val(VInt(n.v)) else Err;
    case SFloat =>
      if !node.Num? { return Err; }
      var lit := e.canon(node.raw);
      return if lit.Some? then Val(VFloat(lit.value)) else Err;
    case STime =>
      if !node.Str? { return Err; }
      if !node.plain { return Err; }
      return TimeValue(Time.NormaliseTime(node.v));
  }

  lemma {:induction false} NullStands()
    ensures Stands(Scalar(VNull), VNull) && Foot(Scalar(VNull)) == {}
  {
  }

  lemma {:induction false} ScalarStands(x: Value, schema: Schema)
    requires !schema.SList? && !schema.SStruct? && Fits(x, schema)
    ensures Stands(Scalar(x), x) && Foot(Scalar(x)) == {}
  {
  }

  method BindArray(e: Env, node: Node, of: Schema, existing: Option<HVal>, ghost was: Option<Value>) returns (r: Out<HVal>)
    requires node.Arr? && Settled(was, SList(of)) && StandsMaybe(existing, was)
    modifies Below(existing)
    ensures r.Val? <==> Bind(e, node, SList(of), was).Val?
    ensures r.Val? ==> Stands(r.v, Bind(e, node, SList(of), was).v) && fresh(Foot(r.v) - old(Below(existing)))
    decreases node, 0
  {
    hide BindItems;
    var before := if existing.Some? && existing.value.Items? then existing.value.items else [];
    ghost var xs := if was.Some? && was.value.VList? then was.value.items else [];
    EarlierItems(existing, was, of);
    var items := BindElements(e, node.items, of, before, xs);
    if items.Err? { return Err; }
    FootOfItems(items.v);
    r := Val(Items(items.v));
  }

  lemma {:induction false} EarlierItems(existing: Option<HVal>, was: Option<Value>, of: Schema)
    requires Settled(was, SList(of)) && StandsMaybe(existing, was)
    ensures var before := if existing.Some? && existing.value.Items? then existing.value.items else [];
            var xs := if was.Some? && was.value.VList? then was.value.items else [];
            StandAll(before, xs) && FitItems(xs, of) && FootAll(before) <= Below(existing)
  {
    if existing.Some? && existing.value.Items? {
      FootOfItems(existing.value.items);
    }
  }

  lemma {:induction false} FootOfItems(items: seq<HVal>)
    ensures Foot(Items(items)) == FootAll(items)
  {
    var v := Items(items);
    forall p | p in Foot(v) ensures p in FootAll(items) {
      if p in Direct(v) {
        var i :| 0 <= i < |items| && p in Direct(items[i]);
        assert p in Foot(items[i]);
      } else {
        var o :| o in Direct(v) && p in o.repr;
        var i :| 0 <= i < |items| && o in Direct(items[i]);
        assert p in Foot(items[i]);
      }
    }
    forall p | p in FootAll(items) ensures p in Foot(v) {
      var i :| 0 <= i < |items| && p in Foot(items[i]);
      if p in Direct(items[i]) {
        assert p in Direct(v);
      } else {
        var o :| o in Direct(items[i]) && p in o.repr;
        assert o in Direct(v);
      }
    }
  }

  method BindStruct(e: Env, node: Node, fields: seq<Field>, existing: Option<HVal>, ghost was: Option<Value>) returns (r: Out<HVal>)
    requires node.Obj? && Settled(was, SStruct(fields)) && StandsMaybe(existing, was)
    modifies Below(existing)
    ensures r.Val? <==> Bind(e, node, SStruct(fields), was).Val?
    ensures r.Val? ==> Stands(r.v, Bind(e, node, SStruct(fields), was).v) && fresh(Foot(r.v) - old(Below(existing)))
    decreases node, 0
  {
    hide BindMembers, Stands, Foot, StandsMaybe, Below;
    var into := StartOn(SStruct(fields), existing, was);
    ghost var slots := Start(was, SStruct(fields)).slots;
    IsObject(into.v, slots);
    var ok := BindFields(e, node.members, fields, into.v.o, slots);
    if ok { IsObject(into.v, BindMembers(e, node.members, fields, slots).v); }
    r := if ok then into else Err;
  }

  lemma {:induction false} IsObject(v: HVal, slots: seq<Slot>)
    requires Stands(v, VObj(slots))
    ensures v.Ref? && v.o in v.o.repr && Foot(v) == v.o.repr
  {
  }

  /** `existing ?? zero(schema)` */
  method StartOn(schema: Schema, existing: Option<HVal>, ghost was: Option<Value>) returns (r: Out<HVal>)
    requires Settled(was, schema) && StandsMaybe(existing, was)
    ensures r.Val? && Stands(r.v, Start(was, schema)) && fresh(Foot(r.v) - old(Below(existing)))
  {
    if existing.Some? && existing.value != Scalar(VNull) {
      r := Val(existing.value);
    } else {
      var zero := MakeZero(schema);
      r := Val(zero);
    }
  }

  method BindFields(e: Env, members: seq<Member>, fields: seq<Field>, o: JsObject, ghost slots: seq<Slot>) returns (ok: bool)
    requires FitSlots(slots, fields) && Stands(Ref(o), VObj(slots))
    modifies o.repr
    ensures ok <==> BindMembers(e, members, fields, slots).Val?
    ensures ok ==> Stands(Ref(o), VObj(BindMembers(e, members, fields, slots).v)) && fresh(o.repr - old(o.repr))
    decreases members, 0
  {
    hide Stands, FitSlots, Bind, Lookup;
    ghost var now := slots;
    assert members[0..] == members;
    OwnsItself(o, slots);
    for i := 0 to |members|
      invariant FitSlots(now, fields) && Stands(Ref(o), VObj(now)) && o in o.repr && fresh(o.repr - old(o.repr))
      invariant BindMembers(e, members[i..], fields, now) == BindMembers(e, members, fields, slots)
    {
      assert members[i..][0] == members[i] && members[i..][1..] == members[i + 1..];
      var name := Lookup(e, fields, members[i].key);
      if name.Some? {
        FitSlotsAt(now, fields);
        var done := BindField(e, members[i].value, fields, name.value, o, now);
        if !done { return false; }
        ghost var v := Bind(e, members[i].value, fields[name.value].schema, Some(now[name.value].value)).v;
        UpdateFits(now, fields, name.value, v);
        now := Update(now, name.value, v);
        OwnsItself(o, now);
      }
    }
    ok := true;
  }

  lemma {:induction false} OwnsItself(o: JsObject, slots: seq<Slot>)
    requires Stands(Ref(o), VObj(slots))
    ensures o in o.repr && |o.vals| == |slots|
  {
  }

  /** All but the `k`-th field are as they should be, and the object owns them. */
  ghost predicate OthersStand(o: JsObject, slots: seq<Slot>, k: int)
    reads o, o.repr
  {
    && o in o.repr && |o.vals| == |o.names| == |slots|
    && (forall i | 0 <= i < |slots| :: o.names[i] == slots[i].name)
    && (forall i | 0 <= i < |slots| && i != k :: Direct(o.vals[i]) <= o.repr)
    && (forall i | 0 <= i < |slots| && i != k :: Foot(o.vals[i]) <= o.repr && o !in Foot(o.vals[i]) && Stands(o.vals[i], slots[i].value))
    && (forall i, j | 0 <= i < j < |slots| && i != k && j != k :: Foot(o.vals[i]) !! Foot(o.vals[j]))
  }

  /** `into[name] = val` */
  method Assign(o: JsObject, k: nat, val: HVal, ghost slots: seq<Slot>, ghost x: Value)
    requires k < |slots| && OthersStand(o, slots, k) && Stands(val, x) && o !in Foot(val)
    requires forall i | 0 <= i < |slots| && i != k :: Foot(o.vals[i]) !! Foot(val)
    modifies o
    ensures Stands(Ref(o), VObj(Update(slots, k, x))) && o.repr == old(o.repr + Foot(val))
  {
    hide Stands, Direct;
    ghost var was := o.repr;
    ghost var foot := Foot(val);
    assert Direct(val) <= foot;
    assert forall i | 0 <= i < |slots| && i != k :: o !in Direct(o.vals[i]);
    o.vals := o.vals[k := val];
    o.repr := o.repr + Foot(val);
    assert Foot(val) == foot && Stands(val, x);
    forall i | 0 <= i < |slots| && i != k
      ensures Stands(o.vals[i], slots[i].value) && Foot(o.vals[i]) == old(Foot(o.vals[i])) && o.vals[i] == old(o.vals[i])
    {
    }
    StandsAgain(o, Update(slots, k, x));
  }

  lemma {:induction false} StandsAgain(o: JsObject, slots: seq<Slot>)
    requires o in o.repr && |o.vals| == |o.names| == |slots|
    requires forall i | 0 <= i < |slots| :: o.names[i] == slots[i].name && Stands(o.vals[i], slots[i].value)
    requires forall i | 0 <= i < |slots| :: Foot(o.vals[i]) <= o.repr && o !in Foot(o.vals[i])
    requires forall i, j | 0 <= i < j < |slots| :: Foot(o.vals[i]) !! Foot(o.vals[j])
    ensures Stands(Ref(o), VObj(slots))
  {
    assert forall i | 0 <= i < |slots| :: Direct(o.vals[i]) <= Foot(o.vals[i]);
  }

  /** `into[name] = bind(value, field, into[name])` */
  method BindField(e: Env, value: Node, fields: seq<Field>, k: nat, o: JsObject, ghost slots: seq<Slot>) returns (ok: bool)
    requires |slots| == |fields| && k < |fields| && Fits(slots[k].value, fields[k].schema) && Stands(Ref(o), VObj(slots))
    modifies o.repr
    ensures var v := Bind(e, value, fields[k].schema, Some(slots[k].value));
            (ok <==> v.Val?) && (ok ==> Stands(Ref(o), VObj(Update(slots, k, v.v))) && fresh(o.repr - old(o.repr)))
    decreases value, 2
  {
    hide Fits, Bind, Foot, Direct;
    var child := o.vals[k];
    assert allocated(o.repr);
    Opened(o, slots);
    label Before:
    var r := BindInto(e, value, fields[k].schema, Some(child), Some(slots[k].value));
    if r.Err? { return false; }
    forall i | 0 <= i < |slots| && i != k
      ensures Stands(o.vals[i], slots[i].value) && Foot(o.vals[i]) == old@Before(Foot(o.vals[i]))
    {
    }
    Assign(o, k, r.v, slots, Bind(e, value, fields[k].schema, Some(slots[k].value)).v);
    ok := true;
  }

  /** What it is for an object to stand for slots, field by field. */
  lemma {:induction false} Opened(o: JsObject, slots: seq<Slot>)
    requires Stands(Ref(o), VObj(slots))
    ensures o in o.repr && |o.vals| == |o.names| == |slots|
    ensures forall i | 0 <= i < |slots| :: o.names[i] == slots[i].name && Stands(o.vals[i], slots[i].value)
    ensures forall i | 0 <= i < |slots| :: Direct(o.vals[i]) <= Foot(o.vals[i]) <= o.repr && o !in Foot(o.vals[i])
    ensures forall i, j | 0 <= i < j < |slots| :: Foot(o.vals[i]) !! Foot(o.vals[j])
  {
  }

  // --- lists ---------------------------------------------------------------------------------------------------

  /** An item that binds, in front of the rest. */
  function After(ys: seq<Value>, r: Out<seq<Value>>): Out<seq<Value>> {
    if r.Err? then Err else Val(ys + r.v)
  }

  /** The items so far, and the earlier ones that are still to come; they share nothing. */
  ghost predicate Between(out: seq<HVal>, ys: seq<Value>, rest: seq<HVal>, zs: seq<Value>)
    reads FootAll(out), FootAll(rest), set i, o | 0 <= i < |out| && o in Direct(out[i]) :: o,
          set i, o | 0 <= i < |rest| && o in Direct(rest[i]) :: o
  {
    StandAll(out, ys) && StandAll(rest, zs) && FootAll(out) !! FootAll(rest)
  }

  function First(rest: seq<HVal>): Option<HVal> {
    if rest == [] then None else Some(rest[0])
  }

  function Others(rest: seq<HVal>): seq<HVal> {
    if rest == [] then [] else rest[1..]
  }

  /** One item more; `left` holds the objects of the earlier items still to come, `known` those and the ones of the items so far; `made` are new. */
  method BindElement(e: Env, node: Node, of: Schema, out: seq<HVal>, ghost ys: seq<Value>, rest: seq<HVal>, ghost zs: seq<Value>,
                     ghost left: set<JsObject>, ghost known: set<JsObject>)
      returns (r: Out<seq<HVal>>, ghost made: set<JsObject>)
    requires FitItems(zs, of) && Between(out, ys, rest, zs)
    requires FootAll(rest) <= left <= known && FootAll(out) <= known
    modifies Below(First(rest))
    ensures r.Val? <==> Bind(e, node, of, HeadOf(zs)).Val?
    ensures r.Val? ==> Between(r.v, ys + [Bind(e, node, of, HeadOf(zs)).v], Others(rest), TailOf(zs))
    ensures fresh(made) && (r.Val? ==> FootAll(r.v) <= known + made && FootAll(Others(rest)) <= left)
    decreases node, 2
  {
    hide Bind, Foot, Direct, Stands, Fits;
    ghost var tail := Others(rest);
    AllInFoot(out);
    AllInFoot(rest);
    assert allocated(FootAll(out)) && allocated(FootAll(rest));
    SplitOff(rest, zs);
    made := {};
    label Before:
    var v := BindInto(e, node, of, First(rest), HeadOf(zs));
    if v.Err? { return Err, {}; }
    forall i | 0 <= i < |out| ensures Stands(out[i], ys[i]) && Foot(out[i]) == old@Before(Foot(out[i])) {
    }
    forall i | 0 <= i < |tail| ensures Stands(tail[i], TailOf(zs)[i]) && Foot(tail[i]) == old@Before(Foot(tail[i])) {
    }
    assert FootAll(out) == old@Before(FootAll(out)) && FootAll(tail) == old@Before(FootAll(tail));
    StandOneMore(out, ys, v.v, Bind(e, node, of, HeadOf(zs)).v);
    made := Foot(v.v) - known;
    r := Val(out + [v.v]);
  }

  lemma {:induction false} SplitOff(rest: seq<HVal>, zs: seq<Value>)
    requires StandAll(rest, zs)
    ensures StandsMaybe(First(rest), HeadOf(zs)) && StandAll(Others(rest), TailOf(zs))
    ensures Below(First(rest)) !! FootAll(Others(rest)) && FootAll(rest) == Below(First(rest)) + FootAll(Others(rest))
  {
    hide Stands, Foot;
    if rest != [] {
      var tail := rest[1..];
      assert forall i | 0 <= i < |tail| :: tail[i] == rest[i + 1];
      forall p | p in FootAll(tail) ensures p in FootAll(rest) {
        var i :| 0 <= i < |tail| && p in Foot(tail[i]);
        assert p in Foot(rest[i + 1]);
      }
      forall p | p in FootAll(rest) ensures p in Foot(rest[0]) + FootAll(tail) {
        var i :| 0 <= i < |rest| && p in Foot(rest[i]);
        if i > 0 { assert p in Foot(tail[i - 1]); }
      }
      forall p | p in Foot(rest[0]) ensures p in FootAll(rest) && p !in FootAll(tail) {
      }
    }
  }

  method BindElements(e: Env, nodes: seq<Node>, of: Schema, before: seq<HVal>, ghost xs: seq<Value>) returns (r: Out<seq<HVal>>)
    requires FitItems(xs, of) && StandAll(before, xs)
    modifies FootAll(before)
    ensures r.Val? <==> BindItems(e, nodes, of, xs).Val?
    ensures r.Val? ==> StandAll(r.v, BindItems(e, nodes, of, xs).v) && fresh(FootAll(r.v) - old(FootAll(before)))
    decreases nodes, 0
  {
    hide StandAll, FootAll, Bind, BindItems, FitItems, Between, After, Below, First, Others, HeadOf, TailOf;
    var out: seq<HVal> := [];
    ghost var ys: seq<Value> := [];
    ghost var zs := xs;
    var rest := before;
    ghost var start := FootAll(before);
    ghost var news: set<JsObject> := {};
    NothingBefore(before, xs);
    AfterNothing(e, nodes, of, xs);
    for k := 0 to |nodes|
      invariant FitItems(zs, of) && Between(out, ys, rest, zs)
      invariant FootAll(rest) <= start && FootAll(out) <= start + news
      invariant fresh(news)
      invariant After(ys, BindItems(e, nodes[k..], of, zs)) == BindItems(e, nodes, of, xs)
    {
      FirstBelow(out, ys, rest, zs);
      AfterOne(e, nodes, k, of, ys, zs);
      var more, made := BindElement(e, nodes[k], of, out, ys, rest, zs, start, start + news);
      if more.Err? { return Err; }
      out := more.v;
      news := news + made;
      ys := ys + [Bind(e, nodes[k], of, HeadOf(zs)).v];
      rest := Others(rest);
      zs := TailOf(zs);
    }
    AfterAll(e, nodes, of, ys, zs);
    OutStands(out, ys, rest, zs);
    r := Val(out);
  }

  lemma {:induction false} NothingBefore(before: seq<HVal>, xs: seq<Value>)
    requires StandAll(before, xs)
    ensures Between([], [], before, xs) && FootAll([]) == {}
  {
    NoneStand();
  }

  lemma {:induction false} FirstBelow(out: seq<HVal>, ys: seq<Value>, rest: seq<HVal>, zs: seq<Value>)
    requires Between(out, ys, rest, zs)
    ensures Below(First(rest)) <= FootAll(rest)
  {
    SplitOff(rest, zs);
  }

  lemma {:induction false} OutStands(out: seq<HVal>, ys: seq<Value>, rest: seq<HVal>, zs: seq<Value>)
    requires Between(out, ys, rest, zs)
    ensures StandAll(out, ys)
  {
  }

  lemma {:induction false} AfterNothing(e: Env, nodes: seq<Node>, of: Schema, zs: seq<Value>)
    requires FitItems(zs, of)
    ensures After([], BindItems(e, nodes[0..], of, zs)) == BindItems(e, nodes, of, zs)
  {
    assert nodes[0..] == nodes;
    var r := BindItems(e, nodes, of, zs);
    if r.Val? { assert [] + r.v == r.v; }
  }

  /** The first of the items left binds into the first of the earlier ones, and then the others into theirs. */
  lemma {:induction false} AfterOne(e: Env, nodes: seq<Node>, k: nat, of: Schema, ys: seq<Value>, zs: seq<Value>)
    requires k < |nodes| && FitItems(zs, of)
    ensures Settled(HeadOf(zs), of) && FitItems(TailOf(zs), of)
    ensures var v := Bind(e, nodes[k], of, HeadOf(zs));
            After(ys, BindItems(e, nodes[k..], of, zs)) ==
            if v.Err? then Err else After(ys + [v.v], BindItems(e, nodes[k + 1..], of, TailOf(zs)))
  {
    hide Bind, Fits;
    assert nodes[k..][0] == nodes[k] && nodes[k..][1..] == nodes[k + 1..];
    var v := Bind(e, nodes[k], of, HeadOf(zs));
    var r := BindItems(e, nodes[k + 1..], of, TailOf(zs));
    if v.Val? && r.Val? {
      assert ys + ([v.v] + r.v) == ys + [v.v] + r.v;
    }
  }

  lemma {:induction false} AfterAll(e: Env, nodes: seq<Node>, of: Schema, ys: seq<Value>, zs: seq<Value>)
    requires FitItems(zs, of)
    ensures After(ys, BindItems(e, nodes[|nodes|..], of, zs)) == Val(ys)
  {
    assert nodes[|nodes|..] == [] && ys + [] == ys;
  }

  // --- decode -------------------------------------------------------------------------------------------------------

  /** A body read and bound, on new objects only. */
  method DecodeInPlace(e: Env, schema: Schema, body: seq<byte>) returns (r: Out<HVal>)
    ensures r.Val? <==> Decode.Decode(e, schema, body).Val?
    ensures r.Val? ==> Stands(r.v, Decode.Decode(e, schema, body).v) && fresh(Foot(r.v))
  {
    hide Stands, Foot, Bind, Parse;
    if body == [] {
      var zero := MakeZero(schema);
      return Val(zero);
    }
    var node := ParseJson(body);
    if node.Fail? { return Err; }
    r := BindInto(e, node.v, schema, None, None);
  }

  /** What the first value of a request body comes to: bound, ended before it (blank, or cut short), or refused. */
  datatype FirstRead = Got(v: HVal) | Ended(blank: bool) | Unreadable

  method DecodeFirstInPlace(e: Env, schema: Schema, body: seq<byte>) returns (r: FirstRead)
    ensures r.Got? <==> DecodeFirst(e, schema, body).Decoded?
    ensures r.Got? ==> Stands(r.v, DecodeFirst(e, schema, body).v) && fresh(Foot(r.v))
    ensures r == Ended(true) <==> DecodeFirst(e, schema, body).NoValue?
    ensures r == Ended(false) <==> DecodeFirst(e, schema, body).CutShort?
  {
    hide Stands, Foot, Bind, Parse;
    var node := ParseFirstJson(body);
    if node.Fail? { return if node.eof then Ended(JsonGrammar.AllWs(body)) else Unreadable; }
    var bound := BindInto(e, node.v, schema, None, None);
    r := if bound.Val? then Got(bound.v) else Unreadable;
  }
}
