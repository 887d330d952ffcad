/** The algebra of repeated members, which `bind` merges. */
module DecodeMerge {
  import opened Options
  import opened Utf8
  import opened Json
  import opened JsonSound
  import opened Decode
  import Time

  // --- an object is a left fold of its members --------------------------------------------

  function BindMore(e: Env, r: Out<seq<Slot>>, members: seq<Member>, fields: seq<Field>): Out<seq<Slot>>
    requires r.Val? ==> FitSlots(r.v, fields)
  {
    if r.Err? then Err else BindMembers(e, members, fields, r.v)
  }

  lemma {:induction false} BindAppend(e: Env, a: seq<Member>, b: seq<Member>, fields: seq<Field>, into: seq<Slot>)
    requires FitSlots(into, fields)
    ensures BindMembers(e, a + b, fields, into) == BindMore(e, BindMembers(e, a, fields, into), b, fields)
    decreases |a|
  {
    hide Bind, FitSlots, Lookup;
    if a == [] {
      assert a + b == b;
    } else {
      assert (a + b)[0] == a[0] && (a + b)[1..] == a[1..] + b;
      var k := Lookup(e, fields, a[0].key);
      if k.None? {
        BindAppend(e, a[1..], b, fields, into);
      } else {
        FitSlotsAt(into, fields);
        var v := Bind(e, a[0].value, fields[k.value].schema, Some(into[k.value].value));
        if v.Val? {
          UpdateFits(into, fields, k.value, v.v);
          BindAppend(e, a[1..], b, fields, Update(into, k.value, v.v));
        }
      }
    }
  }

  /** Two lists of members that bind alike may stand for each other anywhere. */
  lemma {:induction false} BindInContext(e: Env, pre: seq<Member>, a: seq<Member>, b: seq<Member>, post: seq<Member>, fields: seq<Field>, into: seq<Slot>)
    requires FitSlots(into, fields)
    requires forall mid | FitSlots(mid, fields) :: BindMembers(e, a, fields, mid) == BindMembers(e, b, fields, mid)
    ensures BindMembers(e, pre + a + post, fields, into) == BindMembers(e, pre + b + post, fields, into)
  {
    hide BindMembers, FitSlots;
    BindAppend(e, pre + a, post, fields, into);
    BindAppend(e, pre + b, post, fields, into);
    BindAppend(e, pre, a, fields, into);
    BindAppend(e, pre, b, fields, into);
  }

  lemma {:induction false} BindOneMember(e: Env, m: Member, fields: seq<Field>, into: seq<Slot>)
    requires FitSlots(into, fields)
    ensures var k := Lookup(e, fields, m.key);
            k.None? ==> BindMembers(e, [m], fields, into) == Val(into)
    ensures var k := Lookup(e, fields, m.key);
            k.Some? ==>
              && k.value < |into| && Fits(into[k.value].value, fields[k.value].schema)
              && var v := Bind(e, m.value, fields[k.value].schema, Some(into[k.value].value));
                 BindMembers(e, [m], fields, into) == if v.Err? then Err else Val(Update(into, k.value, v.v))
  {
    hide Bind, FitSlots;
    FitSlotsAt(into, fields);
    assert [m][1..] == [];
    var k := Lookup(e, fields, m.key);
    if k.Some? {
      var v := Bind(e, m.value, fields[k.value].schema, Some(into[k.value].value));
      if v.Val? { UpdateFits(into, fields, k.value, v.v); }
    }
  }

  /** An object bound over what an earlier one left is the two objects' members bound in one go. */
  lemma {:induction false} BindObjectTwice(e: Env, a: seq<Member>, b: seq<Member>, schema: Schema, existing: Option<Value>)
    requires Decode.Settled(existing, schema)
    ensures var first := Bind(e, Obj(a), schema, existing);
            Bind(e, Obj(a + b), schema, existing) == if first.Err? then Err else Bind(e, Obj(b), schema, Some(first.v))
  {
    hide BindMembers;
    if schema.SStruct? {
      BindAppend(e, a, b, schema.fields, Start(existing, schema).slots);
    }
  }

  /** A member given twice with objects A and B is the member given once with A followed by B, wherever it stands. */
  lemma {:induction false} RepeatMerges(e: Env, pre: seq<Member>, key: string, a: seq<Member>, b: seq<Member>, post: seq<Member>, fields: seq<Field>, into: seq<Slot>)
    requires FitSlots(into, fields)
    ensures BindMembers(e, pre + [Member(key, Obj(a)), Member(key, Obj(b))] + post, fields, into)
         == BindMembers(e, pre + [Member(key, Obj(a + b))] + post, fields, into)
  {
    hide BindMembers, FitSlots, Bind;
    forall mid | FitSlots(mid, fields)
      ensures BindMembers(e, [Member(key, Obj(a)), Member(key, Obj(b))], fields, mid) == BindMembers(e, [Member(key, Obj(a + b))], fields, mid)
    {
      RepeatMergesAlone(e, key, a, b, fields, mid);
    }
    BindInContext(e, pre, [Member(key, Obj(a)), Member(key, Obj(b))], [Member(key, Obj(a + b))], post, fields, into);
  }

  lemma {:induction false} RepeatMergesAlone(e: Env, key: string, a: seq<Member>, b: seq<Member>, fields: seq<Field>, into: seq<Slot>)
    requires FitSlots(into, fields)
    ensures BindMembers(e, [Member(key, Obj(a)), Member(key, Obj(b))], fields, into) == BindMembers(e, [Member(key, Obj(a + b))], fields, into)
  {
    hide BindMembers, FitSlots, Bind;
    var x, y := Member(key, Obj(a)), Member(key, Obj(b));
    assert [x, y] == [x] + [y];
    BindAppend(e, [x], [y], fields, into);
    BindOneMember(e, x, fields, into);
    BindOneMember(e, Member(key, Obj(a + b)), fields, into);
    var k := Lookup(e, fields, key);
    if k.None? {
      BindOneMember(e, y, fields, into);
    } else {
      var schema := fields[k.value].schema;
      var existing := Some(into[k.value].value);
      BindObjectTwice(e, a, b, schema, existing);
      var first := Bind(e, Obj(a), schema, existing);
      if first.Val? {
        var mid := Update(into, k.value, first.v);
        UpdateFits(into, fields, k.value, first.v);
        BindOneMember(e, y, fields, mid);
        var second := Bind(e, Obj(b), schema, Some(first.v));
        assert second.Val? ==> Update(mid, k.value, second.v) == Update(into, k.value, second.v);
      }
    }
  }

  // --- the fields do not meet ----------------------------------------------------------------

  /** The values that bind into field `k`, in source order. */
  function Only(e: Env, fields: seq<Field>, members: seq<Member>, k: nat): seq<Node> {
    if members == [] then []
    else (if Lookup(e, fields, members[0].key) == Some(k) then [members[0].value] else []) + Only(e, fields, members[1..], k)
  }

  /** Values bound one on top of the other. */
  function BindAll(e: Env, nodes: seq<Node>, schema: Schema, v: Value): (r: Out<Value>)
    requires Fits(v, schema)
    ensures r.Val? ==> Fits(r.v, schema)
    decreases |nodes|
  {
    if nodes == [] then Val(v)
    else
      var first := Bind(e, nodes[0], schema, Some(v));
      if first.Err? then Err else BindAll(e, nodes[1..], schema, first.v)
  }

  /** What becomes of field `k`. */
  function FieldOf(e: Env, members: seq<Member>, fields: seq<Field>, into: seq<Slot>, k: nat): Out<Value>
    requires FitSlots(into, fields) && k < |fields|
  {
    FitSlotsAt(into, fields);
    BindAll(e, Only(e, fields, members, k), fields[k].schema, into[k].value)
  }

  lemma {:induction false} FieldStep(e: Env, members: seq<Member>, fields: seq<Field>, into: seq<Slot>, j: nat, v: Out<Value>, k: nat)
    requires FitSlots(into, fields) && members != [] && k < |fields| && j < |fields| && |into| == |fields|
    requires Lookup(e, fields, members[0].key) == Some(j) && Fits(into[j].value, fields[j].schema)
    requires v == Bind(e, members[0].value, fields[j].schema, Some(into[j].value))
    ensures v.Err? && k == j ==> FieldOf(e, members, fields, into, k).Err?
    ensures v.Val? ==>
      && FitSlots(Update(into, j, v.v), fields)
      && FieldOf(e, members, fields, into, k) == FieldOf(e, members[1..], fields, Update(into, j, v.v), k)
  {
    hide Bind, Lookup, Fits, FitSlots;
    var rest := Only(e, fields, members[1..], k);
    if v.Val? { UpdateFits(into, fields, j, v.v); }
    if k == j {
      assert ([members[0].value] + rest)[1..] == rest;
    } else {
      assert [] + rest == rest;
    }
  }

  lemma {:induction false} FieldSkip(e: Env, members: seq<Member>, fields: seq<Field>, into: seq<Slot>, k: nat)
    requires FitSlots(into, fields) && members != [] && k < |fields| && Lookup(e, fields, members[0].key).None?
    ensures FieldOf(e, members, fields, into, k) == FieldOf(e, members[1..], fields, into, k)
  {
    assert [] + Only(e, fields, members[1..], k) == Only(e, fields, members[1..], k);
  }

  /** Each field is what its own members make of it; the object is refused exactly when some field is. */
  lemma {:induction false} MembersByField(e: Env, members: seq<Member>, fields: seq<Field>, into: seq<Slot>)
    requires FitSlots(into, fields)
    ensures BindMembers(e, members, fields, into).Val? <==> forall k: nat | k < |fields| :: FieldOf(e, members, fields, into, k).Val?
    ensures BindMembers(e, members, fields, into).Val? ==>
      forall k: nat | k < |fields| :: BindMembers(e, members, fields, into).v[k] == Slot(fields[k].name, FieldOf(e, members, fields, into, k).v)
    decreases |members|
  {
    hide Bind, Lookup, FitSlots, FieldOf, BindMembers;
    FitSlotsAt(into, fields);
    if members == [] {
      MembersByFieldNone(e, fields, into);
    } else {
      var j := Lookup(e, fields, members[0].key);
      if j.None? {
        MembersByField(e, members[1..], fields, into);
        MembersSkip(e, members, fields, into);
        forall k: nat | k < |fields|
          ensures FieldOf(e, members, fields, into, k) == FieldOf(e, members[1..], fields, into, k)
        {
          FieldSkip(e, members, fields, into, k);
        }
      } else {
        var v := Bind(e, members[0].value, fields[j.value].schema, Some(into[j.value].value));
        MembersStep(e, members, fields, into, j.value, v);
        FieldStep(e, members, fields, into, j.value, v, j.value);
        if v.Val? {
          var next := Update(into, j.value, v.v);
          MembersByField(e, members[1..], fields, next);
          forall k: nat | k < |fields|
            ensures FieldOf(e, members, fields, into, k) == FieldOf(e, members[1..], fields, next, k)
          {
            FieldStep(e, members, fields, into, j.value, v, k);
          }
        }
      }
    }
  }

  lemma {:induction false} MembersByFieldNone(e: Env, fields: seq<Field>, into: seq<Slot>)
    requires FitSlots(into, fields)
    ensures BindMembers(e, [], fields, into) == Val(into) && |into| == |fields|
    ensures forall k: nat | k < |fields| :: FieldOf(e, [], fields, into, k) == Val(into[k].value) && into[k] == Slot(fields[k].name, into[k].value)
  {
    FitSlotsAt(into, fields);
  }

  lemma {:induction false} MembersSkip(e: Env, members: seq<Member>, fields: seq<Field>, into: seq<Slot>)
    requires FitSlots(into, fields) && members != [] && Lookup(e, fields, members[0].key).None?
    ensures BindMembers(e, members, fields, into) == BindMembers(e, members[1..], fields, into)
  {
  }

  lemma {:induction false} MembersStep(e: Env, members: seq<Member>, fields: seq<Field>, into: seq<Slot>, j: nat, v: Out<Value>)
    requires FitSlots(into, fields) && members != [] && Lookup(e, fields, members[0].key) == Some(j) && |into| == |fields|
    requires Fits(into[j].value, fields[j].schema) && v == Bind(e, members[0].value, fields[j].schema, Some(into[j].value))
    ensures v.Err? ==> BindMembers(e, members, fields, into).Err?
    ensures v.Val? ==>
      && FitSlots(Update(into, j, v.v), fields)
      && BindMembers(e, members, fields, into) == BindMembers(e, members[1..], fields, Update(into, j, v.v))
  {
    hide Bind, Lookup, FitSlots, Fits;
    if v.Val? { UpdateFits(into, fields, j, v.v); }
  }

  /**
   Only the order within a field counts: two lists of members that say the same to every field bind alike. Members of
   different fields may change places, and unknown ones may be left out.
   */
  lemma {:induction false} FieldsDecide(e: Env, ms: seq<Member>, ns: seq<Member>, fields: seq<Field>, into: seq<Slot>)
    requires FitSlots(into, fields)
    requires forall k: nat | k < |fields| :: Only(e, fields, ms, k) == Only(e, fields, ns, k)
    ensures BindMembers(e, ms, fields, into) == BindMembers(e, ns, fields, into)
  {
    hide BindMembers, FitSlots, Only, BindAll;
    MembersByField(e, ms, fields, into);
    MembersByField(e, ns, fields, into);
    forall k: nat | k < |fields|
      ensures FieldOf(e, ms, fields, into, k) == FieldOf(e, ns, fields, into, k)
    {
      assert Only(e, fields, ms, k) == Only(e, fields, ns, k);
    }
    var r, q := BindMembers(e, ms, fields, into), BindMembers(e, ns, fields, into);
    if r.Val? {
      FitSlotsAt(r.v, fields);
      FitSlotsAt(q.v, fields);
      assert r.v == q.v;
    }
  }

  lemma {:induction false} OnlyAppend(e: Env, fields: seq<Field>, a: seq<Member>, b: seq<Member>, k: nat)
    ensures Only(e, fields, a + b, k) == Only(e, fields, a, k) + Only(e, fields, b, k)
    decreases |a|
  {
    hide Lookup;
    if a == [] {
      assert a + b == b;
    } else {
      assert (a + b)[0] == a[0] && (a + b)[1..] == a[1..] + b;
      OnlyAppend(e, fields, a[1..], b, k);
    }
  }

  /** Neighbours that go to different fields may change places. */
  lemma {:induction false} SwapMembers(e: Env, pre: seq<Member>, x: Member, y: Member, post: seq<Member>, fields: seq<Field>, into: seq<Slot>)
    requires FitSlots(into, fields)
    requires Lookup(e, fields, x.key) != Lookup(e, fields, y.key) || Lookup(e, fields, x.key).None?
    ensures BindMembers(e, pre + [x, y] + post, fields, into) == BindMembers(e, pre + [y, x] + post, fields, into)
  {
    hide BindMembers, FitSlots, Lookup;
    forall k: nat | k < |fields|
      ensures Only(e, fields, pre + [x, y] + post, k) == Only(e, fields, pre + [y, x] + post, k)
    {
      OnlyAppend(e, fields, pre + [x, y], post, k);
      OnlyAppend(e, fields, pre + [y, x], post, k);
      OnlyAppend(e, fields, pre, [x, y], k);
      OnlyAppend(e, fields, pre, [y, x], k);
      OnlyPair(e, fields, x, y, k);
      OnlyPair(e, fields, y, x, k);
    }
    FieldsDecide(e, pre + [x, y] + post, pre + [y, x] + post, fields, into);
  }

  lemma {:induction false} OnlyPair(e: Env, fields: seq<Field>, x: Member, y: Member, k: nat)
    ensures Only(e, fields, [x, y], k) ==
            (if Lookup(e, fields, x.key) == Some(k) then [x.value] else []) + (if Lookup(e, fields, y.key) == Some(k) then [y.value] else [])
  {
    hide Lookup;
    assert [x, y][1..] == [y] && [y][1..] == [];
    assert Only(e, fields, [y], k) == if Lookup(e, fields, y.key) == Some(k) then [y.value] else [];
  }

  /** A member no field knows may be left out. */
  lemma {:induction false} DropUnknown(e: Env, pre: seq<Member>, x: Member, post: seq<Member>, fields: seq<Field>, into: seq<Slot>)
    requires FitSlots(into, fields) && Lookup(e, fields, x.key).None?
    ensures BindMembers(e, pre + [x] + post, fields, into) == BindMembers(e, pre + post, fields, into)
  {
    hide BindMembers, FitSlots, Lookup;
    forall k: nat | k < |fields|
      ensures Only(e, fields, pre + [x] + post, k) == Only(e, fields, pre + post, k)
    {
      OnlyAppend(e, fields, pre + [x], post, k);
      OnlyAppend(e, fields, pre, [x], k);
      OnlyAppend(e, fields, pre, post, k);
      assert [x][1..] == [] && Only(e, fields, [x], k) == [];
    }
    FieldsDecide(e, pre + [x] + post, pre + post, fields, into);
  }

  // --- null, and lists --------------------------------------------------------------------------

  /** null leaves what an earlier repeat set, but for a list, which it resets. */
  lemma {:induction false} NullKeeps(e: Env, schema: Schema, v: Value)
    requires Fits(v, schema)
    ensures Bind(e, Null, schema, Some(v)) == Val(if schema.SList? then VNull else v)
    ensures Bind(e, Null, schema, None) == Val(Zero(schema))
  {
  }

  /** What stood at `k`, if anything did. */
  function BeforeAt(before: seq<Value>, k: nat): Option<Value> {
    if k < |before| then Some(before[k]) else None
  }

  /** Item `k` merges into what was at `k`; the list is refused exactly when an item is. */
  lemma {:induction false} ItemsMerge(e: Env, items: seq<Node>, of: Schema, before: seq<Value>)
    requires FitItems(before, of)
    ensures forall k: nat | k < |before| :: Fits(before[k], of)
    ensures BindItems(e, items, of, before).Val? <==>
      forall k: nat | k < |items| :: Bind(e, items[k], of, BeforeAt(before, k)).Val?
    ensures BindItems(e, items, of, before).Val? ==>
      forall k: nat | k < |items| :: Val(BindItems(e, items, of, before).v[k]) == Bind(e, items[k], of, BeforeAt(before, k))
    decreases |items|
  {
    hide Bind, Fits;
    FitItemsAt(before, of);
    if items != [] {
      var rest, tail := items[1..], TailOf(before);
      FitItemsAt(tail, of);
      ItemsMerge(e, rest, of, tail);
      forall k: nat | k < |rest|
        ensures Bind(e, rest[k], of, BeforeAt(tail, k)) == Bind(e, items[k + 1], of, BeforeAt(before, k + 1))
      {
        assert rest[k] == items[k + 1] && BeforeAt(tail, k) == BeforeAt(before, k + 1);
      }
      assert HeadOf(before) == BeforeAt(before, 0);
      ItemsMergeStep(e, items, of, before);
    }
  }

  lemma {:induction false} ItemsMergeStep(e: Env, items: seq<Node>, of: Schema, before: seq<Value>)
    requires FitItems(before, of) && items != [] && FitItems(TailOf(before), of) && HeadOf(before) == BeforeAt(before, 0)
    requires forall k: nat | k < |before| :: Fits(before[k], of)
    requires forall k: nat | k < |TailOf(before)| :: Fits(TailOf(before)[k], of)
    requires forall k: nat | k < |items[1..]| ::
      Bind(e, items[1..][k], of, BeforeAt(TailOf(before), k)) == Bind(e, items[k + 1], of, BeforeAt(before, k + 1))
    requires BindItems(e, items[1..], of, TailOf(before)).Val? <==>
      forall k: nat | k < |items[1..]| :: Bind(e, items[1..][k], of, BeforeAt(TailOf(before), k)).Val?
    requires BindItems(e, items[1..], of, TailOf(before)).Val? ==>
      forall k: nat | k < |items[1..]| ::
        Val(BindItems(e, items[1..], of, TailOf(before)).v[k]) == Bind(e, items[1..][k], of, BeforeAt(TailOf(before), k))
    ensures BindItems(e, items, of, before).Val? <==>
      forall k: nat | k < |items| :: Bind(e, items[k], of, BeforeAt(before, k)).Val?
    ensures BindItems(e, items, of, before).Val? ==>
      forall k: nat | k < |items| :: Val(BindItems(e, items, of, before).v[k]) == Bind(e, items[k], of, BeforeAt(before, k))
  {
    hide Bind, Fits, FitItems;
    var rest, tail := items[1..], TailOf(before);
    var whole := BindItems(e, items, of, before);
    forall k: nat | 0 < k < |items|
      ensures Bind(e, items[k], of, BeforeAt(before, k)) == Bind(e, rest[k - 1], of, BeforeAt(tail, k - 1))
    {
      assert Bind(e, rest[k - 1], of, BeforeAt(tail, k - 1)) == Bind(e, items[k - 1 + 1], of, BeforeAt(before, k - 1 + 1));
    }
    if forall k: nat | k < |items| :: Bind(e, items[k], of, BeforeAt(before, k)).Val? {
      forall k: nat | k < |rest| ensures Bind(e, rest[k], of, BeforeAt(tail, k)).Val? {
        assert Bind(e, items[k + 1], of, BeforeAt(before, k + 1)).Val?;
      }
    }
  }

  // --- what is accepted, and as what ------------------------------------------------------------

  /** The list an earlier repeat left, if it left one. */
  function EarlierItems(existing: Option<Value>, of: Schema): (items: seq<Value>)
    requires Settled(existing, SList(of))
    ensures FitItems(items, of)
  {
    if existing.Some? && existing.value.VList? then existing.value.items else []
  }

  /** Item `k`, over what is at `k` of the earlier list. */
  function ItemAt(e: Env, items: seq<Node>, of: Schema, before: seq<Value>, k: nat): Out<Value>
    requires FitItems(before, of) && k < |items|
  {
    FitItemsAt(before, of);
    Bind(e, items[k], of, if k < |before| then Some(before[k]) else None)
  }

  /** Field `k` as its own members make it, one over the other, from what an earlier repeat left or from zero. */
  function FieldAt(e: Env, members: seq<Member>, fields: seq<Field>, existing: Option<Value>, k: nat): Out<Value>
    requires Settled(existing, SStruct(fields)) && k < |fields|
  {
    if existing.Some? then
      FitSlotsAt(existing.value.slots, fields);
      BindAll(e, Only(e, fields, members, k), fields[k].schema, existing.value.slots[k].value)
    else BindAll(e, Only(e, fields, members, k), fields[k].schema, Zero(fields[k].schema))
  }

  /**
   Which values a node may come to, schema by schema: null says nothing, but empties a list; a scalar needs a node of
   its kind; an array is bound item by item and an object field by field.
   */
  ghost predicate Binds(e: Env, node: Node, schema: Schema, existing: Option<Value>, v: Value)
    requires Settled(existing, schema)
  {
    if node.Null? then v == (if schema.SList? then VNull else if existing.Some? then existing.value else Zero(schema))
    else
      match schema
      case SString => node.Str? && v == VStr(node.v)
      case SBool => node.Bool? && v == VBool(node.b)
      case SInt =>
        && node.Num? && v.VInt? && -9223372036854775808 <= v.n <= 9223372036854775807
        && exists minus, digits :: Spells(node.raw, v.n, minus, digits)
      case SFloat => node.Num? && v.VFloat? && e.canon(node.raw) == Some(v.lit)
      case STime =>
        && node.Str? && node.plain
        && (v.VTime? || v.VUnencodable?)
        && (v.VTime? ==> Time.NormaliseTime(node.v) == Time.Normal(v.text))
        && (v.VUnencodable? ==> Time.NormaliseTime(node.v) == Time.Unencodable(v.source))
      case SList(of) =>
        && node.Arr? && v.VList? && |v.items| == |node.items|
        && forall k | 0 <= k < |node.items| :: ItemAt(e, node.items, of, EarlierItems(existing, of), k) == Val(v.items[k])
      case SStruct(fields) =>
        && node.Obj? && v.VObj? && |v.slots| == |fields|
        && forall k | 0 <= k < |fields| ::
             v.slots[k].name == fields[k].name && FieldAt(e, node.members, fields, existing, k) == Val(v.slots[k].value)
  }

  /** Binding gives a value exactly when the node may come to it; when there is none, it is refused. */
  lemma {:induction false} BindExact(e: Env, node: Node, schema: Schema, existing: Option<Value>, v: Value)
    requires Settled(existing, schema)
    ensures Bind(e, node, schema, existing) == Val(v) <==> Binds(e, node, schema, existing, v)
  {
    hide Bind, Binds;
    if node.Null? {
      NullExact(e, schema, existing, v);
    } else if schema.SList? {
      ListExact(e, node, schema.of, existing, v);
    } else if schema.SStruct? {
      StructExact(e, node, schema.fields, existing, v);
    } else {
      ScalarExact(e, node, schema, existing, v);
    }
  }

  lemma {:induction false} NullExact(e: Env, schema: Schema, existing: Option<Value>, v: Value)
    requires Settled(existing, schema)
    ensures Bind(e, Null, schema, existing) == Val(v) <==> Binds(e, Null, schema, existing, v)
  {
    hide Zero;
  }

  lemma {:induction false} ScalarExact(e: Env, node: Node, schema: Schema, existing: Option<Value>, v: Value)
    requires Settled(existing, schema) && !node.Null? && !schema.SList? && !schema.SStruct?
    ensures Bind(e, node, schema, existing) == Val(v) <==> Binds(e, node, schema, existing, v)
  {
    hide ParseInt64, Spells, Time.NormaliseTime, Fits;
    if schema.SInt? && node.Num? && v.VInt? {
      ParseInt64Exact(node.raw, v.n);
    }
  }

  lemma {:induction false} ListExact(e: Env, node: Node, of: Schema, existing: Option<Value>, v: Value)
    requires Settled(existing, SList(of)) && !node.Null?
    ensures Bind(e, node, SList(of), existing) == Val(v) <==> Binds(e, node, SList(of), existing, v)
  {
    hide BindItems, FitItems, ItemAt;
    if node.Arr? && v.VList? {
      ItemsExact(e, node.items, of, EarlierItems(existing, of), v.items);
    }
  }

  /** The items that come out are those of the single bindings. */
  lemma {:induction false} ItemsExact(e: Env, items: seq<Node>, of: Schema, before: seq<Value>, vs: seq<Value>)
    requires FitItems(before, of)
    ensures BindItems(e, items, of, before) == Val(vs) <==>
            |vs| == |items| && forall k | 0 <= k < |items| :: ItemAt(e, items, of, before, k) == Val(vs[k])
  {
    hide Bind, FitItems, BindItems;
    FitItemsAt(before, of);
    ItemsMerge(e, items, of, before);
    var r := BindItems(e, items, of, before);
    if |vs| == |items| && forall k | 0 <= k < |items| :: ItemAt(e, items, of, before, k) == Val(vs[k]) {
      forall k: nat | k < |items| ensures Bind(e, items[k], of, BeforeAt(before, k)) == Val(vs[k]) {
        assert ItemAt(e, items, of, before, k) == Val(vs[k]);
      }
      assert r.v == vs;
    }
  }

  lemma {:induction false} StructExact(e: Env, node: Node, fields: seq<Field>, existing: Option<Value>, v: Value)
    requires Settled(existing, SStruct(fields)) && !node.Null?
    ensures Bind(e, node, SStruct(fields), existing) == Val(v) <==> Binds(e, node, SStruct(fields), existing, v)
  {
    hide BindMembers, FitSlots, FieldAt, ZeroSlots;
    if node.Obj? && v.VObj? {
      var into := Start(existing, SStruct(fields)).slots;
      SlotsExact(e, node.members, fields, into, v.slots);
      forall k: nat | k < |fields| ensures FieldAt(e, node.members, fields, existing, k) == FieldOf(e, node.members, fields, into, k) {
        FieldStart(e, node.members, fields, existing, k);
      }
    }
  }

  lemma {:induction false} FieldStart(e: Env, members: seq<Member>, fields: seq<Field>, existing: Option<Value>, k: nat)
    requires Settled(existing, SStruct(fields)) && k < |fields|
    ensures FieldAt(e, members, fields, existing, k) == FieldOf(e, members, fields, Start(existing, SStruct(fields)).slots, k)
  {
    hide BindAll, FitSlots, Only, ZeroSlots;
    ZeroSlotAt(fields, k);
  }

  lemma {:induction false} SlotsExact(e: Env, members: seq<Member>, fields: seq<Field>, into: seq<Slot>, slots: seq<Slot>)
    requires FitSlots(into, fields)
    ensures BindMembers(e, members, fields, into) == Val(slots) <==>
            |slots| == |fields| && forall k: nat | k < |fields| :: slots[k].name == fields[k].name && FieldOf(e, members, fields, into, k) == Val(slots[k].value)
  {
    hide BindMembers, FitSlots, FieldOf;
    MembersByField(e, members, fields, into);
    var r := BindMembers(e, members, fields, into);
    if r.Val? {
      FitSlotsAt(r.v, fields);
      if |slots| == |fields| && forall k: nat | k < |fields| :: slots[k].name == fields[k].name && FieldOf(e, members, fields, into, k) == Val(slots[k].value) {
        assert r.v == slots;
      }
    }
  }

  /** A body decodes to what the one value of its text may come to; no bytes at all are the blank value. */
  lemma {:induction false} DecodeExact(e: Env, schema: Schema, body: seq<byte>, v: Value)
    ensures Decode.Decode(e, schema, body) == Val(v) <==>
            if body == [] then Fits(v, schema) && Blank(v)
            else exists item, t :: IsDocument(body, item, t) && Binds(e, t, schema, None, v)
  {
    hide Parse, Bind, Binds, IsDocument, Blank, Fits, Zero;
    if body == [] {
      if Fits(v, schema) { ZeroExact(schema, v); }
    } else {
      if Decode.Decode(e, schema, body) == Val(v) {
        var t := Parse(body, false).v;
        ParseExact(body, t);
        BindExact(e, t, schema, None, v);
      }
      forall item, t | IsDocument(body, item, t) && Binds(e, t, schema, None, v) ensures Decode.Decode(e, schema, body) == Val(v) {
        ParseExact(body, t);
        BindExact(e, t, schema, None, v);
      }
    }
  }
}
