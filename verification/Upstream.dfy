/** The sentence lifted out of a failing answer; and text columns in UTF-8. */
module Upstream {
  import opened Options
  import opened Utf8
  import opened JsonSound
  import opened Decode
  import opened DecodeMerge
  import Json
  import JsonComplete
  import JsonGrammar

  /** `utf8` of persistence.ts: bytes as text, or nothing when they are not UTF-8. */
  method Utf8Text(bytes: seq<byte>) returns (r: Option<string>)
    ensures r == if WellFormed(bytes) then Some(Lossy(bytes)) else None
    ensures r.Some? ==> Encode(r.value) == bytes
  {
    var i := 0;
    while i < |bytes|
      invariant 0 <= i <= |bytes|
      invariant WellFormed(bytes) <==> WellFormed(bytes[i..])
      decreases |bytes| - i
    {
      var len := ValidLength(bytes, i);
      CutStep(bytes, i);
      if len == 0 { return None; }
      i := i + len;
    }
    assert bytes[i..] == [];
    LossyRoundTrip(bytes);
    return Some(Lossy(bytes));
  }

  /** One step of the cut at `i`. */
  lemma {:induction false} CutStep(b: seq<byte>, i: nat)
    requires i < |b|
    ensures var k := ValidLength(b, i);
            && (k > 0 ==> IsRune(b[i..i + k]) && Cut(b[i..]) == [Good(DecodeRune(b[i..i + k]))] + Cut(b[i + k..]))
            && (k == 0 ==> Cut(b[i..]) == [Bad(b[i])] + Cut(b[i + 1..]))
            && (WellFormed(b[i..]) <==> k > 0 && WellFormed(b[i + k..]))
  {
    var s := b[i..];
    var k := ValidLength(b, i);
    SameLength(b, i);
    if k > 0 {
      ValidLengthLocal(b, i);
      assert s[0..k] == b[i..i + k] && s[k..] == b[i + k..];
      GoodFirst(DecodeRune(b[i..i + k]), Cut(b[i + k..]));
    } else {
      assert s[1..] == b[i + 1..];
      assert Cut(s)[0] == Bad(b[i]);
    }
  }

  lemma {:induction false} SameLength(b: seq<byte>, i: nat)
    requires i < |b|
    ensures ValidLength(b, i) == ValidLength(b[i..], 0)
  {
    var s := b[i..];
    assert forall k | 0 <= k < |s| :: At(s, k) == At(b, i + k);
    assert At(s, 1) == At(b, i + 1) && At(s, 2) == At(b, i + 2) && At(s, 3) == At(b, i + 3);
  }

  lemma {:induction false} GoodFirst(c: char, rest: seq<Rune>)
    ensures AllGood([Good(c)] + rest) <==> AllGood(rest)
  {
    var all := [Good(c)] + rest;
    assert forall k | 0 <= k < |rest| :: all[k + 1] == rest[k];
    if AllGood(rest) {
      forall k | 0 <= k < |all| ensures all[k].Good? { if k > 0 { assert all[k] == rest[k - 1]; } }
    }
  }

  /** unicode.IsSpace. */
  predicate IsGoSpace(c: char) {
    var n := c as int;
    || n == 0x20 || 0x09 <= n <= 0x0d || n == 0x85 || n == 0xa0 || n == 0x1680
    || 0x2000 <= n <= 0x200a || n == 0x2028 || n == 0x2029 || n == 0x202f || n == 0x205f || n == 0x3000
  }

  /** `goTrimSpace(s) === ""` */
  predicate IsBlank(s: string) {
    forall k | 0 <= k < |s| :: IsGoSpace(s[k])
  }

  /** The white space characters of Unicode, one by one. */
  lemma {:induction false} SpaceExact(c: char)
    ensures IsGoSpace(c) <==>
            || c in "\t\n\U{b}\U{c}\r \U{85}\U{a0}\U{1680}"
            || c in "\U{2000}\U{2001}\U{2002}\U{2003}\U{2004}\U{2005}\U{2006}\U{2007}\U{2008}\U{2009}\U{200a}"
            || c in "\U{2028}\U{2029}\U{202f}\U{205f}\U{3000}"
  {
    var n := c as int;
    var en := "\U{2000}\U{2001}\U{2002}\U{2003}\U{2004}\U{2005}\U{2006}\U{2007}\U{2008}\U{2009}\U{200a}";
    if 0x2000 <= n <= 0x200a { assert en[n - 0x2000] == c; }
  }

  const MAX_MESSAGE_LENGTH: nat := 500

  datatype Message = Lifted(text: string) | NoMessage | Raw(text: string, bytes: Option<seq<byte>>)

  /** `envelope`: {"error": {"message": text}} */
  const ENVELOPE: Schema := SStruct([Field("error", SStruct([Field("message", SString)]))])

  function EnvelopeMessage(e: Env, body: seq<byte>): (r: Option<string>)
  {
    match Decode.Decode(e, ENVELOPE, body)
    case Err => None
    case Val(v) => EnvelopeShape(v); Some(v.slots[0].value.slots[0].value.s)
  }

  lemma {:induction false} EnvelopeShape(v: Value)
    requires Fits(v, ENVELOPE)
    ensures v.VObj? && |v.slots| == 1 && v.slots[0].value.VObj? && |v.slots[0].value.slots| == 1 && v.slots[0].value.slots[0].value.VStr?
  {
    FitSlotsAt(v.slots, ENVELOPE.fields);
    var inner := v.slots[0].value;
    FitSlotsAt(inner.slots, [Field("message", SString)]);
  }

  /** What the body says, by its cut into runes. */
  function MessageOf(e: Env, body: seq<byte>): Message {
    var lifted := EnvelopeMessage(e, body);
    var runes := Cut(body);
    if lifted.Some? && !IsBlank(lifted.value) then Lifted(lifted.value)
    else if IsBlank(Shown(runes)) then NoMessage
    else if |runes| > MAX_MESSAGE_LENGTH then Raw(Shown(runes[..MAX_MESSAGE_LENGTH]), None)
    else Raw(Shown(runes), if AllGood(runes) then None else Some(body))
  }

  function JoinText(parts: seq<string>): string {
    if parts == [] then "" else parts[0] + JoinText(parts[1..])
  }

  /** The runes as one-character strings. */
  function Shows(rs: seq<Rune>): (parts: seq<string>)
    ensures |parts| == |rs|
  {
    if rs == [] then [] else [Shown([rs[0]])] + Shows(rs[1..])
  }

  lemma {:induction false} JoinShows(rs: seq<Rune>)
    ensures JoinText(Shows(rs)) == Shown(rs)
  {
    if rs != [] {
      JoinShows(rs[1..]);
      assert [rs[0]][1..] == [] && Shows(rs)[1..] == Shows(rs[1..]);
      assert Shown([rs[0]]) == [if rs[0].Good? then rs[0].c else REPLACEMENT] + "";
    }
  }

  lemma {:induction false} ShowsPrefix(rs: seq<Rune>, n: nat)
    requires n <= |rs|
    ensures Shows(rs)[..n] == Shows(rs[..n])
    decreases n
  {
    if n > 0 {
      ShowsPrefix(rs[1..], n - 1);
      assert rs[..n][1..] == rs[1..][..n - 1];
      assert Shows(rs)[..n] == [Shown([rs[0]])] + Shows(rs[1..])[..n - 1];
    }
  }

  lemma {:induction false} ShowsSnoc(rs: seq<Rune>, r: Rune)
    ensures Shows(rs + [r]) == Shows(rs) + [Shown([r])]
  {
    if rs == [] {
      assert [] + [r] == [r] && [r][1..] == [];
    } else {
      ShowsSnoc(rs[1..], r);
      assert (rs + [r])[1..] == rs[1..] + [r];
    }
  }

  /** The rune at `i` joins those before it. */
  lemma {:induction false} RuneStep(body: seq<byte>, i: nat, done: seq<Rune>) returns (r: Rune)
    requires i < |body| && Cut(body) == done + Cut(body[i..])
    ensures var len := ValidLength(body, i);
            && (len == 0 ==> r.Bad? && Cut(body) == (done + [r]) + Cut(body[i + 1..]))
            && (len > 0 ==> r.Good? && Cut(body) == (done + [r]) + Cut(body[i + len..]) && Shown([r]) == Lossy(body[i..i + len]))
            && Shows(done + [r]) == Shows(done) + [Shown([r])]
            && (AllGood(done + [r]) <==> AllGood(done) && r.Good?)
            && (r.Bad? ==> Shown([r]) == [REPLACEMENT])
  {
    hide Cut, Shows, Shown, AllGood, WellFormed;
    CutStep(body, i);
    var len := ValidLength(body, i);
    var rest := if len > 0 then Cut(body[i + len..]) else Cut(body[i + 1..]);
    r := if len > 0 then Good(DecodeRune(body[i..i + len])) else Bad(body[i]);
    Assoc(done, [r], rest);
    GoodLast(done, r);
    ShowsSnoc(done, r);
    if len > 0 { LossyOne(body[i..i + len]); } else { BadShown(r); }
  }

  lemma {:induction false} BadShown(r: Rune)
    requires r.Bad?
    ensures Shown([r]) == [REPLACEMENT]
  {
    assert [r][1..] == [] && Shown([r]) == [REPLACEMENT] + "";
  }

  /** The loop over the runes. */
  method CutRunes(body: seq<byte>) returns (runes: seq<string>, valid: bool)
    ensures runes == Shows(Cut(body)) && valid == WellFormed(body)
  {
    hide Cut, Shows, Shown, AllGood;
    runes, valid := [], true;
    ghost var done: seq<Rune> := [];
    NoRunes(body);
    var i := 0;
    while i < |body|
      invariant 0 <= i <= |body|
      invariant runes == Shows(done) && Cut(body) == done + Cut(body[i..]) && valid == AllGood(done)
      decreases |body| - i
    {
      var len := ValidLength(body, i);
      ghost var r := RuneStep(body, i, done);
      valid := valid && len > 0;
      runes := runes + [if len == 0 then [REPLACEMENT] else Lossy(body[i..i + len])];
      done := done + [r];
      i := i + if len > 0 then len else 1;
    }
    CutEnd(body, done);
  }

  lemma {:induction false} NoRunes(body: seq<byte>)
    ensures Shows([]) == [] && AllGood([]) && Cut(body) == [] + Cut(body[0..])
  {
    assert body[0..] == body;
  }

  lemma {:induction false} CutEnd(body: seq<byte>, done: seq<Rune>)
    requires Cut(body) == done + Cut(body[|body|..])
    ensures Cut(body) == done
  {
    assert body[|body|..] == [] && Cut([]) == [] && done + [] == done;
  }

  /** `upstreamMessageOf`: at most 500 runes of a body that is no envelope, and no rune is ever split. */
  method UpstreamMessageOf(e: Env, body: seq<byte>) returns (m: Message)
    ensures m == MessageOf(e, body)
  {
    hide Cut, Shows, Shown, AllGood, JoinText, EnvelopeMessage, IsBlank;
    var lifted := EnvelopeMessage(e, body);
    if lifted.Some? && !IsBlank(lifted.value) { return Lifted(lifted.value); }
    var runes, valid := CutRunes(body);
    JoinShows(Cut(body));
    var text := JoinText(runes);
    if IsBlank(text) { return NoMessage; }
    if |runes| > MAX_MESSAGE_LENGTH {
      ShowsPrefix(Cut(body), MAX_MESSAGE_LENGTH);
      JoinShows(Cut(body)[..MAX_MESSAGE_LENGTH]);
      return Raw(JoinText(runes[..MAX_MESSAGE_LENGTH]), None);
    }
    return Raw(text, if valid then None else Some(body));
  }

  lemma {:induction false} GoodLast(done: seq<Rune>, r: Rune)
    ensures AllGood(done + [r]) <==> AllGood(done) && r.Good?
  {
    var all := done + [r];
    assert all[|done|] == r;
    assert forall k | 0 <= k < |done| :: all[k] == done[k];
  }

  lemma {:induction false} LossyOne(s: seq<byte>)
    requires IsRune(s)
    ensures Lossy(s) == Shown([Good(DecodeRune(s))])
  {
    assert s[0..|s|] == s && s[|s|..] == [] && Cut([]) == [];
  }

  /** A cut message is the beginning of the text, and its bytes are a beginning of the body, bad bytes aside. */
  lemma {:induction false} MessageIsWhole(e: Env, body: seq<byte>)
    requires MessageOf(e, body).Raw?
    ensures |MessageOf(e, body).text| <= MAX_MESSAGE_LENGTH && MessageOf(e, body).text <= Lossy(body)
    ensures MessageOf(e, body).bytes.Some? <==> |MessageOf(e, body).text| == |Lossy(body)| && !WellFormed(body)
    ensures WellFormed(body) ==> Encode(MessageOf(e, body).text) <= body
  {
    hide EnvelopeMessage, IsBlank;
    var runes := Cut(body);
    ShownLength(runes);
    var n := if |runes| > MAX_MESSAGE_LENGTH then MAX_MESSAGE_LENGTH else |runes|;
    assert runes == runes[..n] + runes[n..];
    ShownAppend(runes[..n], runes[n..]);
    ShownLength(runes[..n]);
    assert runes[..|runes|] == runes;
    if WellFormed(body) {
      LossyRoundTrip(body);
      EncodeAppend(Shown(runes[..n]), Shown(runes[n..]));
    }
  }

  /** What is decoded from a body that says `m` and nothing else that is known. */
  function EnvelopeOf(m: string): Value {
    VObj([Slot("error", VObj([Slot("message", VStr(m))]))])
  }

  /** A message is lifted exactly when it is not blank and the body is a document that decodes to an envelope with it. */
  lemma {:induction false} LiftedExact(e: Env, body: seq<byte>, m: string)
    ensures MessageOf(e, body) == Lifted(m) <==>
            !IsBlank(m) && exists item, t :: IsDocument(body, item, t) && Binds(e, t, ENVELOPE, None, EnvelopeOf(m))
  {
    hide IsBlank, IsDocument, Binds, Cut, Decode.Decode, Fits, Blank;
    DecodeExact(e, ENVELOPE, body, EnvelopeOf(m));
    LiftedDecodes(e, body, m);
    BlankEnvelope(m);
    BlankIsBlank();
    EmptyIsNoDocument(body);
  }

  lemma {:induction false} LiftedDecodes(e: Env, body: seq<byte>, m: string)
    ensures MessageOf(e, body) == Lifted(m) <==> !IsBlank(m) && Decode.Decode(e, ENVELOPE, body) == Val(EnvelopeOf(m))
  {
    hide IsBlank, Cut, Decode.Decode, Fits;
    var r := Decode.Decode(e, ENVELOPE, body);
    if r.Val? {
      EnvelopeShape(r.v);
      EnvelopeNames(r.v);
    }
  }

  lemma {:induction false} EnvelopeNames(v: Value)
    requires Fits(v, ENVELOPE)
    ensures v.VObj? && |v.slots| == 1 && v.slots[0].value.VObj? && |v.slots[0].value.slots| == 1 && v.slots[0].value.slots[0].value.VStr?
    ensures v == EnvelopeOf(v.slots[0].value.slots[0].value.s)
  {
    EnvelopeShape(v);
    FitSlotsAt(v.slots, ENVELOPE.fields);
    var inner := v.slots[0].value;
    FitSlotsAt(inner.slots, [Field("message", SString)]);
    assert inner.slots == [inner.slots[0]] && v.slots == [v.slots[0]];
  }

  lemma {:induction false} BlankEnvelope(m: string)
    ensures Blank(EnvelopeOf(m)) ==> m == ""
  {
    var inner := VObj([Slot("message", VStr(m))]);
    if Blank(EnvelopeOf(m)) {
      assert Blank(EnvelopeOf(m).slots[0].value);
      assert Blank(inner.slots[0].value);
    }
  }

  lemma {:induction false} BlankIsBlank()
    ensures IsBlank("")
  {
  }

  lemma {:induction false} EmptyIsNoDocument(body: seq<byte>)
    ensures body == [] ==> forall item, t :: !IsDocument(body, item, t)
  {
    if body == [] {
      forall item, t ensures !IsDocument(body, item, t) {
        DocumentNotEmpty(item, t);
      }
    }
  }

  lemma {:induction false} DocumentNotEmpty(item: JsonGrammar.Item, t: Json.Node)
    ensures !IsDocument([], item, t)
  {
    if IsDocument([], item, t) {
      ParseExact([], t);
      NothingParsed();
    }
  }

  lemma {:induction false} NothingParsed()
    ensures Json.Parse([], false).Fail?
  {
    assert Json.SkipWs([], 0) == 0;
  }

  /** The plain envelope: one error with one message. */
  lemma {:induction false} EnvelopeLifts(e: Env, body: seq<byte>, item: JsonGrammar.Item, m: string, plain: bool)
    requires IsDocument(body, item, Json.Obj([Json.Member("error", Json.Obj([Json.Member("message", Json.Str(m, plain))]))]))
    requires !IsBlank(m)
    ensures MessageOf(e, body) == Lifted(m)
  {
    hide IsBlank, IsDocument, Cut;
    var inner := Json.Obj([Json.Member("message", Json.Str(m, plain))]);
    var t := Json.Obj([Json.Member("error", inner)]);
    OneMember(e, "message", Json.Str(m, plain), SString, VStr(m));
    OneMember(e, "error", inner, SStruct([Field("message", SString)]), VObj([Slot("message", VStr(m))]));
    BindExact(e, t, ENVELOPE, None, EnvelopeOf(m));
    LiftedExact(e, body, m);
  }

  /** An object of one member, for a struct of that one field. */
  lemma {:induction false} OneMember(e: Env, name: string, node: Json.Node, schema: Schema, v: Value)
    requires Bind(e, node, schema, Some(Zero(schema))) == Val(v)
    ensures Bind(e, Json.Obj([Json.Member(name, node)]), SStruct([Field(name, schema)]), None) == Val(VObj([Slot(name, v)]))
    ensures Fits(Zero(SStruct([Field(name, schema)])), SStruct([Field(name, schema)]))
    ensures Bind(e, Json.Obj([Json.Member(name, node)]), SStruct([Field(name, schema)]), Some(Zero(SStruct([Field(name, schema)])))) == Val(VObj([Slot(name, v)]))
  {
    hide Fits, Zero;
    var fields := [Field(name, schema)];
    var into := ZeroSlots(fields);
    ZeroSlotAt(fields, 0);
    assert into == [Slot(name, Zero(schema))];
    LookupExact(e, fields, name, 0);
    assert fields[0].name == name;
    BindOneMember(e, Json.Member(name, node), fields, into);
    assert Update(into, 0, v) == [Slot(name, v)];
    ZeroStruct(fields);
  }

  lemma {:induction false} ZeroStruct(fields: seq<Field>)
    ensures Zero(SStruct(fields)) == VObj(ZeroSlots(fields))
  {
  }

  /** Anything else is shown as it reads, at most 500 characters of it; and it is no message when that is blank. */
  lemma {:induction false} MessageExact(e: Env, body: seq<byte>)
    requires !MessageOf(e, body).Lifted?
    ensures MessageOf(e, body).NoMessage? <==> IsBlank(Lossy(body))
    ensures !IsBlank(Lossy(body)) ==>
      MessageOf(e, body) == if |Lossy(body)| > 500 then Raw(Lossy(body)[..500], None) else Raw(Lossy(body), if WellFormed(body) then None else Some(body))
  {
    hide EnvelopeMessage, IsBlank, Lossy;
    LossyIsShown(body);
    var runes := Cut(body);
    ShownLength(runes);
    if |runes| > MAX_MESSAGE_LENGTH {
      assert runes == runes[..MAX_MESSAGE_LENGTH] + runes[MAX_MESSAGE_LENGTH..];
      ShownAppend(runes[..MAX_MESSAGE_LENGTH], runes[MAX_MESSAGE_LENGTH..]);
      ShownLength(runes[..MAX_MESSAGE_LENGTH]);
    }
  }

  lemma {:induction false} ShownLength(rs: seq<Rune>)
    ensures |Shown(rs)| == |rs|
  {
    if rs != [] { ShownLength(rs[1..]); }
  }

  /**
   The three scanners agree: bytes that need no escape read, between quotes, as the very text that a message is cut
   from and that a text column holds, one replacement character for each byte that is no part of a rune.
   */
  lemma {:induction false} ScannersAgree(e: Env, b: seq<byte>)
    requires JsonComplete.AllRaw(b)
    ensures Json.RStr(b + [0x22], 0) == Json.Ok(Json.Quoted(Lossy(b), JsonComplete.AllAscii(b)), |b| + 1)
    ensures MessageOf(e, b).Raw? ==> MessageOf(e, b).text == if |Lossy(b)| > MAX_MESSAGE_LENGTH then Lossy(b)[..MAX_MESSAGE_LENGTH] else Lossy(b)
  {
    hide EnvelopeMessage, IsBlank, Lossy;
    var s := b + [0x22];
    assert s[0..|b|] == b;
    JsonComplete.RawRead(s, 0, |b|);
    assert Lossy(b) + "" == Lossy(b);
    LossyIsShown(b);
    var runes := Cut(b);
    ShownLength(runes);
    if |runes| > MAX_MESSAGE_LENGTH {
      assert runes == runes[..MAX_MESSAGE_LENGTH] + runes[MAX_MESSAGE_LENGTH..];
      ShownAppend(runes[..MAX_MESSAGE_LENGTH], runes[MAX_MESSAGE_LENGTH..]);
      ShownLength(runes[..MAX_MESSAGE_LENGTH]);
    }
  }

  lemma {:induction false} LossyIsShown(b: seq<byte>)
    ensures Lossy(b) == Shown(Cut(b))
  {
  }

  // --- readCapped ---------------------------------------------------------------------------

  datatype Chunk = Chunk(bytes: seq<byte>) | Done | Failed

  function Arrived(answers: seq<Chunk>): seq<byte> {
    if answers == [] || !answers[0].Chunk? then [] else answers[0].bytes + Arrived(answers[1..])
  }

  /** `readCapped`: at most `limit` bytes of what arrived before the end or a failure. */
  method ReadCapped(answers: seq<Chunk>, limit: nat) returns (bytes: seq<byte>)
    requires (answers != [] && !answers[|answers| - 1].Chunk?) || |Arrived(answers)| >= limit  // the stream ends, or is long enough
    ensures bytes == if |Arrived(answers)| > limit then Arrived(answers)[..limit] else Arrived(answers)
  {
    var got: seq<byte> := [];
    var i := 0;
    while |got| < limit
      invariant 0 <= i <= |answers|
      invariant Arrived(answers) == got + Arrived(answers[i..])
      invariant answers != [] && !answers[|answers| - 1].Chunk? ==> i < |answers|
      decreases |answers| - i
    {
      if !answers[i].Chunk? { break; }
      assert answers[i..][1..] == answers[i + 1..];
      Assoc(got, answers[i].bytes, Arrived(answers[i + 1..]));
      got := got + answers[i].bytes;
      i := i + 1;
    }
    if |got| >= limit {
      assert |Arrived(answers)| > limit ==> Arrived(answers)[..limit] == got[..limit];
      return got[..limit];
    }
    return got;
  }
}
