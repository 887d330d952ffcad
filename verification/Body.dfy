/** Reading a request body under a cap, and what the cap does to verdicts. */
module Body {
  import opened Options
  import opened Utf8
  import opened Json
  import opened JsonGrammar
  import opened JsonErrors
  import opened JsonSound
  import JsonReader
  import opened Decode
  import opened DecodeMerge

  // --- readBody ------------------------------------------------------------------------

  datatype Event = Data(chunk: seq<byte>) | End | Close | Error

  datatype Outcome = Pending | Read(bytes: seq<byte>, exceeded: bool) | CallerGone

  function Joined(chunks: seq<seq<byte>>): seq<byte> {
    if chunks == [] then [] else Joined(chunks[..|chunks| - 1]) + chunks[|chunks| - 1]
  }

  /** What the events come to, `got` having arrived before them. */
  function Expect(limit: nat, got: seq<byte>, events: seq<Event>): Outcome
    decreases |events|
  {
    if events == [] then Pending
    else
      match events[0]
      case Data(chunk) =>
        if |got + chunk| > limit then Read((got + chunk)[..limit], true) else Expect(limit, got + chunk, events[1..])
      case End => Read(got, false)
      case _ => CallerGone
  }

  /** The promise of readBody with its four listeners. */
  class BodyReader {
    const limit: nat
    var chunks: seq<seq<byte>>
    var size: nat
    var settled: bool
    var listening: bool
    var paused: bool
    var outcome: Outcome
    ghost var settlements: nat

    ghost predicate Valid()
      reads this
    {
      && size == |Joined(chunks)|
      && listening == !settled
      && settlements == (if settled then 1 else 0)
      && (settled <==> outcome != Pending)
      && (!settled ==> size <= limit)
    }

    constructor (limit: nat)
      ensures Valid() && this.limit == limit && outcome == Pending && Joined(chunks) == []
    {
      this.limit := limit;
      chunks, size := [], 0;
      settled, listening, paused := false, true, false;
      outcome, settlements := Pending, 0;
    }

    /** True for the one caller that settles; the listeners go with it. */
    method Settle() returns (first: bool)
      modifies this
      ensures first == !old(settled)
      ensures settled && listening == (old(settled) && old(listening)) && settlements == old(settlements) + (if first then 1 else 0)
      ensures chunks == old(chunks) && size == old(size) && paused == old(paused) && outcome == old(outcome)
    {
      if settled { return false; }
      settled := true;
      listening := false;
      settlements := settlements + 1;
      return true;
    }

    method OnData(chunk: seq<byte>)
      requires Valid() && listening
      modifies this
      ensures Valid()
      ensures old(Joined(chunks)) + chunk == Joined(chunks)
      ensures outcome == if |Joined(chunks)| > limit then Read(Joined(chunks)[..limit], true) else Pending
    {
      size := size + |chunk|;
      assert (chunks + [chunk])[..|chunks|] == chunks;
      chunks := chunks + [chunk];
      if size <= limit { return; }
      var first := Settle();
      if !first { return; }
      paused := true;
      outcome := Read(Joined(chunks)[..limit], true);
    }

    method OnEnd()
      requires Valid() && listening
      modifies this
      ensures Valid() && chunks == old(chunks) && outcome == Read(Joined(chunks), false)
    {
      var first := Settle();
      if first { outcome := Read(Joined(chunks), false); }
    }

    method OnGone()
      requires Valid() && listening
      modifies this
      ensures Valid() && chunks == old(chunks) && outcome == CallerGone
    {
      var first := Settle();
      if first { outcome := CallerGone; }
    }

    /** The emitter calls only listeners that are still attached. */
    method Dispatch(ev: Event)
      requires Valid()
      modifies this
      ensures Valid()
      ensures old(settled) ==> settled && outcome == old(outcome) && chunks == old(chunks)
      ensures !old(settled) ==> ev.Data? ==> Joined(chunks) == old(Joined(chunks)) + ev.chunk
      ensures !old(settled) ==>
        outcome == (match ev
                    case Data(_) => if |Joined(chunks)| > limit then Read(Joined(chunks)[..limit], true) else Pending
                    case End => Read(old(Joined(chunks)), false)
                    case _ => CallerGone)
    {
      if !listening { return; }
      match ev
      case Data(chunk) => OnData(chunk);
      case End => OnEnd();
      case Close => OnGone();
      case Error => OnGone();
    }

    /** Over every interleaving of events the promise settles at most once, and then no listener is left. */
    method Run(events: seq<Event>)
      requires Valid() && outcome == Pending && Joined(chunks) == []
      modifies this
      ensures Valid() && settlements <= 1 && listening == (outcome == Pending)
      ensures outcome == Expect(limit, [], events)
    {
      var i := 0;
      while i < |events|
        invariant 0 <= i <= |events| && Valid()
        invariant (if settled then outcome else Expect(limit, Joined(chunks), events[i..])) == Expect(limit, [], events)
      {
        assert events[i..][1..] == events[i + 1..];
        Dispatch(events[i]);
        i := i + 1;
      }
    }
  }

  // --- the chunking does not matter ---------------------------------------------------------

  /** All the bytes of a run of data events. */
  function Bytes(events: seq<Event>): seq<byte>
    requires forall ev <- events :: ev.Data?
  {
    if events == [] then [] else events[0].chunk + Bytes(events[1..])
  }

  lemma {:induction false} ExpectData(limit: nat, got: seq<byte>, data: seq<Event>, rest: seq<Event>)
    requires |got| <= limit && forall ev <- data :: ev.Data?
    ensures Expect(limit, got, data + rest) ==
            if |got + Bytes(data)| > limit then Read((got + Bytes(data))[..limit], true)
            else Expect(limit, got + Bytes(data), rest)
    decreases |data|
  {
    if data == [] {
      assert data + rest == rest && got + Bytes(data) == got;
    } else {
      var chunk := data[0].chunk;
      assert (data + rest)[0] == data[0] && (data + rest)[1..] == data[1..] + rest;
      Assoc(got, chunk, Bytes(data[1..]));
      if |got + chunk| <= limit {
        ExpectData(limit, got + chunk, data[1..], rest);
      } else {
        assert (got + Bytes(data))[..limit] == (got + chunk)[..limit];
      }
    }
  }

  /**
   Whatever the chunks, the outcome is that of the bytes: the first `limit` of them and `exceeded` exactly when there
   are more; else all of them at `end`, and CallerGone at a close or an error that came first.
   */
  lemma {:induction false} ChunkingIsNothing(limit: nat, data: seq<Event>, last: Event, later: seq<Event>)
    requires (forall ev <- data :: ev.Data?) && !last.Data?
    ensures Expect(limit, [], data + [last] + later) ==
            if |Bytes(data)| > limit then Read(Bytes(data)[..limit], true)
            else if last.End? then Read(Bytes(data), false)
            else CallerGone
    ensures Expect(limit, [], data) == if |Bytes(data)| > limit then Read(Bytes(data)[..limit], true) else Pending
  {
    ExpectData(limit, [], data, [last] + later);
    ExpectData(limit, [], data, []);
    assert data + [] == data && [] + Bytes(data) == Bytes(data);
    assert data + [last] + later == data + ([last] + later);
  }

  // --- the cap and the verdict -----------------------------------------------------------------

  /** For a struct schema what a prefix of the body decides, the whole body decides alike; only an end of input may be due to the cut. */
  lemma {:induction false} PrefixDecides(e: Env, schema: Schema, b: seq<byte>, s: seq<byte>)
    requires schema.SStruct?
    ensures DecodeFirst(e, schema, b).Decoded? ==> DecodeFirst(e, schema, b + s) == DecodeFirst(e, schema, b)
    ensures DecodeFirst(e, schema, b).Refused? ==> !DecodeFirst(e, schema, b + s).Decoded?
  {
    hide Parse, AllWs, BindMembers, Zero, Fits;
    var r := Parse(b, true);
    if r.Fail? {
      if !r.eof { RefusedForGood(b, s, true); }
    } else if r.v.Num? {
      NumberStaysNumber(b, s);
    } else {
      FirstStable(b, s);
    }
  }

  /** And an end of input is never final: some longer body has a first value. */
  lemma {:induction false} EndOfInputIsProvisional(e: Env, schema: Schema, b: seq<byte>)
    requires DecodeFirst(e, schema, b).NoValue? || DecodeFirst(e, schema, b).CutShort?
    ensures exists s: seq<byte> :: Parse(b + s, true).Ok?
  {
    hide Parse, AllWs, Bind;
    EofExact(b, true);
  }

  datatype Verdict = Accepted(v: Value) | TooLarge | BadRequest

  /** `decodeBody`'s answer to what was read. */
  function DecodeBody(e: Env, schema: Schema, bytes: seq<byte>, exceeded: bool): Verdict {
    match DecodeFirst(e, schema, bytes)
    case Decoded(v) => Accepted(v)
    case CutShort => if exceeded then TooLarge else BadRequest
    case _ => BadRequest
  }

  /** The verdict on a body read under the cap, against the body itself. What the white space leaves open, CapExact decides. */
  lemma {:induction false} CapVerdict(e: Env, schema: Schema, whole: seq<byte>, limit: nat)
    requires schema.SStruct?
    ensures
      var cut := if |whole| > limit then whole[..limit] else whole;
      var verdict := DecodeBody(e, schema, cut, |whole| > limit);
      && (verdict.Accepted? ==> DecodeFirst(e, schema, whole) == Decoded(verdict.v))
      && (verdict.BadRequest? ==> !DecodeFirst(e, schema, whole).Decoded? || (|whole| > limit && AllWs(cut)))
      && (verdict.TooLarge? ==> |whole| > limit && exists s: seq<byte> :: Parse(cut + s, true).Ok?)
      && (|whole| <= limit ==> (verdict.Accepted? <==> DecodeFirst(e, schema, whole).Decoded?))
  {
    hide Parse, Bind, AllWs;
    var cut := if |whole| > limit then whole[..limit] else whole;
    var rest := if |whole| > limit then whole[limit..] else [];
    assert whole == cut + rest;
    PrefixDecides(e, schema, cut, rest);
    if DecodeFirst(e, schema, cut).CutShort? {
      EndOfInputIsProvisional(e, schema, cut);
    }
    FirstKinds(e, schema, cut);
  }

  lemma {:induction false} FirstKinds(e: Env, schema: Schema, b: seq<byte>)
    ensures DecodeFirst(e, schema, b).NoValue? ==> AllWs(b)
    ensures DecodeFirst(e, schema, b).CutShort? ==> !AllWs(b)
  {
    hide Parse, Bind, AllWs;
  }

  /**
   Where the cap does change a verdict: a cut that is all white space is refused as "EOF", not as too large, and the
   body it was cut from may be accepted.
   */
  lemma {:induction false} WhiteSpaceOverTheCap(e: Env, schema: Schema, cut: seq<byte>)
    requires schema.SStruct? && AllWs(cut)
    ensures DecodeBody(e, schema, cut, true) == BadRequest
    ensures DecodeFirst(e, schema, cut + [0x7b, 0x7d]) == Decoded(Zero(schema))
  {
    hide Parse, BeginsWith;
    NothingInWhiteSpace(cut);
    var body := cut + [0x7b, 0x7d];
    EmptyObjectBegins(cut);
    ParseFirstExact(body, Obj([]), |body|);
  }

  lemma {:induction false} NothingInWhiteSpace(cut: seq<byte>)
    requires AllWs(cut)
    ensures Parse(cut, true) == Fail(true)
  {
    hide RValue;
    SkipWsOver(cut, 0, cut);
    JsonReader.ValueSkipsWs(cut, 0, 0);
    NoItemsAtEnd(cut, 0);
  }

  lemma {:induction false} EmptyObjectBegins(cut: seq<byte>)
    requires AllWs(cut)
    ensures BeginsWith(cut + [0x7b, 0x7d], |cut + [0x7b, 0x7d]|, Obj([]), cut, CEmptyObj([]))
  {
    hide AllWs;
    var body := cut + [0x7b, 0x7d];
    assert Yield(CEmptyObj([])) == [0x7b, 0x7d];
    assert body[..|body|] == body;
    assert AllWs([]) by { NoWhiteSpace(); }
  }

  lemma {:induction false} NoWhiteSpace()
    ensures AllWs([])
  {
  }

  /**
   What the first value of a body comes to. Decoded: the body begins with a value, and that one fits. Nothing but white
   space, and a value that breaks off, are told apart from what no further byte could mend.
   */
  lemma {:induction false} FirstExact(e: Env, schema: Schema, b: seq<byte>)
    ensures forall v :: DecodeFirst(e, schema, b) == Decoded(v) <==>
            exists k, t, before, c :: BeginsWith(b, k, t, before, c) && Binds(e, t, schema, None, v)
    ensures DecodeFirst(e, schema, b).NoValue? <==> AllWs(b)
    ensures DecodeFirst(e, schema, b).CutShort? <==>
            && !AllWs(b)
            && (forall k, t, before, c :: !BeginsWith(b, k, t, before, c))
            && exists s, k, t, before, c :: BeginsWith(b + s, k, t, before, c)
  {
    hide Parse, Bind, Binds, BeginsWith, AllWs;
    forall v ensures DecodeFirst(e, schema, b) == Decoded(v) <==> exists k, t, before, c :: BeginsWith(b, k, t, before, c) && Binds(e, t, schema, None, v) {
      FirstDecoded(e, schema, b, v);
    }
    if AllWs(b) { NothingInWhiteSpace(b); }
    FirstValueThere(b);
    EofExact(b, true);
    forall s: seq<byte> ensures Parse(b + s, true).Ok? <==> exists k, t, before, c :: BeginsWith(b + s, k, t, before, c) {
      FirstValueThere(b + s);
    }
  }

  lemma {:induction false} FirstValueThere(b: seq<byte>)
    ensures Parse(b, true).Ok? <==> exists k, t, before, c :: BeginsWith(b, k, t, before, c)
  {
    hide Parse, BeginsWith;
    if Parse(b, true).Ok? {
      ParseFirstExact(b, Parse(b, true).v, Parse(b, true).next);
    }
    forall k, t, before, c | BeginsWith(b, k, t, before, c) ensures Parse(b, true).Ok? {
      ParseFirstExact(b, t, k);
    }
  }

  lemma {:induction false} FirstDecoded(e: Env, schema: Schema, b: seq<byte>, v: Value)
    ensures DecodeFirst(e, schema, b) == Decoded(v) <==>
            exists k, t, before, c :: BeginsWith(b, k, t, before, c) && Binds(e, t, schema, None, v)
  {
    hide Parse, Bind, Binds, BeginsWith;
    if DecodeFirst(e, schema, b) == Decoded(v) {
      var t := Parse(b, true).v;
      ParseFirstExact(b, t, Parse(b, true).next);
      BindExact(e, t, schema, None, v);
    }
    forall k, t, before, c | BeginsWith(b, k, t, before, c) && Binds(e, t, schema, None, v) ensures DecodeFirst(e, schema, b) == Decoded(v) {
      ParseFirstExact(b, t, k);
      BindExact(e, t, schema, None, v);
    }
  }

  /**
   The verdict on the bytes that were read: a value that is there and fits is accepted, however much was cut off; too
   large is only what breaks off in a value where bytes were cut off.
   */
  lemma {:induction false} VerdictExact(e: Env, schema: Schema, bytes: seq<byte>, exceeded: bool)
    ensures forall v :: DecodeBody(e, schema, bytes, exceeded) == Accepted(v) <==>
            exists k, t, before, c :: BeginsWith(bytes, k, t, before, c) && Binds(e, t, schema, None, v)
    ensures DecodeBody(e, schema, bytes, exceeded).TooLarge? <==>
            && exceeded && !AllWs(bytes)
            && (forall k, t, before, c :: !BeginsWith(bytes, k, t, before, c))
            && exists s, k, t, before, c :: BeginsWith(bytes + s, k, t, before, c)
  {
    hide DecodeFirst, BeginsWith, Binds, AllWs;
    FirstExact(e, schema, bytes);
    forall v ensures DecodeBody(e, schema, bytes, exceeded) == Accepted(v) <==> DecodeFirst(e, schema, bytes) == Decoded(v) { }
  }

  /**
   The cap never turns a body that would be accepted into a bad request, whatever was cut off, exactly when what is left
   is not all white space: all a caller has to look at is the bytes that were read.
   */
  lemma {:induction false} CapExact(e: Env, schema: Schema, cut: seq<byte>)
    requires schema.SStruct?
    ensures !AllWs(cut) <==>
            forall rest: seq<byte> | rest != [] :: DecodeBody(e, schema, cut, true).BadRequest? ==> !DecodeFirst(e, schema, cut + rest).Decoded?
  {
    hide Parse, Bind, AllWs;
    if AllWs(cut) {
      WhiteSpaceOverTheCap(e, schema, cut);
      var rest: seq<byte> := [0x7b, 0x7d];
      assert rest != [] && DecodeBody(e, schema, cut, true).BadRequest? && DecodeFirst(e, schema, cut + rest).Decoded?;
    } else {
      FirstKinds(e, schema, cut);
      forall rest: seq<byte> | rest != [] && DecodeBody(e, schema, cut, true).BadRequest? ensures !DecodeFirst(e, schema, cut + rest).Decoded? {
        PrefixDecides(e, schema, cut, rest);
      }
    }
  }
}
