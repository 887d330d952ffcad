/**
 The iterative parser of gateway/json.ts, with its shared index, its output buffer and its explicit stack of
 open frames.
 */
module JsonReader {
  import opened Utf8
  import opened Json
  import opened Options

  // --- facts about strings ----------------------------------------------------------

  lemma {:induction false} PrependAppend(s: string, p: bool, t: string, q: bool, r: Res<Quoted>)
    ensures Prepend(s, p, Prepend(t, q, r)) == Prepend(s + t, p && q, r)
  {
    if r.Ok? {
      assert s + (t + r.v.text) == (s + t) + r.v.text;
    }
  }

  lemma {:induction false} LossyRune(s: seq<byte>)
    requires IsRune(s)
    ensures WellFormed(s) && Lossy(s) == [DecodeRune(s)]
  {
    assert s[0..|s|] == s && s[|s|..] == [];
    assert Cut([]) == [];
    assert Cut(s) == [Good(DecodeRune(s))];
    assert Shown(Cut(s)) == [DecodeRune(s)] + Shown(Cut(s)[1..]);
  }

  lemma {:induction false} LossySnoc(a: seq<byte>, s: seq<byte>)
    requires WellFormed(a) && IsRune(s)
    ensures WellFormed(a + s) && Lossy(a + s) == Lossy(a) + [DecodeRune(s)]
  {
    LossyRune(s);
    CutAppend(a, s);
    LossyAppend(a, s);
  }

  predicate IsPlainByte(c: int) {
    0x20 <= c < 0x80 && c != 0x22 && c != 0x5c
  }

  lemma {:induction false} AsciiLossy(b: seq<byte>)
    requires forall k | 0 <= k < |b| :: b[k] < 0x80
    ensures WellFormed(b) && Lossy(b) == Latin1(b)
  {
    if b != [] {
      var m := |b| - 1;
      AsciiLossy(b[..m]);
      LossySnoc(b[..m], b[m..]);
      assert b == b[..m] + b[m..];
      assert Latin1(b) == Latin1(b[..m]) + [b[m] as char];
    } else {
      assert Cut(b) == [];
    }
  }

  /** The string whose beginning, not plain, reads `text`, and which goes on at `i`. */
  function Behind(b: seq<byte>, text: string, i: nat): Res<Quoted>
    requires i <= |b|
  {
    Prepend(text, false, RStr(b, i))
  }

  lemma {:induction false} StepPlain(b: seq<byte>, text: string, i: nat)
    requires i < |b| && IsPlainByte(b[i])
    ensures Behind(b, text, i) == Behind(b, text + [b[i] as char], i + 1)
  {
    PrependAppend(text, false, [b[i] as char], true, RStr(b, i + 1));
  }

  lemma {:induction false} StepRune(b: seq<byte>, text: string, i: nat)
    requires i < |b| && b[i] >= 0x80 && ValidLength(b, i) > 0
    ensures var s := b[i..i + ValidLength(b, i)];
            IsRune(s) && Behind(b, text, i) == Behind(b, text + [DecodeRune(s)], i + |s|)
  {
    ValidLengthLocal(b, i);
    var s := b[i..i + ValidLength(b, i)];
    PrependAppend(text, false, [DecodeRune(s)], false, RStr(b, i + |s|));
  }

  lemma {:induction false} StepBad(b: seq<byte>, text: string, i: nat)
    requires i < |b| && b[i] >= 0x80 && ValidLength(b, i) == 0
    ensures Behind(b, text, i) == Behind(b, text + [REPLACEMENT], i + 1)
  {
    PrependAppend(text, false, [REPLACEMENT], false, RStr(b, i + 1));
  }

  lemma {:induction false} StepEscape(b: seq<byte>, text: string, i: nat)
    requires i < |b| && b[i] == 0x5c
    ensures var e := Unescape(b, i);
            Behind(b, text, i) == if e.Fail? then Fail(e.eof) else Behind(b, text + [e.v], e.next)
  {
    var e := Unescape(b, i);
    if e.Ok? {
      PrependAppend(text, false, [e.v], false, RStr(b, e.next));
    }
  }

  lemma {:induction false} StepClose(b: seq<byte>, text: string, i: nat)
    requires i < |b| && b[i] == 0x22
    ensures Behind(b, text, i) == Ok(Quoted(text, false), i + 1)
  {
    assert text + "" == text;
  }

  /** The same steps on the fast path, where nothing is set aside yet. */
  lemma {:induction false} PlainStart(b: seq<byte>, i: nat)
    requires i <= |b|
    ensures RStr(b, i) == Prepend(Latin1(b[i..i]), true, RStr(b, i))
  {
    hide RStr;
    assert Latin1(b[i..i]) == "";
    var r := RStr(b, i);
    if r.Ok? { assert "" + r.v.text == r.v.text; }
  }

  lemma {:induction false} PlainStep(b: seq<byte>, start: nat, i: nat)
    requires start <= i < |b| && IsPlainByte(b[i])
    ensures Prepend(Latin1(b[start..i]), true, RStr(b, i)) == Prepend(Latin1(b[start..i + 1]), true, RStr(b, i + 1))
  {
    PrependAppend(Latin1(b[start..i]), true, [b[i] as char], true, RStr(b, i + 1));
    assert b[start..i + 1] == b[start..i] + [b[i]];
    assert Latin1(b[start..i + 1]) == Latin1(b[start..i]) + [b[i] as char];
  }

  lemma {:induction false} PlainClose(b: seq<byte>, text: string, i: nat)
    requires i < |b| && b[i] == 0x22
    ensures Prepend(text, true, RStr(b, i)) == Ok(Quoted(text, true), i + 1)
  {
    assert text + "" == text;
  }

  lemma {:induction false} PlainStop(b: seq<byte>, text: string, i: nat)
    requires i < |b| && b[i] < 0x20
    ensures Prepend(text, true, RStr(b, i)) == Fail(false)
  {
  }

  lemma {:induction false} StepStop(b: seq<byte>, text: string, i: nat)
    requires i <= |b| && At(b, i) < 0x20
    ensures Behind(b, text, i) == Fail(i >= |b|)
  {
  }

  function Concat(parts: seq<string>): string {
    if parts == [] then "" else Concat(parts[..|parts| - 1]) + parts[|parts| - 1]
  }

  lemma {:induction false} ConcatSnoc(parts: seq<string>, s: string)
    ensures Concat(parts + [s]) == Concat(parts) + s
  {
    assert (parts + [s])[..|parts|] == parts;
  }

  // --- facts about the stack ----------------------------------------------------------

  datatype Frame = Frame(obj: bool, members: seq<Member>, items: seq<Node>, key: string)

  /** What becomes of frame `f`, the d-th open one, once its current value has been read. */
  function Resume(b: seq<byte>, f: Frame, d: nat, r: Res<Node>): (res: Res<Node>)
    requires r.Ok? ==> r.next <= |b|
    ensures res.Ok? ==> res.next <= |b|
  {
    match r
    case Fail(eof) => Fail(eof)
    case Ok(v, i) =>
      if f.obj then
        match RMembersRest(b, i, d)
        case Fail(eof) => Fail(eof)
        case Ok(ms, j) => Ok(Obj(f.members + [Member(f.key, v)] + ms), j)
      else
        match RItemsRest(b, i, d)
        case Fail(eof) => Fail(eof)
        case Ok(vs, j) => Ok(Arr(f.items + [v] + vs), j)
  }

  /** The whole value, once the innermost one has been read: the open frames from the top down. */
  function Unwind(b: seq<byte>, stack: seq<Frame>, r: Res<Node>): (res: Res<Node>)
    requires r.Ok? ==> r.next <= |b|
    ensures res.Ok? ==> res.next <= |b|
  {
    if stack == [] then r
    else
      var m := |stack| - 1;
      Unwind(b, stack[..m], Resume(b, stack[m], |stack|, r))
  }

  /** Half a turn of the loop: a whole value, or a frame that waits for its next one. */
  datatype Turn = Whole(node: Node) | Open(frame: Frame)

  /** What is then still to come: nothing, or the value of that frame, the d-th open one. */
  function After(b: seq<byte>, d: nat, i: nat, r: Res<Turn>): Res<Node>
    requires r.Ok? ==> r.next == i <= |b|
  {
    match r
    case Fail(eof) => Fail(eof)
    case Ok(Whole(v), _) => Ok(v, i)
    case Ok(Open(f), _) => Resume(b, f, d, RValue(b, i, d))
  }

  lemma {:induction false} UnwindFail(b: seq<byte>, stack: seq<Frame>, eof: bool)
    ensures Unwind(b, stack, Fail(eof)) == Fail(eof)
  {
    if stack != [] {
      UnwindFail(b, stack[..|stack| - 1], eof);
    }
  }

  lemma {:induction false} ValueSkipsWs(b: seq<byte>, i: nat, d: nat)
    requires i <= |b|
    ensures RValue(b, i, d) == RValue(b, SkipWs(b, i), d)
  {
    var s := SkipWs(b, i);
    assert SkipWs(b, s) == s;
  }

  function MembersOf(b: seq<byte>, key: Res<string>, d: nat): Res<Node>
    requires key.Ok? ==> key.next <= |b|
  {
    match key
    case Fail(eof) => Fail(eof)
    case Ok(k, i) => ObjOf(RMembers(b, i, d, k))
  }

  lemma {:induction false} OpenArray(b: seq<byte>, i: nat, d: nat)
    requires i <= |b|
    ensures Resume(b, Frame(false, [], [], ""), d, RValue(b, i, d)) == ArrOf(RItems(b, i, d))
  {
    match RValue(b, i, d)
    case Fail(_) =>
    case Ok(v, j) =>
      if RItemsRest(b, j, d).Ok? {
        assert [] + [v] + RItemsRest(b, j, d).v == [v] + RItemsRest(b, j, d).v;
      }
  }

  lemma {:induction false} OpenObject(b: seq<byte>, i: nat, d: nat, key: string)
    requires i <= |b|
    ensures Resume(b, Frame(true, [], [], key), d, RValue(b, i, d)) == ObjOf(RMembers(b, i, d, key))
  {
    match RValue(b, i, d)
    case Fail(_) =>
    case Ok(v, j) =>
      if RMembersRest(b, j, d).Ok? {
        assert [] + [Member(key, v)] + RMembersRest(b, j, d).v == [Member(key, v)] + RMembersRest(b, j, d).v;
      }
  }

  lemma {:induction false} NextItem(b: seq<byte>, f: Frame, d: nat, v: Node, i: nat)
    requires i <= |b| && !f.obj && At(b, SkipWs(b, i)) == 0x2c
    ensures var j := SkipWs(b, i) + 1;
            Resume(b, f, d, Ok(v, i)) == Resume(b, f.(items := f.items + [v]), d, RValue(b, j, d))
  {
    var j := SkipWs(b, i) + 1;
    assert RItemsRest(b, i, d) == RItems(b, j, d);
    match RValue(b, j, d)
    case Fail(_) =>
    case Ok(w, k) =>
      if RItemsRest(b, k, d).Ok? {
        var vs := RItemsRest(b, k, d).v;
        assert f.items + [v] + ([w] + vs) == (f.items + [v]) + [w] + vs;
      }
  }

  lemma {:induction false} NextMember(b: seq<byte>, f: Frame, d: nat, v: Node, i: nat)
    requires i <= |b| && f.obj && At(b, SkipWs(b, i)) == 0x2c
    ensures var r := RKey(b, SkipWs(b, i) + 1);
            Resume(b, f, d, Ok(v, i)) ==
            if r.Fail? then Fail(r.eof)
            else Resume(b, f.(members := f.members + [Member(f.key, v)], key := r.v), d, RValue(b, r.next, d))
  {
    var r := RKey(b, SkipWs(b, i) + 1);
    if r.Ok? {
      assert RMembersRest(b, i, d) == RMembers(b, r.next, d, r.v);
      match RValue(b, r.next, d)
      case Fail(_) =>
      case Ok(w, k) =>
        if RMembersRest(b, k, d).Ok? {
          var ms := RMembersRest(b, k, d).v;
          assert f.members + [Member(f.key, v)] + ([Member(r.v, w)] + ms)
              == (f.members + [Member(f.key, v)]) + [Member(r.v, w)] + ms;
        }
    }
  }

  lemma {:induction false} ValueContainer(b: seq<byte>, i: nat, d: nat)
    requires i < |b| && (b[i] == 0x7b || b[i] == 0x5b) && d < MAX_DEPTH
    ensures var j := SkipWs(b, i + 1);
            RValue(b, i, d) ==
            if At(b, j) == (if b[i] == 0x7b then 0x7d else 0x5d) then Ok(if b[i] == 0x7b then Obj([]) else Arr([]), j + 1)
            else if b[i] == 0x7b then MembersOf(b, RKey(b, j), d + 1)
            else ArrOf(RItems(b, j, d + 1))
  {
    assert SkipWs(b, i) == i;
  }

  lemma {:induction false} ValueTooDeep(b: seq<byte>, i: nat, d: nat)
    requires i < |b| && (b[i] == 0x7b || b[i] == 0x5b) && d >= MAX_DEPTH
    ensures RValue(b, i, d) == Fail(false)
  {
    assert SkipWs(b, i) == i;
  }

  // --- the parser ---------------------------------------------------------------------

  class Reader {
    const buf: seq<byte>
    var i: nat

    constructor (bytes: seq<byte>)
      ensures buf == bytes && i == 0
    {
      buf := bytes;
      i := 0;
    }

    method Ws()
      requires i <= |buf|
      modifies this
      ensures i == SkipWs(buf, old(i))
    {
      while IsWs(At(buf, i))
        invariant old(i) <= i <= |buf| && SkipWs(buf, i) == SkipWs(buf, old(i))
        decreases |buf| - i
      {
        i := i + 1;
      }
    }

    /** Moves the index only when it refuses, to where it stopped. */
    method ReadHex4(at: nat) returns (r: Res<nat>)
      requires at <= |buf|
      modifies this
      ensures r == Hex4(buf, at)
      ensures r.Ok? ==> i == old(i)
    {
      var v: nat := 0;
      for k := 0 to 4
        invariant at + k <= |buf| && v < HexBound(k) && i == old(i)
        invariant Hex(buf, at, k, v) == Hex4(buf, at)
      {
        var d := HexVal(At(buf, at + k));
        if d < 0 {
          i := at + k;
          return FailAt(buf, i);
        }
        v := v * 16 + d;
      }
      return Ok(v, at + 4);
    }

    /** The escape at the index, as one character. */
    method ReadEscape() returns (r: Res<char>)
      requires i < |buf| && buf[i] == 0x5c
      modifies this
      ensures r == Unescape(buf, old(i))
      ensures r.Ok? ==> i == r.next
    {
      var e := At(buf, i + 1);
      if e == 0x75 {
        var h := ReadHex4(i + 2);
        if h.Fail? { return Fail(h.eof); }
        var cp := h.v;
        i := i + 6;
        if cp >= 0xd800 && cp < 0xe000 {
          var lo: int := -1;
          if cp < 0xdc00 && At(buf, i) == 0x5c && At(buf, i + 1) == 0x75 {
            var l := ReadHex4(i + 2);
            if l.Fail? { return Fail(l.eof); }
            lo := l.v;
          }
          if lo >= 0xdc00 && lo < 0xe000 {
            i := i + 6;
            return Ok(PairOf(cp, lo), i);
          }
          return Ok(REPLACEMENT, i);
        }
        return Ok(cp as char, i);
      } else if SimpleEscape(e) >= 0 {
        i := i + 2;
        return Ok(SimpleEscape(e) as char, i);
      } else {
        i := i + 1;
        return FailAt(buf, i);
      }
    }

    /** The fast path: printable ASCII up to the closing quote, or as far as that goes. */
    method ReadPlain() returns (r: Res<Quoted>, done: bool)
      requires i <= |buf|
      modifies this
      ensures done ==> r == RStr(buf, old(i)) && (r.Ok? ==> i == r.next)
      ensures !done ==> old(i) <= i <= |buf| && (i < |buf| ==> buf[i] == 0x5c || buf[i] >= 0x80)
      ensures !done ==> forall k | old(i) <= k < i :: IsPlainByte(buf[k])
      ensures !done ==> RStr(buf, old(i)) == Prepend(Latin1(buf[old(i)..i]), true, RStr(buf, i))
    {
      hide RStr, Prepend, Latin1;
      var start := i;
      PlainStart(buf, i);
      while i < |buf|
        invariant start <= i <= |buf|
        invariant forall k | start <= k < i :: IsPlainByte(buf[k])
        invariant RStr(buf, start) == Prepend(Latin1(buf[start..i]), true, RStr(buf, i))
        decreases |buf| - i
      {
        var c := buf[i];
        if c == 0x22 {
          var v := Latin1(buf[start..i]);
          PlainClose(buf, v, i);
          i := i + 1;
          return Ok(Quoted(v, true), i), true;
        }
        if c == 0x5c || c >= 0x80 { break; }
        if c < 0x20 {
          PlainStop(buf, Latin1(buf[start..i]), i);
          return FailAt(buf, i), true;
        }
        PlainStep(buf, start, i);
        i := i + 1;
      }
      return Fail(true), false;
    }

    /** The slow path: runs of well-formed text cut out whole, each bad byte one U+FFFD. */
    method ReadRuns(start: nat) returns (r: Res<Quoted>)
      requires start <= i <= |buf|
      requires forall k | start <= k < i :: IsPlainByte(buf[k])
      modifies this
      ensures r == Behind(buf, Latin1(buf[start..old(i)]), old(i))
      ensures r.Ok? ==> i == r.next
    {
      hide RStr, Prepend, Behind, Cut, Shown, ValidLength;
      ghost var all := Behind(buf, Latin1(buf[start..i]), i);
      AsciiLossy(buf[start..i]);
      var parts: seq<string> := [];
      var run: nat := start;
      assert Concat(parts) + Lossy(buf[run..i]) == Lossy(buf[run..i]);
      while i < |buf|
        invariant run <= i <= |buf| && WellFormed(buf[run..i])
        invariant all == Behind(buf, Concat(parts) + Lossy(buf[run..i]), i)
        decreases |buf| - i
      {
        var c := buf[i];
        if c == 0x22 {
          StepClose(buf, Concat(parts) + Lossy(buf[run..i]), i);
          parts := Flush(parts, run, i);
          i := i + 1;
          return Ok(Quoted(Concat(parts), false), i);
        }
        if c < 0x20 {
          StepStop(buf, Concat(parts) + Lossy(buf[run..i]), i);
          return FailAt(buf, i);
        }
        if c == 0x5c {
          var e := TakeEscape(parts, run);
          if e.Fail? { return Fail(e.eof); }
          parts, run := e.v, i;
        } else if c < 0x80 {
          GrowPlain(parts, run, i);
          i := i + 1;
        } else {
          parts, run := TakeHigh(parts, run);
        }
      }
      StepStop(buf, Concat(parts) + Lossy(buf[run..i]), i);
      return FailAt(buf, i);
    }

    /** An escape: the run before it and its character become parts. */
    method TakeEscape(parts: seq<string>, run: nat) returns (r: Res<seq<string>>)
      requires run <= i < |buf| && buf[i] == 0x5c && WellFormed(buf[run..i])
      modifies this
      ensures r.Ok? ==> old(i) < i <= |buf| && r.next == i && WellFormed(buf[i..i])
      ensures Behind(buf, Concat(parts) + Lossy(buf[run..old(i)]), old(i)) ==
        if r.Ok? then Behind(buf, Concat(r.v) + Lossy(buf[i..i]), i) else Fail(r.eof)
    {
      StepEscape(buf, Concat(parts) + Lossy(buf[run..i]), i);
      var out := Flush(parts, run, i);
      var e := ReadEscape();
      if e.Fail? { return Fail(e.eof); }
      out := Append(out, e.v, i);
      return Ok(out, i);
    }

    /** A byte above 0x7f: a sequence that joins the run, or a bad byte that becomes a part of its own. */
    method TakeHigh(parts: seq<string>, run: nat) returns (out: seq<string>, start: nat)
      requires run <= i < |buf| && buf[i] >= 0x80 && WellFormed(buf[run..i])
      modifies this
      ensures old(i) < i <= |buf| && start <= i && WellFormed(buf[start..i])
      ensures Behind(buf, Concat(parts) + Lossy(buf[run..old(i)]), old(i)) == Behind(buf, Concat(out) + Lossy(buf[start..i]), i)
    {
      hide RStr, Prepend, Behind, Cut, Shown, Concat;
      var len := ValidLength(buf, i);
      if len > 0 {
        GrowRune(parts, run, i);
        i := i + len;
        return parts, run;
      }
      StepBad(buf, Concat(parts) + Lossy(buf[run..i]), i);
      out := Flush(parts, run, i);
      i := i + 1;
      out := Append(out, REPLACEMENT, i);
      return out, i;
    }

    lemma {:induction false} GrowRune(parts: seq<string>, run: nat, at: nat)
      requires run <= at < |buf| && buf[at] >= 0x80 && ValidLength(buf, at) > 0 && WellFormed(buf[run..at])
      ensures var to := at + ValidLength(buf, at);
              && WellFormed(buf[run..to])
              && Behind(buf, Concat(parts) + Lossy(buf[run..at]), at) == Behind(buf, Concat(parts) + Lossy(buf[run..to]), to)
    {
      StepRune(buf, Concat(parts) + Lossy(buf[run..at]), at);
      Grow(parts, run, at, ValidLength(buf, at));
    }

    lemma {:induction false} GrowPlain(parts: seq<string>, run: nat, at: nat)
      requires run <= at < |buf| && IsPlainByte(buf[at]) && WellFormed(buf[run..at])
      ensures WellFormed(buf[run..at + 1])
      ensures Behind(buf, Concat(parts) + Lossy(buf[run..at]), at) == Behind(buf, Concat(parts) + Lossy(buf[run..at + 1]), at + 1)
    {
      StepPlain(buf, Concat(parts) + Lossy(buf[run..at]), at);
      Grow(parts, run, at, 1);
      assert DecodeRune(buf[at..at + 1]) == buf[at] as char;
    }

    /** One more part, and an empty run at `at`. */
    method Append(parts: seq<string>, c: char, ghost at: nat) returns (out: seq<string>)
      requires at <= |buf|
      ensures WellFormed(buf[at..at]) && Concat(out) + Lossy(buf[at..at]) == Concat(parts) + [c]
    {
      ConcatSnoc(parts, [c]);
      assert Lossy(buf[at..at]) == "";
      return parts + [[c]];
    }

    /** The pending run, read as UTF-8, appended to the parts. */
    method Flush(parts: seq<string>, run: nat, end: nat) returns (out: seq<string>)
      requires run <= end <= |buf| && WellFormed(buf[run..end])
      ensures Concat(out) == Concat(parts) + Lossy(buf[run..end])
    {
      if end > run {
        ConcatSnoc(parts, Lossy(buf[run..end]));
        return parts + [Lossy(buf[run..end])];
      }
      assert Lossy(buf[run..end]) == "";
      return parts;
    }

    lemma {:induction false} Grow(parts: seq<string>, run: nat, at: nat, len: nat)
      requires run <= at < |buf| && 0 < len && at + len <= |buf| && ValidLength(buf, at) == len
      requires WellFormed(buf[run..at])
      ensures IsRune(buf[at..at + len]) && WellFormed(buf[run..at + len])
      ensures Concat(parts) + Lossy(buf[run..at + len]) == Concat(parts) + Lossy(buf[run..at]) + [DecodeRune(buf[at..at + len])]
    {
      ValidLengthLocal(buf, at);
      LossySnoc(buf[run..at], buf[at..at + len]);
      assert buf[run..at + len] == buf[run..at] + buf[at..at + len];
    }

    /** A string from its opening quote; leaves the index after the closing one. */
    method ReadString() returns (r: Res<Quoted>)
      requires i < |buf| && buf[i] == 0x22
      modifies this
      ensures r == RStr(buf, old(i) + 1)
      ensures r.Ok? ==> i == r.next
    {
      i := i + 1;
      var start := i;
      var fast, done := ReadPlain();
      if done { return fast; }
      assert Behind(buf, Latin1(buf[start..i]), i) == RStr(buf, start);
      r := ReadRuns(start);
    }

    method ReadLiteral(word: seq<byte>, node: Node) returns (r: Res<Node>)
      requires i <= |buf|
      modifies this
      ensures r == RLiteral(buf, old(i), word, node)
      ensures r.Ok? ==> i == r.next
    {
      for k := 0 to |word|
        invariant i == old(i) && i + k <= |buf|
        invariant RWord(buf, i, word, k) == RWord(buf, i, word, 0)
      {
        if At(buf, i + k) != word[k] {
          i := i + k;
          return FailAt(buf, i);
        }
      }
      i := i + |word|;
      return Ok(node, i);
    }

    method Digits()
      requires i <= |buf|
      modifies this
      ensures i == SkipDigits(buf, old(i))
    {
      while IsDigit(At(buf, i))
        invariant old(i) <= i <= |buf| && SkipDigits(buf, i) == SkipDigits(buf, old(i))
        decreases |buf| - i
      {
        i := i + 1;
      }
    }

    method ReadInt() returns (r: Res<()>)
      requires i <= |buf|
      modifies this
      ensures r == RInt(buf, old(i))
      ensures r.Ok? ==> i == r.next
    {
      if At(buf, i) == 0x30 {
        i := i + 1;
      } else if IsDigit(At(buf, i)) {
        Digits();
      } else {
        return FailAt(buf, i);
      }
      return Ok((), i);
    }

    method ReadFrac() returns (r: Res<()>)
      requires i <= |buf|
      modifies this
      ensures r == RFrac(buf, old(i))
      ensures r.Ok? ==> i == r.next
    {
      if At(buf, i) == 0x2e {
        i := i + 1;
        if !IsDigit(At(buf, i)) { return FailAt(buf, i); }
        Digits();
      }
      return Ok((), i);
    }

    method ReadExp() returns (r: Res<()>)
      requires i <= |buf|
      modifies this
      ensures r == RExp(buf, old(i))
      ensures r.Ok? ==> i == r.next
    {
      if At(buf, i) == 0x65 || At(buf, i) == 0x45 {
        i := i + 1;
        if At(buf, i) == 0x2b || At(buf, i) == 0x2d { i := i + 1; }
        if !IsDigit(At(buf, i)) { return FailAt(buf, i); }
        Digits();
      }
      return Ok((), i);
    }

    method ReadNumber() returns (r: Res<Node>)
      requires i <= |buf|
      modifies this
      ensures r == RNumber(buf, old(i))
      ensures r.Ok? ==> i == r.next
    {
      var start := i;
      if At(buf, i) == 0x2d { i := i + 1; }
      var part := ReadInt();
      if part.Fail? { return Fail(part.eof); }
      part := ReadFrac();
      if part.Fail? { return Fail(part.eof); }
      part := ReadExp();
      if part.Fail? { return Fail(part.eof); }
      return Ok(Num(Latin1(buf[start..i])), i);
    }

    method ReadKey() returns (r: Res<string>)
      requires i <= |buf|
      modifies this
      ensures r == RKey(buf, old(i))
      ensures r.Ok? ==> i == r.next
    {
      Ws();
      if At(buf, i) != 0x22 { return FailAt(buf, i); }
      var k := ReadString();
      if k.Fail? { return Fail(k.eof); }
      Ws();
      if At(buf, i) != 0x3a { return FailAt(buf, i); }
      i := i + 1;
      return Ok(k.v.text, i);
    }

    method ReadScalar() returns (r: Res<Node>)
      requires i <= |buf|
      modifies this
      ensures r == RScalar(buf, old(i))
      ensures r.Ok? ==> i == r.next
    {
      var c := At(buf, i);
      if c == 0x22 {
        var s := ReadString();
        r := if s.Fail? then Fail(s.eof) else Ok(Str(s.v.text, s.v.plain), i);
      } else if c == 0x74 {
        r := ReadLiteral(TRUE, Bool(true));
      } else if c == 0x66 {
        r := ReadLiteral(FALSE, Bool(false));
      } else if c == 0x6e {
        r := ReadLiteral(NULL, Null);
      } else if c == 0x2d || IsDigit(c) {
        r := ReadNumber();
      } else {
        r := FailAt(buf, i);
      }
    }

    /** A new frame for the container whose bracket has been read: its key, if it is an object. */
    method OpenFrame(obj: bool, ghost d: nat) returns (r: Res<Frame>)
      requires i <= |buf|
      modifies this
      ensures r.Ok? ==> old(i) <= i <= |buf| && r.next == i
      ensures
        var whole := if obj then MembersOf(buf, RKey(buf, old(i)), d) else ArrOf(RItems(buf, old(i), d));
        whole == if r.Ok? then Resume(buf, r.v, d, RValue(buf, i, d)) else Fail(r.eof)
    {
      if !obj {
        OpenArray(buf, i, d);
        return Ok(Frame(false, [], [], ""), i);
      }
      var k := ReadKey();
      if k.Fail? { return Fail(k.eof); }
      OpenObject(buf, i, d, k.v);
      return Ok(Frame(true, [], [], k.v), i);
    }

    /** The container whose opening bracket is at the index: empty, or one more open frame. */
    method BeginContainer(d: nat) returns (r: Res<Turn>)
      requires i < |buf| && (buf[i] == 0x7b || buf[i] == 0x5b) && d <= MAX_DEPTH
      modifies this
      ensures r.Ok? ==> old(i) < i <= |buf| && r.next == i
      ensures r.Ok? && r.v.Open? ==> d < MAX_DEPTH
      ensures RValue(buf, old(i), d) == After(buf, d + 1, i, r)
    {
      hide RValue, RItems, RMembers, RKey, Resume, RItemsRest, RMembersRest;
      var obj := buf[i] == 0x7b;
      if d >= MAX_DEPTH {
        ValueTooDeep(buf, i, d);
        return FailAt(buf, i);
      }
      ValueContainer(buf, i, d);
      i := i + 1;
      Ws();
      if At(buf, i) == (if obj then 0x7d else 0x5d) {
        i := i + 1;
        return Ok(Whole(if obj then Obj([]) else Arr([])), i);
      }
      var f := OpenFrame(obj, d + 1);
      if f.Fail? { return Fail(f.eof); }
      return Ok(Open(f.v), i);
    }

    /** The first half of a turn of the loop, when there is no value yet. */
    method Begin(d: nat) returns (r: Res<Turn>)
      requires i <= |buf| && d <= MAX_DEPTH
      modifies this
      ensures r.Ok? ==> old(i) < i <= |buf| && r.next == i
      ensures r.Ok? && r.v.Open? ==> d < MAX_DEPTH
      ensures RValue(buf, old(i), d) == After(buf, d + 1, i, r)
    {
      ValueSkipsWs(buf, i, d);
      Ws();
      var c := At(buf, i);
      if c == 0x7b || c == 0x5b {
        r := BeginContainer(d);
      } else {
        var s := ReadScalar();
        if s.Fail? { return Fail(s.eof); }
        return Ok(Whole(s.v), i);
      }
    }

    /** The frame on top goes on after a comma: an object's next key. */
    method GoOn(top: Frame, v: Node, ghost after: nat, ghost d: nat) returns (r: Res<Frame>)
      requires after <= |buf| && At(buf, SkipWs(buf, after)) == 0x2c && i == SkipWs(buf, after) + 1
      modifies this
      ensures r.Ok? ==> after < i <= |buf| && r.next == i
      ensures Resume(buf, top, d, Ok(v, after)) == if r.Ok? then Resume(buf, r.v, d, RValue(buf, i, d)) else Fail(r.eof)
    {
      hide RValue, RItems, RMembers, RKey, Resume, RItemsRest, RMembersRest;
      if !top.obj {
        NextItem(buf, top, d, v, after);
        return Ok(top.(items := top.items + [v]), i);
      }
      NextMember(buf, top, d, v, after);
      var k := ReadKey();
      if k.Fail? { return Fail(k.eof); }
      return Ok(top.(members := top.members + [Member(top.key, v)], key := k.v), i);
    }

    /** The second half: the value joins the frame on top, which goes on or is closed. */
    method Attach(top: Frame, v: Node, ghost d: nat) returns (r: Res<Turn>)
      requires i <= |buf|
      modifies this
      ensures r.Ok? ==> old(i) < i <= |buf| && r.next == i
      ensures Resume(buf, top, d, Ok(v, old(i))) == After(buf, d, i, r)
    {
      ghost var after := i;
      Ws();
      var c := At(buf, i);
      if c == 0x2c {
        i := i + 1;
        var f := GoOn(top, v, after, d);
        if f.Fail? { return Fail(f.eof); }
        return Ok(Open(f.v), i);
      }
      if c != (if top.obj then 0x7d else 0x5d) { return FailAt(buf, i); }
      i := i + 1;
      var members := top.members + [Member(top.key, v)];
      var items := top.items + [v];
      assert members + [] == members && items + [] == items;
      return Ok(Whole(if top.obj then Obj(members) else Arr(items)), i);
    }

    /** The loop over the explicit stack computes what the recursive definition says. */
    method Run(ignoreRest: bool) returns (r: Res<Node>)
      requires i == 0
      modifies this
      ensures r == Parse(buf, ignoreRest)
      ensures r.Ok? ==> i == r.next
    {
      hide RValue, Resume, RItems, RMembers;
      var stack: seq<Frame> := [];
      var value: Option<Node> := None;
      while true
        invariant i <= |buf| && |stack| <= MAX_DEPTH
        invariant Unwind(buf, stack, if value.Some? then Ok(value.value, i) else RValue(buf, i, |stack|)) == RValue(buf, 0, 0)
        decreases |buf| - i
      {
        if value.None? {
          var begun := Begin(|stack|);
          if begun.Fail? {
            UnwindFail(buf, stack, begun.eof);
            return Fail(begun.eof);
          }
          if begun.v.Open? {
            ghost var below := stack;
            stack := stack + [begun.v.frame];
            assert stack[..|stack| - 1] == below;
            continue;
          }
          value := Some(begun.v.node);
        }
        if stack == [] {
          if ignoreRest { return Ok(value.value, i); }
          Ws();
          if i < |buf| { return FailAt(buf, i); }
          return Ok(value.value, i);
        }
        var below := stack[..|stack| - 1];
        var turn := Attach(stack[|stack| - 1], value.value, |stack|);
        if turn.Fail? {
          UnwindFail(buf, below, turn.eof);
          return Fail(turn.eof);
        }
        if turn.v.Open? {
          stack := below + [turn.v.frame];
          assert stack[..|stack| - 1] == below;
          value := None;
        } else {
          stack := below;
          value := Some(turn.v.node);
        }
      }
    }
  }

  method ParseJson(bytes: seq<byte>) returns (r: Res<Node>)
    ensures r == Parse(bytes, false)
  {
    var reader := new Reader(bytes);
    r := reader.Run(false);
  }

  method ParseFirstJson(bytes: seq<byte>) returns (r: Res<Node>)
    ensures r == Parse(bytes, true)
  {
    var reader := new Reader(bytes);
    r := reader.Run(true);
  }
}
