/** Writing an answer in pieces to a socket that may push back or may die. */
module SendJson {
  import opened Decode
  import opened JsonWriter

  /** What the socket says to a write: whether it has room, and whether it is gone by then, or once it was waited for. */
  datatype Reply = Reply(room: bool, diesNow: bool, diesWaiting: bool)

  predicate Dies(r: Reply) {
    r.diesNow || r.diesWaiting
  }

  class Response {
    /** The socket's replies, write by write; any behaviour whatever. */
    const replies: nat -> Reply
    var status: int
    var contentType: string
    /** What reached the socket. */
    var sent: string
    var writes: nat
    var ended: bool
    var destroyed: bool

    constructor (replies: nat -> Reply)
      ensures this.replies == replies && sent == "" && writes == 0 && !ended && !destroyed
    {
      this.replies := replies;
      status, contentType, sent := 0, "", "";
      writes, ended, destroyed := 0, false, false;
    }

    method Write(text: string) returns (full: bool)
      modifies this
      ensures sent == if old(destroyed) then old(sent) else old(sent) + text
      ensures writes == old(writes) + 1 && destroyed == (old(destroyed) || replies(old(writes)).diesNow)
      ensures full == replies(old(writes)).room
      ensures status == old(status) && contentType == old(contentType) && ended == old(ended)
    {
      if !destroyed { sent := sent + text; }
      full := replies(writes).room;
      destroyed := destroyed || replies(writes).diesNow;
      writes := writes + 1;
    }

    /** `drained`: until the socket has room again, or is gone. */
    method Drained()
      requires writes > 0
      modifies this
      ensures sent == old(sent) && writes == old(writes) && status == old(status) && contentType == old(contentType) && ended == old(ended)
      ensures destroyed == (old(destroyed) || replies(writes - 1).diesWaiting)
    {
      destroyed := destroyed || replies(writes - 1).diesWaiting;
    }

    method End(text: string)
      modifies this
      ensures sent == if old(destroyed) then old(sent) else old(sent) + text
      ensures ended && destroyed == old(destroyed) && writes == old(writes) && status == old(status) && contentType == old(contentType)
    {
      if !destroyed { sent := sent + text; }
      ended := true;
    }
  }

  /** JavaScript's length of a piece, in UTF-16 units. */
  function Units(s: string): nat {
    if s == "" then 0 else (if s[0] as int > 0xffff then 2 else 1) + Units(s[1..])
  }

  const CHUNK: nat := 1048576

  lemma {:induction false} GlueSnoc(pieces: seq<string>, piece: string)
    ensures Glue(pieces + [piece]) == Glue(pieces) + piece
  {
    GlueAppend(pieces, [piece]);
    assert [piece][1..] == [] && Glue([piece]) == piece + "";
  }

  lemma {:induction false} GluePrefix(pieces: seq<string>, k: nat)
    requires k <= |pieces|
    ensures Glue(pieces[..k]) <= Glue(pieces)
  {
    GlueAppend(pieces[..k], pieces[k..]);
    assert pieces == pieces[..k] + pieces[k..];
  }

  /**
   `sendJson`: a value Go could not encode leaves an empty body. Any other is written whole, with a newline, however
   the pieces fall into writes and however often the socket pushes back; if the socket dies, what was sent is a
   beginning of that. A socket that is gone from the start gets nothing. No write but the last is shorter than 1 MiB.
   */
  method Send(res: Response, value: Value)
    requires res.sent == "" && res.writes == 0 && !res.ended
    modifies res
    ensures res.status == 200 && res.contentType == "application/json"
    ensures HasUnencodable(value) ==> res.sent == "" && res.ended
    ensures !HasUnencodable(value) && !res.destroyed ==> res.ended && res.sent == Stringify(value) + "\n"
    ensures !HasUnencodable(value) ==> res.sent <= Stringify(value) + "\n"
    ensures old(res.destroyed) ==> res.sent == ""
    ensures !HasUnencodable(value) ==> res.writes * 1048576 <= Units(Stringify(value))
    ensures res.destroyed ==> old(res.destroyed) || exists k: nat :: k < res.writes && Dies(res.replies(k))
  {
    hide Pieces, HasUnencodable, Glue, Units;
    res.status := 200;
    res.contentType := "application/json";
    if HasUnencodable(value) {
      res.End("");
      assert res.sent == "";
      return;
    }
    ThrowsExactly(value);
    var pieces := Pieces(value).pieces;
    var pending: seq<string> := [];
    var size := 0;
    var i := 0;
    NothingYet(pieces);
    while i < |pieces|
      invariant 0 <= i <= |pieces| && !res.ended && res.status == 200 && res.contentType == "application/json"
      invariant !res.destroyed ==> res.sent + Glue(pending) == Glue(pieces[..i])
      invariant res.sent <= Glue(pieces)
      invariant 0 <= size && res.writes * CHUNK + size <= Units(Glue(pieces[..i])) <= Units(Glue(pieces))
      invariant old(res.destroyed) ==> res.destroyed && res.sent == ""
      invariant res.destroyed ==> old(res.destroyed) || exists k: nat :: k < res.writes && Dies(res.replies(k))
    {
      if !res.destroyed { AddPiece(res.sent, pending, pieces, i); }
      UnitsGrow(pieces, i);
      pending := pending + [pieces[i]];
      size := size + Units(pieces[i]);
      i := i + 1;
      if size < CHUNK { continue; }
      GluePrefix(pieces, i);
      ghost var n := res.writes;
      var full := res.Write(Glue(pending));
      pending, size := [], 0;
      GlueNothing(res.sent);
      assert res.destroyed && res.replies(n).diesNow ==> Dies(res.replies(n));
      if res.destroyed {
        Shorter(res.sent, Glue(pieces));
        return;
      }
      if !full { res.Drained(); }
      assert res.destroyed ==> Dies(res.replies(n));
    }
    Last(res.sent, pending, pieces);
    Shorter(res.sent, Glue(pieces));
    pending := pending + ["\n"];
    res.End(Glue(pending));
  }

  lemma {:induction false} GlueNothing(sent: string)
    ensures sent + Glue([]) == sent
  {
  }

  lemma {:induction false} NothingYet(pieces: seq<string>)
    ensures "" + Glue([]) == Glue(pieces[..0]) && "" <= Glue(pieces) && Units(Glue(pieces[..0])) == 0
  {
  }

  /** One more piece is pending. */
  lemma {:induction false} AddPiece(sent: string, pending: seq<string>, pieces: seq<string>, i: nat)
    requires i < |pieces| && sent + Glue(pending) == Glue(pieces[..i])
    ensures sent + Glue(pending + [pieces[i]]) == Glue(pieces[..i + 1])
  {
    hide Glue;
    GlueSnoc(pending, pieces[i]);
    GlueSnoc(pieces[..i], pieces[i]);
    assert pieces[..i + 1] == pieces[..i] + [pieces[i]];
    assert sent + (Glue(pending) + pieces[i]) == (sent + Glue(pending)) + pieces[i];
  }

  lemma {:induction false} UnitsAppend(s: string, t: string)
    ensures Units(s + t) == Units(s) + Units(t)
  {
    if s == "" {
      assert s + t == t;
    } else {
      assert (s + t)[0] == s[0] && (s + t)[1..] == s[1..] + t;
      UnitsAppend(s[1..], t);
    }
  }

  /** Each piece adds its length. */
  lemma {:induction false} UnitsGrow(pieces: seq<string>, i: nat)
    requires i < |pieces|
    ensures Units(Glue(pieces[..i + 1])) == Units(Glue(pieces[..i])) + Units(pieces[i])
    ensures Units(Glue(pieces[..i + 1])) <= Units(Glue(pieces))
  {
    hide Glue, Units;
    GlueSnoc(pieces[..i], pieces[i]);
    assert pieces[..i + 1] == pieces[..i] + [pieces[i]];
    UnitsAppend(Glue(pieces[..i]), pieces[i]);
    GlueAppend(pieces[..i + 1], pieces[i + 1..]);
    assert pieces == pieces[..i + 1] + pieces[i + 1..];
    UnitsAppend(Glue(pieces[..i + 1]), Glue(pieces[i + 1..]));
  }

  lemma {:induction false} Last(sent: string, pending: seq<string>, pieces: seq<string>)
    ensures sent + Glue(pending) == Glue(pieces[..|pieces|]) ==> sent + Glue(pending + ["\n"]) == Glue(pieces) + "\n"
  {
    hide Glue;
    assert pieces[..|pieces|] == pieces;
    GlueSnoc(pending, "\n");
    assert sent + (Glue(pending) + "\n") == (sent + Glue(pending)) + "\n";
  }

  lemma {:induction false} Shorter(a: string, b: string)
    requires a <= b
    ensures a <= b + "\n"
  {
  }
}
