/**
 A path as its segments: splitting on the slash, joining again, and where the last of them begins. Each of the
 first two is the inverse of the other.
 */
module Segments {
  import opened Utf8

  const SLASH: byte := 0x2f
  const DOT: seq<byte> := [0x2e]
  const DOT_DOT: seq<byte> := [0x2e, 0x2e]

  predicate NoSlash(s: seq<byte>) {
    forall k | 0 <= k < |s| :: s[k] != SLASH
  }

  predicate IsDots(s: seq<byte>) {
    s == DOT || s == DOT_DOT
  }

  /** `s.split("/")` */
  function Split(s: seq<byte>): (segs: seq<seq<byte>>)
    ensures segs != []
  {
    if s == [] then [[]]
    else if s[0] == SLASH then [[]] + Split(s[1..])
    else
      var rest := Split(s[1..]);
      [[s[0]] + rest[0]] + rest[1..]
  }

  /** `segs.join("/")` */
  function Join(segs: seq<seq<byte>>): seq<byte> {
    if segs == [] then []
    else if |segs| == 1 then segs[0]
    else segs[0] + ([SLASH] + Join(segs[1..]))
  }

  predicate AllNoSlash(segs: seq<seq<byte>>) {
    forall k | 0 <= k < |segs| :: NoSlash(segs[k])
  }

  lemma {:induction false} SplitNoSlash(s: seq<byte>)
    ensures AllNoSlash(Split(s))
  {
    if s != [] {
      SplitNoSlash(s[1..]);
      var rest := Split(s[1..]);
      if s[0] != SLASH {
        assert NoSlash(rest[0]);
        assert forall k | 1 <= k < |rest| :: Split(s)[k] == rest[k];
      } else {
        assert forall k | 1 <= k < |Split(s)| :: Split(s)[k] == rest[k - 1];
      }
    }
  }

  lemma {:induction false} JoinCons(seg: seq<byte>, segs: seq<seq<byte>>)
    requires segs != []
    ensures Join([seg] + segs) == seg + ([SLASH] + Join(segs))
  {
    assert ([seg] + segs)[1..] == segs;
  }

  lemma {:induction false} JoinSplit(s: seq<byte>)
    ensures Join(Split(s)) == s
  {
    if s != [] {
      JoinSplit(s[1..]);
      var rest := Split(s[1..]);
      if s[0] == SLASH {
        JoinCons([], rest);
        assert [] + ([SLASH] + s[1..]) == s;
      } else if |rest| > 1 {
        assert rest == [rest[0]] + rest[1..];
        JoinCons(rest[0], rest[1..]);
        JoinCons([s[0]] + rest[0], rest[1..]);
        Assoc([s[0]], rest[0], [SLASH] + Join(rest[1..]));
        assert s == [s[0]] + s[1..];
      } else {
        assert s == [s[0]] + s[1..];
      }
    }
  }

  lemma {:induction false} SplitAlone(seg: seq<byte>)
    requires NoSlash(seg)
    ensures Split(seg) == [seg]
  {
    if seg != [] {
      SplitAlone(seg[1..]);
      assert [seg[0]] + seg[1..] == seg;
    }
  }

  lemma {:induction false} SplitFirst(seg: seq<byte>, rest: seq<byte>)
    requires NoSlash(seg)
    ensures Split(seg + ([SLASH] + rest)) == [seg] + Split(rest)
    decreases |seg|
  {
    var s := seg + ([SLASH] + rest);
    if seg == [] {
      assert s == [SLASH] + rest && s[1..] == rest;
    } else {
      SplitFirst(seg[1..], rest);
      assert s[0] == seg[0] && s[1..] == seg[1..] + ([SLASH] + rest);
      assert [seg[0]] + seg[1..] == seg;
      assert ([seg[1..]] + Split(rest))[1..] == Split(rest);
    }
  }

  lemma {:induction false} SplitJoin(segs: seq<seq<byte>>)
    requires segs != [] && AllNoSlash(segs)
    ensures Split(Join(segs)) == segs
    decreases |segs|
  {
    if |segs| == 1 {
      SplitAlone(segs[0]);
    } else {
      assert forall k | 0 <= k < |segs[1..]| :: segs[1..][k] == segs[k + 1];
      SplitJoin(segs[1..]);
      SplitFirst(segs[0], Join(segs[1..]));
      assert segs == [segs[0]] + segs[1..];
    }
  }

  lemma {:induction false} JoinSnoc(segs: seq<seq<byte>>, seg: seq<byte>)
    requires segs != []
    ensures Join(segs + [seg]) == Join(segs) + ([SLASH] + seg)
    decreases |segs|
  {
    if |segs| == 1 {
      assert (segs + [seg])[1..] == [seg];
    } else {
      JoinSnoc(segs[1..], seg);
      assert (segs + [seg])[1..] == segs[1..] + [seg];
      Assoc(segs[0], [SLASH] + Join(segs[1..]), [SLASH] + seg);
      Assoc([SLASH], Join(segs[1..]), [SLASH] + seg);
    }
  }

  /** The last slash of a text, or -1. */
  function LastSlash(s: seq<byte>): (i: int)
    ensures -1 <= i < |s|
    ensures i >= 0 ==> s[i] == SLASH
    ensures forall k | i < k < |s| :: s[k] != SLASH
  {
    if s == [] then -1
    else if s[|s| - 1] == SLASH then |s| - 1
    else LastSlash(s[..|s| - 1])
  }

  lemma {:induction false} LastSlashIs(s: seq<byte>, i: nat)
    requires i < |s| && s[i] == SLASH && forall k | i < k < |s| :: s[k] != SLASH
    ensures LastSlash(s) == i
  {
  }

  /** The last segment, from the last slash on. */
  lemma {:induction false} SplitLast(s: seq<byte>)
    ensures var i := LastSlash(s);
            if i < 0 then Split(s) == [s]
            else Split(s) == Split(s[..i]) + [s[i + 1..]]
  {
    var i := LastSlash(s);
    if i < 0 {
      SplitAlone(s);
    } else {
      var segs := Split(s[..i]);
      SplitNoSlash(s[..i]);
      JoinSplit(s[..i]);
      JoinSnoc(segs, s[i + 1..]);
      assert s == s[..i] + ([SLASH] + s[i + 1..]);
      assert AllNoSlash(segs + [s[i + 1..]]);
      SplitJoin(segs + [s[i + 1..]]);
    }
  }

  /** What a joined text ends with. */
  lemma {:induction false} LastOfJoin(segs: seq<seq<byte>>)
    requires AllNoSlash(segs) && segs != []
    ensures var m := |segs| - 1;
            if m == 0 then LastSlash(Join(segs)) == -1
            else LastSlash(Join(segs)) == |Join(segs[..m])| && Join(segs)[..LastSlash(Join(segs))] == Join(segs[..m])
  {
    var m := |segs| - 1;
    if m > 0 {
      JoinSnoc(segs[..m], segs[m]);
      assert segs == segs[..m] + [segs[m]];
      var s := Join(segs);
      var i := |Join(segs[..m])|;
      assert s[i] == SLASH && s[..i] == Join(segs[..m]);
      assert forall k | i < k < |s| :: s[k] == segs[m][k - i - 1];
      LastSlashIs(s, i);
    } else {
      assert NoSlash(segs[0]);
    }
  }
}
