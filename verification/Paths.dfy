/** A request path: decoded, cleaned, redirected or routed, and sent on. */
module Paths {
  import opened Options
  import opened Utf8
  import opened Segments
  import opened Json

  // --- percent escapes --------------------------------------------------------------------

  /** `unescapeBytes`; nothing for a percent sign that two hex digits do not follow. */
  function Unescaped(raw: seq<byte>): Option<seq<byte>> {
    if raw == [] then Some([])
    else if raw[0] != 0x25 then Before(raw[0], Unescaped(raw[1..]))
    else if |raw| < 3 || HexVal(raw[1]) < 0 || HexVal(raw[2]) < 0 then None
    else Before(HexVal(raw[1]) * 16 + HexVal(raw[2]), Unescaped(raw[3..]))
  }

  function Before(c: byte, r: Option<seq<byte>>): Option<seq<byte>> {
    if r.None? then None else Some([c] + r.value)
  }

  function AfterAll(out: seq<byte>, r: Option<seq<byte>>): Option<seq<byte>> {
    if r.None? then None else Some(out + r.value)
  }

  method UnescapeBytes(raw: seq<byte>) returns (r: Option<seq<byte>>)
    ensures r == Unescaped(raw)
  {
    var out: seq<byte> := [];
    var i := 0;
    assert AfterAll([], Unescaped(raw[0..])) == Unescaped(raw) by {
      assert raw[0..] == raw;
      if Unescaped(raw).Some? { assert [] + Unescaped(raw).value == Unescaped(raw).value; }
    }
    while i < |raw|
      invariant 0 <= i <= |raw|
      invariant AfterAll(out, Unescaped(raw[i..])) == Unescaped(raw)
      decreases |raw| - i
    {
      var rest := raw[i..];
      assert rest[1..] == raw[i + 1..];
      if raw[i] != 0x25 {
        Shift(out, raw[i], Unescaped(raw[i + 1..]));
        out := out + [raw[i]];
        i := i + 1;
        continue;
      }
      if i + 2 >= |raw| || HexVal(raw[i + 1]) < 0 || HexVal(raw[i + 2]) < 0 { return None; }
      assert rest[3..] == raw[i + 3..];
      var c := HexVal(raw[i + 1]) * 16 + HexVal(raw[i + 2]);
      Shift(out, c, Unescaped(raw[i + 3..]));
      out := out + [c];
      i := i + 3;
    }
    assert raw[i..] == [] && out + [] == out;
    return Some(out);
  }

  lemma {:induction false} Shift(out: seq<byte>, c: byte, r: Option<seq<byte>>)
    ensures AfterAll(out, Before(c, r)) == AfterAll(out + [c], r)
  {
    if r.Some? { Assoc(out, [c], r.value); }
  }

  predicate IsUnreserved(c: byte) {
    || 0x30 <= c <= 0x39 || 0x41 <= c <= 0x5a || 0x61 <= c <= 0x7a
    || c == 0x2d || c == 0x5f || c == 0x2e || c == 0x7e
  }

  /** An upper-case hexadecimal digit. */
  function HexDigit(d: nat): (c: byte)
    requires d < 16
    ensures HexVal(c) == d && IsUnreserved(c)
  {
    if d < 10 then 0x30 + d else 0x37 + d
  }

  function EscapeByte(c: byte, keep: set<byte>): seq<byte> {
    if IsUnreserved(c) || c in keep then [c] else [0x25, HexDigit(c / 16), HexDigit(c % 16)]
  }

  function Escaped(bytes: seq<byte>, keep: set<byte>): seq<byte> {
    if bytes == [] then [] else EscapeByte(bytes[0], keep) + Escaped(bytes[1..], keep)
  }

  method EscapeWith(bytes: seq<byte>, keep: set<byte>) returns (out: seq<byte>)
    ensures out == Escaped(bytes, keep)
  {
    out := [];
    assert [] + Escaped(bytes, keep) == Escaped(bytes, keep) && bytes[0..] == bytes;
    for i := 0 to |bytes|
      invariant out + Escaped(bytes[i..], keep) == Escaped(bytes, keep)
    {
      assert bytes[i..][1..] == bytes[i + 1..];
      Assoc(out, EscapeByte(bytes[i], keep), Escaped(bytes[i + 1..], keep));
      out := out + EscapeByte(bytes[i], keep);
    }
    assert out + [] == out;
  }

  /** What is escaped is unescaped to the same bytes, as long as the percent sign itself is not kept. */
  lemma {:induction false} EscapeRoundTrip(bytes: seq<byte>, keep: set<byte>)
    requires 0x25 !in keep
    ensures Unescaped(Escaped(bytes, keep)) == Some(bytes)
  {
    if bytes != [] {
      EscapeRoundTrip(bytes[1..], keep);
      var c, rest := bytes[0], Escaped(bytes[1..], keep);
      assert bytes == [c] + bytes[1..];
      var s := EscapeByte(c, keep) + rest;
      if |EscapeByte(c, keep)| == 1 {
        assert s[0] == c && s[1..] == rest;
      } else {
        assert s[0] == 0x25 && s[1] == HexDigit(c / 16) && s[2] == HexDigit(c % 16) && s[3..] == rest;
      }
    }
  }

  /** An escaped text holds only unreserved bytes, percent signs and those kept. */
  lemma {:induction false} EscapedBytes(bytes: seq<byte>, keep: set<byte>)
    ensures forall k | 0 <= k < |Escaped(bytes, keep)| ::
      IsUnreserved(Escaped(bytes, keep)[k]) || Escaped(bytes, keep)[k] == 0x25 || Escaped(bytes, keep)[k] in keep
  {
    if bytes != [] {
      EscapedBytes(bytes[1..], keep);
    }
  }

  const LOCATION_KEEP: set<byte> := {0x24, 0x26, 0x2b, 0x2c, 0x2f, 0x3a, 0x3b, 0x3d, 0x40}
  const ROUTING_KEEP: set<byte> := {0x2f, 0x21, 0x24, 0x26, 0x27, 0x28, 0x29, 0x2a, 0x2b, 0x2c, 0x3b, 0x3d, 0x3a, 0x40}
  const SEGMENT_KEEP: set<byte> := {0x24, 0x26, 0x2b, 0x3d, 0x3a, 0x40}

  /** The unreserved characters of section 2.3 of RFC 3986. */
  lemma {:induction false} UnreservedExact(c: byte)
    ensures IsUnreserved(c) <==>
            || c as char in "ABCDEFGHIJKLMNOPQRSTUVWXYZ" || c as char in "abcdefghijklmnopqrstuvwxyz"
            || c as char in "0123456789" || c as char in "-._~"
  {
    Stretch("ABCDEFGHIJKLMNOPQRSTUVWXYZ", 0x41, c);
    Stretch("abcdefghijklmnopqrstuvwxyz", 0x61, c);
    Stretch("0123456789", 0x30, c);
  }

  /** Characters that follow each other: one is among them when it is not too far from the first. */
  lemma {:induction false} Stretch(s: string, first: byte, c: byte)
    requires forall k | 0 <= k < |s| :: s[k] as int == first + k
    ensures c as char in s <==> first <= c < first + |s|
  {
    if first <= c < first + |s| {
      assert s[c - first] == c as char;
    }
  }

  /** What is kept besides: in a Location, in the URL that is routed, and in a segment that is sent. */
  lemma {:induction false} KeptExact(c: byte)
    ensures c in LOCATION_KEEP <==> c as char in "$&+,/:;=@"
    ensures c in ROUTING_KEEP <==> c as char in "/!$&'()*+,;=:@"
    ensures c in SEGMENT_KEEP <==> c as char in "$&+=:@"
  {
  }

  /** A byte is written as it is, or as a percent sign and its two digits in upper case. */
  lemma {:induction false} EscapeExact(c: byte, rest: seq<byte>, keep: set<byte>)
    ensures IsUnreserved(c) || c in keep ==> Escaped([c] + rest, keep) == [c] + Escaped(rest, keep)
    ensures !IsUnreserved(c) && c !in keep ==>
      Escaped([c] + rest, keep) == [0x25, "0123456789ABCDEF"[c / 16] as int, "0123456789ABCDEF"[c % 16] as int] + Escaped(rest, keep)
  {
    assert ([c] + rest)[1..] == rest;
    UpperDigit(c / 16);
    UpperDigit(c % 16);
  }

  lemma {:induction false} UpperDigit(d: nat)
    requires d < 16
    ensures HexDigit(d) == "0123456789ABCDEF"[d] as int
  {
    var all := "0123456789ABCDEF";
    assert all[d] as int == if d < 10 then 0x30 + d else 0x37 + d;
  }

  /** Two hexadecimal digits follow every percent sign. */
  predicate WellEscaped(s: seq<byte>) {
    forall k | 0 <= k < |s| :: s[k] == 0x25 ==> k + 2 < |s| && HexVal(s[k + 1]) >= 0 && HexVal(s[k + 2]) >= 0
  }

  /** Refused is exactly what is not well escaped. */
  lemma {:induction false} UnescapedExact(raw: seq<byte>)
    ensures Unescaped(raw).Some? <==> WellEscaped(raw)
    decreases |raw|
  {
    hide HexVal, WellEscaped;
    if raw == [] {
      EmptyWell();
    } else {
      WellStep(raw);
      var n := if raw[0] != 0x25 then 1 else 3;
      if n <= |raw| { UnescapedExact(raw[n..]); }
    }
  }

  lemma {:induction false} EmptyWell()
    ensures WellEscaped([])
  {
  }

  lemma {:induction false} WellStep(raw: seq<byte>)
    requires raw != []
    ensures raw[0] != 0x25 ==> (WellEscaped(raw) <==> WellEscaped(raw[1..]))
    ensures raw[0] == 0x25 ==>
      (WellEscaped(raw) <==> |raw| >= 3 && HexVal(raw[1]) >= 0 && HexVal(raw[2]) >= 0 && WellEscaped(raw[3..]))
  {
    hide HexVal;
    PercentNoDigit();
    var n := if raw[0] != 0x25 then 1 else 3;
    if n <= |raw| {
      var rest := raw[n..];
      assert forall i | 0 <= i < |rest| :: rest[i] == raw[n + i];
      if WellEscaped(rest) {
        forall i | n <= i < |raw| && raw[i] == 0x25 ensures i + 2 < |raw| && HexVal(raw[i + 1]) >= 0 && HexVal(raw[i + 2]) >= 0 {
          assert rest[i - n] == raw[i];
        }
      }
    }
  }

  lemma {:induction false} PercentNoDigit()
    ensures HexVal(0x25) == -1
  {
  }

  /** An escape is the byte its digits spell, whatever stands before and behind it; all other bytes stand for themselves. */
  lemma {:induction false} UnescapedReads(pre: seq<byte>, h: byte, l: byte, post: seq<byte>)
    requires HexVal(h) >= 0 && HexVal(l) >= 0 && Unescaped(pre).Some?
    ensures Unescaped(pre + [0x25, h, l] + post) == AfterAll(Unescaped(pre).value + [HexVal(h) * 16 + HexVal(l)], Unescaped(post))
    ensures 0x25 !in pre ==> Unescaped(pre) == Some(pre)
  {
    hide HexVal, Unescaped;
    var one := [0x25, h, l] + post;
    assert pre + [0x25, h, l] + post == pre + one;
    UnescapedAppend(pre, one);
    UnescapedOne(h, l, post);
    Shift(Unescaped(pre).value, HexVal(h) * 16 + HexVal(l), Unescaped(post));
    if 0x25 !in pre { UnescapedBytes(pre); }
  }

  lemma {:induction false} UnescapedOne(h: byte, l: byte, post: seq<byte>)
    requires HexVal(h) >= 0 && HexVal(l) >= 0
    ensures Unescaped([0x25, h, l] + post) == Before(HexVal(h) * 16 + HexVal(l), Unescaped(post))
  {
    hide HexVal;
    assert ([0x25, h, l] + post)[3..] == post;
  }

  lemma {:induction false} UnescapedBytes(pre: seq<byte>)
    requires 0x25 !in pre
    ensures Unescaped(pre) == Some(pre)
  {
    if pre != [] {
      UnescapedBytes(pre[1..]);
      assert pre == [pre[0]] + pre[1..];
    }
  }

  lemma {:induction false} UnescapedAppend(a: seq<byte>, b: seq<byte>)
    requires Unescaped(a).Some?
    ensures Unescaped(a + b) == AfterAll(Unescaped(a).value, Unescaped(b))
    decreases |a|
  {
    hide HexVal;
    if a == [] {
      assert a + b == b;
      if Unescaped(b).Some? { assert [] + Unescaped(b).value == Unescaped(b).value; }
    } else {
      var n := if a[0] != 0x25 then 1 else 3;
      assert (a + b)[n..] == a[n..] + b && forall k | 0 <= k < n :: (a + b)[k] == a[k];
      UnescapedAppend(a[n..], b);
      var c := Unescaped(a).value[0];
      if Unescaped(b).Some? { Assoc([c], Unescaped(a[n..]).value, Unescaped(b).value); }
    }
  }

  // --- cleanPath -----------------------------------------------------------------------------

  /** The segments that are left, `out` being there before. */
  function Kept(segs: seq<seq<byte>>, out: seq<seq<byte>>): seq<seq<byte>>
    decreases |segs|
  {
    if segs == [] then out
    else if segs[0] == [] || segs[0] == DOT then Kept(segs[1..], out)
    else if segs[0] == DOT_DOT then Kept(segs[1..], if out == [] then [] else out[..|out| - 1])
    else Kept(segs[1..], out + [segs[0]])
  }

  function Rooted(p: seq<byte>): seq<byte> {
    if p != [] && p[0] == SLASH then p else [SLASH] + p
  }

  function Cleaned(p: seq<byte>): seq<byte> {
    if p == [] then [SLASH]
    else
      var clean := [SLASH] + Join(Kept(Split(Rooted(p)), []));
      if Rooted(p)[|Rooted(p)| - 1] == SLASH && clean != [SLASH] then clean + [SLASH] else clean
  }

  method CleanPath(p: seq<byte>) returns (r: seq<byte>)
    ensures r == Cleaned(p)
  {
    if p == [] { return [SLASH]; }
    var rooted := if p[0] == SLASH then p else [SLASH] + p;
    var segs := Split(rooted);
    var out: seq<seq<byte>> := [];
    assert segs[0..] == segs;
    for i := 0 to |segs|
      invariant Kept(segs[i..], out) == Kept(segs, [])
    {
      assert segs[i..][1..] == segs[i + 1..];
      var seg := segs[i];
      if seg == [] || seg == DOT { continue; }
      if seg == DOT_DOT {
        if out != [] { out := out[..|out| - 1]; }
      } else {
        out := out + [seg];
      }
    }
    assert segs[|segs|..] == [];
    var clean := [SLASH] + Join(out);
    r := if rooted[|rooted| - 1] == SLASH && clean != [SLASH] then clean + [SLASH] else clean;
  }

  /** A segment with something in it that is not a dot segment. */
  predicate IsPlain(seg: seq<byte>) {
    seg != [] && NoSlash(seg) && !IsDots(seg)
  }

  predicate AllPlain(segs: seq<seq<byte>>) {
    forall k | 0 <= k < |segs| :: IsPlain(segs[k])
  }

  function CleanText(segs: seq<seq<byte>>, trailing: bool): seq<byte> {
    [SLASH] + Join(segs) + (if trailing then [SLASH] else [])
  }

  /** Rooted, no empty segment and no dot segment, and at most one slash at the end. */
  ghost predicate IsClean(p: seq<byte>) {
    exists segs, trailing :: AllPlain(segs) && (segs == [] ==> !trailing) && p == CleanText(segs, trailing)
  }

  lemma {:induction false} KeptPlain(segs: seq<seq<byte>>, out: seq<seq<byte>>)
    requires AllNoSlash(segs) && AllPlain(out)
    ensures AllPlain(Kept(segs, out))
    decreases |segs|
  {
    if segs != [] {
      assert forall k | 0 <= k < |segs[1..]| :: segs[1..][k] == segs[k + 1];
      if segs[0] == [] || segs[0] == DOT {
        KeptPlain(segs[1..], out);
      } else if segs[0] == DOT_DOT {
        KeptPlain(segs[1..], if out == [] then [] else out[..|out| - 1]);
      } else {
        assert NoSlash(segs[0]) && IsPlain(segs[0]);
        KeptPlain(segs[1..], out + [segs[0]]);
      }
    }
  }

  lemma {:induction false} KeptSkipsEnds(segs: seq<seq<byte>>, trailing: bool)
    requires AllPlain(segs)
    ensures Kept([[]] + segs + (if trailing then [[]] else []), []) == segs
  {
    var tail: seq<seq<byte>> := if trailing then [[]] else [];
    assert ([[]] + segs + tail)[1..] == segs + tail;
    KeptWithTail(segs, tail, []);
    assert [] + segs == segs;
  }

  lemma {:induction false} KeptWithTail(segs: seq<seq<byte>>, tail: seq<seq<byte>>, out: seq<seq<byte>>)
    requires AllPlain(segs) && (tail == [] || tail == [[]])
    ensures Kept(segs + tail, out) == out + segs
    decreases |segs|
  {
    if segs == [] {
      assert segs + tail == tail && out + segs == out;
      assert Kept([], out) == out;
      if tail != [] { assert tail[1..] == []; }
    } else {
      assert IsPlain(segs[0]);
      assert forall k | 0 <= k < |segs[1..]| :: segs[1..][k] == segs[k + 1];
      assert (segs + tail)[1..] == segs[1..] + tail;
      KeptWithTail(segs[1..], tail, out + [segs[0]]);
      assert (out + [segs[0]]) + segs[1..] == out + segs;
    }
  }

  lemma {:induction false} JoinRooted(segs: seq<seq<byte>>)
    requires AllPlain(segs) && segs != []
    ensures var all: seq<seq<byte>> := [[]] + segs;
            AllNoSlash(all) && Join(all) == [SLASH] + Join(segs) && Split(Join(all)) == all
  {
    var all: seq<seq<byte>> := [[]] + segs;
    JoinCons([], segs);
    assert [] + ([SLASH] + Join(segs)) == [SLASH] + Join(segs);
    assert AllNoSlash(all) by {
      forall k | 0 <= k < |all| ensures NoSlash(all[k]) { if k > 0 { assert IsPlain(segs[k - 1]); } }
    }
    SplitJoin(all);
  }

  /** What a clean text splits into. */
  lemma {:induction false} SplitClean(segs: seq<seq<byte>>, trailing: bool)
    requires AllPlain(segs) && segs != []
    ensures Split(CleanText(segs, trailing)) == [[]] + segs + (if trailing then [[]] else [])
    ensures CleanText(segs, trailing)[|CleanText(segs, trailing)| - 1] == SLASH <==> trailing
    ensures CleanText(segs, false) != [SLASH]
  {
    hide Split, Join, AllPlain, AllNoSlash;
    var all: seq<seq<byte>> := [[]] + segs;
    JoinRooted(segs);
    JoinEndsPlain(segs);
    assert CleanText(segs, false) == Join(all);
    if trailing {
      SplitTrailing(all);
      assert Join(all) + [SLASH] == CleanText(segs, true);
    } else {
      assert all + [] == all;
    }
  }

  lemma {:induction false} SplitTrailing(all: seq<seq<byte>>)
    requires all != [] && AllNoSlash(all)
    ensures Split(Join(all) + [SLASH]) == all + [[]]
  {
    JoinSnoc(all, []);
    assert Join(all) + ([SLASH] + []) == Join(all) + [SLASH];
    assert AllNoSlash(all + [[]]);
    SplitJoin(all + [[]]);
  }

  lemma {:induction false} JoinEndsPlain(segs: seq<seq<byte>>)
    requires AllPlain(segs) && segs != []
    ensures Join(segs) != [] && Join(segs)[|Join(segs)| - 1] != SLASH
    decreases |segs|
  {
    assert IsPlain(segs[0]);
    if |segs| > 1 {
      assert forall k | 0 <= k < |segs[1..]| :: segs[1..][k] == segs[k + 1];
      JoinEndsPlain(segs[1..]);
    }
  }

  /** A path is left alone exactly when it is clean. */
  lemma {:induction false} CleanIsKept(p: seq<byte>)
    ensures Cleaned(p) == p <==> IsClean(p)
    ensures IsClean(Cleaned(p))
  {
    CleanOutput(p);
    if IsClean(p) {
      var segs, trailing :| AllPlain(segs) && (segs == [] ==> !trailing) && p == CleanText(segs, trailing);
      CleanInput(segs, trailing);
    }
  }

  lemma {:induction false} CleanOutput(p: seq<byte>)
    ensures IsClean(Cleaned(p))
  {
    var none: seq<seq<byte>> := [];
    assert CleanText(none, false) == [SLASH];
    if p != [] {
      SplitNoSlash(Rooted(p));
      var segs := Kept(Split(Rooted(p)), []);
      KeptPlain(Split(Rooted(p)), []);
      var clean := [SLASH] + Join(segs);
      assert CleanText(segs, false) == clean;
      assert CleanText(segs, true) == clean + [SLASH];
      if segs == [] { assert clean == [SLASH]; }
    }
  }

  lemma {:induction false} CleanInput(segs: seq<seq<byte>>, trailing: bool)
    requires AllPlain(segs) && (segs == [] ==> !trailing)
    ensures Cleaned(CleanText(segs, trailing)) == CleanText(segs, trailing)
  {
    var p := CleanText(segs, trailing);
    assert p[0] == SLASH && Rooted(p) == p;
    if segs == [] {
      assert p == [SLASH];
      RootSplit();
    } else {
      SplitClean(segs, trailing);
      KeptSkipsEnds(segs, trailing);
      assert [SLASH] + Join(segs) == CleanText(segs, false);
    }
  }

  lemma {:induction false} RootSplit()
    ensures Split([SLASH]) == [[], []] && Kept([[], []], []) == [] && Cleaned([SLASH]) == [SLASH]
  {
    var two: seq<seq<byte>> := [[], []];
    assert [SLASH][1..] == [];
    assert Split([]) == [[]];
    assert Split([SLASH]) == two;
    assert two[1..] == [[]] && two[1..][1..] == [];
    assert Kept(two[1..][1..], []) == [];
    assert Kept(two[1..], []) == [];
    assert [SLASH] + Join([]) == [SLASH];
  }

  /** Cleaning again changes nothing. */
  lemma {:induction false} CleanIdempotent(p: seq<byte>)
    ensures Cleaned(Cleaned(p)) == Cleaned(p)
  {
    hide Cleaned;
    CleanIsKept(p);
    CleanIsKept(Cleaned(p));
  }

  // --- which clean path it becomes ----------------------------------------------------------------

  lemma {:induction false} KeptAppend(a: seq<seq<byte>>, b: seq<seq<byte>>, out: seq<seq<byte>>)
    ensures Kept(a + b, out) == Kept(b, Kept(a, out))
    decreases |a|
  {
    if a == [] {
      assert a + b == b;
    } else {
      assert (a + b)[0] == a[0] && (a + b)[1..] == a[1..] + b;
      KeptAppend(a[1..], b, if a[0] == [] || a[0] == DOT then out
                            else if a[0] == DOT_DOT then (if out == [] then [] else out[..|out| - 1]) else out + [a[0]]);
    }
  }

  /** The text of these segments, rooted. */
  function RootedText(segs: seq<seq<byte>>): seq<byte> {
    [SLASH] + Join(segs)
  }

  predicate EndsOpen(segs: seq<seq<byte>>) {
    segs == [] || segs[|segs| - 1] == []
  }

  /** How a rooted text of segments is split, and whether it ends in a slash. */
  lemma {:induction false} RootedSplit(segs: seq<seq<byte>>)
    requires AllNoSlash(segs)
    ensures Kept(Split(RootedText(segs)), []) == Kept(segs, [])
    ensures RootedText(segs)[|RootedText(segs)| - 1] == SLASH <==> EndsOpen(segs)
  {
    hide Split, Kept;
    if segs == [] {
      RootSplit();
      NoSegments();
    } else {
      AllNoSlashWith(segs);
      JoinCons([], segs);
      assert [] + ([SLASH] + Join(segs)) == RootedText(segs);
      SplitJoin([[]] + segs);
      EmptyFirst(segs);
      JoinEnds(segs);
    }
  }

  lemma {:induction false} NoSegments()
    ensures Kept([], []) == [] && RootedText([]) == [SLASH]
  {
  }

  lemma {:induction false} EmptyFirst(segs: seq<seq<byte>>)
    ensures Kept([[]] + segs, []) == Kept(segs, [])
  {
    assert ([[]] + segs)[1..] == segs;
  }

  lemma {:induction false} JoinEnds(segs: seq<seq<byte>>)
    requires AllNoSlash(segs) && segs != []
    ensures ([SLASH] + Join(segs))[|Join(segs)|] == SLASH <==> segs[|segs| - 1] == []
  {
    var m := |segs| - 1;
    assert NoSlash(segs[m]);
    if m > 0 {
      JoinSnoc(segs[..m], segs[m]);
      assert segs == segs[..m] + [segs[m]];
    }
  }

  /** What is cleaned depends on what is kept of the segments, and on how they end. */
  lemma {:induction false} CleanedAlike(a: seq<seq<byte>>, b: seq<seq<byte>>)
    requires AllNoSlash(a) && AllNoSlash(b) && Kept(a, []) == Kept(b, [])
    requires EndsOpen(a) == EndsOpen(b) || Kept(a, []) == []
    ensures Cleaned(RootedText(a)) == Cleaned(RootedText(b))
  {
    hide Split, Kept, EndsOpen;
    RootedSplit(a);
    RootedSplit(b);
    NoJoin();
  }

  lemma {:induction false} NoSlashParts(pre: seq<seq<byte>>, mid: seq<seq<byte>>, post: seq<seq<byte>>)
    requires AllNoSlash(pre) && AllNoSlash(mid) && AllNoSlash(post)
    ensures AllNoSlash(pre + mid + post) && AllNoSlash(pre + post)
  {
  }

  /** Segments after which nothing more is kept than before them may be left out. */
  lemma {:induction false} LeaveOut(pre: seq<seq<byte>>, mid: seq<seq<byte>>, post: seq<seq<byte>>)
    requires AllNoSlash(pre) && AllNoSlash(mid) && AllNoSlash(post)
    requires Kept(mid, Kept(pre, [])) == Kept(pre, [])
    requires post != [] || (mid != [] && mid[|mid| - 1] != [] && !(pre != [] && EndsOpen(pre)))
    ensures Cleaned(RootedText(pre + mid + post)) == Cleaned(RootedText(pre + post))
  {
    hide Kept, Cleaned;
    NoSlashParts(pre, mid, post);
    KeptAppend(pre, post, []);
    KeptAppend(pre + mid, post, []);
    KeptAppend(pre, mid, []);
    if post == [] {
      assert pre + post == pre && pre + mid + post == pre + mid;
      if pre == [] { NoSegments(); }
    } else {
      assert (pre + mid + post)[|pre + mid + post| - 1] == post[|post| - 1] == (pre + post)[|pre + post| - 1];
    }
    CleanedAlike(pre + mid + post, pre + post);
  }

  lemma {:induction false} OneKept(seg: seq<byte>, out: seq<seq<byte>>)
    ensures seg == [] || seg == DOT ==> Kept([seg], out) == out
    ensures seg == DOT_DOT ==> Kept([seg], out) == if out == [] then [] else out[..|out| - 1]
  {
    var one := [seg];
    assert Kept(one[1..], out) == out;
  }

  /** A double dot takes the segment before it away, wherever the two stand. */
  lemma {:induction false} UpCancels(pre: seq<seq<byte>>, seg: seq<byte>, post: seq<seq<byte>>)
    requires AllNoSlash(pre) && AllNoSlash(post) && IsPlain(seg)
    requires post != [] || pre == [] || pre[|pre| - 1] != []
    ensures Cleaned(RootedText(pre + [seg, DOT_DOT] + post)) == Cleaned(RootedText(pre + post))
  {
    hide Cleaned, RootedText;
    var mid, out := [seg, DOT_DOT], Kept(pre, []);
    assert mid[1..] == [DOT_DOT];
    OneKept(DOT_DOT, out + [seg]);
    LeaveOut(pre, mid, post);
  }

  /** An empty segment or a single dot says nothing, unless it is the empty one at the very end. */
  lemma {:induction false} NothingSaid(pre: seq<seq<byte>>, seg: seq<byte>, post: seq<seq<byte>>)
    requires AllNoSlash(pre) && AllNoSlash(post) && (seg == [] || seg == DOT)
    requires post != [] || (seg == DOT && (pre == [] || pre[|pre| - 1] != []))
    ensures Cleaned(RootedText(pre + [seg] + post)) == Cleaned(RootedText(pre + post))
  {
    hide Cleaned, RootedText;
    OneKept(seg, Kept(pre, []));
    LeaveOut(pre, [seg], post);
  }

  /** There is nothing above the root. */
  lemma {:induction false} UpAtRoot(post: seq<seq<byte>>)
    requires AllNoSlash(post)
    ensures Cleaned(RootedText([DOT_DOT] + post)) == Cleaned(RootedText(post))
  {
    hide Cleaned, RootedText;
    var none: seq<seq<byte>> := [];
    OneKept(DOT_DOT, []);
    assert none + [DOT_DOT] + post == [DOT_DOT] + post && none + post == post;
    LeaveOut(none, [DOT_DOT], post);
  }

  /** A path that is not rooted is read as if it were; no path is the root. */
  lemma {:induction false} CleanRoots(p: seq<byte>)
    requires p == [] || p[0] != SLASH
    ensures Cleaned(p) == Cleaned([SLASH] + p)
  {
    if p == [] {
      RootSplit();
      assert [SLASH] + p == [SLASH];
    }
  }

  // --- the decision of muxCompat -----------------------------------------------------------------

  const QUESTION: byte := 0x3f
  const HASH: byte := 0x23

  /** The first place of a byte, or the length. */
  function IndexOf(s: seq<byte>, c: byte): (i: nat)
    ensures i <= |s| && (i < |s| ==> s[i] == c) && forall k | 0 <= k < i :: s[k] != c
  {
    if s == [] || s[0] == c then 0 else 1 + IndexOf(s[1..], c)
  }

  predicate IsAlpha(c: int) {
    0x41 <= c <= 0x5a || 0x61 <= c <= 0x7a
  }

  /** How many bytes of a scheme, after its first letter, come first. */
  function SchemeRun(s: seq<byte>): (n: nat)
    ensures n <= |s|
  {
    if s != [] && (IsAlpha(s[0]) || 0x30 <= s[0] <= 0x39 || s[0] == 0x2b || s[0] == 0x2e || s[0] == 0x2d) then 1 + SchemeRun(s[1..]) else 0
  }

  /** How many bytes of an authority come first. */
  function AuthorityRun(s: seq<byte>): (n: nat)
    ensures n <= |s|
  {
    if s != [] && s[0] != SLASH && s[0] != QUESTION then 1 + AuthorityRun(s[1..]) else 0
  }

  /** The authority and the rest of an absolute-form target. */
  function Absolute(url: seq<byte>): Option<(seq<byte>, seq<byte>)> {
    if url == [] || !IsAlpha(url[0]) then None
    else
      var rest := url[SchemeRun(url)..];
      if |rest| < 3 || rest[..3] != [0x3a, SLASH, SLASH] then None
      else Some((rest[3..][..AuthorityRun(rest[3..])], rest[3..][AuthorityRun(rest[3..])..]))
  }

  /** `target`, cut at its first question mark: the path, and the query with its mark. */
  function CutQuery(target: seq<byte>): (seq<byte>, seq<byte>) {
    (target[..IndexOf(target, QUESTION)], target[IndexOf(target, QUESTION)..])
  }

  datatype Answer =
    | BadRequest
    | Redirect(location: seq<byte>)
    /** Passed on: the decoded path kept for the handlers, and the URL Express routes on. */
    | PassOn(decoded: seq<byte>, url: seq<byte>)

  /** What is done with a target whose authority, if it has one, is in order. */
  function Decide(target: seq<byte>, reading: seq<byte> -> seq<byte>): Answer {
    var (rawPath, query) := CutQuery(target);
    match Unescaped(rawPath)
    case None => BadRequest
    case Some(decoded) =>
      if Cleaned(decoded) != decoded then Redirect(Escaped(Cleaned(decoded), LOCATION_KEEP) + query)
      else PassOn(decoded, Escaped(reading(decoded), ROUTING_KEEP) + query)
  }

  /** `muxCompat`; `reading` is the lossy UTF-8 reading of the decoded bytes, written as UTF-8 again. */
  function MuxCompat(url: seq<byte>, reading: seq<byte> -> seq<byte>): Answer {
    match Absolute(url)
    case Some((authority, target)) => if HASH in authority then BadRequest else Decide(target, reading)
    case None => if url == [] || url[0] != SLASH then BadRequest else Decide(url, reading)
  }

  lemma {:induction false} IndexOfAfter(s: seq<byte>, query: seq<byte>)
    requires (forall k | 0 <= k < |s| :: s[k] != QUESTION) && (query == [] || query[0] == QUESTION)
    ensures IndexOf(s + query, QUESTION) == |s| && CutQuery(s + query) == (s, query)
  {
    if s != [] {
      IndexOfAfter(s[1..], query);
      assert (s + query)[1..] == s[1..] + query;
      assert (s + query)[..|s|] == s && (s + query)[|s|..] == query;
    } else {
      assert s + query == query;
    }
  }

  lemma {:induction false} EscapedFirst(p: seq<byte>)
    requires p != [] && p[0] == SLASH
    ensures Escaped(p, LOCATION_KEEP) != [] && Escaped(p, LOCATION_KEEP)[0] == SLASH
  {
  }

  /** A path that is redirected is passed on the next time, as the cleaned path, with the same query. */
  lemma {:induction false} RedirectsOnce(target: seq<byte>, reading: seq<byte> -> seq<byte>)
    requires Decide(target, reading).Redirect?
    ensures var (rawPath, query) := CutQuery(target);
            && Unescaped(rawPath).Some?
            && var clean := Cleaned(Unescaped(rawPath).value);
               MuxCompat(Decide(target, reading).location, reading) == PassOn(clean, Escaped(reading(clean), ROUTING_KEEP) + query)
  {
    hide Cleaned, Escaped, Unescaped, IndexOf;
    var (rawPath, query) := CutQuery(target);
    var clean := Cleaned(Unescaped(rawPath).value);
    var path := Escaped(clean, LOCATION_KEEP);
    CleanIsKept(Unescaped(rawPath).value);
    CleanIsKept(clean);
    CleanFirst(clean);
    EscapedFirst(clean);
    EscapedBytes(clean, LOCATION_KEEP);
    assert forall k | 0 <= k < |path| :: path[k] != QUESTION;
    IndexOfAfter(path, query);
    EscapeRoundTrip(clean, LOCATION_KEEP);
  }

  lemma {:induction false} CleanFirst(p: seq<byte>)
    requires IsClean(p)
    ensures p != [] && p[0] == SLASH
  {
  }

  /** Absent, or set off by this byte. */
  predicate SetOff(s: seq<byte>, c: char) {
    s == [] || s[0] == c as int
  }

  predicate Without(s: seq<byte>, c: char) {
    forall k | 0 <= k < |s| :: s[k] != c as int
  }

  /** A target is a rooted path, and a query or none. */
  predicate IsOrigin(path: seq<byte>, query: seq<byte>) {
    path != [] && SetOff(path, '/') && Without(path, '?') && SetOff(query, '?')
  }

  predicate IsSchemeByte(c: byte) {
    IsAlpha(c) || 0x30 <= c <= 0x39 || c == 0x2b || c == 0x2d || c == 0x2e
  }

  /** Letters, and behind the first of them digits and three marks as well (section 3.1 of RFC 3986). */
  lemma {:induction false} SchemeByteExact(c: byte)
    ensures IsAlpha(c) <==> c as char in "ABCDEFGHIJKLMNOPQRSTUVWXYZ" || c as char in "abcdefghijklmnopqrstuvwxyz"
    ensures IsSchemeByte(c) <==> IsAlpha(c) || c as char in "0123456789" || c as char in "+-."
  {
    Stretch("ABCDEFGHIJKLMNOPQRSTUVWXYZ", 0x41, c);
    Stretch("abcdefghijklmnopqrstuvwxyz", 0x61, c);
    Stretch("0123456789", 0x30, c);
  }

  /** A whole URL: scheme, authority, path (possibly none) and query. */
  predicate IsAbsolute(scheme: seq<byte>, authority: seq<byte>, path: seq<byte>, query: seq<byte>) {
    && scheme != [] && IsAlpha(scheme[0]) && (forall k | 0 <= k < |scheme| :: IsSchemeByte(scheme[k]))
    && Without(authority, '/') && Without(authority, '?') && SetOff(path, '/') && Without(path, '?') && SetOff(query, '?')
  }

  function AbsoluteText(scheme: seq<byte>, authority: seq<byte>, path: seq<byte>, query: seq<byte>): seq<byte> {
    scheme + ([':' as int, '/' as int, '/' as int] + (authority + (path + query)))
  }

  /** Segment by segment, escapes of these bytes. */
  ghost predicate SameSegments(sent: seq<byte>, bytes: seq<byte>) {
    |Split(sent)| == |Split(bytes)| && forall k | 0 <= k < |Split(sent)| :: Unescaped(Split(sent)[k]) == Some(Split(bytes)[k])
  }

  predicate PathBytes(sent: seq<byte>, keep: string) {
    forall k | 0 <= k < |sent| :: IsUnreserved(sent[k]) || sent[k] == 0x25 || sent[k] as char in keep
  }

  /**
   What a path and its query are answered with: an escape that is none is refused, an unclean path is sent to its clean
   form, a clean one is kept as the bytes it stands for, and routed as their reading, with the same slashes.
   */
  ghost predicate Answers(path: seq<byte>, query: seq<byte>, reading: seq<byte> -> seq<byte>, a: Answer) {
    match a
    case BadRequest => !WellEscaped(path)
    case Redirect(location) =>
      exists sent :: location == sent + query && Unescaped(path).Some? && !IsClean(Unescaped(path).value)
        && Unescaped(sent) == Some(Cleaned(Unescaped(path).value)) && PathBytes(sent, "$&+,/:;=@")
    case PassOn(decoded, url) =>
      && Unescaped(path) == Some(decoded) && IsClean(decoded)
      && exists sent :: url == sent + query && Unescaped(sent) == Some(reading(decoded))
           && SameSegments(sent, reading(decoded)) && PathBytes(sent, "/!$&'()*+,;=:@")
  }

  /** Every target is answered by its path and its query; one of neither form is refused, and so is a fragment in an authority. */
  lemma {:induction false} MuxExact(url: seq<byte>, reading: seq<byte> -> seq<byte>)
    ensures forall path, query | IsOrigin(path, query) && url == path + query :: Answers(path, query, reading, MuxCompat(url, reading))
    ensures forall scheme, authority, path, query | IsAbsolute(scheme, authority, path, query) && url == AbsoluteText(scheme, authority, path, query) ::
      if !Without(authority, '#') then MuxCompat(url, reading).BadRequest? else Answers(path, query, reading, MuxCompat(url, reading))
    ensures
      || MuxCompat(url, reading).BadRequest?
      || (exists path, query :: IsOrigin(path, query) && url == path + query)
      || (exists scheme, authority, path, query :: IsAbsolute(scheme, authority, path, query) && url == AbsoluteText(scheme, authority, path, query))
  {
    hide Answers, Decide, Absolute, CutQuery, IsAbsolute, IsOrigin, AbsoluteText;
    forall path, query | IsOrigin(path, query) && url == path + query ensures Answers(path, query, reading, MuxCompat(url, reading)) {
      OriginAnswers(path, query, reading);
    }
    forall scheme, authority, path, query | IsAbsolute(scheme, authority, path, query) && url == AbsoluteText(scheme, authority, path, query)
      ensures if !Without(authority, '#') then MuxCompat(url, reading).BadRequest? else Answers(path, query, reading, MuxCompat(url, reading))
    {
      AbsoluteAnswers(scheme, authority, path, query, reading);
    }
    if Absolute(url).Some? {
      var scheme, authority, path, query := AbsoluteParts(url);
    } else if url != [] && url[0] == SLASH {
      var path, query := OriginParts(url);
    }
  }

  lemma {:induction false} OriginAnswers(path: seq<byte>, query: seq<byte>, reading: seq<byte> -> seq<byte>)
    requires IsOrigin(path, query)
    ensures Answers(path, query, reading, MuxCompat(path + query, reading))
  {
    hide Answers, Decide, CutQuery;
    IndexOfAfter(path, query);
    DecideAnswers(path, query, reading);
    assert (path + query)[0] == SLASH;
    assert Absolute(path + query).None?;
  }

  lemma {:induction false} AbsoluteAnswers(scheme: seq<byte>, authority: seq<byte>, path: seq<byte>, query: seq<byte>, reading: seq<byte> -> seq<byte>)
    requires IsAbsolute(scheme, authority, path, query)
    ensures var a := MuxCompat(AbsoluteText(scheme, authority, path, query), reading);
            if !Without(authority, '#') then a.BadRequest? else Answers(path, query, reading, a)
  {
    hide Answers, Decide, CutQuery, Absolute;
    IndexOfAfter(path, query);
    DecideAnswers(path, query, reading);
    AbsoluteReads(scheme, authority, path, query);
  }

  lemma {:induction false} AbsoluteReads(scheme: seq<byte>, authority: seq<byte>, path: seq<byte>, query: seq<byte>)
    requires IsAbsolute(scheme, authority, path, query)
    ensures Absolute(AbsoluteText(scheme, authority, path, query)) == Some((authority, path + query))
  {
    hide AuthorityRun, SchemeRun;
    var rest := [0x3a, SLASH, SLASH] + (authority + (path + query));
    SchemeRunOf(scheme, rest);
    AuthorityRunOf(authority, path + query);
    var url := scheme + rest;
    assert url[|scheme|..] == rest && rest[..3] == [0x3a, SLASH, SLASH] && rest[3..] == authority + (path + query);
    assert (authority + (path + query))[..|authority|] == authority && (authority + (path + query))[|authority|..] == path + query;
  }

  lemma {:induction false} SchemeRunOf(scheme: seq<byte>, rest: seq<byte>)
    requires (forall k | 0 <= k < |scheme| :: IsSchemeByte(scheme[k])) && (rest != [] ==> !IsSchemeByte(rest[0]))
    ensures SchemeRun(scheme + rest) == |scheme|
  {
    if scheme == [] {
      assert scheme + rest == rest;
    } else {
      assert (scheme + rest)[1..] == scheme[1..] + rest;
      SchemeRunOf(scheme[1..], rest);
    }
  }

  lemma {:induction false} AuthorityRunOf(authority: seq<byte>, rest: seq<byte>)
    requires SLASH !in authority && QUESTION !in authority && (rest != [] ==> rest[0] == SLASH || rest[0] == QUESTION)
    ensures AuthorityRun(authority + rest) == |authority|
  {
    if authority == [] {
      assert authority + rest == rest;
    } else {
      assert (authority + rest)[1..] == authority[1..] + rest;
      AuthorityRunOf(authority[1..], rest);
    }
  }

  /** Whatever is taken for a whole URL is one. */
  lemma {:induction false} AbsoluteParts(url: seq<byte>) returns (scheme: seq<byte>, authority: seq<byte>, path: seq<byte>, query: seq<byte>)
    requires Absolute(url).Some?
    ensures IsAbsolute(scheme, authority, path, query) && url == AbsoluteText(scheme, authority, path, query)
  {
    hide AuthorityRun, SchemeRun, IsSchemeByte;
    SchemeRunHas(url);
    scheme := url[..SchemeRun(url)];
    var rest := url[SchemeRun(url)..];
    var tail := rest[3..];
    assert rest == [0x3a, SLASH, SLASH] + tail && url == scheme + rest;
    authority, path, query := TailParts(tail);
  }

  lemma {:induction false} TailParts(tail: seq<byte>) returns (authority: seq<byte>, path: seq<byte>, query: seq<byte>)
    ensures authority == tail[..AuthorityRun(tail)] && SLASH !in authority && QUESTION !in authority
    ensures (path == [] || path[0] == SLASH) && QUESTION !in path && (query == [] || query[0] == QUESTION)
    ensures tail == authority + (path + query)
  {
    hide AuthorityRun, IndexOf;
    AuthorityRunHas(tail);
    var n := AuthorityRun(tail);
    var target := tail[n..];
    authority := tail[..n];
    path, query := target[..IndexOf(target, QUESTION)], target[IndexOf(target, QUESTION)..];
    assert path + query == target && authority + target == tail;
  }

  lemma {:induction false} SchemeRunHas(s: seq<byte>)
    ensures forall k | 0 <= k < SchemeRun(s) :: IsSchemeByte(s[k])
    ensures s != [] && IsAlpha(s[0]) ==> SchemeRun(s) > 0
  {
    if SchemeRun(s) > 0 {
      SchemeRunHas(s[1..]);
      assert forall k | 0 < k < SchemeRun(s) :: s[k] == s[1..][k - 1];
    }
  }

  lemma {:induction false} AuthorityRunHas(s: seq<byte>)
    ensures forall k | 0 <= k < AuthorityRun(s) :: s[k] != SLASH && s[k] != QUESTION
    ensures AuthorityRun(s) < |s| ==> s[AuthorityRun(s)] == SLASH || s[AuthorityRun(s)] == QUESTION
  {
    if s != [] && s[0] != SLASH && s[0] != QUESTION {
      AuthorityRunHas(s[1..]);
      assert forall k | 0 < k < |s| :: s[k] == s[1..][k - 1];
    }
  }

  lemma {:induction false} OriginParts(url: seq<byte>) returns (path: seq<byte>, query: seq<byte>)
    requires url != [] && url[0] == SLASH
    ensures IsOrigin(path, query) && url == path + query
  {
    hide IndexOf;
    path, query := CutQuery(url).0, CutQuery(url).1;
  }

  lemma {:induction false} DecideAnswers(path: seq<byte>, query: seq<byte>, reading: seq<byte> -> seq<byte>)
    requires CutQuery(path + query) == (path, query)
    ensures Answers(path, query, reading, Decide(path + query, reading))
  {
    hide WellEscaped, Unescaped, Escaped, Cleaned, IsClean, CutQuery, SameSegments, PathBytes;
    UnescapedExact(path);
    if Unescaped(path).Some? {
      var decoded := Unescaped(path).value;
      CleanIsKept(decoded);
      if Cleaned(decoded) != decoded {
        EscapeRoundTrip(Cleaned(decoded), LOCATION_KEEP);
        SentBytes(Cleaned(decoded), LOCATION_KEEP, "$&+,/:;=@");
      } else {
        EscapeRoundTrip(reading(decoded), ROUTING_KEEP);
        SentBytes(reading(decoded), ROUTING_KEEP, "/!$&'()*+,;=:@");
        EscapedSegments(reading(decoded), ROUTING_KEEP);
      }
    }
  }

  lemma {:induction false} SentBytes(bytes: seq<byte>, keep: set<byte>, chars: string)
    requires (keep == LOCATION_KEEP && chars == "$&+,/:;=@") || (keep == ROUTING_KEEP && chars == "/!$&'()*+,;=:@")
    ensures PathBytes(Escaped(bytes, keep), chars)
  {
    hide IsUnreserved, Escaped;
    var sent := Escaped(bytes, keep);
    EscapedBytes(bytes, keep);
    forall k | 0 <= k < |sent| ensures IsUnreserved(sent[k]) || sent[k] == 0x25 || sent[k] as char in chars {
      KeptExact(sent[k]);
    }
  }

  /** Where slashes are kept, segments are escaped one by one. */
  lemma {:induction false} EscapedSegments(bytes: seq<byte>, keep: set<byte>)
    requires SLASH in keep && 0x25 !in keep
    ensures SameSegments(Escaped(bytes, keep), bytes)
  {
    hide Split, Unescaped, Escaped;
    EscapedSplit(bytes, keep);
    forall k | 0 <= k < |Split(bytes)| ensures Unescaped(Escaped(Split(bytes)[k], keep)) == Some(Split(bytes)[k]) {
      EscapeRoundTrip(Split(bytes)[k], keep);
    }
  }

  lemma {:induction false} EscapedSplit(bytes: seq<byte>, keep: set<byte>)
    requires SLASH in keep && 0x25 !in keep
    ensures |Split(Escaped(bytes, keep))| == |Split(bytes)|
    ensures forall k | 0 <= k < |Split(bytes)| :: Split(Escaped(bytes, keep))[k] == Escaped(Split(bytes)[k], keep)
  {
    hide EscapeByte, Escaped, Split;
    if bytes == [] {
      NothingEscaped(keep);
    } else {
      EscapedSplit(bytes[1..], keep);
      EscapedSplitStep(bytes[0], bytes[1..], keep);
      assert bytes == [bytes[0]] + bytes[1..];
    }
  }

  lemma {:induction false} NothingEscaped(keep: set<byte>)
    ensures Escaped([], keep) == [] && Split([]) == [[]]
  {
  }

  lemma {:induction false} EscapedOne(c: byte, rest: seq<byte>, keep: set<byte>)
    ensures Escaped([c] + rest, keep) == EscapeByte(c, keep) + Escaped(rest, keep)
  {
    hide EscapeByte;
    assert ([c] + rest)[1..] == rest;
  }

  /** One more byte in front: a slash opens a segment, any other byte joins the first. */
  lemma {:induction false} EscapedSplitStep(c: byte, rest: seq<byte>, keep: set<byte>)
    requires SLASH in keep && 0x25 !in keep
    ensures Split([c] + rest) == if c == SLASH then [[]] + Split(rest) else [[c] + Split(rest)[0]] + Split(rest)[1..]
    ensures var sent := Split(Escaped(rest, keep));
            Split(Escaped([c] + rest, keep)) == if c == SLASH then [[]] + sent else [EscapeByte(c, keep) + sent[0]] + sent[1..]
    ensures c != SLASH ==> Escaped([c] + Split(rest)[0], keep) == EscapeByte(c, keep) + Escaped(Split(rest)[0], keep)
    ensures Escaped([], keep) == []
  {
    hide EscapeByte, Escaped, Split;
    NothingEscaped(keep);
    EscapedOne(c, rest, keep);
    EscapedOne(c, Split(rest)[0], keep);
    if c == SLASH {
      EscapedSlash(keep);
      var none: seq<byte> := [];
      SplitFirst(none, rest);
      SplitFirst(none, Escaped(rest, keep));
      assert none + ([SLASH] + rest) == [c] + rest && none + ([SLASH] + Escaped(rest, keep)) == [SLASH] + Escaped(rest, keep);
    } else {
      EscapedNoSlash(c, keep);
      SplitAfter([c], rest);
      SplitAfter(EscapeByte(c, keep), Escaped(rest, keep));
    }
  }

  lemma {:induction false} EscapedSlash(keep: set<byte>)
    requires SLASH in keep
    ensures EscapeByte(SLASH, keep) == [SLASH]
  {
  }

  lemma {:induction false} EscapedNoSlash(c: byte, keep: set<byte>)
    requires c != SLASH
    ensures NoSlash(EscapeByte(c, keep))
  {
  }

  /** Bytes without a slash go into the first segment of what follows. */
  lemma {:induction false} SplitAfter(a: seq<byte>, s: seq<byte>)
    requires NoSlash(a)
    ensures Split(a + s) == [a + Split(s)[0]] + Split(s)[1..]
    decreases |a|
  {
    if a == [] {
      assert a + s == s && a + Split(s)[0] == Split(s)[0];
    } else {
      assert (a + s)[0] == a[0] && (a + s)[1..] == a[1..] + s;
      SplitAfter(a[1..], s);
      assert [a[0]] + (a[1..] + Split(s)[0]) == a + Split(s)[0];
    }
  }

  // --- the segment ---------------------------------------------------------------------------------

  /** `split("/")` from the end; nothing beyond the first. */
  function NthFromEnd(path: seq<byte>, n: nat): seq<byte> {
    var segs := Split(path);
    if n < |segs| then segs[|segs| - 1 - n] else []
  }

  /** The last segment of what is left after `n` steps back, and what is left after one more. */
  lemma {:induction false} StepBack(path: seq<byte>, end: nat, n: nat)
    requires end <= |path| && n < |Split(path)| && Split(path[..end]) == Split(path)[..|Split(path)| - n]
    ensures var segs := Split(path);
            var i := LastSlash(path[..end]);
            && -1 <= i < end && segs[|segs| - 1 - n] == path[i + 1..end]
            && (if i < 0 then |segs| == n + 1 else n + 1 < |segs| && Split(path[..i]) == segs[..|segs| - n - 1])
  {
    hide Split, LastSlash;
    var segs := Split(path);
    var head := path[..end];
    var i := LastSlash(head);
    SplitLast(head);
    var last := Split(head)[|Split(head)| - 1];
    assert last == segs[|segs| - 1 - n];
    if i < 0 {
      assert head == path[0..end];
    } else {
      assert head[i + 1..] == path[i + 1..end] && head[..i] == path[..i];
      assert Split(head)[..|Split(head)| - 1] == Split(head[..i]);
    }
  }

  /** `segmentFromEnd` */
  method SegmentFromEnd(path: seq<byte>, fromEnd: nat) returns (seg: seq<byte>)
    ensures seg == NthFromEnd(path, fromEnd)
  {
    hide Split, LastSlash;
    var end := |path|;
    var n := 0;
    assert path[..end] == path;
    while true
      invariant 0 <= n <= fromEnd && end <= |path| && n < |Split(path)|
      invariant Split(path[..end]) == Split(path)[..|Split(path)| - n]
      decreases end
    {
      StepBack(path, end, n);
      if end < 1 { return []; }
      var start := LastSlash(path[..end]) + 1;
      assert 0 <= start <= end;
      if n == fromEnd { return path[start..end]; }
      if start == 0 { return []; }
      end := start - 1;
      n := n + 1;
    }
  }

  /** No segment of a path that is let through is a dot segment. */
  lemma {:induction false} CleanHasNoDots(path: seq<byte>, n: nat)
    requires IsClean(path)
    ensures NoSlash(NthFromEnd(path, n)) && !IsDots(NthFromEnd(path, n))
  {
    hide Split, Join;
    var segs, trailing :| AllPlain(segs) && (segs == [] ==> !trailing) && path == CleanText(segs, trailing);
    if segs == [] {
      NoJoin();
      assert path == [SLASH];
      RootSplit();
    } else {
      SplitClean(segs, trailing);
      var all := Split(path);
      if n < |all| {
        var k := |all| - 1 - n;
        assert all[k] == [] || (1 <= k <= |segs| && all[k] == segs[k - 1]);
        if all[k] != [] { assert IsPlain(segs[k - 1]); }
      }
    }
  }

  lemma {:induction false} NoJoin()
    ensures Join([]) == []
  {
  }

  // --- resolvePath -------------------------------------------------------------------------------------

  /** The segments that are left, `stack` being there before; a dot at the very start leaves an empty one. */
  function Dots(elems: seq<seq<byte>>, stack: seq<seq<byte>>): seq<seq<byte>>
    decreases |elems|
  {
    if elems == [] then stack else Dots(elems[1..], DotStep(elems[0], stack))
  }

  function DotStep(elem: seq<byte>, stack: seq<seq<byte>>): seq<seq<byte>> {
    if elem == DOT then (if stack == [] then [[]] else stack)
    else if elem == DOT_DOT then (if stack == [] then [] else stack[..|stack| - 1])
    else stack + [elem]
  }

  function Merged(base: seq<byte>, ref: seq<byte>): seq<byte> {
    if ref == [] then base
    else if ref[0] == SLASH then ref
    else base[..LastSlash(base) + 1] + ref
  }

  /** The text of a stack: rooted, with one slash in front however it began. */
  function Rendered(stack: seq<seq<byte>>, endsInDot: bool): seq<byte> {
    var dst := [SLASH] + Join(stack) + (if endsInDot then [SLASH] else []);
    if |dst| > 1 && dst[1] == SLASH then dst[1..] else dst
  }

  function Resolved(base: seq<byte>, ref: seq<byte>): seq<byte> {
    var full := Merged(base, ref);
    if full == [] then []
    else
      var elems := Split(full);
      Rendered(Dots(elems, []), IsDots(elems[|elems| - 1]))
  }

  /** `resolvePath`: the text it builds is that of a stack of segments. */
  method ResolvePath(base: seq<byte>, ref: seq<byte>) returns (r: seq<byte>)
    ensures r == Resolved(base, ref)
  {
    hide Split, Dots, DotStep, IsDots, Join, Step, Stacked;
    var full := if ref == [] then base else if ref[0] == SLASH then ref else base[..LastSlash(base) + 1] + ref;
    if full == [] { return []; }
    var dst := [SLASH];
    var first := true;
    var rest := full;
    var elem: seq<byte> := [];
    ghost var stack: seq<seq<byte>> := [];
    var found := true;
    StartStack();
    while found
      invariant Stacked(dst, first, stack)
      invariant found ==> Dots(Split(rest), stack) == Dots(Split(full), []) && LastOf(Split(rest)) == LastOf(Split(full))
      invariant !found ==> rest == [] && stack == Dots(Split(full), []) && elem == LastOf(Split(full))
      decreases if found then |rest| + 1 else 0
    {
      SplitHead(rest);
      ghost var before := rest;
      var slash := IndexOf(rest, SLASH);
      found := slash < |rest|;
      elem := if found then rest[..slash] else rest;
      rest := if found then rest[slash + 1..] else [];
      DotsHead(Split(before), stack);
      NotEmpty(dst, first, stack);
      StackStep(dst, first, stack, elem);
      stack := DotStep(elem, stack);
      dst, first := Place(dst, first, elem);
    }
    Finished(dst, first, stack);
    if IsDots(elem) { dst := dst + [SLASH]; }
    r := if |dst| > 1 && dst[1] == SLASH then dst[1..] else dst;
  }

  function LastOf(segs: seq<seq<byte>>): seq<byte>
    requires segs != []
  {
    segs[|segs| - 1]
  }

  /** The text so far, and whether nothing has been put there, against the stack. */
  predicate Stacked(dst: seq<byte>, first: bool, stack: seq<seq<byte>>) {
    dst == [SLASH] + Join(stack) && first == (stack == []) && AllNoSlash(stack)
  }

  /** One turn of the loop on the text. */
  function Step(dst: seq<byte>, first: bool, elem: seq<byte>): (seq<byte>, bool)
    requires dst != []
  {
    if elem == DOT then (dst, false)
    else if elem == DOT_DOT then
      var kept := dst[1..];
      var index := LastSlash(kept);
      if index == -1 then ([SLASH], true) else ([SLASH] + kept[..index], first)
    else ((if first then dst else dst + [SLASH]) + elem, false)
  }

  /** The same by statements. */
  method Place(dst0: seq<byte>, first0: bool, elem: seq<byte>) returns (dst: seq<byte>, first: bool)
    requires dst0 != []
    ensures (dst, first) == Step(dst0, first0, elem)
  {
    dst, first := dst0, first0;
    if elem == DOT {
      first := false;
    } else if elem == DOT_DOT {
      var kept := dst[1..];
      var index := LastSlash(kept);
      dst := [SLASH];
      if index == -1 {
        first := true;
      } else {
        dst := dst + kept[..index];
      }
    } else {
      if !first { dst := dst + [SLASH]; }
      dst := dst + elem;
      first := false;
    }
  }

  lemma {:induction false} NotEmpty(dst: seq<byte>, first: bool, stack: seq<seq<byte>>)
    requires Stacked(dst, first, stack)
    ensures dst != []
  {
  }

  lemma {:induction false} StartStack()
    ensures Stacked([SLASH], true, [])
  {
    assert [SLASH] + [] == [SLASH];
  }

  lemma {:induction false} Finished(dst: seq<byte>, first: bool, stack: seq<seq<byte>>)
    requires Stacked(dst, first, stack)
    ensures [SLASH] + Join(stack) + [] == dst && [SLASH] + Join(stack) + [SLASH] == dst + [SLASH]
  {
  }

  lemma {:induction false} SplitHead(s: seq<byte>)
    ensures var i := IndexOf(s, SLASH);
            if i < |s| then NoSlash(s[..i]) && Split(s) == [s[..i]] + Split(s[i + 1..]) && LastOf(Split(s)) == LastOf(Split(s[i + 1..]))
            else NoSlash(s) && Split(s) == [s] && LastOf(Split(s)) == s
  {
    hide Split, IndexOf;
    var i := IndexOf(s, SLASH);
    if i < |s| {
      SplitFirst(s[..i], s[i + 1..]);
      assert s == s[..i] + ([SLASH] + s[i + 1..]);
    } else {
      SplitAlone(s);
    }
  }

  lemma {:induction false} DotsHead(elems: seq<seq<byte>>, stack: seq<seq<byte>>)
    requires elems != []
    ensures Dots(elems, stack) == Dots(elems[1..], DotStep(elems[0], stack))
    ensures forall elem, rest :: elems == [elem] + rest ==> Dots(elems, stack) == Dots(rest, DotStep(elem, stack))
    ensures |elems| == 1 ==> Dots(elems, stack) == DotStep(elems[0], stack)
  {
    forall elem, rest | elems == [elem] + rest ensures Dots(elems, stack) == Dots(rest, DotStep(elem, stack)) {
      assert elems[1..] == rest && elems[0] == elem;
    }
    if |elems| == 1 { assert elems[1..] == []; }
  }

  lemma {:induction false} StackStep(dst: seq<byte>, first: bool, stack: seq<seq<byte>>, elem: seq<byte>)
    requires Stacked(dst, first, stack) && NoSlash(elem)
    ensures var (d, f) := Step(dst, first, elem); d != [] && Stacked(d, f, DotStep(elem, stack))
  {
    hide Join, NoSlash;
    assert dst[1..] == Join(stack);
    NoJoin();
    if elem == DOT {
      if stack == [] { OneEmpty(); }
    } else if elem == DOT_DOT {
      if stack != [] {
        LastOfJoin(stack);
      } else {
        NoSlashAtAll();
      }
      assert [SLASH] + Join([]) == [SLASH];
    } else if stack == [] {
      JoinOne(elem);
      assert [] + [elem] == [elem] && [SLASH] + [] == [SLASH];
    } else {
      JoinSnoc(stack, elem);
      assert dst + [SLASH] + elem == [SLASH] + (Join(stack) + ([SLASH] + elem));
    }
  }

  lemma {:induction false} OneEmpty()
    ensures Join([[]]) == [] && AllNoSlash([[]])
  {
  }

  lemma {:induction false} NoSlashAtAll()
    ensures LastSlash([]) == -1
  {
  }

  lemma {:induction false} JoinOne(seg: seq<byte>)
    ensures Join([seg]) == seg
  {
  }

  predicate NoneDots(segs: seq<seq<byte>>) {
    forall k | 0 <= k < |segs| :: !IsDots(segs[k])
  }

  lemma {:induction false} DotsOfOthers(elems: seq<seq<byte>>, stack: seq<seq<byte>>)
    requires NoneDots(elems)
    ensures Dots(elems, stack) == stack + elems
    decreases |elems|
  {
    if elems == [] {
      assert stack + elems == stack;
    } else {
      assert !IsDots(elems[0]);
      assert forall k | 0 <= k < |elems[1..]| :: elems[1..][k] == elems[k + 1];
      DotsOfOthers(elems[1..], stack + [elems[0]]);
      assert (stack + [elems[0]]) + elems[1..] == stack + elems;
    }
  }

  /** A rooted path without dot segments is resolved to itself. */
  lemma {:induction false} ResolvedUnchanged(path: seq<byte>)
    requires path != [] && path[0] == SLASH && NoneDots(Split(path))
    ensures Resolved(path, []) == path
  {
    var elems := Split(path);
    DotsOfOthers(elems, []);
    JoinSplit(path);
    assert [] + elems == elems;
    assert !IsDots(elems[|elems| - 1]);
    var dst := [SLASH] + path + [];
    assert dst[1..] == path;
  }

  lemma {:induction false} DotsLeaveNone(elems: seq<seq<byte>>, stack: seq<seq<byte>>)
    requires AllNoSlash(elems) && AllNoSlash(stack) && NoneDots(stack)
    ensures AllNoSlash(Dots(elems, stack)) && NoneDots(Dots(elems, stack))
    decreases |elems|
  {
    if elems != [] {
      assert NoSlash(elems[0]);
      assert forall k | 0 <= k < |elems[1..]| :: elems[1..][k] == elems[k + 1];
      DotsLeaveNone(elems[1..], DotStep(elems[0], stack));
    }
  }

  lemma {:induction false} NoneDotsWith(segs: seq<seq<byte>>)
    requires NoneDots(segs)
    ensures NoneDots([[]] + segs) && NoneDots(segs + [[]])
  {
    var a: seq<seq<byte>> := [[]] + segs;
    forall k | 0 <= k < |a| ensures !IsDots(a[k]) { if k > 0 { assert a[k] == segs[k - 1]; } }
  }

  lemma {:induction false} AllNoSlashWith(segs: seq<seq<byte>>)
    requires AllNoSlash(segs)
    ensures AllNoSlash([[]] + segs) && AllNoSlash(segs + [[]])
  {
    var a: seq<seq<byte>> := [[]] + segs;
    forall k | 0 <= k < |a| ensures NoSlash(a[k]) { if k > 0 { assert a[k] == segs[k - 1]; } }
  }

  /** A joined stack, with a slash behind it or not, splits into no dot segment. */
  lemma {:induction false} JoinedHasNoDots(segs: seq<seq<byte>>, tail: bool)
    requires segs != [] && AllNoSlash(segs) && NoneDots(segs)
    ensures NoneDots(Split(Join(segs) + (if tail then [SLASH] else [])))
  {
    hide Split, Join, NoneDots, AllNoSlash;
    if tail {
      SplitTrailing(segs);
      NoneDotsWith(segs);
    } else {
      assert Join(segs) + [] == Join(segs);
      SplitJoin(segs);
    }
  }

  /** Whatever is resolved against whatever, the result is empty or rooted, and has no dot segment left. */
  lemma {:induction false} ResolvedHasNoDots(base: seq<byte>, ref: seq<byte>)
    ensures var r := Resolved(base, ref); r != [] ==> r[0] == SLASH && NoneDots(Split(r))
    ensures Resolved(base, ref) == [] <==> base == [] && ref == []
  {
    hide Split, Join, Dots;
    var full := Merged(base, ref);
    if full != [] {
      var elems := Split(full);
      SplitNoSlash(full);
      DotsLeaveNone(elems, []);
      var stack := Dots(elems, []);
      RenderedHasNoDots(stack, IsDots(elems[|elems| - 1]));
    }
  }

  lemma {:induction false} RenderedHasNoDots(stack: seq<seq<byte>>, tail: bool)
    requires AllNoSlash(stack) && NoneDots(stack)
    ensures var r := Rendered(stack, tail); r != [] && r[0] == SLASH && NoneDots(Split(r))
  {
    hide Split, Join, NoneDots, AllNoSlash;
    var end: seq<byte> := if tail then [SLASH] else [];
    var dst := [SLASH] + Join(stack) + end;
    if stack == [] {
      NoJoin();
      RootSplit();
      RootHasNoDots();
      assert dst == if tail then [SLASH, SLASH] else [SLASH];
      assert [SLASH, SLASH][1..] == [SLASH];
    } else if |dst| > 1 && dst[1] == SLASH {
      assert dst[1..] == Join(stack) + end;
      JoinedHasNoDots(stack, tail);
    } else {
      var all: seq<seq<byte>> := [[]] + stack;
      JoinCons([], stack);
      assert [] + ([SLASH] + Join(stack)) + end == dst;
      NoneDotsWith(stack);
      AllNoSlashWith(stack);
      JoinedHasNoDots(all, tail);
    }
  }

  lemma {:induction false} RootHasNoDots()
    ensures NoneDots([[], []])
  {
  }

  // --- what a path resolves to ------------------------------------------------------------------------

  lemma {:induction false} DotsAppend(a: seq<seq<byte>>, b: seq<seq<byte>>, stack: seq<seq<byte>>)
    ensures Dots(a + b, stack) == Dots(b, Dots(a, stack))
    decreases |a|
  {
    hide DotStep;
    if a == [] {
      assert a + b == b;
    } else {
      assert (a + b)[0] == a[0] && (a + b)[1..] == a[1..] + b;
      DotsAppend(a[1..], b, DotStep(a[0], stack));
    }
  }

  lemma {:induction false} OneDots(elem: seq<byte>, stack: seq<seq<byte>>)
    ensures Dots([elem], stack) == DotStep(elem, stack)
  {
    hide DotStep;
    assert [elem][1..] == [];
  }

  /** What is resolved on its own, by its segments. */
  lemma {:induction false} ResolvedOf(elems: seq<seq<byte>>)
    requires elems != [] && AllNoSlash(elems)
    ensures Rooted(Resolved(Join(elems), [])) == Rendered(Dots(elems, []), IsDots(elems[|elems| - 1]))
  {
    hide Split, Dots, Join, AllNoSlash;
    SplitJoin(elems);
    NothingResolved();
    if Join(elems) != [] {
      RenderedRooted(Dots(elems, []), IsDots(elems[|elems| - 1]));
    }
  }

  lemma {:induction false} NothingResolved()
    ensures Split([]) == [[]] && Rendered(Dots([[]], []), false) == [SLASH] && !IsDots([])
  {
    OneDots([], []);
    var none: seq<seq<byte>> := [];
    assert none + [[]] == [[]];
    OneEmpty();
  }

  lemma {:induction false} RenderedRooted(stack: seq<seq<byte>>, tail: bool)
    ensures Rendered(stack, tail) != [] && Rendered(stack, tail)[0] == SLASH
  {
    hide Join;
  }

  lemma {:induction false} LastAfter(a: seq<seq<byte>>, b: seq<seq<byte>>)
    requires b != []
    ensures (a + b)[|a + b| - 1] == b[|b| - 1]
  {
  }

  /** Segments that leave the stack as other segments leave it, resolve like these. */
  lemma {:induction false} ResolveAlike(a: seq<seq<byte>>, b: seq<seq<byte>>, post: seq<seq<byte>>)
    requires AllNoSlash(a) && AllNoSlash(b) && AllNoSlash(post) && post != []
    requires Dots(a, []) == Dots(b, [])
    ensures Rooted(Resolved(Join(a + post), [])) == Rooted(Resolved(Join(b + post), []))
  {
    hide Dots, Join, Rooted, Resolved, Rendered;
    DotsAppend(a, post, []);
    DotsAppend(b, post, []);
    LastAfter(a, post);
    LastAfter(b, post);
    ResolvedOf(a + post);
    ResolvedOf(b + post);
  }

  /** A double dot takes the segment before it away, an empty one too. */
  lemma {:induction false} ResolveUp(pre: seq<seq<byte>>, seg: seq<byte>, post: seq<seq<byte>>)
    requires AllNoSlash(pre) && AllNoSlash(post) && NoSlash(seg) && !IsDots(seg) && post != []
    ensures Rooted(Resolved(Join(pre + [seg, DOT_DOT] + post), [])) == Rooted(Resolved(Join(pre + post), []))
  {
    hide Dots, Join, Rooted, Resolved, Rendered;
    var stack := Dots(pre, []);
    DotsAppend(pre, [seg, DOT_DOT], []);
    assert [seg, DOT_DOT] == [seg] + [DOT_DOT];
    DotsAppend([seg], [DOT_DOT], stack);
    OneDots(seg, stack);
    OneDots(DOT_DOT, stack + [seg]);
    assert (stack + [seg])[..|stack + [seg]| - 1] == stack;
    NoSlashParts(pre, [seg, DOT_DOT], post);
    ResolveAlike(pre + [seg, DOT_DOT], pre, post);
  }

  /** A single dot says nothing behind segments without dots; at the very start it stands for the root. */
  lemma {:induction false} ResolveDot(pre: seq<seq<byte>>, post: seq<seq<byte>>)
    requires AllNoSlash(pre) && AllNoSlash(post) && post != [] && NoneDots(pre)
    ensures Rooted(Resolved(Join(pre + [DOT] + post), [])) ==
            if pre == [] then Rooted(Resolved(Join([[]] + post), [])) else Rooted(Resolved(Join(pre + post), []))
  {
    hide Dots, Join, Rooted, Resolved, Rendered;
    var none: seq<seq<byte>> := [];
    DotsOfOthers(pre, []);
    assert none + pre == pre;
    DotsAppend(pre, [DOT], []);
    OneDots(DOT, pre);
    if pre == [] {
      OneDots([], []);
      assert none + [[]] == [[]];
      ResolveAlike(pre + [DOT], [[]], post);
    } else {
      ResolveAlike(pre + [DOT], pre, post);
    }
  }

  /** There is nothing above the root: what is left begins anew, rooted or not. */
  lemma {:induction false} ResolveUpAtRoot(post: seq<seq<byte>>)
    requires AllNoSlash(post) && post != []
    ensures Rooted(Resolved(Join([DOT_DOT] + post), [])) == Rooted(Resolved(Join(post), []))
    ensures Rooted(Resolved(Join([[], DOT_DOT] + post), [])) == Rooted(Resolved(Join(post), []))
  {
    hide Dots, Join, Rooted, Resolved, Rendered;
    var none: seq<seq<byte>> := [];
    OneDots(DOT_DOT, []);
    assert none + post == post;
    NothingKept();
    ResolveAlike([DOT_DOT], none, post);
    ResolveUp(none, [], post);
    assert none + [[], DOT_DOT] + post == [[], DOT_DOT] + post;
  }

  lemma {:induction false} NothingKept()
    ensures Dots([], []) == []
  {
  }

  /** A dot segment at the end stands for what it leaves and a slash. */
  lemma {:induction false} ResolveEnd(pre: seq<seq<byte>>, dots: seq<byte>)
    requires AllNoSlash(pre) && IsDots(dots)
    ensures Rooted(Resolved(Join(pre + [dots]), [])) == Rooted(Resolved(Join(pre + [dots, []]), []))
  {
    hide Dots, Join, Rooted, Resolved, Rendered;
    var elems := pre + [dots];
    assert pre + [dots, []] == elems + [[]];
    var stack := Dots(elems, []);
    DotsAppend(elems, [[]], []);
    OneDots([], stack);
    LastAfter(pre, [dots]);
    LastAfter(elems, [[]]);
    NothingResolved();
    ResolvedOf(elems);
    ResolvedOf(elems + [[]]);
    SlashBehind(stack);
  }

  lemma {:induction false} SlashBehind(stack: seq<seq<byte>>)
    ensures Rendered(stack, true) == Rendered(stack + [[]], false)
  {
    hide Join;
    if stack == [] {
      NoJoin();
      OneEmpty();
      assert stack + [[]] == [[]];
    } else {
      JoinSnoc(stack, []);
      assert Join(stack) + ([SLASH] + []) == Join(stack) + [SLASH];
      assert [SLASH] + Join(stack + [[]]) + [] == [SLASH] + Join(stack) + [SLASH];
    }
  }

  /** Without dot segments nothing changes, but for the slash in front. */
  lemma {:induction false} ResolveRoots(path: seq<byte>)
    requires NoneDots(Split(path))
    ensures Rooted(Resolved(path, [])) == Rooted(path)
  {
    hide Split, Dots, Join;
    var elems := Split(path);
    SplitNoSlash(path);
    JoinSplit(path);
    ResolvedOf(elems);
    DotsOfOthers(elems, []);
    assert [] + elems == elems;
    assert !IsDots(elems[|elems| - 1]);
    RenderedAsRooted(elems);
  }

  lemma {:induction false} RenderedAsRooted(elems: seq<seq<byte>>)
    ensures Rendered(elems, false) == Rooted(Join(elems))
  {
    hide Join;
    var dst := [SLASH] + Join(elems) + [];
    if Join(elems) != [] {
      assert dst[1] == Join(elems)[0] && dst[1..] == Join(elems);
    }
  }

  /** A rooted reference stands for itself; any other comes in place of the base's last segment, and none at all is the base. */
  lemma {:induction false} MergeExact(dir: seq<byte>, last: seq<byte>, ref: seq<byte>)
    requires NoSlash(last)
    ensures ref != [] && ref[0] == SLASH ==> Resolved(dir + ([SLASH] + last), ref) == Resolved(last, ref) == Resolved(ref, [])
    ensures ref != [] && ref[0] != SLASH ==>
      Resolved(dir + ([SLASH] + last), ref) == Resolved(dir + ([SLASH] + ref), []) && Resolved(last, ref) == Resolved(ref, [])
  {
    hide Merged, Split, Dots, Rendered, IsDots;
    if ref != [] { MergedExact(dir, last, ref); }
  }

  lemma {:induction false} MergedExact(dir: seq<byte>, last: seq<byte>, ref: seq<byte>)
    requires NoSlash(last) && ref != []
    ensures ref[0] == SLASH ==> Merged(dir + ([SLASH] + last), ref) == Merged(last, ref) == ref
    ensures ref[0] != SLASH ==> Merged(dir + ([SLASH] + last), ref) == dir + ([SLASH] + ref) && Merged(last, ref) == ref
    ensures Merged(ref, []) == ref && Merged(dir + ([SLASH] + ref), []) == dir + ([SLASH] + ref)
  {
    hide LastSlash;
    var base := dir + ([SLASH] + last);
    LastSlashIs(base, |dir|);
    NoLastSlash(last);
    assert base[..|dir| + 1] + ref == dir + ([SLASH] + ref);
    assert last[..0] + ref == ref;
  }

  lemma {:induction false} NoLastSlash(s: seq<byte>)
    requires NoSlash(s)
    ensures LastSlash(s) == -1
  {
    hide LastSlash;
  }

  // --- from the request to the gateway ------------------------------------------------------------------

  /** A segment as it is sent: nothing in it can be taken for a slash, a backslash, a query or a fragment. */
  lemma {:induction false} SegmentSent(seg: seq<byte>)
    requires !IsDots(seg)
    ensures var sent := Escaped(seg, SEGMENT_KEEP);
            && NoSlash(sent) && !IsDots(sent) && Unescaped(sent) == Some(seg)
            && forall k | 0 <= k < |sent| :: sent[k] != 0x5c && sent[k] != QUESTION && sent[k] != HASH
  {
    hide Escaped, Unescaped;
    var sent := Escaped(seg, SEGMENT_KEEP);
    EscapedBytes(seg, SEGMENT_KEEP);
    EscapeRoundTrip(seg, SEGMENT_KEEP);
    UnescapedDots();
  }

  lemma {:induction false} UnescapedDots()
    ensures Unescaped(DOT) == Some(DOT) && Unescaped(DOT_DOT) == Some(DOT_DOT)
  {
    UnescapedPlain(0x2e, []);
    assert [0x2e] + [] == DOT;
    UnescapedPlain(0x2e, DOT);
    assert [0x2e] + DOT == DOT_DOT;
  }

  lemma {:induction false} UnescapedPlain(c: byte, rest: seq<byte>)
    requires c != 0x25 && Unescaped(rest) == Some(rest)
    ensures Unescaped([c] + rest) == Some([c] + rest)
  {
    assert ([c] + rest)[1..] == rest;
  }

  /**
   End to end: whatever path is let through, the segment cut out of it, escaped into an endpoint of dot-free segments,
   passes through dot resolution unchanged, is still one segment at its place, and unescapes to the same bytes.
   */
  lemma {:induction false} PathIntegrity(url: seq<byte>, reading: seq<byte> -> seq<byte>, n: nat, before: seq<seq<byte>>, after: seq<seq<byte>>)
    requires MuxCompat(url, reading).PassOn?
    requires AllNoSlash(before) && AllNoSlash(after) && NoneDots(before) && NoneDots(after)
    ensures
      var seg := NthFromEnd(MuxCompat(url, reading).decoded, n);
      var sent := Escaped(seg, SEGMENT_KEEP);
      var segs := [[]] + before + [sent] + after;
      var endpoint := Join(segs);
      && NoSlash(seg) && !IsDots(seg)
      && Resolved(endpoint, []) == endpoint
      && Split(endpoint) == segs
      && Unescaped(Split(endpoint)[1 + |before|]) == Some(seg)
  {
    hide Split, Join, Escaped, Unescaped, Cleaned, Absolute, IndexOf, Dots;
    var decoded := MuxCompat(url, reading).decoded;
    CleanIsKept(decoded);
    CleanHasNoDots(decoded, n);
    var seg := NthFromEnd(decoded, n);
    var sent := Escaped(seg, SEGMENT_KEEP);
    SegmentSent(seg);
    var segs: seq<seq<byte>> := [[]] + before + [sent] + after;
    Together(before, sent, after);
    SplitJoin(segs);
    var rest := before + [sent] + after;
    assert segs == [[]] + rest;
    JoinCons([], rest);
    assert Join(segs)[0] == SLASH;
    ResolvedUnchanged(Join(segs));
    assert segs[1 + |before|] == sent;
  }

  lemma {:induction false} Together(before: seq<seq<byte>>, sent: seq<byte>, after: seq<seq<byte>>)
    requires AllNoSlash(before) && AllNoSlash(after) && NoneDots(before) && NoneDots(after) && NoSlash(sent) && !IsDots(sent)
    ensures AllNoSlash([[]] + before + [sent] + after) && NoneDots([[]] + before + [sent] + after)
  {
    var segs: seq<seq<byte>> := [[]] + before + [sent] + after;
    forall k | 0 <= k < |segs| ensures NoSlash(segs[k]) && !IsDots(segs[k]) {
      if k == 0 {
        assert segs[k] == [];
      } else if k <= |before| {
        assert segs[k] == before[k - 1];
      } else if k == |before| + 1 {
        assert segs[k] == sent;
      } else {
        assert segs[k] == after[k - |before| - 2];
      }
    }
  }
}
