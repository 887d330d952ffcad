/** A redirect's Location, cut into the parts of a URL that is read back alike. */
module Location {
  import opened Options
  import opened Utf8
  import opened Segments
  import opened Json
  import opened Paths

  const COLON: byte := 0x3a
  const HTTP: seq<byte> := [0x68, 0x74, 0x74, 0x70]
  const HTTPS: seq<byte> := [0x68, 0x74, 0x74, 0x70, 0x73]

  /** Scheme, host as Go keeps it, path and query of a URL that is fetched; the query has its question mark. */
  datatype Parts = Parts(https: bool, host: seq<byte>, path: seq<byte>, query: seq<byte>)

  /** What lies outside: the text of a percent-encoded host, and whether URL parsing agrees with scheme and host. */
  datatype Web = Web(decode: seq<byte> -> seq<byte>, agrees: Parts -> bool)

  // --- characters ------------------------------------------------------------------------------------------

  predicate Ctl(c: byte) {
    c < 0x20 || c == 0x7f
  }

  predicate NoCtl(s: seq<byte>) {
    forall k | 0 <= k < |s| :: !Ctl(s[k])
  }

  function Lower(s: seq<byte>): (r: seq<byte>)
    ensures |r| == |s|
  {
    if s == [] then [] else [if 0x41 <= s[0] <= 0x5a then s[0] + 0x20 else s[0]] + Lower(s[1..])
  }

  // --- the scheme ----------------------------------------------------------------------------------------------

  /** From `i` on, everything before being part of a scheme: `None` is a malformed reference, `[]` no scheme. */
  function SchemeFrom(ref: seq<byte>, i: nat): (r: Option<seq<byte>>)
    requires i <= |ref|
    ensures r.Some? && r.value != [] ==> |r.value| < |ref|
    decreases |ref| - i
  {
    if i == |ref| then Some([])
    else if IsAlpha(ref[i]) then SchemeFrom(ref, i + 1)
    else if IsSchemeByte(ref[i]) then (if i == 0 then Some([]) else SchemeFrom(ref, i + 1))
    else if ref[i] == COLON then (if i == 0 then None else Some(ref[..i]))
    else Some([])
  }

  method SchemeOf(ref: seq<byte>) returns (r: Option<seq<byte>>)
    ensures r == SchemeFrom(ref, 0)
  {
    for i := 0 to |ref|
      invariant SchemeFrom(ref, i) == SchemeFrom(ref, 0)
    {
      var c := ref[i];
      if IsAlpha(c) { continue; }
      if 0x30 <= c <= 0x39 || c == 0x2b || c == 0x2d || c == 0x2e {
        if i == 0 { return Some([]); }
        continue;
      }
      if c == COLON { return if i == 0 then None else Some(ref[..i]); }
      return Some([]);
    }
    return Some([]);
  }

  predicate IsScheme(s: seq<byte>) {
    s != [] && IsAlpha(s[0]) && forall k | 0 < k < |s| :: IsSchemeByte(s[k])
  }

  /** A scheme is found exactly when the reference begins with one and a colon; a colon at the start is malformed. */
  lemma {:induction false} SchemeMeans(ref: seq<byte>, s: seq<byte>)
    requires s != []
    ensures SchemeFrom(ref, 0) == Some(s) <==> IsScheme(s) && s + [COLON] <= ref
    ensures SchemeFrom(ref, 0) == None <==> ref != [] && ref[0] == COLON
  {
    if ref != [] && IsAlpha(ref[0]) {
      SchemeOnward(ref, s, 1);
    }
  }

  lemma {:induction false} SchemeOnward(ref: seq<byte>, s: seq<byte>, i: nat)
    requires s != [] && 0 < i <= |ref| && IsScheme(ref[..i])
    ensures SchemeFrom(ref, i) == Some(s) <==> |s| >= i && IsScheme(s) && s + [COLON] <= ref
    ensures SchemeFrom(ref, i).Some?
    decreases |ref| - i
  {
    var prefix := s + [COLON];
    if prefix <= ref && |s| >= i {
      assert s == ref[..|s|] && ref[|s|] == COLON;
      assert forall k | 0 <= k < |s| :: s[k] == ref[k];
    }
    if i < |ref| {
      if IsSchemeByte(ref[i]) {
        assert ref[..i + 1] == ref[..i] + [ref[i]];
        SchemeOnward(ref, s, i + 1);
      } else if ref[i] == COLON {
        assert ref[..i] + [COLON] == ref[..i + 1];
      }
    }
  }

  // --- the host ----------------------------------------------------------------------------------------------------

  const HOST_MARKS: set<byte> := {0x2d, 0x2e, 0x5f, 0x7e, 0x21, 0x24, 0x26, 0x27, 0x28, 0x29, 0x2a, 0x2b, 0x2c, 0x3b, 0x3d, 0x3a, 0x5b, 0x5d, 0x3c, 0x3e, 0x22, 0x25}

  predicate HostByte(c: byte) {
    IsAlpha(c) || 0x30 <= c <= 0x39 || c >= 0x80 || c in HOST_MARKS
  }

  lemma {:induction false} HostByteExact(c: byte)
    ensures HostByte(c) <==>
            || c as char in "ABCDEFGHIJKLMNOPQRSTUVWXYZ" || c as char in "abcdefghijklmnopqrstuvwxyz" || c as char in "0123456789"
            || c as char in "-._~!$&'()*+,;=:[]<>\"%" || c >= 0x80
  {
    Stretch("ABCDEFGHIJKLMNOPQRSTUVWXYZ", 0x41, c);
    Stretch("abcdefghijklmnopqrstuvwxyz", 0x61, c);
    Stretch("0123456789", 0x30, c);
    HostMarks(c);
  }

  lemma {:induction false} HostMarks(c: byte)
    ensures c in HOST_MARKS <==> c as char in "-._~!$&'()*+,;=:[]<>\"%"
  {
  }

  /** A percent sign stands for itself (`%25`) or begins a byte that is not ASCII. */
  predicate HostEscapes(host: seq<byte>)
    decreases |host|
  {
    if host == [] then true
    else if host[0] != 0x25 then HostEscapes(host[1..])
    else
      && |host| >= 3 && HexVal(host[1]) >= 0 && HexVal(host[2]) >= 0
      && (HexVal(host[1]) >= 8 || (host[1] == 0x32 && host[2] == 0x35))
      && HostEscapes(host[3..])
  }

  predicate AllDigitBytes(s: seq<byte>) {
    forall k | 0 <= k < |s| :: 0x30 <= s[k] <= 0x39
  }

  /** The last colon, or -1. */
  function LastColon(s: seq<byte>): (i: int)
    ensures -1 <= i < |s|
  {
    if s == [] then -1 else if s[|s| - 1] == COLON then |s| - 1 else LastColon(s[..|s| - 1])
  }

  predicate HostAcceptable(host: seq<byte>) {
    && (forall k | 0 <= k < |host| :: HostByte(host[k]))
    && HostEscapes(host)
    && if host != [] && host[0] == 0x5b then
         var close := IndexOf(host, 0x5d);
         close < |host| && (close == |host| - 1 || (host[close + 1] == COLON && AllDigitBytes(host[close + 2..])))
       else
         LastColon(host) == -1 || AllDigitBytes(host[LastColon(host) + 1..])
  }

  function DecodeHost(w: Web, host: seq<byte>): seq<byte> {
    if 0x25 in host then w.decode(host) else host
  }

  // --- the parts --------------------------------------------------------------------------------------------------------

  /** The base a reference is resolved against: its host as Go keeps it, the rest as the URL parser gives it. */
  type Base = Parts

  datatype Cut = Cut(text: seq<byte>, query: seq<byte>)

  /** Without the fragment, and with the query apart. */
  function CutQuery(ref: seq<byte>): Cut {
    var noFragment := ref[..IndexOf(ref, HASH)];
    Cut(noFragment[..IndexOf(noFragment, QUESTION)], noFragment[IndexOf(noFragment, QUESTION)..])
  }

  predicate GoodFragment(ref: seq<byte>) {
    var hash := IndexOf(ref, HASH);
    hash < |ref| ==> WellEscaped(ref[hash + 1..])
  }

  predicate StartsWith(s: seq<byte>, t: seq<byte>) {
    t <= s
  }

  datatype Located = Located(host: seq<byte>, rest: seq<byte>)

  /** An authority stands between `//` and the next slash; `///` without a scheme has none. */
  function TakeHost(w: Web, scheme: seq<byte>, rest: seq<byte>): Option<Located> {
    if StartsWith(rest, [SLASH, SLASH]) && (scheme != [] || !StartsWith(rest, [SLASH, SLASH, SLASH])) then
      var after := rest[2..];
      var slash := IndexOf(after, SLASH);
      if HostAcceptable(after[..slash]) then Some(Located(DecodeHost(w, after[..slash]), after[slash..])) else None
    else Some(Located([], rest))
  }

  /** A backslash is an ordinary path character, `%5C` on the wire. */
  function NoBackslash(s: seq<byte>): seq<byte> {
    if s == [] then [] else (if s[0] == 0x5c then [0x25, 0x35, 0x43] else [s[0]]) + NoBackslash(s[1..])
  }

  function OrRoot(path: seq<byte>): seq<byte> {
    if path == [] then [SLASH] else path
  }

  /** The parts Go means. */
  function Combine(base: Option<Base>, scheme: seq<byte>, host: seq<byte>, path: seq<byte>, query: seq<byte>): Option<Parts> {
    if scheme != [] || host != [] then
      if scheme == [] && base.None? then None
      else Some(Parts(if scheme == [] then base.value.https else scheme == HTTPS, host, OrRoot(Resolved(path, [])), query))
    else if base.None? then None
    else
      Some(Parts(base.value.https, base.value.host, OrRoot(Resolved(base.value.path, path)),
        if path == [] && query == [] then base.value.query else query))
  }

  function ResolveReference(w: Web, base: Option<Base>, ref: seq<byte>): Option<Parts> {
    if !NoCtl(ref) || !GoodFragment(ref) then None
    else
      var cut := CutQuery(ref);
      match SchemeFrom(cut.text, 0)
      case None => None
      case Some(written) =>
        var scheme := Lower(written);
        if scheme != [] && scheme != HTTP && scheme != HTTPS then None
        else
          var rest := cut.text[if written == [] then 0 else |written| + 1..];
          if scheme == [] && !StartsWith(rest, [SLASH]) && COLON in rest[..IndexOf(rest, SLASH)] then None
          else
            match TakeHost(w, scheme, rest)
            case None => None
            case Some(l) =>
              if scheme != [] && l.host == [] then None
              else if !WellEscaped(l.rest) then None
              else Agreed(w, Combine(base, scheme, l.host, NoBackslash(l.rest), cut.query))
  }

  /** The last check: what Go means is what is fetched. */
  function Agreed(w: Web, parts: Option<Parts>): Option<Parts> {
    if parts.Some? && w.agrees(parts.value) then parts else None
  }

  /** The text fetch is given. */
  function Text(p: Parts): seq<byte> {
    (if p.https then HTTPS else HTTP) + [COLON, SLASH, SLASH] + p.host + p.path + p.query
  }

  // --- every reference, by its parts ------------------------------------------------------------------------------------

  /** The parts a reference is written in, as in section 4 of RFC 3986; no scheme is `[]`, and the query has its question mark. */
  datatype Reference = Reference(scheme: seq<byte>, authority: Option<seq<byte>>, path: seq<byte>, query: seq<byte>, fragment: Option<seq<byte>>)

  /** The parts are told apart: where each one ends, and that `///` without a scheme begins a path. */
  predicate IsReference(r: Reference) {
    && (r.scheme != [] ==> IsScheme(r.scheme))
    && (r.authority.Some? ==> Without(r.authority.value, '/') && Without(r.authority.value, '?') && Without(r.authority.value, '#'))
    && Without(r.path, '?') && Without(r.path, '#') && SetOff(r.query, '?') && Without(r.query, '#')
    && (r.authority.Some? ==> SetOff(r.path, '/'))
    && (r.authority == Some([]) && r.scheme == [] ==> r.path == [])
    && (r.authority.None? && Slashes(2) <= r.path ==> r.scheme == [] && Slashes(3) <= r.path)
    && (r.authority.None? && r.scheme == [] ==> Without(Split(r.path)[0], ':'))
  }

  function Slashes(n: nat): seq<byte> {
    seq(n, _ => '/' as int)
  }

  /** Scheme, authority and path. */
  function HierText(r: Reference): seq<byte> {
    (if r.scheme == [] then [] else r.scheme + [':' as int]) + AuthorityText(r)
  }

  function AuthorityText(r: Reference): seq<byte> {
    (if r.authority.Some? then ['/' as int, '/' as int] + r.authority.value else []) + r.path
  }

  function FragmentText(r: Reference): seq<byte> {
    if r.fragment.Some? then ['#' as int] + r.fragment.value else []
  }

  function ReferenceText(r: Reference): seq<byte> {
    HierText(r) + (r.query + FragmentText(r))
  }

  /** This word, in whatever case. */
  predicate IsWord(s: seq<byte>, word: string) {
    |s| == |word| && forall k | 0 <= k < |s| :: s[k] == word[k] as int || (s[k] as int) + 0x20 == word[k] as int
  }

  function HostOf(w: Web, r: Reference): seq<byte> {
    if r.authority.None? then []
    else if Without(r.authority.value, '%') then r.authority.value
    else w.decode(r.authority.value)
  }

  /** Why a reference is refused. */
  predicate Refused(w: Web, base: Option<Base>, r: Reference) {
    || (exists k | 0 <= k < |ReferenceText(r)| :: ReferenceText(r)[k] < 0x20 || ReferenceText(r)[k] == 0x7f)
    || (r.fragment.Some? && !WellEscaped(r.fragment.value)) || !WellEscaped(r.path)
    || (r.authority.Some? && !HostAcceptable(r.authority.value))
    || (if r.scheme == [] then base.None? else (!IsWord(r.scheme, "http") && !IsWord(r.scheme, "https")) || HostOf(w, r) == [])
  }

  /**
   Where it goes: with a host of its own, there, by its own scheme or else the base's; without one, to the base's host,
   by the base's scheme, at its path against the base's. Only a reference with neither path nor query keeps the base's
   query.
   */
  function Goes(w: Web, base: Option<Base>, r: Reference): Parts
    requires r.scheme == [] ==> base.Some?
  {
    var path := NoBackslash(r.path);
    var https := if r.scheme == [] then base.value.https else IsWord(r.scheme, "https");
    if r.scheme != [] || HostOf(w, r) != [] then Parts(https, HostOf(w, r), Rooted(Resolved(path, [])), r.query)
    else if r.path == [] && r.query == [] then Parts(https, base.value.host, Rooted(Resolved(base.value.path, [])), base.value.query)
    else Parts(https, base.value.host, Rooted(Resolved(base.value.path, path)), r.query)
  }

  /** Whatever a reference is resolved against, it goes where its parts say, or is refused for one of the reasons. */
  lemma {:induction false} ReferenceExact(w: Web, base: Option<Base>, r: Reference)
    requires IsReference(r)
    ensures ResolveReference(w, base, ReferenceText(r)) ==
            if Refused(w, base, r) || !w.agrees(Goes(w, base, r)) then None else Some(Goes(w, base, r))
  {
    hide HostAcceptable, WellEscaped, Resolved, CutQuery, GoodFragment, TakeHost, SchemeFrom, Lower, IndexOf, IsReference, NoCtl, ReferenceText, NoBackslash, IsWord, DecodeHost, OrRoot;
    CtlExact(ReferenceText(r));
    FragmentCut(r);
    SchemeCut(r);
    HostCut(w, r);
    ColonCut(r);
    SchemeGiven(r);
    LowerExact(r.scheme);
    LowerLength(r.scheme);
    NoBackslashNone(r.path);
    NoBackslashNone([]);
    forall dir, path { ResolvedRooted(dir, path); }
  }

  lemma {:induction false} ResolvedRooted(base: seq<byte>, path: seq<byte>)
    ensures OrRoot(Resolved(base, path)) == Rooted(Resolved(base, path))
  {
    hide Resolved, Split;
    ResolvedHasNoDots(base, path);
  }

  lemma {:induction false} SchemeGiven(r: Reference)
    requires IsReference(r)
    ensures r.scheme != [] ==> IsScheme(r.scheme)
  {
  }

  lemma {:induction false} CtlExact(s: seq<byte>)
    ensures NoCtl(s) <==> !exists k | 0 <= k < |s| :: s[k] < 0x20 || s[k] == 0x7f
  {
  }

  lemma {:induction false} NoBackslashNone(s: seq<byte>)
    ensures NoBackslash(s) == [] <==> s == []
  {
  }

  lemma {:induction false} FragmentCut(r: Reference)
    requires IsReference(r)
    ensures CutQuery(ReferenceText(r)) == Cut(HierText(r), r.query)
    ensures GoodFragment(ReferenceText(r)) <==> r.fragment.None? || WellEscaped(r.fragment.value)
  {
    hide WellEscaped, IndexOf, IsReference, HierText;
    HierPlain(r);
    QueryPlain(r);
    assert ReferenceText(r) == HierText(r) + r.query + FragmentText(r);
    CutAt(HierText(r) + r.query, FragmentText(r), HASH);
    CutAt(HierText(r), r.query, QUESTION);
    if r.fragment.Some? {
      assert ReferenceText(r)[|HierText(r) + r.query| + 1..] == r.fragment.value;
    }
  }

  /** A text is cut at the first such byte. */
  lemma {:induction false} CutAt(text: seq<byte>, tail: seq<byte>, c: byte)
    requires c !in text && (tail == [] || tail[0] == c)
    ensures IndexOf(text + tail, c) == |text| && (text + tail)[..|text|] == text && (text + tail)[|text|..] == tail
  {
    hide IndexOf;
    IndexIs(text + tail, c, |text|);
  }

  lemma {:induction false} QueryPlain(r: Reference)
    requires IsReference(r)
    ensures HASH !in r.query && (r.query == [] || r.query[0] == QUESTION)
  {
  }

  lemma {:induction false} HierPlain(r: Reference)
    requires IsReference(r)
    ensures QUESTION !in HierText(r) && HASH !in HierText(r)
  {
    SchemePlain(r.scheme);
  }

  lemma {:induction false} SchemePlain(s: seq<byte>)
    requires s != [] ==> IsScheme(s)
    ensures QUESTION !in s && HASH !in s && SLASH !in s
  {
  }

  /** The scheme that is found is the one written, and what follows it is what follows. */
  lemma {:induction false} SchemeCut(r: Reference)
    requires IsReference(r)
    ensures SchemeFrom(HierText(r), 0) == Some(r.scheme)
    ensures HierText(r)[if r.scheme == [] then 0 else |r.scheme| + 1..] == AuthorityText(r)
  {
    hide SchemeFrom, Split;
    var ref := HierText(r);
    if r.scheme != [] {
      assert ref == r.scheme + [COLON] + AuthorityText(r);
      SchemeMeans(ref, r.scheme);
    } else {
      assert ref == AuthorityText(r);
      if r.authority.Some? || (r.path != [] && r.path[0] == SLASH) {
        assert ref[0] == SLASH;
        SlashNoScheme(ref);
      } else {
        assert ref == r.path;
        FirstNoScheme(r.path);
      }
    }
  }

  lemma {:induction false} SlashNoScheme(ref: seq<byte>)
    requires ref != [] && ref[0] == SLASH
    ensures SchemeFrom(ref, 0) == Some([])
  {
  }

  lemma {:induction false} FirstNoScheme(path: seq<byte>)
    requires COLON !in Split(path)[0]
    ensures SchemeFrom(path, 0) == Some([])
  {
    hide SchemeFrom, Split;
    FirstSegment(path);
    if path == [] {
      NothingNoScheme();
    } else {
      if path[0] == COLON { ColonFirst(path); }
      SchemeMeans(path, [0x61]);
      if SchemeFrom(path, 0).value != [] {
        ColonBeforeSlash(path, SchemeFrom(path, 0).value);
      }
    }
  }

  lemma {:induction false} ColonFirst(path: seq<byte>)
    requires path != [] && path[0] == COLON
    ensures COLON in Split(path)[0]
  {
    hide Split, IndexOf;
    FirstSegment(path);
    assert path[..IndexOf(path, SLASH)][0] == COLON;
  }

  lemma {:induction false} NothingNoScheme()
    ensures SchemeFrom([], 0) == Some([])
  {
  }

  lemma {:induction false} FirstSegment(path: seq<byte>)
    ensures Split(path)[0] == path[..IndexOf(path, SLASH)]
  {
    hide Split, IndexOf;
    SplitHead(path);
  }

  lemma {:induction false} ColonBeforeSlash(path: seq<byte>, s: seq<byte>)
    requires s != [] && SchemeFrom(path, 0) == Some(s)
    ensures COLON in Split(path)[0]
  {
    hide SchemeFrom, Split;
    SchemeMeans(path, s);
    SchemePlain(s);
    FirstSegment(path);
    var i := IndexOf(path, SLASH);
    assert path[|s|] == COLON && forall k | 0 <= k < |s| :: path[k] == s[k];
    assert i > |s|;
    assert path[..i][|s|] == COLON;
  }

  lemma {:induction false} ColonCut(r: Reference)
    requires IsReference(r)
    ensures r.scheme == [] && !StartsWith(AuthorityText(r), [SLASH]) ==> COLON !in AuthorityText(r)[..IndexOf(AuthorityText(r), SLASH)]
  {
    hide Split, IndexOf;
    if r.authority.Some? {
      assert [SLASH] <= AuthorityText(r);
    } else {
      assert AuthorityText(r) == r.path;
      FirstSegment(r.path);
    }
  }

  lemma {:induction false} HostCut(w: Web, r: Reference)
    requires IsReference(r)
    ensures TakeHost(w, Lower(r.scheme), AuthorityText(r)) ==
            if r.authority.Some? && !HostAcceptable(r.authority.value) then None else Some(Located(HostOf(w, r), r.path))
  {
    hide HostAcceptable, Split, IndexOf, Lower, IsScheme, DecodeHost, IsReference, AuthorityText, StartsWith;
    LowerLength(r.scheme);
    if r.authority.Some? {
      AuthorityCut(r);
      HostDecoded(w, r.authority.value);
    } else {
      NoAuthority(r);
    }
  }

  lemma {:induction false} HostDecoded(w: Web, host: seq<byte>)
    ensures DecodeHost(w, host) == if Without(host, '%') then host else w.decode(host)
  {
  }

  lemma {:induction false} NoAuthority(r: Reference)
    requires IsReference(r) && r.authority.None?
    ensures AuthorityText(r) == r.path
    ensures StartsWith(r.path, [SLASH, SLASH]) ==> r.scheme == [] && StartsWith(r.path, [SLASH, SLASH, SLASH])
  {
    hide Split, IsScheme;
    assert Slashes(2) == [SLASH, SLASH] && Slashes(3) == [SLASH, SLASH, SLASH];
  }

  lemma {:induction false} AuthorityCut(r: Reference)
    requires IsReference(r) && r.authority.Some?
    ensures var rest := AuthorityText(r);
            && StartsWith(rest, [SLASH, SLASH]) && (r.scheme != [] || !StartsWith(rest, [SLASH, SLASH, SLASH]))
            && rest[2..][..IndexOf(rest[2..], SLASH)] == r.authority.value && rest[2..][IndexOf(rest[2..], SLASH)..] == r.path
  {
    hide Split, IndexOf, IsScheme;
    var a := r.authority.value;
    var rest, after := AuthorityText(r), a + r.path;
    assert rest == [SLASH, SLASH] + after && rest[2..] == after;
    CutAt(a, r.path, SLASH);
    assert rest[0] == rest[1] == SLASH;
    if r.scheme == [] {
      assert |rest| > 2 ==> rest[2] == after[0] == a[0] != SLASH;
    }
  }

  lemma {:induction false} LowerLength(s: seq<byte>)
    ensures Lower(s) == [] <==> s == []
  {
  }

  lemma {:induction false} LowerAt(s: seq<byte>, k: nat)
    requires k < |s|
    ensures Lower(s)[k] == if 0x41 <= s[k] <= 0x5a then s[k] + 0x20 else s[k]
  {
    if k > 0 { LowerAt(s[1..], k - 1); }
  }

  /** Which schemes there are. */
  lemma {:induction false} LowerExact(s: seq<byte>)
    requires s != [] ==> IsScheme(s)
    ensures Lower(s) == HTTP <==> IsWord(s, "http")
    ensures Lower(s) == HTTPS <==> IsWord(s, "https")
  {
    forall k | 0 <= k < |s| ensures Lower(s)[k] == if 0x41 <= s[k] <= 0x5a then s[k] + 0x20 else s[k] {
      LowerAt(s, k);
    }
    var http, https := "http", "https";
    assert forall k | 0 <= k < 4 :: http[k] as int == HTTP[k];
    assert forall k | 0 <= k < 5 :: https[k] as int == HTTPS[k];
    WordLower(s, http, HTTP);
    WordLower(s, https, HTTPS);
  }

  lemma {:induction false} WordLower(s: seq<byte>, word: string, bytes: seq<byte>)
    requires |word| == |bytes| && forall k | 0 <= k < |word| :: word[k] as int == bytes[k] && 0x61 <= bytes[k] <= 0x7a
    requires forall k | 0 <= k < |s| :: Lower(s)[k] == if 0x41 <= s[k] <= 0x5a then s[k] + 0x20 else s[k]
    ensures Lower(s) == bytes <==> IsWord(s, word)
  {
    hide Lower;
    if Lower(s) == bytes {
      forall k | 0 <= k < |s| ensures s[k] == word[k] as int || (s[k] as int) + 0x20 == word[k] as int {
        assert Lower(s)[k] == bytes[k];
      }
    }
    if IsWord(s, word) {
      forall k | 0 <= k < |s| ensures Lower(s)[k] == bytes[k] { }
    }
  }

  /** And every text that goes anywhere is written in such parts. */
  lemma {:induction false} ReferenceParts(w: Web, base: Option<Base>, ref: seq<byte>) returns (r: Reference)
    requires ResolveReference(w, base, ref).Some?
    ensures IsReference(r) && ReferenceText(r) == ref
  {
    hide IndexOf, Split, IsScheme, CutQuery, ResolveReference, IsReference, StartsWith;
    var cut := CutQuery(ref);
    var scheme, rest := HierParts(w, base, ref);
    var fragment := FragmentParts(ref);
    var authority, path := AuthorityParts(rest, scheme);
    r := Reference(scheme, authority, path, cut.query, fragment);
    RightParts(r);
    assert HierText(r) == cut.text;
    assert ReferenceText(r) == cut.text + (cut.query + FragmentText(r));
  }

  /** The same conditions, by the bytes. */
  lemma {:induction false} RightParts(r: Reference)
    requires r.scheme != [] ==> IsScheme(r.scheme)
    requires r.authority.Some? ==> SLASH !in r.authority.value && QUESTION !in r.authority.value && HASH !in r.authority.value
    requires QUESTION !in r.path && HASH !in r.path && HASH !in r.query && (r.query == [] || r.query[0] == QUESTION)
    requires r.authority.Some? ==> r.path == [] || r.path[0] == SLASH
    requires r.authority == Some([]) && r.scheme == [] ==> r.path == []
    requires r.authority.None? && [SLASH, SLASH] <= r.path ==> r.scheme == [] && [SLASH, SLASH, SLASH] <= r.path
    requires r.authority.None? && r.scheme == [] ==> COLON !in Split(r.path)[0]
    ensures IsReference(r)
  {
    hide Split, IsScheme;
    assert Slashes(2) == [SLASH, SLASH] && Slashes(3) == [SLASH, SLASH, SLASH];
  }

  lemma {:induction false} HierParts(w: Web, base: Option<Base>, ref: seq<byte>) returns (scheme: seq<byte>, rest: seq<byte>)
    requires ResolveReference(w, base, ref).Some?
    ensures (scheme != [] ==> IsScheme(scheme)) && CutQuery(ref).text == (if scheme == [] then [] else scheme + [COLON]) + rest
    ensures HASH !in rest && QUESTION !in rest
    ensures scheme == [] && !StartsWith(rest, [SLASH]) ==> COLON !in rest[..IndexOf(rest, SLASH)]
  {
    hide Agreed, Combine, WellEscaped, IndexOf, Lower, TakeHost, SchemeFrom, GoodFragment, NoCtl, CutQuery, IsScheme;
    var text := CutQuery(ref).text;
    scheme := SchemeFrom(text, 0).value;
    rest := text[if scheme == [] then 0 else |scheme| + 1..];
    LowerLength(scheme);
    var fragment := FragmentParts(ref);
    SchemeParts(text, scheme);
    assert scheme == [] ==> text == [] + rest;
  }

  lemma {:induction false} FragmentParts(ref: seq<byte>) returns (fragment: Option<seq<byte>>)
    ensures var cut := CutQuery(ref);
            && cut.text + (cut.query + (if fragment.Some? then [HASH] + fragment.value else [])) == ref
            && HASH !in cut.text && QUESTION !in cut.text && HASH !in cut.query && (cut.query == [] || cut.query[0] == QUESTION)
  {
    hide IndexOf;
    var h := IndexOf(ref, HASH);
    fragment := if h < |ref| then Some(ref[h + 1..]) else None;
    var noFragment := ref[..h];
    var q := IndexOf(noFragment, QUESTION);
    assert noFragment[..q] + noFragment[q..] == noFragment;
    assert HASH !in noFragment;
    assert noFragment + (if fragment.Some? then [HASH] + fragment.value else []) == ref;
  }

  lemma {:induction false} SchemeParts(text: seq<byte>, scheme: seq<byte>)
    requires SchemeFrom(text, 0) == Some(scheme)
    ensures scheme != [] ==> IsScheme(scheme) && |scheme| < |text| && text == scheme + [COLON] + text[|scheme| + 1..]
  {
    hide SchemeFrom, IsScheme;
    if scheme != [] { SchemeMeans(text, scheme); }
  }

  lemma {:induction false} AuthorityParts(rest: seq<byte>, scheme: seq<byte>) returns (authority: Option<seq<byte>>, path: seq<byte>)
    requires HASH !in rest && QUESTION !in rest
    requires scheme == [] && !StartsWith(rest, [SLASH]) ==> COLON !in rest[..IndexOf(rest, SLASH)]
    ensures (if authority.Some? then [SLASH, SLASH] + authority.value else []) + path == rest
    ensures authority.Some? ==> SLASH !in authority.value && QUESTION !in authority.value && HASH !in authority.value
    ensures QUESTION !in path && HASH !in path && (authority.Some? ==> path == [] || path[0] == SLASH)
    ensures authority == Some([]) && scheme == [] ==> path == []
    ensures authority.None? && [SLASH, SLASH] <= path ==> scheme == [] && [SLASH, SLASH, SLASH] <= path
    ensures authority.None? && scheme == [] ==> COLON !in Split(path)[0]
  {
    hide IndexOf, Split;
    if StartsWith(rest, [SLASH, SLASH]) && (scheme != [] || !StartsWith(rest, [SLASH, SLASH, SLASH])) {
      var a;
      a, path := NetworkParts(rest);
      authority := Some(a);
    } else {
      authority, path := None, rest;
      FirstSegment(rest);
      if StartsWith(rest, [SLASH]) { EmptyFirst(rest); }
      assert [] + path == rest;
    }
  }

  lemma {:induction false} NetworkParts(rest: seq<byte>) returns (authority: seq<byte>, path: seq<byte>)
    requires HASH !in rest && QUESTION !in rest && StartsWith(rest, [SLASH, SLASH])
    ensures [SLASH, SLASH] + authority + path == rest && SLASH !in authority && QUESTION !in authority && HASH !in authority
    ensures QUESTION !in path && HASH !in path && (path == [] || path[0] == SLASH)
    ensures authority == [] && path != [] ==> StartsWith(rest, [SLASH, SLASH, SLASH])
  {
    hide IndexOf;
    var after := rest[2..];
    var slash := IndexOf(after, SLASH);
    authority, path := after[..slash], after[slash..];
    assert rest == [SLASH, SLASH] + after && after == authority + path;
    if slash == 0 && after != [] {
      assert rest[2] == after[0];
    }
  }

  lemma {:induction false} EmptyFirst(path: seq<byte>)
    requires [SLASH] <= path
    ensures Split(path)[0] == []
  {
  }

  /** Inside: letters, digits, these marks and what is not ASCII; outside the brackets of an address one colon at most ends the name, and digits follow it. */
  lemma {:induction false} HostExact(host: seq<byte>)
    ensures HostAcceptable(host) <==>
      && (forall k | 0 <= k < |host| :: HostByte(host[k]))
      && HostWell(host)
      && if host != [] && host[0] == 0x5b then
           exists name, port :: host == name + [0x5d] + port && 0x5d !in name && IsPort(port)
         else
           Without(host, ':') || exists name, port :: host == name + port && port != [] && IsPort(port)
  {
    hide HostByte, HostEscapes, IndexOf, LastColon, HostWell;
    HostEscapesExact(host);
    BracketPort(host);
    ColonPort(host);
  }

  /** `%25`, or a byte from 0x80 up. */
  predicate PercentInHost(host: seq<byte>, k: nat) {
    && k + 2 < |host| && HexVal(host[k + 1]) >= 0 && HexVal(host[k + 2]) >= 0
    && (HexVal(host[k + 1]) >= 8 || host[k + 1..k + 3] == [0x32, 0x35])
  }

  /** Every percent sign is like that. */
  predicate HostWell(host: seq<byte>) {
    forall k | 0 <= k < |host| && host[k] == 0x25 :: PercentInHost(host, k)
  }

  /** Nothing, or a colon and digits. */
  predicate IsPort(s: seq<byte>) {
    s == [] || (s[0] == ':' as int && forall k | 0 < k < |s| :: s[k] as char in "0123456789")
  }

  lemma {:induction false} HostEscapesExact(host: seq<byte>)
    ensures HostEscapes(host) <==> HostWell(host)
    decreases |host|
  {
    hide HexVal, HostWell;
    if host == [] {
      EmptyHostWell();
    } else {
      HostWellStep(host);
      var n := if host[0] == 0x25 then 3 else 1;
      if n <= |host| {
        HostEscapesExact(host[n..]);
        if n == 3 { assert host[1..3] == [host[1], host[2]]; }
      }
    }
  }

  lemma {:induction false} EmptyHostWell()
    ensures HostWell([])
  {
  }

  lemma {:induction false} HostWellStep(host: seq<byte>)
    requires host != []
    ensures host[0] != 0x25 ==> (HostWell(host) <==> HostWell(host[1..]))
    ensures host[0] == 0x25 ==> (HostWell(host) <==> PercentInHost(host, 0) && HostWell(host[3..]))
  {
    hide HexVal, PercentInHost;
    var n := if host[0] == 0x25 then 3 else 1;
    if host[0] == 0x25 { PercentFirst(host); }
    if n <= |host| {
      var rest := host[n..];
      forall k | 0 <= k < |rest| ensures rest[k] == host[n + k] && (PercentInHost(rest, k) <==> PercentInHost(host, n + k)) {
        PercentLater(host, n, k);
      }
      if HostWell(rest) {
        forall k | n <= k < |host| && host[k] == 0x25 ensures PercentInHost(host, k) {
          assert rest[k - n] == host[k];
        }
      }
    }
  }

  lemma {:induction false} PercentFirst(host: seq<byte>)
    requires host != [] && host[0] == 0x25
    ensures PercentInHost(host, 0) ==> |host| >= 3 && host[1] != 0x25 && host[2] != 0x25
  {
    PercentIsNoDigit();
  }

  lemma {:induction false} PercentLater(host: seq<byte>, n: nat, k: nat)
    requires n <= |host| && k < |host[n..]|
    ensures PercentInHost(host[n..], k) <==> PercentInHost(host, n + k)
  {
    hide HexVal;
    var rest := host[n..];
    if k + 2 < |rest| {
      assert rest[k + 1] == host[n + k + 1] && rest[k + 2] == host[n + k + 2];
      assert rest[k + 1..k + 3] == host[n + k + 1..n + k + 3];
    }
  }

  lemma {:induction false} PercentIsNoDigit()
    ensures HexVal(0x25) < 0
  {
  }

  lemma {:induction false} PortExact(s: seq<byte>)
    ensures IsPort(s) <==> s == [] || (s[0] == COLON && AllDigitBytes(s[1..]))
  {
    forall k | 0 < k < |s| ensures s[k] as char in "0123456789" <==> 0x30 <= s[k] <= 0x39 {
      Stretch("0123456789", 0x30, s[k]);
    }
    if s != [] {
      assert forall k | 0 < k < |s| :: s[k] == s[1..][k - 1];
    }
  }

  lemma {:induction false} BracketPort(host: seq<byte>)
    ensures var close := IndexOf(host, 0x5d);
            (close < |host| && (close == |host| - 1 || (host[close + 1] == COLON && AllDigitBytes(host[close + 2..])))) <==>
            exists name, port :: host == name + [0x5d] + port && 0x5d !in name && IsPort(port)
  {
    hide IndexOf, AllDigitBytes, IsPort;
    var close := IndexOf(host, 0x5d);
    if close < |host| {
      var name, port := host[..close], host[close + 1..];
      PortExact(port);
      assert host == name + [0x5d] + port && 0x5d !in name;
      if port != [] { assert port[1..] == host[close + 2..]; }
      assert IsPort(port) <==> close == |host| - 1 || (host[close + 1] == COLON && AllDigitBytes(host[close + 2..]));
    }
    if exists name, port :: host == name + [0x5d] + port && 0x5d !in name && IsPort(port) {
      var name, port :| host == name + [0x5d] + port && 0x5d !in name && IsPort(port);
      IndexIs(host, 0x5d, |name|);
      assert host[close + 1..] == port;
    }
  }

  lemma {:induction false} LastColonIs(s: seq<byte>)
    ensures LastColon(s) == -1 <==> COLON !in s
    ensures LastColon(s) >= 0 ==> s[LastColon(s)] == COLON && COLON !in s[LastColon(s) + 1..]
  {
    if s != [] && s[|s| - 1] != COLON {
      LastColonIs(s[..|s| - 1]);
      assert s == s[..|s| - 1] + [s[|s| - 1]];
      if LastColon(s) >= 0 {
        assert s[LastColon(s) + 1..] == s[..|s| - 1][LastColon(s) + 1..] + [s[|s| - 1]];
      }
    }
  }

  lemma {:induction false} NoLaterColon(s: seq<byte>, i: nat)
    requires i < |s| && COLON !in s[i + 1..]
    ensures forall j | i < j < |s| :: s[j] != COLON
  {
    forall j | i < j < |s| ensures s[j] != COLON {
      assert s[i + 1..][j - i - 1] == s[j];
    }
  }

  lemma {:induction false} DigitsNoColon(s: seq<byte>)
    ensures AllDigitBytes(s) ==> COLON !in s
  {
  }

  lemma {:induction false} ColonPort(host: seq<byte>)
    ensures (LastColon(host) == -1 || AllDigitBytes(host[LastColon(host) + 1..])) <==>
            (Without(host, ':') || exists name, port :: host == name + port && port != [] && IsPort(port))
  {
    hide LastColon, AllDigitBytes, IsPort;
    LastColonIs(host);
    var i := LastColon(host);
    if i >= 0 {
      NoLaterColon(host, i);
      PortExact(host[i..]);
      assert host == host[..i] + host[i..] && host[i..][1..] == host[i + 1..];
      forall name, port | host == name + port && port != [] && IsPort(port) ensures port == host[i..] {
        PortExact(port);
        DigitsNoColon(port[1..]);
        assert host[|name|] == COLON;
        assert forall k | 0 <= k < |port[1..]| :: host[|name| + 1 + k] == port[1..][k] != COLON;
        assert i >= |name|;
      }
    }
  }

  // --- what resolving keeps clean --------------------------------------------------------------------------------------

  /** A byte that stands for itself in a path. */
  predicate PathByte(c: byte) {
    !Ctl(c) && c != QUESTION && c != HASH && c != 0x5c
  }

  predicate PathText(s: seq<byte>) {
    WellEscaped(s) && forall k | 0 <= k < |s| :: PathByte(s[k])
  }

  lemma {:induction false} TextBothSides(a: seq<byte>, b: seq<byte>)
    requires PathText(a) && PathText(b)
    ensures PathText(a + b)
  {
    var s := a + b;
    assert forall k | 0 <= k < |a| :: s[k] == a[k];
    assert forall k | 0 <= k < |b| :: s[|a| + k] == b[k];
  }

  /** Neither an escape nor anything else reaches across a slash. */
  lemma {:induction false} TextAroundSlash(a: seq<byte>, b: seq<byte>)
    ensures PathText(a + ([SLASH] + b)) <==> PathText(a) && PathText(b)
  {
    if PathText(a + ([SLASH] + b)) { TextOfSides(a, b); }
    if PathText(a) && PathText(b) {
      NothingIsText();
      TextBothSides([SLASH], b);
      TextBothSides(a, [SLASH] + b);
    }
  }

  lemma {:induction false} TextOfSides(a: seq<byte>, b: seq<byte>)
    requires PathText(a + ([SLASH] + b))
    ensures PathText(a) && PathText(b)
  {
    hide PathByte, HexVal;
    var s := a + ([SLASH] + b);
    SlashIsNoDigit();
    assert s[|a|] == SLASH;
    forall k | 0 <= k < |a| ensures PathByte(a[k]) {
      assert s[k] == a[k];
    }
    forall k | 0 <= k < |a| && a[k] == 0x25 ensures k + 2 < |a| && HexVal(a[k + 1]) >= 0 && HexVal(a[k + 2]) >= 0 {
      assert s[k] == a[k];
      assert s[k + 1] != SLASH && s[k + 2] != SLASH;
      assert s[k + 1] == a[k + 1] && s[k + 2] == a[k + 2];
    }
    forall k | 0 <= k < |b| ensures PathByte(b[k]) {
      assert s[|a| + 1 + k] == b[k];
    }
    forall k | 0 <= k < |b| && b[k] == 0x25 ensures k + 2 < |b| && HexVal(b[k + 1]) >= 0 && HexVal(b[k + 2]) >= 0 {
      var n := |a| + 1 + k;
      assert s[n] == b[k];
      assert s[n + 1] == b[k + 1] && s[n + 2] == b[k + 2];
    }
  }

  lemma {:induction false} SlashIsNoDigit()
    ensures HexVal(SLASH) < 0
  {
  }

  predicate AllPathText(segs: seq<seq<byte>>) {
    forall k | 0 <= k < |segs| :: PathText(segs[k])
  }

  lemma {:induction false} JoinText(segs: seq<seq<byte>>)
    ensures PathText(Join(segs)) <==> AllPathText(segs)
  {
    hide PathText;
    if segs == [] {
      assert PathText([]) by { NothingIsText(); }
    } else if |segs| > 1 {
      TextAroundSlash(segs[0], Join(segs[1..]));
      JoinText(segs[1..]);
      assert forall k | 0 < k < |segs| :: segs[k] == segs[1..][k - 1];
      assert AllPathText(segs) <==> PathText(segs[0]) && AllPathText(segs[1..]);
    }
  }

  lemma {:induction false} NothingIsText()
    ensures PathText([]) && PathText([SLASH])
  {
  }

  lemma {:induction false} DotsText(elems: seq<seq<byte>>, stack: seq<seq<byte>>)
    requires AllPathText(elems) && AllPathText(stack)
    ensures AllPathText(Dots(elems, stack))
    decreases |elems|
  {
    hide PathText;
    if elems != [] {
      NothingIsText();
      assert forall k | 0 <= k < |elems[1..]| :: elems[1..][k] == elems[k + 1];
      DotsText(elems[1..], DotStep(elems[0], stack));
    }
  }

  lemma {:induction false} RenderedText(stack: seq<seq<byte>>, tail: bool)
    requires AllPathText(stack)
    ensures PathText(Rendered(stack, tail))
  {
    hide PathText;
    JoinText(stack);
    NothingIsText();
    TextBothSides([SLASH], Join(stack));
    var end: seq<byte> := if tail then [SLASH] else [];
    TextBothSides([SLASH] + Join(stack), end);
    var dst := [SLASH] + Join(stack) + end;
    if |dst| > 1 && dst[1] == SLASH {
      assert dst == [] + ([SLASH] + dst[1..]);
      TextAroundSlash([], dst[1..]);
    }
  }

  lemma {:induction false} MergedText(base: seq<byte>, ref: seq<byte>)
    requires PathText(base) && PathText(ref)
    ensures PathText(Merged(base, ref))
  {
    hide PathText;
    var i := LastSlash(base);
    if ref != [] && ref[0] != SLASH {
      if i >= 0 {
        assert base == base[..i] + ([SLASH] + base[i + 1..]);
        TextAroundSlash(base[..i], base[i + 1..]);
        TextAroundSlash(base[..i], ref);
        assert base[..i + 1] + ref == base[..i] + ([SLASH] + ref);
      } else {
        assert base[..i + 1] + ref == ref;
      }
    }
  }

  lemma {:induction false} ResolvedText(base: seq<byte>, ref: seq<byte>)
    requires PathText(base) && PathText(ref)
    ensures PathText(Resolved(base, ref))
  {
    hide PathText, AllPathText, Split, Join, Dots, Merged, Rendered, IsDots;
    MergedText(base, ref);
    var full := Merged(base, ref);
    if full == [] {
      NothingIsText();
    } else {
      var elems := Split(full);
      JoinSplit(full);
      JoinText(elems);
      assert AllPathText([]) by { NoneIsText(); }
      DotsText(elems, []);
      RenderedText(Dots(elems, []), IsDots(elems[|elems| - 1]));
    }
  }

  lemma {:induction false} NoneIsText()
    ensures AllPathText([])
  {
  }

  lemma {:induction false} EscapeIsText(a: byte, b: byte)
    requires HexVal(a) >= 0 && HexVal(b) >= 0
    ensures PathText([0x25, a, b])
  {
  }

  lemma {:induction false} ByteIsText(c: byte)
    requires PathByte(c) && c != 0x25
    ensures PathText([c])
  {
  }

  lemma {:induction false} NoBackslashSame(s: seq<byte>)
    requires forall k | 0 <= k < |s| :: s[k] != 0x5c
    ensures NoBackslash(s) == s
  {
    if s != [] {
      NoBackslashSame(s[1..]);
      assert s == [s[0]] + s[1..];
    }
  }

  /** What follows the first byte, or the first escape. */
  lemma {:induction false} EscapesOnward(s: seq<byte>, n: nat)
    requires WellEscaped(s) && n <= |s|
    ensures WellEscaped(s[n..])
  {
    forall k | 0 <= k < |s[n..]| && s[n..][k] == 0x25
      ensures k + 2 < |s[n..]| && HexVal(s[n..][k + 1]) >= 0 && HexVal(s[n..][k + 2]) >= 0
    {
      assert s[n + k] == 0x25;
    }
  }

  lemma {:induction false} NoBackslashText(s: seq<byte>)
    requires WellEscaped(s) && forall k | 0 <= k < |s| :: !Ctl(s[k]) && s[k] != QUESTION && s[k] != HASH
    ensures PathText(NoBackslash(s))
    ensures NoBackslash(s) == [] <==> s == []
    decreases |s|
  {
    hide PathText, HexVal, NoBackslash, Ctl;
    if s == [] {
      NothingIsText();
      NoBackslashSame(s);
    } else {
      var n := if s[0] == 0x25 then 3 else 1;
      var head, rest := s[..n], s[n..];
      assert s == head + rest;
      EscapesOnward(s, n);
      NoBackslashText(rest);
      NoBackslashPrefix(head, rest);
      HeadText(s, n);
      TextBothSides(NoBackslash(head), NoBackslash(rest));
    }
  }

  /** Each backslash is written as `%5C`, and nothing else changes. */
  lemma {:induction false} BackslashExact(head: seq<byte>, rest: seq<byte>)
    requires 0x5c !in head
    ensures NoBackslash(head + ([0x5c] + rest)) == head + ([0x25, 0x35, 0x43] + NoBackslash(rest))
    ensures NoBackslash(head) == head
  {
    NoBackslashSame(head);
    NoBackslashPrefix(head, [0x5c] + rest);
    assert ([0x5c] + rest)[1..] == rest;
  }

  lemma {:induction false} HeadText(s: seq<byte>, n: nat)
    requires s != [] && WellEscaped(s) && !Ctl(s[0]) && s[0] != QUESTION && s[0] != HASH && n == if s[0] == 0x25 then 3 else 1
    ensures n <= |s| && NoBackslash(s[..n]) != [] && PathText(NoBackslash(s[..n]))
  {
    if s[0] == 0x25 {
      assert s[..3] == [0x25, s[1], s[2]];
      EscapeIsText(s[1], s[2]);
      NoBackslashSame(s[..3]);
    } else if s[0] == 0x5c {
      assert s[..1] == [0x5c];
      assert NoBackslash([0x5c]) == [0x25, 0x35, 0x43];
      EscapeIsText(0x35, 0x43);
    } else {
      assert s[..1] == [s[0]];
      ByteIsText(s[0]);
      NoBackslashSame(s[..1]);
    }
  }

  lemma {:induction false} NoBackslashPrefix(head: seq<byte>, rest: seq<byte>)
    ensures NoBackslash(head + rest) == NoBackslash(head) + NoBackslash(rest)
  {
    if head == [] {
      assert head + rest == rest && [] + NoBackslash(rest) == NoBackslash(rest);
    } else {
      assert (head + rest)[1..] == head[1..] + rest;
      NoBackslashPrefix(head[1..], rest);
      Assoc(if head[0] == 0x5c then [0x25, 0x35, 0x43] else [head[0]], NoBackslash(head[1..]), NoBackslash(rest));
    }
  }

  // --- what a resolved reference is like -------------------------------------------------------------------------------

  predicate IsQuery(s: seq<byte>) {
    (s == [] || s[0] == QUESTION) && NoCtl(s) && forall k | 0 <= k < |s| :: s[k] != HASH
  }

  /** What a URL parser's path and query are like, and what the parts of a resolved reference are like. */
  predicate Proper(p: Parts) {
    && PathText(p.path) && p.path != [] && p.path[0] == SLASH && NoneDots(Split(p.path))
    && IsQuery(p.query)
  }

  /** A host with nothing percent-encoded in it. */
  predicate PlainHost(host: seq<byte>) {
    host != [] && 0x25 !in host && HostAcceptable(host)
  }

  lemma {:induction false} CutIsClean(ref: seq<byte>)
    requires NoCtl(ref)
    ensures var cut := CutQuery(ref);
            && IsQuery(cut.query)
            && forall k | 0 <= k < |cut.text| :: !Ctl(cut.text[k]) && cut.text[k] != QUESTION && cut.text[k] != HASH
  {
    var h := IndexOf(ref, HASH);
    var noFragment := ref[..h];
    assert forall k | 0 <= k < |noFragment| :: noFragment[k] == ref[k];
    var q := IndexOf(noFragment, QUESTION);
    var text, query := noFragment[..q], noFragment[q..];
    assert forall k | 0 <= k < |text| :: text[k] == noFragment[k];
    assert forall k | 0 <= k < |query| :: query[k] == noFragment[q + k];
  }

  lemma {:induction false} ResolvedIsProper(base: seq<byte>, ref: seq<byte>)
    requires PathText(base) && PathText(ref)
    ensures var path := OrRoot(Resolved(base, ref)); PathText(path) && path != [] && path[0] == SLASH && NoneDots(Split(path))
  {
    hide PathText, Split, NoneDots, Resolved;
    ResolvedText(base, ref);
    ResolvedHasNoDots(base, ref);
    NothingIsText();
    RootIsProper();
  }

  lemma {:induction false} RootIsProper()
    ensures NoneDots(Split([SLASH]))
  {
    RootSplit();
    RootHasNoDots();
  }

  /** Taking the host off leaves a part of the text. */
  lemma {:induction false} RestIsClean(w: Web, scheme: seq<byte>, rest: seq<byte>)
    requires forall k | 0 <= k < |rest| :: !Ctl(rest[k]) && rest[k] != QUESTION && rest[k] != HASH
    ensures var l := TakeHost(w, scheme, rest);
            l.Some? ==> forall k | 0 <= k < |l.value.rest| :: !Ctl(l.value.rest[k]) && l.value.rest[k] != QUESTION && l.value.rest[k] != HASH
  {
    hide HostAcceptable, Ctl;
    var l := TakeHost(w, scheme, rest);
    if l.Some? && l.value.rest != rest {
      var n := 2 + IndexOf(rest[2..], SLASH);
      assert l.value.rest == rest[n..];
      assert forall k | 0 <= k < |rest[n..]| :: rest[n..][k] == rest[n + k];
    }
  }

  /**
   Whatever a reference is resolved against, the path that comes out is rooted, free of dot segments, well escaped and
   free of anything that would end a path, and the query is nothing but a query.
   */
  lemma {:induction false} ResolvedReferenceIsProper(w: Web, base: Option<Base>, ref: seq<byte>)
    requires base.Some? ==> Proper(base.value)
    ensures var r := ResolveReference(w, base, ref); r.Some? ==> Proper(r.value) && w.agrees(r.value)
  {
    hide PathText, Split, NoneDots, Resolved, Ctl, IsQuery, HostAcceptable, NoBackslash, CutQuery, TakeHost, WellEscaped;
    if ResolveReference(w, base, ref).Some? {
      CutIsClean(ref);
      var cut := CutQuery(ref);
      var written := SchemeFrom(cut.text, 0).value;
      var n := if written == [] then 0 else |written| + 1;
      var rest := cut.text[n..];
      assert forall k | 0 <= k < |rest| :: rest[k] == cut.text[n + k];
      RestIsClean(w, Lower(written), rest);
      var l := TakeHost(w, Lower(written), rest).value;
      NoBackslashText(l.rest);
      var path := NoBackslash(l.rest);
      NothingIsText();
      ResolvedIsProper(path, []);
      if base.Some? { ResolvedIsProper(base.value.path, path); }
    }
  }

  // --- the text reads back as the parts --------------------------------------------------------------------------------

  lemma {:induction false} IndexIs(s: seq<byte>, c: byte, i: nat)
    requires i <= |s| && (i < |s| ==> s[i] == c) && forall k | 0 <= k < i :: s[k] != c
    ensures IndexOf(s, c) == i
  {
  }

  lemma {:induction false} HostIsPlainText(host: seq<byte>)
    requires PlainHost(host)
    ensures forall k | 0 <= k < |host| :: !Ctl(host[k]) && host[k] != QUESTION && host[k] != HASH && host[k] != SLASH
  {
  }

  function SchemeText(https: bool): seq<byte> {
    if https then HTTPS else HTTP
  }

  lemma {:induction false} SchemeBack(https: bool, rest: seq<byte>)
    ensures SchemeFrom(SchemeText(https) + [COLON] + rest, 0) == Some(SchemeText(https)) && Lower(SchemeText(https)) == SchemeText(https)
  {
    var s := SchemeText(https);
    var ref := s + [COLON] + rest;
    assert IsScheme(s);
    assert s + [COLON] <= ref;
    SchemeMeans(ref, s);
    if https {
      LowerSame(s);
    } else {
      LowerSame(s);
    }
  }

  lemma {:induction false} LowerSame(s: seq<byte>)
    requires forall k | 0 <= k < |s| :: !(0x41 <= s[k] <= 0x5a)
    ensures Lower(s) == s
  {
    if s != [] {
      LowerSame(s[1..]);
      assert s == [s[0]] + s[1..];
    }
  }

  lemma {:induction false} CutBack(text: seq<byte>, query: seq<byte>)
    requires (forall k | 0 <= k < |text| :: !Ctl(text[k]) && text[k] != QUESTION && text[k] != HASH) && IsQuery(query)
    ensures NoCtl(text + query) && GoodFragment(text + query) && CutQuery(text + query) == Cut(text, query)
  {
    var ref := text + query;
    assert forall k | 0 <= k < |text| :: ref[k] == text[k];
    assert forall k | 0 <= k < |query| :: ref[|text| + k] == query[k];
    forall k | 0 <= k < |ref| ensures !Ctl(ref[k]) && ref[k] != HASH {
      if k >= |text| { assert ref[k] == query[k - |text|]; }
    }
    IndexIs(ref, HASH, |ref|);
    assert ref[..|ref|] == ref;
    IndexIs(ref, QUESTION, |text|);
    assert ref[..|text|] == text && ref[|text|..] == query;
  }

  lemma {:induction false} HostBack(w: Web, https: bool, host: seq<byte>, path: seq<byte>)
    requires PlainHost(host) && path != [] && path[0] == SLASH
    ensures TakeHost(w, SchemeText(https), [SLASH, SLASH] + host + path) == Some(Located(host, path))
  {
    hide HostAcceptable;
    HostIsPlainText(host);
    var rest := [SLASH, SLASH] + host + path;
    var after := rest[2..];
    assert after == host + path;
    assert forall k | 0 <= k < |host| :: after[k] == host[k];
    assert after[|host|] == path[0];
    IndexIs(after, SLASH, |host|);
    assert after[..|host|] == host && after[|host|..] == path;
    assert [SLASH, SLASH] <= rest;
  }

  predicate NothingEnds(s: seq<byte>) {
    forall k | 0 <= k < |s| :: !Ctl(s[k]) && s[k] != QUESTION && s[k] != HASH
  }

  lemma {:induction false} NothingEndsTogether(a: seq<byte>, b: seq<byte>)
    requires NothingEnds(a) && NothingEnds(b)
    ensures NothingEnds(a + b)
  {
    hide Ctl;
  }

  lemma {:induction false} BeforeQuery(p: Parts)
    requires Proper(p) && PlainHost(p.host)
    ensures var text := SchemeText(p.https) + [COLON] + ([SLASH, SLASH] + p.host + p.path);
            Text(p) == text + p.query && NothingEnds(text)
  {
    hide HostAcceptable, PlainHost, Split, NoneDots, WellEscaped, NothingEnds, IsQuery, SchemeText;
    PathEndsNothing(p.path);
    HostEndsNothing(p.host);
    SchemeEndsNothing(p.https);
    var head := SchemeText(p.https) + [COLON, SLASH, SLASH];
    NothingEndsTogether(head, p.host);
    NothingEndsTogether(head + p.host, p.path);
    assert head + p.host + p.path == SchemeText(p.https) + [COLON] + ([SLASH, SLASH] + p.host + p.path);
    SchemeTextIs(p.https);
  }

  lemma {:induction false} PathEndsNothing(path: seq<byte>)
    requires PathText(path)
    ensures NothingEnds(path)
  {
    hide WellEscaped;
  }

  lemma {:induction false} HostEndsNothing(host: seq<byte>)
    requires PlainHost(host)
    ensures NothingEnds(host)
  {
    hide HostAcceptable;
    HostIsPlainText(host);
  }

  lemma {:induction false} SchemeEndsNothing(https: bool)
    ensures NothingEnds(SchemeText(https) + [COLON, SLASH, SLASH])
  {
  }

  lemma {:induction false} SchemeTextIs(https: bool)
    ensures SchemeText(https) == if https then HTTPS else HTTP
  {
  }

  /**
   The text fetch is given cannot mean anything else: read by the same rules, against whatever base, it is the scheme,
   host, path and query it was put together from.
   */
  lemma {:induction false} TextReadsBack(w: Web, base: Option<Base>, p: Parts)
    requires Proper(p) && PlainHost(p.host)
    ensures ResolveReference(w, base, Text(p)) == Agreed(w, Some(p))
  {
    hide HostAcceptable, Split, NoneDots, WellEscaped, Resolved, CutQuery, GoodFragment, TakeHost, NoBackslash, Ctl, SchemeFrom, Lower, IndexOf;
    var rest := [SLASH, SLASH] + p.host + p.path;
    var text := SchemeText(p.https) + [COLON] + rest;
    BeforeQuery(p);
    CutBack(text, p.query);
    SchemeBack(p.https, rest);
    assert text[|SchemeText(p.https)| + 1..] == rest;
    HostBack(w, p.https, p.host, p.path);
    NoBackslashSame(p.path);
    ResolvedUnchanged(p.path);
    assert SchemeText(p.https) == HTTPS <==> p.https;
  }

  /** A resolved reference with a plain host, written out and resolved again, is the same. */
  lemma {:induction false} ResolvesOnce(w: Web, base: Option<Base>, ref: seq<byte>)
    requires base.Some? ==> Proper(base.value)
    ensures var r := ResolveReference(w, base, ref);
            r.Some? && PlainHost(r.value.host) ==> ResolveReference(w, None, Text(r.value)) == r
  {
    hide ResolveReference, Proper, PlainHost, Text;
    ResolvedReferenceIsProper(w, base, ref);
    var r := ResolveReference(w, base, ref);
    if r.Some? && PlainHost(r.value.host) {
      TextReadsBack(w, None, r.value);
    }
  }

  // --- the endpoint arrives -----------------------------------------------------------------------------------------------

  lemma {:induction false} EscapedIsText(bytes: seq<byte>)
    ensures PathText(Escaped(bytes, SEGMENT_KEEP))
  {
    hide PathText;
    if bytes == [] {
      NothingIsText();
    } else {
      var c := bytes[0];
      EscapedIsText(bytes[1..]);
      if IsUnreserved(c) || c in SEGMENT_KEEP {
        UnreservedIsPathByte(c);
        ByteIsText(c);
      } else {
        EscapeIsText(HexDigit(c / 16), HexDigit(c % 16));
      }
      TextBothSides(EscapeByte(c, SEGMENT_KEEP), Escaped(bytes[1..], SEGMENT_KEEP));
    }
  }

  lemma {:induction false} UnreservedIsPathByte(c: byte)
    requires IsUnreserved(c) || c in SEGMENT_KEEP
    ensures PathByte(c) && c != 0x25
  {
  }

  /**
   From a request path to the first request of a call: a segment of a path that was let through, escaped into the
   gateway's address between clean segments, is fetched there as one segment, from that host, and unescapes to the same
   bytes.
   */
  lemma {:induction false} EndpointArrives(w: Web, url: seq<byte>, reading: seq<byte> -> seq<byte>, n: nat,
                                           https: bool, host: seq<byte>, before: seq<seq<byte>>, after: seq<seq<byte>>)
    requires MuxCompat(url, reading).PassOn? && PlainHost(host)
    requires AllNoSlash(before) && AllNoSlash(after) && NoneDots(before) && NoneDots(after) && AllPathText(before) && AllPathText(after)
    ensures
      var seg := NthFromEnd(MuxCompat(url, reading).decoded, n);
      var segs := [[]] + before + [Escaped(seg, SEGMENT_KEEP)] + after;
      var p := Parts(https, host, Join(segs), []);
      && ResolveReference(w, None, Text(p)) == Agreed(w, Some(p))
      && Split(p.path) == segs && Unescaped(Split(p.path)[1 + |before|]) == Some(seg)
  {
    hide MuxCompat, NthFromEnd, PathText, Escaped, Unescaped, PlainHost, ResolveReference, Join, Split, Text, Agreed;
    PathIntegrity(url, reading, n, before, after);
    var sent := Escaped(NthFromEnd(MuxCompat(url, reading).decoded, n), SEGMENT_KEEP);
    var segs: seq<seq<byte>> := [[]] + before + [sent] + after;
    SegmentSent(NthFromEnd(MuxCompat(url, reading).decoded, n));
    Together(before, sent, after);
    EscapedIsText(NthFromEnd(MuxCompat(url, reading).decoded, n));
    AllTextTogether(before, sent, after);
    JoinText(segs);
    JoinIsRooted(segs);
    TextReadsBack(w, None, Parts(https, host, Join(segs), []));
  }

  lemma {:induction false} AllTextTogether(before: seq<seq<byte>>, sent: seq<byte>, after: seq<seq<byte>>)
    requires AllPathText(before) && AllPathText(after) && PathText(sent)
    ensures AllPathText([[]] + before + [sent] + after)
  {
    hide PathText;
    NothingIsText();
    var segs: seq<seq<byte>> := [[]] + before + [sent] + after;
    forall k | 0 <= k < |segs| ensures PathText(segs[k]) {
      if 0 < k <= |before| {
        assert segs[k] == before[k - 1];
      } else if k > |before| + 1 {
        assert segs[k] == after[k - |before| - 2];
      }
    }
  }

  lemma {:induction false} JoinIsRooted(segs: seq<seq<byte>>)
    requires |segs| > 1 && segs[0] == []
    ensures Join(segs) != [] && Join(segs)[0] == SLASH
  {
  }
}
