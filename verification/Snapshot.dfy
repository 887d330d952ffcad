/** The committed snapshot of the lockfile. */
module Snapshot {
  import opened Options
  import opened Strings
  import opened Lockfile

  /** A JavaScript Map: its keys in the order they were added. */
  datatype Table = Table(keys: seq<string>, at: map<string, string>)

  const EMPTY := Table([], map[])

  function Put(t: Table, key: string, v: string): Table {
    Table(t.keys + [key], t.at[key := v])
  }

  ghost predicate Orderly(t: Table) {
    && (forall key :: key in t.keys <==> key in t.at)
    && (forall i, j | 0 <= i < j < |t.keys| :: t.keys[i] != t.keys[j])
  }

  const SECTIONS: seq<string> := ["runtime", "dev"]
  const NO_INTEGRITY := "(no integrity)"

  // --- what a lockfile's snapshot holds --------------------------------------------------------------

  /** `slice` beyond the end is the empty string. */
  function NameOfPath(at: string): string {
    var i := LastIndexOf(at, NODE_MODULES) + |NODE_MODULES|;
    if i > |at| then "" else at[i..]
  }

  function KeyOf(at: string, entry: Entry): string {
    (if entry.dev then "dev" else "runtime") + " " + (if entry.name.Some? then entry.name.value else NameOfPath(at)) + "@" + entry.version
  }

  function IntegrityOf(entry: Entry): string {
    if entry.integrity.Some? then entry.integrity.value else NO_INTEGRITY
  }

  ghost predicate Upto(lock: Lock, n: int) {
    0 <= n <= |lock.order| && forall k | 0 <= k < n :: lock.order[k] in lock.packages
  }

  /** The `k`-th entry is a package, not the root. */
  predicate Listed(lock: Lock, k: int)
    requires 0 <= k < |lock.order|
  {
    lock.order[k] != ""
  }

  function KeyAt(lock: Lock, k: int): string
    requires 0 <= k < |lock.order| && lock.order[k] in lock.packages
  {
    KeyOf(lock.order[k], lock.packages[lock.order[k]])
  }

  function IntegrityAt(lock: Lock, k: int): string
    requires 0 <= k < |lock.order| && lock.order[k] in lock.packages
  {
    IntegrityOf(lock.packages[lock.order[k]])
  }

  /** The first of the first `n` entries listed under this key. */
  ghost function First(lock: Lock, key: string, n: int): (r: Option<nat>)
    requires Upto(lock, n)
    ensures r.Some? ==> r.value < n
    decreases n
  {
    if n == 0 then None
    else
      var r := First(lock, key, n - 1);
      if r.Some? then r else if Listed(lock, n - 1) && KeyAt(lock, n - 1) == key then Some(n - 1) else None
  }

  lemma {:induction false} FirstMeans(lock: Lock, key: string, n: int)
    requires Upto(lock, n)
    ensures var r := First(lock, key, n);
            && (r.Some? ==> Listed(lock, r.value) && KeyAt(lock, r.value) == key)
            && (forall k | 0 <= k < (if r.Some? then r.value else n) && Listed(lock, k) :: KeyAt(lock, k) != key)
    decreases n
  {
    hide KeyAt;
    if n > 0 {
      FirstMeans(lock, key, n - 1);
    }
  }

  /** The snapshot of the first `n` entries: a second copy of a name and version keeps the first one's integrity. */
  ghost function Computed(lock: Lock, n: int): (t: Table)
    requires Upto(lock, n)
    ensures Orderly(t)
    decreases n
  {
    if n == 0 then EMPTY
    else
      var t := Computed(lock, n - 1);
      if !Listed(lock, n - 1) || KeyAt(lock, n - 1) in t.at then t else Put(t, KeyAt(lock, n - 1), IntegrityAt(lock, n - 1))
  }

  /** A snapshot lists the keys of the entries, each with the integrity of its first entry. */
  lemma {:induction false} ComputedMeans(lock: Lock, n: int)
    requires Upto(lock, n)
    ensures forall key :: key in Computed(lock, n).at <==> First(lock, key, n).Some?
    ensures forall key | key in Computed(lock, n).at :: Computed(lock, n).at[key] == IntegrityAt(lock, First(lock, key, n).value)
    decreases n
  {
    hide KeyAt, IntegrityAt, Orderly;
    if n > 0 {
      ComputedMeans(lock, n - 1);
    }
  }

  method ComputeSnapshot(lock: Lock) returns (t: Table)
    requires Proper(lock)
    ensures t == Computed(lock, |lock.order|)
  {
    hide Orderly, KeyOf, IntegrityOf, Put;
    t := EMPTY;
    for i := 0 to |lock.order|
      invariant t == Computed(lock, i)
    {
      var where := lock.order[i];
      if where == "" { continue; }
      var entry := lock.packages[where];
      var key := KeyOf(where, entry);
      if key !in t.at { t := Put(t, key, IntegrityOf(entry)); }
    }
  }

  /**
   The key of a package at its place: section, name and version; the name is its own, or else the one it is installed
   under. Only `dev: true` puts it into the second section.
   */
  lemma {:induction false} KeyExact(chain: seq<string>, name: string, entry: Entry)
    requires CleanName(name)
    ensures var section := if entry.dev then "dev " else "runtime ";
            && (entry.name.None? ==> KeyOf(Lockfile.Location(chain + [name]), entry) == section + name + "@" + entry.version)
            && (entry.name.Some? ==> KeyOf(Lockfile.Location(chain + [name]), entry) == section + entry.name.value + "@" + entry.version)
    ensures IntegrityOf(entry) == if entry.integrity.Some? then entry.integrity.value else "(no integrity)"
  {
    hide Lockfile.Location;
    NameInstalled(chain, name);
    assert "dev" + " " == "dev " && "runtime" + " " == "runtime ";
  }

  lemma {:induction false} NameInstalled(chain: seq<string>, name: string)
    requires CleanName(name)
    ensures NameOfPath(Lockfile.Location(chain + [name])) == name
  {
    hide Lockfile.Location, CleanName;
    var base := Lockfile.Location(chain);
    assert (chain + [name])[..|chain|] == chain;
    PlaceIsCandidate(chain, |chain|, name);
    assert chain[..|chain|] == chain;
    LastInCandidate(base, name);
  }

  /** A path that is not below any `node_modules/` loses its first twelve characters. */
  lemma {:induction false} NameOutside(at: string)
    requires forall i :: !OccursAt(at, NODE_MODULES, i)
    ensures NameOfPath(at) == if |at| < 12 then "" else at[12..]
  {
    assert LastIndexOf(at, NODE_MODULES) == -1;
  }

  // --- conflicts ------------------------------------------------------------------------------------------

  /** One key, two integrities: at the first lock path that has the key, and at a later one. */
  datatype Conflict = Conflict(first: string, other: string)

  ghost function Conflicts(lock: Lock, n: int): seq<Conflict>
    requires Upto(lock, n)
    decreases n
  {
    if n == 0 then []
    else if !Listed(lock, n - 1) then Conflicts(lock, n - 1)
    else
      var f := First(lock, KeyAt(lock, n - 1), n - 1);
      Conflicts(lock, n - 1) +
      if f.Some? && IntegrityAt(lock, f.value) != IntegrityAt(lock, n - 1) then [Conflict(lock.order[f.value], lock.order[n - 1])] else []
  }

  /** One more entry: the firsts found so far stay, and a listed entry under a new key is the first of it. */
  lemma {:induction false} FirstSteps(lock: Lock, n: int)
    requires Upto(lock, n + 1) && n >= 0
    ensures forall key :: First(lock, key, n + 1) ==
                          if First(lock, key, n).Some? then First(lock, key, n)
                          else if Listed(lock, n) && KeyAt(lock, n) == key then Some(n) else None
  {
  }

  lemma {:induction false} ListedInPackages(lock: Lock)
    requires Proper(lock)
    ensures Upto(lock, |lock.order|)
  {
  }

  method SnapshotConflicts(lock: Lock) returns (problems: seq<Conflict>)
    requires Proper(lock)
    ensures problems == Conflicts(lock, |lock.order|)
  {
    hide KeyOf, IntegrityOf, First, Proper;
    ListedInPackages(lock);
    var seen: map<string, (string, string)> := map[];
    problems := [];
    for i := 0 to |lock.order|
      invariant problems == Conflicts(lock, i)
      invariant forall key :: key in seen <==> First(lock, key, i).Some?
      invariant forall key | key in seen ::
                  var f := First(lock, key, i).value; seen[key] == (lock.order[f], IntegrityAt(lock, f))
    {
      var where := lock.order[i];
      FirstSteps(lock, i);
      if where == "" { continue; }
      var entry := lock.packages[where];
      var key, integrity := KeyOf(where, entry), IntegrityOf(entry);
      if key !in seen {
        seen := seen[key := (where, integrity)];
      } else if seen[key].1 != integrity {
        problems := problems + [Conflict(seen[key].0, where)];
      }
    }
  }

  /** One key never stands for two integrities among the first `n` entries. */
  ghost predicate Unanimous(lock: Lock, n: int)
    requires Upto(lock, n)
  {
    forall i, j | 0 <= i < j < n && Listed(lock, i) && Listed(lock, j) && KeyAt(lock, i) == KeyAt(lock, j) ::
      IntegrityAt(lock, i) == IntegrityAt(lock, j)
  }

  /** No conflict is reported exactly when one key never stands for two integrities. */
  lemma {:induction false} NoConflicts(lock: Lock, n: int)
    requires Upto(lock, n)
    ensures Conflicts(lock, n) == [] <==> Unanimous(lock, n)
    decreases n
  {
    hide KeyAt, IntegrityAt, First, Unanimous;
    if n == 0 {
      NoneDisagree(lock);
    } else {
      NoConflicts(lock, n - 1);
      OneMoreAgrees(lock, n - 1);
    }
  }

  lemma {:induction false} NoneDisagree(lock: Lock)
    ensures Upto(lock, 0) && Unanimous(lock, 0)
  {
    hide KeyAt, IntegrityAt;
  }

  /** The `n`-th entry agrees with all of its key exactly when it agrees with the first of them. */
  lemma {:induction false} OneMoreAgrees(lock: Lock, n: int)
    requires Upto(lock, n + 1) && 0 <= n
    ensures Unanimous(lock, n + 1) ==> Unanimous(lock, n)
    ensures !Listed(lock, n) ==> (Unanimous(lock, n + 1) <==> Unanimous(lock, n))
    ensures Listed(lock, n) && Unanimous(lock, n) ==>
      var f := First(lock, KeyAt(lock, n), n);
      Unanimous(lock, n + 1) <==> f.None? || IntegrityAt(lock, f.value) == IntegrityAt(lock, n)
  {
    hide KeyAt, IntegrityAt, First;
    if Listed(lock, n) {
      FirstMeans(lock, KeyAt(lock, n), n);
    }
  }

  /** Two entries of one key with different integrities, the first of them being the first of that key. */
  ghost predicate Conflicting(lock: Lock, i: int, j: int)
    requires Upto(lock, |lock.order|)
  {
    && 0 <= i < j < |lock.order| && Listed(lock, i) && Listed(lock, j)
    && KeyAt(lock, i) == KeyAt(lock, j) && IntegrityAt(lock, i) != IntegrityAt(lock, j)
    && forall k | 0 <= k < i && Listed(lock, k) :: KeyAt(lock, k) != KeyAt(lock, j)
  }

  /** The conflicts that are reported: every later entry that differs from the first of its key. */
  lemma {:induction false} ConflictsExact(lock: Lock, n: int, c: Conflict)
    requires Upto(lock, |lock.order|) && 0 <= n <= |lock.order|
    ensures c in Conflicts(lock, n) <==> exists i, j :: Conflicting(lock, i, j) && j < n && c == Conflict(lock.order[i], lock.order[j])
    decreases n
  {
    hide KeyAt, IntegrityAt, First, Conflicting;
    if n > 0 {
      ConflictsExact(lock, n - 1, c);
      ConflictAt(lock, n - 1, c);
    }
    if n == 0 {
      forall i, j ensures !(Conflicting(lock, i, j) && j < 0) { NoneBefore(lock, i, j); }
    }
  }

  lemma {:induction false} NoneBefore(lock: Lock, i: int, j: int)
    requires Upto(lock, |lock.order|)
    ensures Conflicting(lock, i, j) ==> 0 <= i < j < |lock.order|
  {
    hide KeyAt, IntegrityAt;
  }

  /** What the `j`-th entry adds. */
  lemma {:induction false} ConflictAt(lock: Lock, j: int, c: Conflict)
    requires Upto(lock, |lock.order|) && 0 <= j < |lock.order|
    ensures c in Conflicts(lock, j + 1) <==>
            c in Conflicts(lock, j) || exists i :: Conflicting(lock, i, j) && c == Conflict(lock.order[i], lock.order[j])
  {
    hide KeyAt, IntegrityAt, First;
    if Listed(lock, j) {
      FirstMeans(lock, KeyAt(lock, j), j);
      var f := First(lock, KeyAt(lock, j), j);
      forall i | Conflicting(lock, i, j) ensures f == Some(i) {
        assert f.Some? && f.value <= i;
        assert f.value >= i;
      }
      if f.Some? && IntegrityAt(lock, f.value) != IntegrityAt(lock, j) {
        assert Conflicting(lock, f.value, j);
      }
    }
  }

  // --- text ---------------------------------------------------------------------------------------------------

  /** What `trim` removes and `\s` matches. */
  predicate Space(c: char) {
    '\t' <= c <= '\r' || c == ' ' || c == '\U{a0}' || c == '\U{1680}' || '\U{2000}' <= c <= '\U{200a}' ||
    c == '\U{2028}' || c == '\U{2029}' || c == '\U{202f}' || c == '\U{205f}' || c == '\U{3000}' || c == '\U{feff}'
  }

  /** The white space characters of section 12.2 of ECMA-262, and its line terminators. */
  lemma {:induction false} SpaceExact(c: char)
    ensures Space(c) <==>
            || c in "\t\n\U{b}\U{c}\r \U{a0}\U{1680}"
            || c in "\U{2000}\U{2001}\U{2002}\U{2003}\U{2004}\U{2005}\U{2006}\U{2007}\U{2008}\U{2009}\U{200a}"
            || c in "\U{2028}\U{2029}\U{202f}\U{205f}\U{3000}\U{feff}"
  {
    var n := c as int;
    var en := "\U{2000}\U{2001}\U{2002}\U{2003}\U{2004}\U{2005}\U{2006}\U{2007}\U{2008}\U{2009}\U{200a}";
    if 0x2000 <= n <= 0x200a { assert en[n - 0x2000] == c; }
  }

  predicate IsWord(s: string) {
    s != "" && forall k | 0 <= k < |s| :: !Space(s[k])
  }

  function TrimStart(s: string): string {
    if s != "" && Space(s[0]) then TrimStart(s[1..]) else s
  }

  function TrimEnd(s: string): string {
    if s != "" && Space(s[|s| - 1]) then TrimEnd(s[..|s| - 1]) else s
  }

  function Trim(s: string): string {
    TrimEnd(TrimStart(s))
  }

  /** Where the first word ends. */
  function WordEnd(s: string): (n: nat)
    ensures n <= |s| && (forall k | 0 <= k < n :: !Space(s[k])) && (n < |s| ==> Space(s[n]))
  {
    if s == "" || Space(s[0]) then 0
    else assert forall k | 0 < k < |s| :: s[k] == s[1..][k - 1]; 1 + WordEnd(s[1..])
  }

  /** What splitting at runs of white space leaves of a trimmed line. */
  function Words(s: string): (r: seq<string>)
    ensures forall k | 0 <= k < |r| :: IsWord(r[k])
    decreases |s|
  {
    if s == "" then []
    else if Space(s[0]) then Words(s[1..])
    else
      var n := WordEnd(s);
      [s[..n]] + Words(s[n..])
  }

  function LineEnd(s: string): (n: nat)
    ensures n <= |s| && (forall k | 0 <= k < n :: s[k] != '\n') && (n < |s| ==> s[n] == '\n')
  {
    if s == "" || s[0] == '\n' then 0
    else assert forall k | 0 < k < |s| :: s[k] == s[1..][k - 1]; 1 + LineEnd(s[1..])
  }

  function DropReturn(s: string): string {
    if s != "" && s[|s| - 1] == '\r' then s[..|s| - 1] else s
  }

  /** The text split at line feeds, each with the carriage return before it. */
  function Lines(text: string): seq<string>
    decreases |text|
  {
    var n := LineEnd(text);
    if n == |text| then [text] else [DropReturn(text[..n])] + Lines(text[n + 1..])
  }

  // --- reading -------------------------------------------------------------------------------------------------

  datatype LineRead = Nothing | Malformed | Item(key: string, integrity: string)

  function ReadLine(raw: string): LineRead {
    var line := Trim(raw);
    if line == "" || line[0] == '#' then Nothing
    else
      var parts := Words(line);
      if |parts| != 3 || parts[0] !in SECTIONS then Malformed else Item(parts[0] + " " + parts[1], parts[2])
  }

  /** The table the lines add up to, on top of `t`; nothing when a line is malformed or lists a key again. */
  function Parsed(lines: seq<string>, t: Table): Option<Table> {
    if lines == [] then Some(t)
    else
      match ReadLine(lines[0])
      case Nothing => Parsed(lines[1..], t)
      case Malformed => None
      case Item(key, integrity) => if key in t.at then None else Parsed(lines[1..], Put(t, key, integrity))
  }

  function Parse(text: string): Option<Table> {
    Parsed(Lines(text), EMPTY)
  }

  method ParseSnapshot(text: string) returns (r: Option<Table>)
    ensures r == Parse(text)
  {
    var lines := Lines(text);
    var out := EMPTY;
    assert lines[0..] == lines;
    for i := 0 to |lines|
      invariant Parsed(lines[i..], out) == Parsed(lines, EMPTY)
    {
      assert lines[i..][1..] == lines[i + 1..];
      var line := Trim(lines[i]);
      if line == "" || line[0] == '#' { continue; }
      var parts := Words(line);
      if |parts| != 3 { return None; }
      if parts[0] !in SECTIONS { return None; }
      var key := parts[0] + " " + parts[1];
      if key in out.at { return None; }
      out := Put(out, key, parts[2]);
    }
    return Some(out);
  }

  // --- what a line says ----------------------------------------------------------------------------------------

  predicate AllSpace(s: string) {
    forall k | 0 <= k < |s| :: Space(s[k])
  }

  lemma {:induction false} WordsSkip(w: string, s: string)
    requires AllSpace(w)
    ensures Words(w + s) == Words(s)
    decreases |w|
  {
    hide Space;
    if w == "" {
      assert w + s == s;
    } else {
      assert (w + s)[0] == w[0] && (w + s)[1..] == w[1..] + s;
      WordsSkip(w[1..], s);
    }
  }

  lemma {:induction false} WordsNext(w: string, rest: string)
    requires IsWord(w) && (rest != "" ==> Space(rest[0]))
    ensures Words(w + rest) == [w] + Words(rest)
  {
    hide Space;
    var s := w + rest;
    var n := WordEnd(s);
    assert forall k | 0 <= k < |w| :: s[k] == w[k];
    assert rest != "" ==> s[|w|] == rest[0];
    assert n == |w| && s[..n] == w && s[n..] == rest;
    assert s[0] == w[0];
  }

  /** Three words with white space between them, and perhaps around them. */
  ghost predicate ThreeParts(raw: string, a: string, b: string, c: string) {
    exists s0, s1, s2, s3 :: Spaced(raw, a, b, c, s0, s1, s2, s3)
  }

  predicate Spaced(raw: string, a: string, b: string, c: string, s0: string, s1: string, s2: string, s3: string) {
    && IsWord(a) && IsWord(b) && IsWord(c) && s1 != "" && s2 != ""
    && AllSpace(s0) && AllSpace(s1) && AllSpace(s2) && AllSpace(s3)
    && raw == s0 + (a + (s1 + (b + (s2 + (c + s3)))))
  }

  lemma {:induction false} WordsOfSpace(w: string)
    requires AllSpace(w)
    ensures Words(w) == []
  {
    WordsSkip(w, "");
    assert w + "" == w;
  }

  lemma {:induction false} WordsOfThree(raw: string, a: string, b: string, c: string)
    requires ThreeParts(raw, a, b, c)
    ensures Words(raw) == [a, b, c]
  {
    hide Words, Space, IsWord;
    var s0, s1, s2, s3 :| Spaced(raw, a, b, c, s0, s1, s2, s3);
    WordsOfSpace(s3);
    WordsNext(c, s3);
    WordsSkip(s2, c + s3);
    WordsNext(b, s2 + (c + s3));
    WordsSkip(s1, b + (s2 + (c + s3)));
    WordsNext(a, s1 + (b + (s2 + (c + s3))));
    WordsSkip(s0, a + (s1 + (b + (s2 + (c + s3)))));
  }

  /** The first word of a text, the white space before it, and the rest. */
  lemma {:induction false} WordsApart(s: string) returns (gap: string, rest: string)
    requires Words(s) != []
    ensures AllSpace(gap) && s == gap + (Words(s)[0] + rest) && (rest != "" ==> Space(rest[0])) && Words(rest) == Words(s)[1..]
    decreases |s|
  {
    hide Space;
    if Space(s[0]) {
      gap, rest := WordsApart(s[1..]);
      gap := [s[0]] + gap;
    } else {
      gap, rest := "", s[WordEnd(s)..];
      assert s == s[..WordEnd(s)] + rest;
    }
  }

  lemma {:induction false} NoWords(s: string)
    ensures Words(s) == [] <==> AllSpace(s)
  {
    hide Space;
    if s != "" && Space(s[0]) {
      NoWords(s[1..]);
      assert forall k | 0 < k < |s| :: s[k] == s[1..][k - 1];
    }
  }

  lemma {:induction false} ThreeOfWords(raw: string)
    requires |Words(raw)| == 3
    ensures ThreeParts(raw, Words(raw)[0], Words(raw)[1], Words(raw)[2])
  {
    hide Words, Space, IsWord;
    var parts := Words(raw);
    var s0, r0 := WordsApart(raw);
    var s1, r1 := WordsApart(r0);
    var s2, r2 := WordsApart(r1);
    NoWords(r2);
    GapThere(s1, Words(r0)[0], r1, r0);
    GapThere(s2, Words(r1)[0], r2, r1);
    assert Spaced(raw, parts[0], parts[1], parts[2], s0, s1, s2, r2);
  }

  /** What follows a word begins with white space, and the next word does not. */
  lemma {:induction false} GapThere(gap: string, w: string, rest: string, s: string)
    requires s == gap + (w + rest) && IsWord(w) && (s != "" ==> Space(s[0]))
    ensures gap != ""
  {
    hide Space;
    HeadOf(gap, w, rest);
  }

  lemma {:induction false} HeadOf(gap: string, w: string, rest: string)
    requires w != ""
    ensures var s := gap + (w + rest); s != "" && (gap == "" ==> s[0] == w[0])
  {
  }

  lemma {:induction false} WordsTrimmed(raw: string)
    ensures Words(Trim(raw)) == Words(raw)
    ensures Trim(raw) == "" <==> AllSpace(raw)
    ensures Trim(raw) != "" ==> exists a, b :: raw == a + (Trim(raw) + b) && AllSpace(a) && AllSpace(b) && !Space(Trim(raw)[0])
  {
    hide Words, Space, TrimStart, TrimEnd;
    var a := StartTrimmed(raw);
    var b := EndTrimmed(TrimStart(raw));
    WordsSkip(a, TrimStart(raw));
    WordsBefore(Trim(raw), b);
    assert raw == a + (Trim(raw) + b);
    if Trim(raw) != "" { TrimmedFirst(raw); }
    if AllSpace(raw) { AllTrimmed(raw); }
  }

  lemma {:induction false} AllTrimmed(s: string)
    requires AllSpace(s)
    ensures Trim(s) == ""
  {
    if s != "" { AllTrimmed(s[1..]); }
  }

  lemma {:induction false} TrimmedFirst(raw: string)
    requires Trim(raw) != ""
    ensures !Space(Trim(raw)[0])
  {
    hide Space;
    StartFirst(raw);
    if TrimStart(raw) != "" { TrimEndKeepsFirst(TrimStart(raw)); }
  }

  lemma {:induction false} StartFirst(s: string)
    ensures TrimStart(s) != "" ==> !Space(TrimStart(s)[0])
  {
    hide Space;
    if s != "" && Space(s[0]) { StartFirst(s[1..]); }
  }

  lemma {:induction false} StartTrimmed(s: string) returns (a: string)
    ensures s == a + TrimStart(s) && AllSpace(a)
  {
    hide Space;
    a := "";
    if s != "" && Space(s[0]) {
      a := StartTrimmed(s[1..]);
      a := [s[0]] + a;
    }
  }

  lemma {:induction false} EndTrimmed(s: string) returns (b: string)
    ensures s == TrimEnd(s) + b && AllSpace(b)
  {
    hide Space;
    b := "";
    if s != "" && Space(s[|s| - 1]) {
      b := EndTrimmed(s[..|s| - 1]);
      b := b + [s[|s| - 1]];
      assert s == s[..|s| - 1] + [s[|s| - 1]];
    }
  }

  lemma {:induction false} WordsBefore(s: string, b: string)
    requires AllSpace(b)
    ensures Words(s + b) == Words(s)
    decreases |s|
  {
    hide Space, IsWord, Words;
    if s == "" {
      WordsOfSpace(b);
      WordsOfSpace(s);
      assert s + b == b;
    } else if Space(s[0]) {
      assert s == [s[0]] + s[1..] && s + b == [s[0]] + (s[1..] + b);
      WordsSkip([s[0]], s[1..]);
      WordsSkip([s[0]], s[1..] + b);
      WordsBefore(s[1..], b);
    } else {
      var w, rest := s[..WordEnd(s)], s[WordEnd(s)..];
      WordsBefore(rest, b);
      FirstWordOf(s, b);
      WordsNext(w, rest);
      WordsNext(w, rest + b);
      assert s + b == w + (rest + b) && s == w + rest;
    }
  }

  lemma {:induction false} FirstWordOf(s: string, b: string)
    requires s != "" && !Space(s[0]) && AllSpace(b)
    ensures var w, rest := s[..WordEnd(s)], s[WordEnd(s)..];
            w != "" && IsWord(w) && (rest != "" ==> Space(rest[0])) && (rest + b != "" ==> Space((rest + b)[0]))
  {
    hide Space;
  }

  /** Nothing but white space, or white space and a number sign. */
  ghost predicate SaysNothing(raw: string) {
    AllSpace(raw) || exists a, b: string :: raw == a + ("#" + b) && AllSpace(a)
  }

  /**
   A line says nothing when it is blank or a comment, lists an integrity when it is three words of which the first is a
   section, and is malformed otherwise.
   */
  lemma {:induction false} ReadLineExact(raw: string, key: string, integrity: string)
    ensures ReadLine(raw) == Nothing <==> SaysNothing(raw)
    ensures ReadLine(raw) == Item(key, integrity) <==>
            exists section, nameVersion :: (section == "runtime" || section == "dev") && ThreeParts(raw, section, nameVersion, integrity) && key == section + " " + nameVersion
  {
    hide Words, Trim, Space, IsWord, ThreeParts, AllSpace, SaysNothing;
    WordsTrimmed(raw);
    SilentLine(raw);
    forall section, nameVersion | (section == "runtime" || section == "dev") && ThreeParts(raw, section, nameVersion, integrity)
      ensures ReadLine(raw) == Item(section + " " + nameVersion, integrity)
    {
      WordsOfThree(raw, section, nameVersion, integrity);
      NotSilent(raw, section, nameVersion, integrity);
    }
    if |Words(raw)| == 3 { ThreeOfWords(raw); }
  }

  lemma {:induction false} SilentLine(raw: string)
    ensures Trim(raw) == "" || Trim(raw)[0] == '#' <==> SaysNothing(raw)
  {
    hide Words, Trim, Space;
    WordsTrimmed(raw);
    var t := Trim(raw);
    if t != "" {
      var a, b :| raw == a + (t + b) && AllSpace(a) && AllSpace(b) && !Space(t[0]);
      if t[0] == '#' {
        assert raw == a + ("#" + (t[1..] + b));
      }
      forall c, d: string | raw == c + ("#" + d) && AllSpace(c) ensures t[0] == '#' {
        NotASpace();
        FirstAlike(a, t + b, c, "#" + d);
      }
    }
  }

  lemma {:induction false} NotASpace()
    ensures !Space('#')
  {
  }

  /** White space before the first thing that is none ends at one place. */
  lemma {:induction false} FirstAlike(a: string, s: string, b: string, t: string)
    requires a + s == b + t && AllSpace(a) && AllSpace(b) && s != "" && t != "" && !Space(s[0]) && !Space(t[0])
    ensures a == b && s == t
  {
    hide Space;
    if |a| < |b| {
      Overlap(a, s, b, t);
    } else if |b| < |a| {
      Overlap(b, t, a, s);
    } else {
      assert a == (a + s)[..|a|] == (b + t)[..|b|] == b && s == (a + s)[|a|..] == t;
    }
  }

  lemma {:induction false} Overlap(a: string, s: string, b: string, t: string)
    requires a + s == b + t && |a| < |b| && s != ""
    ensures b[|a|] == s[0]
  {
    assert (a + s)[|a|] == (b + t)[|a|];
  }

  lemma {:induction false} NotSilent(raw: string, section: string, nameVersion: string, integrity: string)
    requires (section == "runtime" || section == "dev") && ThreeParts(raw, section, nameVersion, integrity)
    ensures Trim(raw) != "" && Trim(raw)[0] != '#'
  {
    hide Words, Trim, Space;
    WordsTrimmed(raw);
    WordsOfThree(raw, section, nameVersion, integrity);
    NoWords(raw);
    var t := Trim(raw);
    var a, b :| raw == a + (t + b) && AllSpace(a) && AllSpace(b) && !Space(t[0]);
    var s0, s1, s2, s3 :| Spaced(raw, section, nameVersion, integrity, s0, s1, s2, s3);
    FirstAlike(a, t + b, s0, section + (s1 + (nameVersion + (s2 + (integrity + s3)))));
    assert t[0] == section[0];
  }

  /** A text is cut at line feeds, the carriage return before one being part of it. */
  lemma {:induction false} LinesExact(line: string, rest: string)
    requires '\n' !in line
    ensures Lines(line) == [line]
    ensures (line == "" || line[|line| - 1] != '\r') ==> Lines(line + "\n" + rest) == [line] + Lines(rest)
    ensures Lines(line + "\r\n" + rest) == [line] + Lines(rest)
  {
    hide Lines;
    LastLine(line);
    LineCut(line, rest);
    LineCut(line + "\r", rest);
    ReturnAndFeed(line, rest);
  }

  lemma {:induction false} ReturnAndFeed(line: string, rest: string)
    ensures line + "\r" + "\n" + rest == line + "\r\n" + rest && DropReturn(line + "\r") == line
  {
    assert "\r" + "\n" == "\r\n";
    assert line + "\r" + "\n" == line + ("\r" + "\n");
    assert (line + "\r")[..|line|] == line;
  }

  lemma {:induction false} LastLine(line: string)
    requires '\n' !in line
    ensures Lines(line) == [line]
  {
    assert LineEnd(line) == |line|;
  }

  lemma {:induction false} LineCut(line: string, rest: string)
    requires '\n' !in line
    ensures Lines(line + "\n" + rest) == [DropReturn(line)] + Lines(rest)
  {
    var text := line + "\n" + rest;
    assert text[|line|] == '\n';
    assert forall k | 0 <= k < |line| :: text[k] == line[k];
    assert LineEnd(text) == |line|;
    assert text[..|line|] == line && text[|line| + 1..] == rest;
  }

  function Reads(lines: seq<string>): (r: seq<LineRead>)
    ensures |r| == |lines| && forall k | 0 <= k < |lines| :: r[k] == ReadLine(lines[k])
  {
    hide ReadLine;
    if lines == [] then [] else [ReadLine(lines[0])] + Reads(lines[1..])
  }

  /** No line is malformed, and none lists a key that is in `t` or on a line before it. */
  ghost predicate Readable(lines: seq<string>, t: Table) {
    && (forall k | 0 <= k < |lines| :: !ReadLine(lines[k]).Malformed?)
    && (forall k | 0 <= k < |lines| && ReadLine(lines[k]).Item? :: ReadLine(lines[k]).key !in t.at)
    && (forall i, j | 0 <= i < j < |lines| && ReadLine(lines[i]).Item? && ReadLine(lines[j]).Item? :: ReadLine(lines[i]).key != ReadLine(lines[j]).key)
  }

  ghost predicate Lists(t: Table, key: string, integrity: string) {
    key in t.at && t.at[key] == integrity
  }

  /** A text is read unless a line is malformed or a key listed twice; the table holds what the lines list. */
  lemma {:induction false} ParseExact(text: string)
    ensures Parse(text).Some? <==> Readable(Lines(text), EMPTY)
    ensures Parse(text).Some? ==>
      forall key, integrity :: Lists(Parse(text).value, key, integrity) <==> Item(key, integrity) in Reads(Lines(text))
  {
    hide ReadLine, Lines, Readable, Reads;
    ParsedExact(Lines(text), EMPTY);
  }

  lemma {:induction false} ParsedExact(lines: seq<string>, t: Table)
    ensures Parsed(lines, t).Some? <==> Readable(lines, t)
    ensures Parsed(lines, t).Some? ==> forall key, integrity ::
      Lists(Parsed(lines, t).value, key, integrity) <==> Lists(t, key, integrity) || Item(key, integrity) in Reads(lines)
    decreases |lines|
  {
    hide ReadLine, Readable, Reads, Lists;
    if lines == [] {
      NothingToRead(t);
    } else {
      var r := ReadLine(lines[0]);
      ReadableStep(lines, t);
      ReadsStep(lines);
      if r.Nothing? {
        assert Parsed(lines, t) == Parsed(lines[1..], t);
        ParsedExact(lines[1..], t);
      } else if r.Item? && r.key !in t.at {
        assert Parsed(lines, t) == Parsed(lines[1..], Put(t, r.key, r.integrity));
        ParsedExact(lines[1..], Put(t, r.key, r.integrity));
        PutLists(t, r.key, r.integrity);
      }
    }
  }

  lemma {:induction false} PutLists(t: Table, key: string, integrity: string)
    requires key !in t.at
    ensures forall k, i :: Lists(Put(t, key, integrity), k, i) <==> Lists(t, k, i) || (k == key && i == integrity)
  {
  }

  lemma {:induction false} NothingToRead(t: Table)
    ensures Readable([], t) && Reads([]) == []
  {
  }

  lemma {:induction false} ReadsStep(lines: seq<string>)
    requires lines != []
    ensures forall x :: x in Reads(lines) <==> x == ReadLine(lines[0]) || x in Reads(lines[1..])
  {
    hide ReadLine;
    assert Reads(lines) == [ReadLine(lines[0])] + Reads(lines[1..]);
  }

  lemma {:induction false} ReadableStep(lines: seq<string>, t: Table)
    requires lines != []
    ensures var r := ReadLine(lines[0]);
            && (r.Nothing? ==> (Readable(lines, t) <==> Readable(lines[1..], t)))
            && (r.Malformed? ==> !Readable(lines, t))
            && (r.Item? ==> (Readable(lines, t) <==> r.key !in t.at && Readable(lines[1..], Put(t, r.key, r.integrity))))
  {
    hide ReadLine;
    var rest := lines[1..];
    assert forall k | 0 < k < |lines| :: lines[k] == rest[k - 1];
    assert forall k | 0 <= k < |rest| :: rest[k] == lines[k + 1];
  }

  // --- writing ---------------------------------------------------------------------------------------------------

  function LineOf(key: string, integrity: string): string {
    key + " " + integrity
  }

  /** The lines, each with its line feed. */
  function Glue(lines: seq<string>): string {
    if lines == [] then "" else lines[0] + "\n" + Glue(lines[1..])
  }

  /** The lines of one section, in the order of the keys. */
  function SectionLines(t: Table, keys: seq<string>, section: string): (r: seq<string>)
    requires forall key | key in keys :: key in t.at
    ensures forall line | line in r :: exists key | key in keys :: line == LineOf(key, t.at[key]) && section + " " <= key
    ensures forall key | key in keys && section + " " <= key :: LineOf(key, t.at[key]) in r
  {
    if keys == [] then []
    else
      (if section + " " <= keys[0] then [LineOf(keys[0], t.at[keys[0]])] else []) + SectionLines(t, keys[1..], section)
  }

  /** The order lines are put in: any rearrangement of them. */
  ghost predicate Rearranges(sorted: seq<string> -> seq<string>) {
    forall lines :: multiset(sorted(lines)) == multiset(lines)
  }

  /** The lines of the first `n` sections, one section after the other. */
  function EntryLines(t: Table, sorted: seq<string> -> seq<string>, n: nat): seq<string>
    requires n <= |SECTIONS| && forall key | key in t.keys :: key in t.at
  {
    if n == 0 then [] else EntryLines(t, sorted, n - 1) + sorted(SectionLines(t, t.keys, SECTIONS[n - 1]))
  }

  function Rendered(header: seq<string>, t: Table, sorted: seq<string> -> seq<string>): string
    requires forall key | key in t.keys :: key in t.at
  {
    Glue(header + EntryLines(t, sorted, |SECTIONS|))
  }

  method AppendLines(before: string, ghost done: seq<string>, lines: seq<string>) returns (text: string)
    requires before == Glue(done)
    ensures text == Glue(done + lines)
  {
    text := before;
    assert done + lines[..0] == done;
    for i := 0 to |lines|
      invariant text == Glue(done + lines[..i])
    {
      text := text + lines[i] + "\n";
      GlueMore(done + lines[..i], lines[i]);
      assert done + lines[..i] + [lines[i]] == done + lines[..i + 1];
    }
    assert lines[..|lines|] == lines;
  }

  /** The text of a table: a header of comment lines, then section by section the lines in the order `sorted` gives. */
  method RenderSnapshot(header: seq<string>, t: Table, sorted: seq<string> -> seq<string>) returns (text: string)
    requires Orderly(t)
    ensures text == Rendered(header, t, sorted)
  {
    hide Glue, SectionLines;
    text := AppendLines("", [], header) by { EmptyGlue(); }
    assert [] + header == header == header + [];
    for s := 0 to |SECTIONS|
      invariant text == Glue(header + EntryLines(t, sorted, s))
    {
      var lines := sorted(SectionLines(t, t.keys, SECTIONS[s]));
      text := AppendLines(text, header + EntryLines(t, sorted, s), lines);
      assert header + EntryLines(t, sorted, s) + lines == header + (EntryLines(t, sorted, s) + lines);
    }
  }

  lemma {:induction false} EmptyGlue()
    ensures Glue([]) == ""
  {
  }

  lemma {:induction false} GlueMore(lines: seq<string>, line: string)
    ensures Glue(lines + [line]) == Glue(lines) + line + "\n"
  {
    if lines == [] {
      assert [line][1..] == [];
    } else {
      assert (lines + [line])[1..] == lines[1..] + [line];
      GlueMore(lines[1..], line);
    }
  }

  // --- a line written is the line read -----------------------------------------------------------------------------

  lemma {:induction false} TrimNothing(s: string)
    requires s != "" && !Space(s[0]) && !Space(s[|s| - 1])
    ensures Trim(s) == s
  {
  }

  lemma {:induction false} FirstWord(w: string, rest: string)
    requires IsWord(w)
    ensures Words(w + " " + rest) == [w] + Words(rest)
  {
    var s := w + " " + rest;
    assert s[0] == w[0] && s[|w|] == ' ';
    var n := WordEnd(s);
    assert forall k | 0 <= k < |w| :: s[k] == w[k];
    assert n == |w|;
    assert s[..n] == w && s[n..] == " " + rest;
    assert s[n..][1..] == rest;
  }

  lemma {:induction false} OneWord(w: string)
    requires IsWord(w)
    ensures Words(w) == [w]
  {
    assert WordEnd(w) == |w|;
    assert w[..|w|] == w && w[|w|..] == "";
  }

  lemma {:induction false} LineBack(section: string, nameVersion: string, integrity: string)
    requires section in SECTIONS && IsWord(nameVersion) && IsWord(integrity)
    ensures var key := section + " " + nameVersion; ReadLine(LineOf(key, integrity)) == Item(key, integrity)
  {
    hide Words, Space;
    var key := section + " " + nameVersion;
    var line := LineOf(key, integrity);
    SectionIsWord(section);
    assert line[0] == section[0] && line[|line| - 1] == integrity[|integrity| - 1];
    TrimNothing(line);
    assert line == section + " " + (nameVersion + " " + integrity);
    FirstWord(section, nameVersion + " " + integrity);
    FirstWord(nameVersion, integrity);
    OneWord(integrity);
    assert Words(line) == [section, nameVersion, integrity];
  }

  lemma {:induction false} SectionIsWord(section: string)
    requires section in SECTIONS
    ensures IsWord(section) && section[0] != '#'
  {
  }

  // --- a text written is the table read --------------------------------------------------------------------------------

  ghost predicate CleanKey(key: string) {
    exists section, nameVersion | section in SECTIONS && IsWord(nameVersion) :: key == section + " " + nameVersion
  }

  /** Every key is a section and one word, every integrity one word. */
  ghost predicate Clean(t: Table) {
    forall key | key in t.at :: CleanKey(key) && IsWord(t.at[key])
  }

  /** What a text is read as is always clean. */
  lemma {:induction false} ParsedIsClean(lines: seq<string>, t: Table)
    requires Clean(t)
    ensures Parsed(lines, t).Some? ==> Clean(Parsed(lines, t).value)
    decreases |lines|
  {
    hide Words, Trim, Space;
    if lines != [] {
      var r := ReadLine(lines[0]);
      if r.Item? {
        var parts := Words(Trim(lines[0]));
        assert r.key == parts[0] + " " + parts[1];
        assert CleanKey(r.key);
        ParsedIsClean(lines[1..], Put(t, r.key, r.integrity));
      } else {
        ParsedIsClean(lines[1..], t);
      }
    }
  }

  predicate OneLine(line: string) {
    forall k | 0 <= k < |line| :: line[k] != '\n' && line[k] != '\r'
  }

  lemma {:induction false} FirstLine(line: string, rest: string)
    requires OneLine(line)
    ensures Lines(line + "\n" + rest) == [line] + Lines(rest)
  {
    var text := line + "\n" + rest;
    assert text[|line|] == '\n';
    assert forall k | 0 <= k < |line| :: text[k] == line[k];
    assert LineEnd(text) == |line|;
    assert text[..|line|] == line && text[|line| + 1..] == rest;
  }

  lemma {:induction false} LinesOfGlue(lines: seq<string>)
    requires forall line | line in lines :: OneLine(line)
    ensures Lines(Glue(lines)) == lines + [""]
  {
    hide Lines, OneLine;
    if lines == [] {
      NoLines();
    } else {
      assert lines[0] in lines;
      FirstLine(lines[0], Glue(lines[1..]));
      LinesOfGlue(lines[1..]);
      assert [lines[0]] + (lines[1..] + [""]) == lines + [""];
    }
  }

  lemma {:induction false} NoLines()
    ensures Lines("") == [""]
  {
  }

  predicate IsComment(line: string) {
    OneLine(line) && line != "" && line[0] == '#'
  }

  lemma {:induction false} CommentIsNothing(line: string)
    requires IsComment(line)
    ensures ReadLine(line) == Nothing
  {
    TrimEndKeepsFirst(line);
  }

  lemma {:induction false} TrimEndKeepsFirst(s: string)
    requires s != "" && !Space(s[0])
    ensures TrimEnd(s) != "" && TrimEnd(s)[0] == s[0]
    decreases |s|
  {
    hide Space;
    if Space(s[|s| - 1]) {
      assert |s| > 1;
      TrimEndKeepsFirst(s[..|s| - 1]);
    }
  }

  lemma {:induction false} CommentsAreSkipped(header: seq<string>, lines: seq<string>, t: Table)
    requires forall line | line in header :: IsComment(line)
    ensures Parsed(header + lines, t) == Parsed(lines, t)
  {
    hide IsComment, ReadLine;
    if header == [] {
      assert header + lines == lines;
    } else {
      CommentIsNothing(header[0]);
      assert (header + lines)[1..] == header[1..] + lines;
      CommentsAreSkipped(header[1..], lines, t);
    }
  }

  /** The line of one entry of the table. */
  ghost predicate Shows(line: string, t: Table) {
    exists key | key in t.at :: line == LineOf(key, t.at[key])
  }

  lemma {:induction false} EntryBack(t: Table, key: string)
    requires Clean(t) && key in t.at
    ensures ReadLine(LineOf(key, t.at[key])) == Item(key, t.at[key])
  {
    hide ReadLine, LineOf, IsWord;
    var section, nameVersion :| section in SECTIONS && IsWord(nameVersion) && key == section + " " + nameVersion;
    LineBack(section, nameVersion, t.at[key]);
  }

  /** Distinct lines of a clean table read as a part of it: the entries they show, whatever their order. */
  lemma {:induction false} ShownLinesParse(lines: seq<string>, done: Table, t: Table)
    requires Clean(t)
    requires forall line | line in lines :: Shows(line, t)
    requires forall i, j | 0 <= i < j < |lines| :: lines[i] != lines[j]
    requires forall key | key in done.at :: key in t.at && done.at[key] == t.at[key] && LineOf(key, t.at[key]) !in lines
    ensures Parsed(lines + [""], done).Some?
    ensures var r := Parsed(lines + [""], done).value;
            && (forall key | key in r.at :: key in t.at && r.at[key] == t.at[key])
            && (forall key | key in t.at && (key in done.at || LineOf(key, t.at[key]) in lines) :: key in r.at)
    decreases |lines|
  {
    hide ReadLine, LineOf, Clean;
    if lines == [] {
      BlankLine();
      assert (lines + [""])[1..] == [];
    } else {
      var line := lines[0];
      assert Shows(line, t);
      var key :| key in t.at && line == LineOf(key, t.at[key]);
      EntryBack(t, key);
      assert (lines + [""])[1..] == lines[1..] + [""];
      forall other | other in t.at && LineOf(other, t.at[other]) == line ensures other == key {
        EntryBack(t, other);
      }
      ShownLinesParse(lines[1..], Put(done, key, t.at[key]), t);
    }
  }

  lemma {:induction false} BlankLine()
    ensures ReadLine("") == Nothing
  {
  }

  // --- the lines of a table, in any order -------------------------------------------------------------------------

  ghost predicate Distinct(lines: seq<string>) {
    forall i, j | 0 <= i < j < |lines| :: lines[i] != lines[j]
  }

  lemma {:induction false} SectionLinesDistinct(t: Table, keys: seq<string>, section: string)
    requires Clean(t) && Distinct(keys) && forall key | key in keys :: key in t.at
    ensures Distinct(SectionLines(t, keys, section))
  {
    hide ReadLine, LineOf, Clean;
    if keys != [] {
      var rest := SectionLines(t, keys[1..], section);
      SectionLinesDistinct(t, keys[1..], section);
      if LineOf(keys[0], t.at[keys[0]]) in rest {
        var key :| key in keys[1..] && LineOf(keys[0], t.at[keys[0]]) == LineOf(key, t.at[key]);
        EntryBack(t, key);
        EntryBack(t, keys[0]);
      }
    }
  }

  lemma {:induction false} TwiceInMultiset(a: seq<string>, i: int, j: int)
    requires 0 <= i < j < |a| && a[i] == a[j]
    ensures multiset(a)[a[i]] >= 2
  {
    assert a == a[..j] + a[j..];
    assert a[..j][i] in a[..j] && a[j..][0] in a[j..];
  }

  lemma {:induction false} OnceInMultiset(a: seq<string>, x: string)
    requires Distinct(a)
    ensures multiset(a)[x] <= 1
  {
    if a != [] {
      assert a == [a[0]] + a[1..];
      OnceInMultiset(a[1..], x);
      assert a[0] !in a[1..];
    }
  }

  /** A rearrangement of distinct lines is the same lines, each once. */
  lemma {:induction false} Rearranged(a: seq<string>, b: seq<string>)
    requires multiset(a) == multiset(b) && Distinct(b)
    ensures |a| == |b| && Distinct(a) && forall x :: x in a <==> x in b
  {
    assert |multiset(a)| == |a| && |multiset(b)| == |b|;
    forall i, j | 0 <= i < j < |a| ensures a[i] != a[j] {
      if a[i] == a[j] {
        TwiceInMultiset(a, i, j);
        OnceInMultiset(b, a[i]);
      }
    }
    forall x ensures x in a <==> x in b {
      assert x in a <==> x in multiset(a);
      assert x in b <==> x in multiset(b);
    }
  }

  /** The lines of a clean table are its entries, each once, in whatever order they are put. */
  lemma {:induction false} EntryLinesAre(t: Table, sorted: seq<string> -> seq<string>)
    requires Clean(t) && Orderly(t) && Rearranges(sorted)
    ensures var lines := EntryLines(t, sorted, |SECTIONS|);
            && Distinct(lines)
            && (forall line | line in lines :: Shows(line, t))
            && (forall key | key in t.at :: LineOf(key, t.at[key]) in lines)
  {
    hide ReadLine, LineOf, Clean, IsWord, SectionLines, Distinct, EntryLines, Shows;
    var runtime, dev := SectionLines(t, t.keys, "runtime"), SectionLines(t, t.keys, "dev");
    OrderlyDistinct(t);
    SectionLinesDistinct(t, t.keys, "runtime");
    SectionLinesDistinct(t, t.keys, "dev");
    Rearranged(sorted(runtime), runtime);
    Rearranged(sorted(dev), dev);
    SectionsApart(t);
    TwoParts(t, sorted);
    DistinctBoth(sorted(runtime), sorted(dev));
    SectionShows(t, "runtime");
    SectionShows(t, "dev");
    forall key | key in t.at ensures LineOf(key, t.at[key]) in sorted(runtime) + sorted(dev) {
      KeyHasSection(t, key);
    }
  }

  lemma {:induction false} OrderlyDistinct(t: Table)
    requires Orderly(t)
    ensures Distinct(t.keys) && forall key :: key in t.keys <==> key in t.at
  {
  }

  lemma {:induction false} SectionShows(t: Table, section: string)
    requires Orderly(t)
    ensures forall line | line in SectionLines(t, t.keys, section) :: Shows(line, t)
  {
    hide SectionLines, LineOf;
  }

  lemma {:induction false} TwoParts(t: Table, sorted: seq<string> -> seq<string>)
    requires Orderly(t)
    ensures EntryLines(t, sorted, |SECTIONS|) == sorted(SectionLines(t, t.keys, "runtime")) + sorted(SectionLines(t, t.keys, "dev"))
  {
    hide SectionLines;
    var runtime := sorted(SectionLines(t, t.keys, "runtime"));
    assert EntryLines(t, sorted, 1) == [] + runtime == runtime;
  }

  lemma {:induction false} DistinctBoth(a: seq<string>, b: seq<string>)
    requires Distinct(a) && Distinct(b) && forall x | x in a :: x !in b
    ensures Distinct(a + b)
  {
    var all := a + b;
    forall i, j | 0 <= i < j < |all| ensures all[i] != all[j] {
      if i < |a| <= j {
        assert all[i] in a && all[j] == b[j - |a|];
      }
    }
  }

  /** No line stands in both sections. */
  lemma {:induction false} SectionsApart(t: Table)
    requires Clean(t) && Orderly(t)
    ensures forall line | line in SectionLines(t, t.keys, "runtime") :: line !in SectionLines(t, t.keys, "dev")
  {
    hide ReadLine, LineOf, Clean, IsWord, SectionLines;
    forall line | line in SectionLines(t, t.keys, "runtime") ensures line !in SectionLines(t, t.keys, "dev") {
      if line in SectionLines(t, t.keys, "dev") {
        var a :| a in t.keys && line == LineOf(a, t.at[a]) && "runtime " <= a;
        var b :| b in t.keys && line == LineOf(b, t.at[b]) && "dev " <= b;
        EntryBack(t, a);
        EntryBack(t, b);
        OneSection(b);
      }
    }
  }

  lemma {:induction false} OneSection(key: string)
    ensures "runtime " <= key ==> !("dev " <= key)
  {
    if "runtime " <= key { assert key[0] == 'r'; }
    if "dev " <= key { assert key[0] == 'd'; }
  }

  lemma {:induction false} KeyHasSection(t: Table, key: string)
    requires Clean(t) && key in t.at
    ensures "runtime " <= key || "dev " <= key
  {
    hide IsWord;
    var section, nameVersion :| section in SECTIONS && IsWord(nameVersion) && key == section + " " + nameVersion;
    assert section + " " <= key;
  }

  lemma {:induction false} LinesAreOneLine(t: Table, lines: seq<string>)
    requires Clean(t) && forall line | line in lines :: Shows(line, t)
    ensures forall line | line in lines :: OneLine(line)
  {
    hide IsWord, LineOf, OneLine;
    forall line | line in lines ensures OneLine(line) {
      var key :| key in t.at && line == LineOf(key, t.at[key]);
      var section, nameVersion :| section in SECTIONS && IsWord(nameVersion) && key == section + " " + nameVersion;
      ThreeWords(section, nameVersion, t.at[key]);
    }
  }

  lemma {:induction false} ThreeWords(section: string, nameVersion: string, integrity: string)
    requires section in SECTIONS && IsWord(nameVersion) && IsWord(integrity)
    ensures OneLine(LineOf(section + " " + nameVersion, integrity))
  {
    hide IsWord, Space;
    SectionIsWord(section);
    WordIsOneLine(section);
    WordIsOneLine(nameVersion);
    WordIsOneLine(integrity);
  }

  lemma {:induction false} WordIsOneLine(w: string)
    requires IsWord(w)
    ensures OneLine(w)
  {
  }

  /**
   Writing a table and reading the text gives the table back exactly when its sections, names, versions and integrities
   are single words: then in whatever order the lines are put, and otherwise in none.
   */
  lemma {:induction false} RoundTrip(header: seq<string>, t: Table, sorted: seq<string> -> seq<string>)
    requires (forall line | line in header :: IsComment(line)) && Orderly(t) && Rearranges(sorted)
    ensures var r := Parse(Rendered(header, t, sorted)); (r.Some? && r.value.at == t.at) <==> Clean(t)
  {
    hide ReadLine, LineOf, Clean, IsWord, IsComment, EntryLines, Rearranges, Lines, Glue, Parsed, Orderly;
    OrderlyKeys(t);
    EmptyIsClean();
    ParsedIsClean(Lines(Rendered(header, t, sorted)), EMPTY);
    var r := Parse(Rendered(header, t, sorted));
    if r.Some? && r.value.at == t.at {
      CleanAlike(r.value, t);
    }
    if Clean(t) {
      var lines := EntryLines(t, sorted, |SECTIONS|);
      EntryLinesAre(t, sorted);
      LinesAreOneLine(t, lines);
      CommentsAreOneLine(header);
      LinesOfGlue(header + lines);
      assert header + lines + [""] == header + (lines + [""]);
      CommentsAreSkipped(header, lines + [""], EMPTY);
      ShownLinesParse(lines, EMPTY, t);
    }
  }

  lemma {:induction false} CommentsAreOneLine(header: seq<string>)
    requires forall line | line in header :: IsComment(line)
    ensures forall line | line in header :: OneLine(line)
  {
  }

  lemma {:induction false} EmptyIsClean()
    ensures Clean(EMPTY)
  {
  }

  lemma {:induction false} CleanAlike(a: Table, b: Table)
    requires Clean(a) && a.at == b.at
    ensures Clean(b)
  {
  }

  // --- the verdict ---------------------------------------------------------------------------------------------------

  datatype Difference = Unreadable | Gained(key: string) | Changed(key: string) | Lost(key: string)

  lemma {:induction false} ParsedIsOrderly(lines: seq<string>, t: Table)
    requires Orderly(t)
    ensures Parsed(lines, t).Some? ==> Orderly(Parsed(lines, t).value)
    decreases |lines|
  {
    hide ReadLine;
    if lines != [] {
      var r := ReadLine(lines[0]);
      ParsedIsOrderly(lines[1..], if r.Item? && r.key !in t.at then Put(t, r.key, r.integrity) else t);
    }
  }

  /** What the lockfile has of its first `n` keys that the text does not have. */
  function Gains(actual: Table, committed: Table, n: nat): seq<Difference>
    requires n <= |actual.keys| && forall key | key in actual.keys :: key in actual.at
  {
    if n == 0 then []
    else
      var key := actual.keys[n - 1];
      Gains(actual, committed, n - 1) +
      if key !in committed.at then [Gained(key)] else if committed.at[key] != actual.at[key] then [Changed(key)] else []
  }

  /** What the text lists among its first `n` keys that the lockfile no longer has. */
  function Losses(actual: Table, committed: Table, n: nat): seq<Difference>
    requires n <= |committed.keys|
  {
    if n == 0 then []
    else
      var key := committed.keys[n - 1];
      Losses(actual, committed, n - 1) + if key !in actual.at then [Lost(key)] else []
  }

  ghost function Differences(lock: Lock, text: string): seq<Difference>
    requires Proper(lock)
  {
    var actual := Computed(lock, |lock.order|);
    if Parse(text).None? then [Unreadable]
    else Gains(actual, Parse(text).value, |actual.keys|) + Losses(actual, Parse(text).value, |Parse(text).value.keys|)
  }

  method SnapshotProblems(lock: Lock, text: string) returns (problems: seq<Difference>)
    requires Proper(lock)
    ensures problems == Differences(lock, text)
  {
    hide Parse, Computed, Orderly;
    problems := [];
    var parsed := ParseSnapshot(text);
    if parsed.None? { return [Unreadable]; }
    var committed := parsed.value;
    var actual := ComputeSnapshot(lock);
    OrderlyKeys(actual);
    for i := 0 to |actual.keys|
      invariant problems == Gains(actual, committed, i)
    {
      var key := actual.keys[i];
      if key !in committed.at {
        problems := problems + [Gained(key)];
      } else if committed.at[key] != actual.at[key] {
        problems := problems + [Changed(key)];
      }
    }
    ghost var gained := problems;
    for i := 0 to |committed.keys|
      invariant problems == gained + Losses(actual, committed, i)
    {
      if committed.keys[i] !in actual.at { problems := problems + [Lost(committed.keys[i])]; }
    }
  }

  lemma {:induction false} OrderlyKeys(t: Table)
    requires Orderly(t)
    ensures forall key | key in t.keys :: key in t.at
  {
  }

  /** The text: the comment lines, then the lines of what ships, then those of what is only built with, each line ended. */
  lemma {:induction false} RenderedExact(header: seq<string>, t: Table, sorted: seq<string> -> seq<string>)
    requires Orderly(t)
    ensures Rendered(header, t, sorted) ==
            Glue(header) + Glue(sorted(SectionLines(t, t.keys, "runtime"))) + Glue(sorted(SectionLines(t, t.keys, "dev")))
    ensures forall line :: line in SectionLines(t, t.keys, "runtime") <==> exists key | key in t.at :: "runtime " <= key && line == key + " " + t.at[key]
    ensures forall line :: line in SectionLines(t, t.keys, "dev") <==> exists key | key in t.at :: "dev " <= key && line == key + " " + t.at[key]
  {
    hide SectionLines, Glue, EntryLines;
    TwoParts(t, sorted);
    var runtime, dev := sorted(SectionLines(t, t.keys, "runtime")), sorted(SectionLines(t, t.keys, "dev"));
    GlueBoth(header, runtime + dev);
    GlueBoth(runtime, dev);
    assert Glue(header) + (Glue(runtime) + Glue(dev)) == Glue(header) + Glue(runtime) + Glue(dev);
  }

  lemma {:induction false} GlueBoth(a: seq<string>, b: seq<string>)
    ensures Glue(a + b) == Glue(a) + Glue(b)
  {
    if a == [] {
      assert a + b == b;
    } else {
      assert (a + b)[1..] == a[1..] + b;
      GlueBoth(a[1..], b);
      assert a[0] + "\n" + (Glue(a[1..]) + Glue(b)) == a[0] + "\n" + Glue(a[1..]) + Glue(b);
    }
  }

  /** Which differences there are between what the lockfile has and what the text lists. */
  ghost predicate Differs(lock: Lock, text: string, d: Difference)
    requires Proper(lock)
  {
    var actual := Computed(lock, |lock.order|).at;
    if Parse(text).None? then d == Unreadable
    else
      var committed := Parse(text).value.at;
      match d
      case Unreadable => false
      case Gained(key) => key in actual && key !in committed
      case Changed(key) => key in actual && key in committed && committed[key] != actual[key]
      case Lost(key) => key in committed && key !in actual
  }

  lemma {:induction false} DifferencesExact(lock: Lock, text: string, d: Difference)
    requires Proper(lock)
    ensures d in Differences(lock, text) <==> Differs(lock, text, d)
  {
    hide Gains, Losses, Computed, Parsed, Lines;
    if Parse(text).Some? {
      var actual, committed := Computed(lock, |lock.order|), Parse(text).value;
      ParsedIsOrderly(Lines(text), EMPTY);
      OrderlyKeys(actual);
      GainsAre(actual, committed, |actual.keys|, d);
      LossesAre(actual, committed, |committed.keys|, d);
    }
  }

  lemma {:induction false} GainsAre(actual: Table, committed: Table, n: nat, d: Difference)
    requires n <= |actual.keys| && forall key | key in actual.keys :: key in actual.at
    ensures d in Gains(actual, committed, n) <==>
            || (d.Gained? && d.key in actual.keys[..n] && d.key !in committed.at)
            || (d.Changed? && d.key in actual.keys[..n] && d.key in committed.at && committed.at[d.key] != actual.at[d.key])
  {
    if n > 0 {
      GainsAre(actual, committed, n - 1, d);
      assert actual.keys[..n] == actual.keys[..n - 1] + [actual.keys[n - 1]];
    }
  }

  lemma {:induction false} LossesAre(actual: Table, committed: Table, n: nat, d: Difference)
    requires n <= |committed.keys|
    ensures d in Losses(actual, committed, n) <==> d.Lost? && d.key in committed.keys[..n] && d.key !in actual.at
  {
    if n > 0 {
      LossesAre(actual, committed, n - 1, d);
      assert committed.keys[..n] == committed.keys[..n - 1] + [committed.keys[n - 1]];
    }
  }

  lemma {:induction false} NoGains(actual: Table, committed: Table, n: nat)
    requires n <= |actual.keys| && forall key | key in actual.keys :: key in actual.at
    ensures Gains(actual, committed, n) == [] <==>
            forall k | 0 <= k < n :: actual.keys[k] in committed.at && committed.at[actual.keys[k]] == actual.at[actual.keys[k]]
  {
    if n > 0 {
      NoGains(actual, committed, n - 1);
    }
  }

  lemma {:induction false} NoLosses(actual: Table, committed: Table, n: nat)
    requires n <= |committed.keys|
    ensures Losses(actual, committed, n) == [] <==> forall k | 0 <= k < n :: committed.keys[k] in actual.at
  {
    if n > 0 {
      NoLosses(actual, committed, n - 1);
    }
  }

  lemma {:induction false} NoDifferences(lock: Lock, text: string)
    requires Proper(lock)
    ensures Differences(lock, text) == [] <==> Parse(text).Some? && Parse(text).value.at == Computed(lock, |lock.order|).at
  {
    hide Gains, Losses, Computed, Parsed, Lines;
    var actual := Computed(lock, |lock.order|);
    if Parse(text).Some? {
      var committed := Parse(text).value;
      ParsedIsOrderly(Lines(text), EMPTY);
      NoGains(actual, committed, |actual.keys|);
      NoLosses(actual, committed, |committed.keys|);
      if Differences(lock, text) == [] {
        assert forall key | key in actual.at :: key in committed.at && committed.at[key] == actual.at[key];
        assert forall key | key in committed.at :: key in actual.at;
      }
    }
  }

  /** The text pins the lockfile: every entry's integrity is the one listed for its section, name and version, and nothing else is listed. */
  ghost predicate Pins(committed: map<string, string>, lock: Lock)
    requires Proper(lock)
  {
    && (forall k | 0 <= k < |lock.order| && Listed(lock, k) :: KeyAt(lock, k) in committed && committed[KeyAt(lock, k)] == IntegrityAt(lock, k))
    && (forall key | key in committed :: exists k | 0 <= k < |lock.order| :: Listed(lock, k) && KeyAt(lock, k) == key)
  }

  /** The check is silent exactly when the text reads as a table that pins the lockfile, second copies included. */
  lemma {:induction false} SnapshotExact(lock: Lock, text: string)
    requires Proper(lock)
    ensures Conflicts(lock, |lock.order|) == [] && Differences(lock, text) == [] <==> Parse(text).Some? && Pins(Parse(text).value.at, lock)
  {
    hide Conflicts, Differences, Computed, Parse, KeyAt, IntegrityAt, First, Pins;
    var n := |lock.order|;
    NoDifferences(lock, text);
    if Parse(text).Some? {
      var committed := Parse(text).value.at;
      if committed == Computed(lock, n).at && Conflicts(lock, n) == [] { TablePins(lock); }
      if Pins(committed, lock) { PinnedIsTable(lock, committed); }
    }
  }

  /** Without conflicts the lockfile's own snapshot pins every entry, the second copies too. */
  lemma {:induction false} TablePins(lock: Lock)
    requires Proper(lock) && Conflicts(lock, |lock.order|) == []
    ensures Pins(Computed(lock, |lock.order|).at, lock)
  {
    hide Conflicts, Computed, KeyAt, IntegrityAt, First;
    var n := |lock.order|;
    var t := Computed(lock, n).at;
    NoConflicts(lock, n);
    ComputedMeans(lock, n);
    forall k | 0 <= k < n && Listed(lock, k) ensures KeyAt(lock, k) in t && t[KeyAt(lock, k)] == IntegrityAt(lock, k) {
      FirstMeans(lock, KeyAt(lock, k), n);
      var f := First(lock, KeyAt(lock, k), n).value;
      assert f <= k;
    }
    forall key | key in t ensures exists k | 0 <= k < n :: Listed(lock, k) && KeyAt(lock, k) == key {
      FirstMeans(lock, key, n);
    }
  }

  lemma {:induction false} PinnedIsTable(lock: Lock, committed: map<string, string>)
    requires Proper(lock) && Pins(committed, lock)
    ensures committed == Computed(lock, |lock.order|).at && Conflicts(lock, |lock.order|) == []
  {
    hide Conflicts, Computed, KeyAt, IntegrityAt, First, Pins;
    var n := |lock.order|;
    var t := Computed(lock, n).at;
    assert Conflicts(lock, n) == [] by {
      PinnedHasNoConflicts(lock, committed);
    }
    ComputedMeans(lock, n);
    forall key ensures key in t <==> key in committed {
      PinnedKey(lock, committed, key);
    }
    forall key | key in t ensures committed[key] == t[key] {
      PinnedKey(lock, committed, key);
    }
  }

  lemma {:induction false} PinnedHasNoConflicts(lock: Lock, committed: map<string, string>)
    requires Proper(lock) && Pins(committed, lock)
    ensures Conflicts(lock, |lock.order|) == []
  {
    hide Conflicts, KeyAt, IntegrityAt, First;
    NoConflicts(lock, |lock.order|);
  }

  /** A key is pinned exactly when it has a first entry, and then by that one. */
  lemma {:induction false} PinnedKey(lock: Lock, committed: map<string, string>, key: string)
    requires Proper(lock) && Pins(committed, lock)
    ensures var f := First(lock, key, |lock.order|);
            (f.Some? <==> key in committed) && (f.Some? ==> committed[key] == IntegrityAt(lock, f.value))
  {
    hide KeyAt, IntegrityAt, First;
    FirstMeans(lock, key, |lock.order|);
    if key in committed {
      var k :| 0 <= k < |lock.order| && Listed(lock, k) && KeyAt(lock, k) == key;
    }
  }

  /**
   Writing the snapshot and checking it at once is silent exactly when the lockfile's snapshot is clean: an entry
   without integrity never is, for what stands in its place is two words.
   */
  lemma {:induction false} FreshSnapshot(lock: Lock, header: seq<string>, sorted: seq<string> -> seq<string>)
    requires Proper(lock) && (forall line | line in header :: IsComment(line)) && Rearranges(sorted)
    ensures var t := Computed(lock, |lock.order|); Differences(lock, Rendered(header, t, sorted)) == [] <==> Clean(t)
  {
    hide Differences, Computed, Parse, Rendered, Clean, IsComment, Rearranges;
    var t := Computed(lock, |lock.order|);
    RoundTrip(header, t, sorted);
    NoDifferences(lock, Rendered(header, t, sorted));
  }

  lemma {:induction false} NoIntegrityIsNotClean(lock: Lock, k: int)
    requires Proper(lock) && 0 <= k < |lock.order| && Listed(lock, k) && lock.packages[lock.order[k]].integrity.None?
    requires First(lock, KeyAt(lock, k), |lock.order|) == Some(k)
    ensures !Clean(Computed(lock, |lock.order|))
  {
    hide Computed, First, KeyAt;
    ComputedMeans(lock, |lock.order|);
    assert Space(NO_INTEGRITY[3]);
    assert !IsWord(NO_INTEGRITY);
  }
}
