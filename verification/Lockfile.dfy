/** The lockfile graph and its flags. */
module Lockfile {
  import opened Options
  import opened Strings

  /** One entry of `packages`; a missing flag is false, a missing section has no names. */
  datatype Entry = Entry(
    name: Option<string>,
    version: string,
    integrity: Option<string>,
    dev: bool,
    optional: bool,
    devOptional: bool,
    link: bool,
    dependencies: seq<string>,
    optionalDependencies: seq<string>,
    peerDependencies: seq<string>,
    optionalPeers: set<string>)

  type Packages = map<string, Entry>

  /** `packages` with the order its keys are listed in. */
  datatype Lock = Lock(order: seq<string>, packages: Packages)

  /** What every parsed JSON object is: each key is listed once. */
  ghost predicate Proper(lock: Lock) {
    && (forall w :: w in lock.order <==> w in lock.packages)
    && (forall i, j | 0 <= i < j < |lock.order| :: lock.order[i] != lock.order[j])
  }

  datatype Manifest = Manifest(dependencies: seq<string>, optionalDependencies: seq<string>, devDependencies: seq<string>)

  // --- lookup -----------------------------------------------------------------------------------------

  const NODE_MODULES := "node_modules/"

  function Candidate(base: string, name: string): string {
    if base == "" then NODE_MODULES + name else base + "/" + NODE_MODULES + name
  }

  /** What is left of a lock path when its last `node_modules/` and what follows is dropped. */
  function Parent(base: string): (r: string)
    ensures base != "" ==> |r| < |base|
  {
    var i := LastIndexOf(base, NODE_MODULES);
    if i <= 0 then "" else base[..i - 1]
  }

  function Resolve(packages: Packages, base: string, name: string): (r: Option<string>)
    ensures r.Some? ==> r.value in packages
    decreases |base|
  {
    if Candidate(base, name) in packages then Some(Candidate(base, name))
    else if base == "" then None
    else Resolve(packages, Parent(base), name)
  }

  method ResolveDep(packages: Packages, from: string, name: string) returns (r: Option<string>)
    ensures r == Resolve(packages, from, name)
  {
    var base := from;
    while true
      invariant Resolve(packages, base, name) == Resolve(packages, from, name)
      decreases |base|
    {
      var candidate := Candidate(base, name);
      if candidate in packages { return Some(candidate); }
      if base == "" { return None; }
      var i := LastIndexOf(base, NODE_MODULES);
      base := if i <= 0 then "" else base[..i - 1];
    }
  }

  // --- what the lookup means ----------------------------------------------------------------------------

  /** The lock path of a package installed inside the others, outermost first. */
  function Location(chain: seq<string>): string {
    if chain == [] then "" else Candidate(Location(chain[..|chain| - 1]), chain[|chain| - 1])
  }

  /** The path is the names, each in a `node_modules` directory of the one before it. */
  lemma {:induction false} LocationExact(chain: seq<string>, name: string)
    ensures Location([name]) == "node_modules/" + name
    ensures chain != [] ==> Location(chain + [name]) == Location(chain) + "/node_modules/" + name
  {
    hide Location;
    PlaceIsCandidate([], 0, name);
    PlaceIsCandidate(chain, |chain|, name);
    AtTop();
    var none: seq<string> := [];
    assert none[..0] + [name] == [name] && chain[..|chain|] == chain && none[..0] == none;
    if chain != [] {
      NotAtTop(chain);
      assert "/" + NODE_MODULES == "/node_modules/";
      assert Location(chain) + "/" + NODE_MODULES + name == Location(chain) + "/node_modules/" + name;
    }
  }

  lemma {:induction false} NotAtTop(chain: seq<string>)
    requires chain != []
    ensures Location(chain) != ""
  {
  }

  ghost predicate CleanName(name: string) {
    forall i :: !OccursAt(name, NODE_MODULES, i)
  }

  ghost predicate CleanNames(chain: seq<string>) {
    forall k | 0 <= k < |chain| :: CleanName(chain[k])
  }

  /** After the one that follows the base, `node_modules/` can only occur inside the name: two occurrences cannot overlap. */
  lemma {:induction false} LaterIsInName(base: string, name: string, r: int)
    requires OccursAt(Candidate(base, name), NODE_MODULES, r) && r > (if base == "" then 0 else |base| + 1)
    ensures OccursAt(name, NODE_MODULES, r - |NODE_MODULES| - if base == "" then 0 else |base| + 1)
  {
    var s := Candidate(base, name);
    var at := if base == "" then 0 else |base| + 1;
    var n := |NODE_MODULES|;
    assert s[at..] == NODE_MODULES + name;
    if r < at + n {
      assert s[r..r + n][at + n - 1 - r] == s[at..][n - 1] == '/';
      NoInnerSlash(at + n - 1 - r);
    } else {
      assert s[at + n..] == name;
      assert name[r - at - n..r - at] == s[r..r + n];
    }
  }

  lemma {:induction false} LastInCandidate(base: string, name: string)
    requires CleanName(name)
    ensures LastIndexOf(Candidate(base, name), NODE_MODULES) == if base == "" then 0 else |base| + 1
  {
    var s := Candidate(base, name);
    var at := if base == "" then 0 else |base| + 1;
    assert s[at..] == NODE_MODULES + name;
    assert s[at..at + |NODE_MODULES|] == NODE_MODULES;
    assert OccursAt(s, NODE_MODULES, at);
    var r := LastIndexOf(s, NODE_MODULES);
    if r > at {
      LaterIsInName(base, name, r);
    }
  }

  lemma {:induction false} NoInnerSlash(k: nat)
    requires k < |NODE_MODULES| && NODE_MODULES[k] == '/'
    ensures k == |NODE_MODULES| - 1
  {
  }

  lemma {:induction false} ParentOfLocation(chain: seq<string>)
    requires chain != [] && CleanName(chain[|chain| - 1])
    ensures Location(chain) != "" && Parent(Location(chain)) == Location(chain[..|chain| - 1])
  {
    LastInCandidate(Location(chain[..|chain| - 1]), chain[|chain| - 1]);
  }

  /** Where `name` stands when it is installed inside the first `j` packages of the chain. */
  function Place(chain: seq<string>, j: nat, name: string): string
    requires j <= |chain|
  {
    Location(chain[..j] + [name])
  }

  lemma {:induction false} PlaceIsCandidate(chain: seq<string>, j: nat, name: string)
    requires j <= |chain|
    ensures Place(chain, j, name) == Candidate(Location(chain[..j]), name)
  {
    assert (chain[..j] + [name])[..j] == chain[..j];
  }

  /** The innermost of the places that exists. */
  ghost predicate Innermost(packages: Packages, chain: seq<string>, name: string, at: string) {
    && at in packages
    && exists j | 0 <= j <= |chain| :: at == Place(chain, j, name) && forall i | j < i <= |chain| :: Place(chain, i, name) !in packages
  }

  /** The lookup from this place finds the innermost place that exists, and nothing when none does. */
  ghost predicate FindsNearest(packages: Packages, chain: seq<string>, name: string) {
    var r := Resolve(packages, Location(chain), name);
    if r.Some? then Innermost(packages, chain, name, r.value)
    else forall i | 0 <= i <= |chain| :: Place(chain, i, name) !in packages
  }

  /**
   Node's rule: of the places a name may be installed in (inside the package that asks, inside each package around it,
   at the top) the innermost that exists, and nothing when none does.
   */
  lemma {:induction false} NearestAncestor(packages: Packages, chain: seq<string>, name: string)
    requires CleanNames(chain)
    ensures FindsNearest(packages, chain, name)
    decreases |chain|
  {
    hide Place, Location, Candidate, Parent;
    var n := |chain|;
    assert chain[..n] == chain;
    PlaceIsCandidate(chain, n, name);
    if Place(chain, n, name) !in packages {
      if n == 0 {
        AtTop();
      } else {
        ParentOfLocation(chain);
        var outer := chain[..n - 1];
        NearestAncestor(packages, outer, name);
        assert FindsNearest(packages, outer, name);
        SamePlaces(chain, name);
        var r := Resolve(packages, Location(outer), name);
        if r.Some? {
          var j :| 0 <= j <= n - 1 && r.value == Place(outer, j, name) && forall i | j < i <= n - 1 :: Place(outer, i, name) !in packages;
          assert r.value == Place(chain, j, name);
        }
      }
    }
  }

  lemma {:induction false} AtTop()
    ensures Location([]) == ""
  {
  }

  lemma {:induction false} SamePlaces(chain: seq<string>, name: string)
    requires chain != []
    ensures forall i | 0 <= i < |chain| :: Place(chain, i, name) == Place(chain[..|chain| - 1], i, name)
  {
    forall i | 0 <= i < |chain| ensures Place(chain, i, name) == Place(chain[..|chain| - 1], i, name) {
      assert chain[..|chain| - 1][..i] == chain[..i];
    }
  }

  lemma {:induction false} LocationGrows(chain: seq<string>, i: nat)
    requires i <= |chain|
    ensures |Location(chain[..i])| <= |Location(chain)|
    decreases |chain|
  {
    if i < |chain| {
      var outer := chain[..|chain| - 1];
      assert outer[..i] == chain[..i];
      LocationGrows(outer, i);
    } else {
      assert chain[..i] == chain;
    }
  }

  /** The path left of a name with `node_modules/` inside it ends within that name: it is the place of no package. */
  lemma {:induction false} ParentInside(chain: seq<string>)
    requires chain != [] && !CleanName(chain[|chain| - 1])
    ensures |Location(chain[..|chain| - 1])| < |Parent(Location(chain))| < |Location(chain)|
  {
    var base, name := Location(chain[..|chain| - 1]), chain[|chain| - 1];
    var i :| OccursAt(name, NODE_MODULES, i);
    var s := Candidate(base, name);
    var at := if base == "" then 0 else |base| + 1;
    assert s[at + |NODE_MODULES|..] == name;
    var j := at + |NODE_MODULES| + i;
    assert s[j..j + |NODE_MODULES|] == name[i..i + |NODE_MODULES|];
    assert OccursAt(s, NODE_MODULES, j);
  }

  /** A package that the lookup finds, although it is at no place the name may be installed in. */
  lemma {:induction false} Misled(chain: seq<string>, name: string, entry: Entry) returns (k: string)
    requires !CleanNames(chain)
    ensures Resolve(map[k := entry], Location(chain), name) == Some(k)
    ensures forall i | 0 <= i <= |chain| :: Place(chain, i, name) != k
    decreases |chain|
  {
    hide Location, Parent;
    var n := |chain|;
    var outer := chain[..n - 1];
    assert chain[..n] == chain;
    if CleanName(chain[n - 1]) {
      assert !CleanNames(outer);
      k := Misled(outer, name, entry);
      ParentOfLocation(chain);
      SamePlaces(chain, name);
      PlaceIsCandidate(chain, n, name);
      FoundLength(map[k := entry], Location(outer), name);
      LongerPlace(chain, name);
    } else {
      ParentInside(chain);
      var base := Parent(Location(chain));
      k := Candidate(base, name);
      forall i | 0 <= i <= n ensures Place(chain, i, name) != k {
        PlaceIsCandidate(chain, i, name);
        if i < n {
          assert outer[..i] == chain[..i];
          LocationGrows(outer, i);
        }
      }
      PlaceIsCandidate(chain, n, name);
    }
  }

  /** Nothing is found that is longer than the first candidate. */
  lemma {:induction false} FoundLength(packages: Packages, base: string, name: string)
    ensures var r := Resolve(packages, base, name); r.Some? ==> |r.value| <= |Candidate(base, name)|
    decreases |base|
  {
    if Candidate(base, name) !in packages && base != "" {
      FoundLength(packages, Parent(base), name);
    }
  }

  lemma {:induction false} LongerPlace(chain: seq<string>, name: string)
    requires chain != []
    ensures |Candidate(Location(chain), name)| > |Candidate(Location(chain[..|chain| - 1]), name)|
  {
  }

  /**
   The lookup follows Node's rule, whatever is installed, exactly from the places whose names do not have
   `node_modules/` inside them.
   */
  lemma {:induction false} NearestExactly(chain: seq<string>, entry: Entry)
    ensures CleanNames(chain) <==> forall packages, name :: FindsNearest(packages, chain, name)
  {
    hide Resolve, Location, Place;
    if CleanNames(chain) {
      forall packages, name ensures FindsNearest(packages, chain, name) {
        NearestAncestor(packages, chain, name);
      }
    } else {
      var k := Misled(chain, "", entry);
      assert !FindsNearest(map[k := entry], chain, "");
    }
  }

  // --- the graph ------------------------------------------------------------------------------------------

  datatype Kind = Dependencies | OptionalDependencies | PeerDependencies

  function Names(entry: Entry, kind: Kind): seq<string> {
    match kind
    case Dependencies => entry.dependencies
    case OptionalDependencies => entry.optionalDependencies
    case PeerDependencies => entry.peerDependencies
  }

  function Kinds(optional: bool): seq<Kind> {
    if optional then [Dependencies, OptionalDependencies, PeerDependencies] else [Dependencies, PeerDependencies]
  }

  predicate Skipped(entry: Entry, optional: bool, kind: Kind, name: string) {
    !optional && kind.PeerDependencies? && name in entry.optionalPeers
  }

  /** An edge npm installs: `to` is where a name that `from` depends on resolves to. */
  ghost predicate Edge(packages: Packages, optional: bool, from: string, to: string) {
    from in packages && exists kind, name | kind in Kinds(optional) && name in Names(packages[from], kind) ::
      !Skipped(packages[from], optional, kind, name) && Resolve(packages, from, name) == Some(to)
  }

  /**
   Which edges npm installs: to dependencies and to peers, and unless optional packages are left out to optional
   dependencies and optional peers as well.
   */
  lemma {:induction false} EdgeExact(packages: Packages, optional: bool, from: string, to: string)
    ensures Edge(packages, optional, from, to) <==>
      from in packages && exists name ::
        && Resolve(packages, from, name) == Some(to)
        && (|| name in packages[from].dependencies
            || (optional && name in packages[from].optionalDependencies)
            || (name in packages[from].peerDependencies && (optional || name !in packages[from].optionalPeers)))
  {
    hide Resolve;
    if from in packages {
      KindsExact(optional);
      var entry := packages[from];
      forall name | Resolve(packages, from, name) == Some(to) && InstallsName(entry, optional, name) ensures Edge(packages, optional, from, to) {
        var kind := if name in entry.dependencies then Dependencies
                    else if name in entry.peerDependencies && (optional || name !in entry.optionalPeers) then PeerDependencies
                    else OptionalDependencies;
        assert kind in Kinds(optional) && name in Names(entry, kind) && !Skipped(entry, optional, kind, name);
      }
    }
  }

  predicate InstallsName(entry: Entry, optional: bool, name: string) {
    || name in entry.dependencies
    || (optional && name in entry.optionalDependencies)
    || (name in entry.peerDependencies && (optional || name !in entry.optionalPeers))
  }

  lemma {:induction false} KindsExact(optional: bool)
    ensures Dependencies in Kinds(optional) && PeerDependencies in Kinds(optional)
    ensures OptionalDependencies in Kinds(optional) <==> optional
  {
    assert Kinds(optional)[0] == Dependencies && Kinds(optional)[|Kinds(optional)| - 1] == PeerDependencies;
    if optional { assert Kinds(optional)[1] == OptionalDependencies; }
  }

  ghost predicate Root(packages: Packages, names: seq<string>, to: string) {
    exists name | name in names :: Resolve(packages, "", name) == Some(to)
  }

  /** Reached from the roots over at most `n` edges. */
  ghost predicate ReachedIn(packages: Packages, names: seq<string>, optional: bool, to: string, n: nat)
    decreases n
  {
    Root(packages, names, to) ||
    (n > 0 && exists from | from in packages :: ReachedIn(packages, names, optional, from, n - 1) && Edge(packages, optional, from, to))
  }

  ghost function Closure(packages: Packages, names: seq<string>, optional: bool): set<string> {
    set to | to in packages && exists n: nat :: ReachedIn(packages, names, optional, to, n)
  }

  /** Holds what the roots resolve to, and with every entry what its edges lead to. */
  ghost predicate Closed(packages: Packages, names: seq<string>, optional: bool, s: set<string>) {
    && (forall to | Root(packages, names, to) :: to in s)
    && (forall from, to | from in s && Edge(packages, optional, from, to) :: to in s)
  }

  lemma {:induction false} ClosureIsClosed(packages: Packages, names: seq<string>, optional: bool)
    ensures Closed(packages, names, optional, Closure(packages, names, optional))
  {
    var c := Closure(packages, names, optional);
    forall to | Root(packages, names, to) ensures to in c {
      assert ReachedIn(packages, names, optional, to, 0);
    }
    forall from, to | from in c && Edge(packages, optional, from, to) ensures to in c {
      var n: nat :| ReachedIn(packages, names, optional, from, n);
      assert ReachedIn(packages, names, optional, to, n + 1);
    }
  }

  lemma {:induction false} ReachedInClosed(packages: Packages, names: seq<string>, optional: bool, s: set<string>, to: string, n: nat)
    requires Closed(packages, names, optional, s) && ReachedIn(packages, names, optional, to, n)
    ensures to in s
    decreases n
  {
    if !Root(packages, names, to) {
      var from :| from in packages && ReachedIn(packages, names, optional, from, n - 1) && Edge(packages, optional, from, to);
      ReachedInClosed(packages, names, optional, s, from, n - 1);
    }
  }

  /** The closure is the least closed set: it is closed, and inside every closed set. */
  lemma {:induction false} ClosureIsLeast(packages: Packages, names: seq<string>, optional: bool, s: set<string>)
    requires Closed(packages, names, optional, s)
    ensures Closed(packages, names, optional, Closure(packages, names, optional)) && Closure(packages, names, optional) <= s
  {
    ClosureIsClosed(packages, names, optional);
    forall to | to in Closure(packages, names, optional) ensures to in s {
      var n: nat :| ReachedIn(packages, names, optional, to, n);
      ReachedInClosed(packages, names, optional, s, to, n);
    }
  }

  /** More roots, or more kinds of edges, never reach less. */
  lemma {:induction false} ClosureGrows(packages: Packages, names: seq<string>, optional: bool, more: seq<string>)
    requires forall name | name in names :: name in more
    ensures Closure(packages, names, optional) <= Closure(packages, more, true)
  {
    hide Closure, Resolve, Names;
    var c := Closure(packages, more, true);
    ClosureIsClosed(packages, more, true);
    forall to | Root(packages, names, to) ensures to in c {
      var name :| name in names && Resolve(packages, "", name) == Some(to);
      assert Root(packages, more, to);
    }
    forall from, to | from in c && Edge(packages, optional, from, to) ensures to in c {
      var kind, name :| kind in Kinds(optional) && name in Names(packages[from], kind) &&
        !Skipped(packages[from], optional, kind, name) && Resolve(packages, from, name) == Some(to);
      assert kind in Kinds(true);
      assert Edge(packages, true, from, to);
    }
    ClosureIsLeast(packages, names, optional, c);
  }

  // --- the worklist -------------------------------------------------------------------------------------------

  /** Follows one name: what it resolves to joins both the set and the queue, unless it is there already. */
  method Visit(packages: Packages, from: string, name: string, seen: set<string>, queue: seq<string>) returns (seen': set<string>, queue': seq<string>)
    ensures var to := Resolve(packages, from, name);
            if to.Some? && to.value !in seen then seen' == seen + {to.value} && queue' == queue + [to.value]
            else seen' == seen && queue' == queue
  {
    seen', queue' := seen, queue;
    var to := ResolveDep(packages, from, name);
    if to.Some? && to.value !in seen' {
      seen' := seen' + {to.value};
      queue' := queue' + [to.value];
    }
  }

  /** Everything the edge names of `from` lead to is in `s`, for the first `k` kinds. */
  ghost predicate Followed(packages: Packages, optional: bool, from: string, k: nat, s: set<string>)
    requires from in packages && k <= |Kinds(optional)|
  {
    forall i | 0 <= i < k :: FollowedNames(packages, optional, from, Kinds(optional)[i], |Names(packages[from], Kinds(optional)[i])|, s)
  }

  ghost predicate FollowedNames(packages: Packages, optional: bool, from: string, kind: Kind, k: nat, s: set<string>)
    requires from in packages && k <= |Names(packages[from], kind)|
  {
    forall i | 0 <= i < k ::
      var name := Names(packages[from], kind)[i];
      var to := Resolve(packages, from, name);
      !Skipped(packages[from], optional, kind, name) && to.Some? ==> to.value in s
  }

  /** All edges out of `from` stay in `s`. */
  ghost predicate Done(packages: Packages, optional: bool, from: string, s: set<string>) {
    forall to | Edge(packages, optional, from, to) :: to in s
  }

  lemma {:induction false} FollowedIsDone(packages: Packages, optional: bool, from: string, s: set<string>)
    requires from in packages && Followed(packages, optional, from, |Kinds(optional)|, s)
    ensures Done(packages, optional, from, s)
  {
    forall to | Edge(packages, optional, from, to) ensures to in s {
      var kind, name :| kind in Kinds(optional) && name in Names(packages[from], kind) &&
        !Skipped(packages[from], optional, kind, name) && Resolve(packages, from, name) == Some(to);
      var i :| 0 <= i < |Kinds(optional)| && Kinds(optional)[i] == kind;
      var k :| 0 <= k < |Names(packages[from], kind)| && Names(packages[from], kind)[k] == name;
      assert FollowedNames(packages, optional, from, Kinds(optional)[i], |Names(packages[from], kind)|, s);
    }
  }

  /** The walk's invariant: everything seen is reachable, and has been followed unless it still waits. */
  ghost predicate Walking(packages: Packages, names: seq<string>, optional: bool, seen: set<string>, queue: seq<string>) {
    && seen <= Closure(packages, names, optional)
    && (forall w | w in queue :: w in seen)
    && (forall w | w in seen :: w in queue || Done(packages, optional, w, seen))
  }

  /** The same while `from` is being followed. */
  ghost predicate Following(packages: Packages, names: seq<string>, optional: bool, from: string, seen: set<string>, queue: seq<string>) {
    && from in seen && seen <= Closure(packages, names, optional)
    && (forall w | w in queue :: w in seen)
    && (forall w | w in seen :: w == from || w in queue || Done(packages, optional, w, seen))
  }

  lemma {:induction false} DoneGrows(packages: Packages, optional: bool, from: string, s: set<string>, more: set<string>)
    requires Done(packages, optional, from, s) && s <= more
    ensures Done(packages, optional, from, more)
  {
  }

  lemma {:induction false} EdgeInClosure(packages: Packages, names: seq<string>, optional: bool, from: string, kind: Kind, name: string)
    requires from in Closure(packages, names, optional) && kind in Kinds(optional) && name in Names(packages[from], kind)
    requires !Skipped(packages[from], optional, kind, name)
    ensures var to := Resolve(packages, from, name); to.Some? ==> to.value in Closure(packages, names, optional)
  {
    ClosureIsClosed(packages, names, optional);
    var to := Resolve(packages, from, name);
    if to.Some? { assert Edge(packages, optional, from, to.value); }
  }

  method FollowNames(packages: Packages, ghost names: seq<string>, optional: bool, where: string, kind: Kind, seen: set<string>, queue: seq<string>)
      returns (seen': set<string>, queue': seq<string>)
    requires where in packages && kind in Kinds(optional) && Following(packages, names, optional, where, seen, queue)
    ensures seen <= seen' && Following(packages, names, optional, where, seen', queue')
    ensures FollowedNames(packages, optional, where, kind, |Names(packages[where], kind)|, seen')
    ensures seen' == seen ==> queue' == queue
  {
    hide Closure, Resolve, Names, Kinds, Skipped, Edge;
    seen', queue' := seen, queue;
    var all := Names(packages[where], kind);
    for i := 0 to |all|
      invariant seen <= seen' && Following(packages, names, optional, where, seen', queue')
      invariant FollowedNames(packages, optional, where, kind, i, seen')
      invariant seen' == seen ==> queue' == queue
    {
      if Skipped(packages[where], optional, kind, all[i]) { continue; }
      EdgeInClosure(packages, names, optional, where, kind, all[i]);
      ghost var was := seen';
      seen', queue' := Visit(packages, where, all[i], seen', queue');
      forall w | w in was && Done(packages, optional, w, was) ensures Done(packages, optional, w, seen') {
        DoneGrows(packages, optional, w, was, seen');
      }
    }
  }

  /** Lock paths reachable from the root names: exactly the closure. */
  method Reachable(packages: Packages, names: seq<string>, optional: bool) returns (seen: set<string>)
    ensures seen == Closure(packages, names, optional)
  {
    hide Closure, Resolve, Edge, Kinds, Names;
    var queue: seq<string> := [];
    seen := {};
    ClosureIsClosed(packages, names, optional);
    for i := 0 to |names|
      invariant seen <= Closure(packages, names, optional)
      invariant forall w :: w in queue <==> w in seen
      invariant forall k | 0 <= k < i :: var to := Resolve(packages, "", names[k]); to.Some? ==> to.value in seen
    {
      assert Resolve(packages, "", names[i]).Some? ==> Root(packages, names, Resolve(packages, "", names[i]).value);
      seen, queue := Visit(packages, "", names[i], seen, queue);
    }
    InsidePackages(packages, names, optional);
    while queue != []
      invariant Walking(packages, names, optional, seen, queue)
      invariant forall k | 0 <= k < |names| :: var to := Resolve(packages, "", names[k]); to.Some? ==> to.value in seen
      decreases packages.Keys - seen, |queue|
    {
      var where := queue[|queue| - 1];
      ghost var before := queue;
      queue := queue[..|queue| - 1];
      assert forall w | w in before :: w == where || w in queue;
      assert where in seen;
      ghost var was, waiting := seen, queue;
      for k := 0 to |Kinds(optional)|
        invariant was <= seen && Following(packages, names, optional, where, seen, queue)
        invariant Followed(packages, optional, where, k, seen)
        invariant seen == was ==> queue == waiting
      {
        seen, queue := FollowNames(packages, names, optional, where, Kinds(optional)[k], seen, queue);
      }
      FollowedIsDone(packages, optional, where, seen);
    }
    assert Closed(packages, names, optional, seen) by {
      forall to | Root(packages, names, to) ensures to in seen {
        var name :| name in names && Resolve(packages, "", name) == Some(to);
        var k :| 0 <= k < |names| && names[k] == name;
      }
    }
    ClosureIsLeast(packages, names, optional, seen);
  }

  lemma {:induction false} InsidePackages(packages: Packages, names: seq<string>, optional: bool)
    ensures Closure(packages, names, optional) <= packages.Keys
  {
  }

  // --- the verdict on the flags --------------------------------------------------------------------------------

  datatype Problem =
    | RuntimeFlaggedDev(at: string)
    | NeededButOptional(at: string)
    | DevNotFlagged(at: string)
    | Extraneous(at: string)

  function RuntimeNames(pkg: Manifest): seq<string> {
    pkg.dependencies + pkg.optionalDependencies
  }

  /** The problems of one entry, given the three reachable sets. */
  function EntryProblems(entry: Entry, at: string, runtime: set<string>, dev: set<string>, mandatory: set<string>): seq<Problem> {
    if at == "" || entry.link then []
    else if at in runtime then
      (if entry.dev then [RuntimeFlaggedDev(at)] else []) +
      (if at in mandatory && (entry.optional || entry.devOptional) then [NeededButOptional(at)] else [])
    else if entry.dev then []
    else if at in dev then [DevNotFlagged(at)]
    else [Extraneous(at)]
  }

  function FlagProblems(lock: Lock, n: nat, runtime: set<string>, dev: set<string>, mandatory: set<string>): seq<Problem>
    requires n <= |lock.order| && forall k | 0 <= k < n :: lock.order[k] in lock.packages
  {
    if n == 0 then []
    else FlagProblems(lock, n - 1, runtime, dev, mandatory) + EntryProblems(lock.packages[lock.order[n - 1]], lock.order[n - 1], runtime, dev, mandatory)
  }

  method CheckEntry(entry: Entry, at: string, runtime: set<string>, dev: set<string>, mandatory: set<string>) returns (found: seq<Problem>)
    ensures found == EntryProblems(entry, at, runtime, dev, mandatory)
  {
    found := [];
    if at == "" || entry.link { return; }
    if at in runtime {
      if entry.dev { found := found + [RuntimeFlaggedDev(at)]; }
      if at in mandatory && (entry.optional || entry.devOptional) { found := found + [NeededButOptional(at)]; }
    } else if at in dev {
      if !entry.dev { found := found + [DevNotFlagged(at)]; }
    } else if !entry.dev {
      found := found + [Extraneous(at)];
    }
  }

  method DevFlagProblems(pkg: Manifest, lock: Lock) returns (problems: seq<Problem>)
    requires Proper(lock)
    ensures problems == FlagProblems(lock, |lock.order|,
                          Closure(lock.packages, RuntimeNames(pkg), true),
                          Closure(lock.packages, pkg.devDependencies, true),
                          Closure(lock.packages, pkg.dependencies, false))
    ensures problems == [] <==> FlagsRight(pkg, lock)
  {
    hide Closure, FlagsRight, EntryProblems;
    var runtime := Reachable(lock.packages, pkg.dependencies + pkg.optionalDependencies, true);
    var dev := Reachable(lock.packages, pkg.devDependencies, true);
    var mandatory := Reachable(lock.packages, pkg.dependencies, false);
    problems := [];
    for i := 0 to |lock.order|
      invariant problems == FlagProblems(lock, i, runtime, dev, mandatory)
    {
      var where := lock.order[i];
      var found := CheckEntry(lock.packages[where], where, runtime, dev, mandatory);
      problems := problems + found;
    }
    FlagsExact(pkg, lock);
  }

  /** The entries an install may put on disk: neither the root nor a link. */
  ghost function Installed(packages: Packages): set<string> {
    set w | w in packages && w != "" && !packages[w].link
  }

  /**
   What the flags must say: the entries without `dev` are the runtime closure, and nothing that is still installed
   without optional packages may carry a flag that drops it.
   */
  ghost predicate FlagsRight(pkg: Manifest, lock: Lock) {
    var entries := lock.packages;
    && (set w | w in Installed(entries) && !entries[w].dev) == Closure(entries, RuntimeNames(pkg), true) * Installed(entries)
    && (forall w | w in Closure(entries, pkg.dependencies, false) * Installed(entries) :: !entries[w].optional && !entries[w].devOptional)
  }

  lemma {:induction false} NoProblems(lock: Lock, n: nat, runtime: set<string>, dev: set<string>, mandatory: set<string>)
    requires n <= |lock.order| && forall k | 0 <= k < n :: lock.order[k] in lock.packages
    ensures FlagProblems(lock, n, runtime, dev, mandatory) == [] <==>
            forall k | 0 <= k < n :: EntryProblems(lock.packages[lock.order[k]], lock.order[k], runtime, dev, mandatory) == []
  {
    hide EntryProblems;
    if n > 0 {
      NoProblems(lock, n - 1, runtime, dev, mandatory);
    }
  }

  /** What is needed without optional packages is part of the runtime graph. */
  lemma {:induction false} MandatoryInsideRuntime(pkg: Manifest, packages: Packages)
    ensures Closure(packages, pkg.dependencies, false) <= Closure(packages, RuntimeNames(pkg), true)
  {
    ClosureGrows(packages, pkg.dependencies, false, RuntimeNames(pkg));
  }

  /** An empty list of problems means exactly that the flags are right. */
  lemma {:induction false} FlagsExact(pkg: Manifest, lock: Lock)
    requires Proper(lock)
    ensures
      var runtime := Closure(lock.packages, RuntimeNames(pkg), true);
      var dev := Closure(lock.packages, pkg.devDependencies, true);
      var mandatory := Closure(lock.packages, pkg.dependencies, false);
      FlagProblems(lock, |lock.order|, runtime, dev, mandatory) == [] <==> FlagsRight(pkg, lock)
  {
    hide Closure, FlagProblems;
    var entries := lock.packages;
    var runtime := Closure(entries, RuntimeNames(pkg), true);
    var dev := Closure(entries, pkg.devDependencies, true);
    var mandatory := Closure(entries, pkg.dependencies, false);
    MandatoryInsideRuntime(pkg, entries);
    NoProblems(lock, |lock.order|, runtime, dev, mandatory);
    var unflagged := set w | w in Installed(entries) && !entries[w].dev;
    if FlagsRight(pkg, lock) {
      forall k | 0 <= k < |lock.order| ensures EntryProblems(entries[lock.order[k]], lock.order[k], runtime, dev, mandatory) == [] {
        var w := lock.order[k];
        if w in Installed(entries) {
          assert w in unflagged <==> w in runtime * Installed(entries);
          assert w in mandatory ==> w in mandatory * Installed(entries);
        }
      }
    }
    if forall k | 0 <= k < |lock.order| :: EntryProblems(entries[lock.order[k]], lock.order[k], runtime, dev, mandatory) == [] {
      forall w | w in Installed(entries)
        ensures (w in runtime <==> !entries[w].dev) && (w in mandatory ==> !entries[w].optional && !entries[w].devOptional)
      {
        var k :| 0 <= k < |lock.order| && lock.order[k] == w;
        assert EntryProblems(entries[lock.order[k]], lock.order[k], runtime, dev, mandatory) == [];
      }
      assert unflagged == runtime * Installed(entries);
    }
  }

  /** Which problem an entry has, told by the graph and its flags. */
  ghost predicate Wrong(pkg: Manifest, lock: Lock, p: Problem) {
    var entries := lock.packages;
    var runtime := Closure(entries, pkg.dependencies + pkg.optionalDependencies, true);
    && p.at in Installed(entries)
    && var entry := entries[p.at];
       match p
       case RuntimeFlaggedDev(at) => at in runtime && entry.dev
       case NeededButOptional(at) => at in Closure(entries, pkg.dependencies, false) && (entry.optional || entry.devOptional)
       case DevNotFlagged(at) => at !in runtime && at in Closure(entries, pkg.devDependencies, true) && !entry.dev
       case Extraneous(at) => at !in runtime && at !in Closure(entries, pkg.devDependencies, true) && !entry.dev
  }

  /** The problems that are listed are those the entries have. */
  lemma {:induction false} ProblemsExact(pkg: Manifest, lock: Lock, p: Problem)
    requires Proper(lock)
    ensures
      var runtime := Closure(lock.packages, RuntimeNames(pkg), true);
      var dev := Closure(lock.packages, pkg.devDependencies, true);
      var mandatory := Closure(lock.packages, pkg.dependencies, false);
      p in FlagProblems(lock, |lock.order|, runtime, dev, mandatory) <==> Wrong(pkg, lock, p)
  {
    hide Closure, FlagProblems, EntryProblems;
    var entries := lock.packages;
    var runtime := Closure(entries, RuntimeNames(pkg), true);
    var dev := Closure(entries, pkg.devDependencies, true);
    var mandatory := Closure(entries, pkg.dependencies, false);
    MandatoryInsideRuntime(pkg, entries);
    ListedProblems(lock, |lock.order|, runtime, dev, mandatory, p);
    forall at | at in entries ensures p in EntryProblems(entries[at], at, runtime, dev, mandatory) <==> p.at == at && Wrong(pkg, lock, p) {
      EntryWrong(entries[at], at, runtime, dev, mandatory, p);
    }
    if Wrong(pkg, lock, p) {
      var k :| 0 <= k < |lock.order| && lock.order[k] == p.at;
      assert p in EntryProblems(entries[lock.order[k]], lock.order[k], runtime, dev, mandatory);
    }
  }

  lemma {:induction false} EntryWrong(entry: Entry, at: string, runtime: set<string>, dev: set<string>, mandatory: set<string>, p: Problem)
    requires mandatory <= runtime
    ensures p in EntryProblems(entry, at, runtime, dev, mandatory) <==>
      && p.at == at != "" && !entry.link
      && (p.RuntimeFlaggedDev? ==> at in runtime && entry.dev)
      && (p.NeededButOptional? ==> at in mandatory && (entry.optional || entry.devOptional))
      && (p.DevNotFlagged? ==> at !in runtime && at in dev && !entry.dev)
      && (p.Extraneous? ==> at !in runtime && at !in dev && !entry.dev)
  {
  }

  lemma {:induction false} ListedProblems(lock: Lock, n: nat, runtime: set<string>, dev: set<string>, mandatory: set<string>, p: Problem)
    requires n <= |lock.order| && forall k | 0 <= k < n :: lock.order[k] in lock.packages
    ensures p in FlagProblems(lock, n, runtime, dev, mandatory) <==>
            exists k | 0 <= k < n :: p in EntryProblems(lock.packages[lock.order[k]], lock.order[k], runtime, dev, mandatory)
  {
    hide EntryProblems;
    if n > 0 {
      ListedProblems(lock, n - 1, runtime, dev, mandatory, p);
    }
  }
}
