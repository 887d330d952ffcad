/** One call, and the redirects it follows. */
module Redirect {
  import opened Options
  import opened Strings

  /** Where a request goes: Go's host as written, and the scheme and host name of the URL that is fetched. */
  datatype Target = Target(https: bool, host: string, hostname: string, path: string)

  datatype Request = Request(target: Target, verb: string, authorization: Option<string>, contentType: bool, body: Option<string>)

  /**
   `fetch` fails, or an answer arrives; `location` is "" when there is none, and the body may still die on the way.
   `gone` says whether the caller has hung up by the time a failure would be reported.
   */
  datatype Answer = Failed(gone: bool) | Reply(status: int, location: string, bodyArrives: bool, gone: bool)

  datatype Exchange = Exchange(request: Request, answer: Answer)

  /** The call as it is made. */
  datatype Call = Call(verb: string, address: string, authorization: string, body: Option<string>)

  /**
   The world: what a reference resolves to, a name as punycode, and the gateway's answer to a request after
   everything that went before.
   */
  datatype World = World(
    resolve: (Option<Target>, string) -> Option<Target>,
    ascii: string -> string,
    answer: (seq<Exchange>, Request) -> Answer)

  datatype Outcome = BadAddress | NoAnswer | CallerGone | GatewayError(status: int) | Whole(status: int)

  /** `noAnswer`: the gateway's fault, unless the caller left first. */
  function Silence(a: Answer): Outcome {
    if a.gone then CallerGone else NoAnswer
  }

  const MAX_REQUESTS := 10
  const FOLLOWED := {301, 302, 303, 307, 308}

  // --- names ----------------------------------------------------------------------------------------------

  function HostnameOf(host: string): string {
    if host != "" && host[0] == '[' then
      var close := IndexOf(host, "]");
      if close >= 1 then host[1..close] else if |host| >= 2 then host[1..|host| - 1] else ""
    else
      var colon := LastIndexOf(host, ":");
      if colon == -1 then host else host[..colon]
  }

  function IsDomainOrSubdomain(sub: string, parent: string): bool {
    if sub == parent then true
    else if ':' in sub || '%' in sub then false
    else EndsWith(sub, parent) && |sub| > |parent| && sub[|sub| - |parent| - 1] == '.'
  }

  predicate EndsWith(s: string, t: string) {
    |t| <= |s| && s[|s| - |t|..] == t
  }

  /** The name itself, or labels put in front of it. */
  lemma {:induction false} SubdomainMeans(sub: string, parent: string)
    ensures IsDomainOrSubdomain(sub, parent) <==>
            sub == parent || (':' !in sub && '%' !in sub && exists labels: string :: sub == labels + "." + parent)
  {
    if IsDomainOrSubdomain(sub, parent) && sub != parent {
      var labels := sub[..|sub| - |parent| - 1];
      assert sub == labels + "." + parent;
    }
    if exists labels: string :: sub == labels + "." + parent {
      var labels: string :| sub == labels + "." + parent;
      assert sub[|sub| - |parent|..] == parent;
    }
  }

  predicate IsDigitOrDot(c: char) {
    '0' <= c <= '9' || c == '.'
  }
  /** A name without a dot, or an address, has no subdomains worth the name. */
  predicate ExactOnly(name: string) {
    '.' !in name || (name != "" && forall k | 0 <= k < |name| :: IsDigitOrDot(name[k])) || ':' in name
  }

  predicate SameDomain(firstName: string, name: string, parent: string) {
    if ExactOnly(firstName) then name == parent else IsDomainOrSubdomain(name, parent)
  }

  function FirstName(w: World, first: Target): string {
    w.ascii(HostnameOf(first.host))
  }

  /** Go's view, the view of what is fetched, and no step down from https to http. */
  predicate Trusted(w: World, first: Target, from: Target, to: Target) {
    var firstName := FirstName(w, first);
    && (to.host == first.host || SameDomain(firstName, w.ascii(HostnameOf(to.host)), firstName))
    && SameDomain(firstName, to.hostname, first.hostname)
    && !(from.https && !to.https)
  }

  /**
   Within the domain of `parent`: that name, or labels and a dot in front of it; only that name when the first host's
   has no dot, is an IPv4 address or holds a colon.
   */
  ghost predicate AtHome(firstName: string, name: string, parent: string) {
    || name == parent
    || (&& '.' in firstName && ':' !in firstName && (exists k | 0 <= k < |firstName| :: firstName[k] !in "0123456789.")
        && ':' !in name && '%' !in name && exists labels: string :: name == labels + "." + parent)
  }

  lemma {:induction false} AtHomeExact(firstName: string, name: string, parent: string)
    ensures SameDomain(firstName, name, parent) <==> AtHome(firstName, name, parent)
  {
    hide IsDomainOrSubdomain;
    SubdomainMeans(name, parent);
    assert forall c :: IsDigitOrDot(c) <==> c in "0123456789." by {
      forall c ensures IsDigitOrDot(c) <==> c in "0123456789." { DigitOrDot(c); }
    }
    if '.' in firstName {
      assert firstName != "";
    }
  }

  lemma {:induction false} DigitOrDot(c: char)
    ensures IsDigitOrDot(c) <==> c in "0123456789."
  {
    var all := "0123456789.";
    if '0' <= c <= '9' {
      assert all[c as int - '0' as int] == c;
    } else if c == '.' {
      assert all[10] == c;
    }
  }

  /** The host name is what stands before the port, or between the brackets; a bracket left open loses the last character. */
  lemma {:induction false} HostnameExact(name: string, port: string)
    ensures (name == "" || name[0] != '[') && ':' !in port ==> HostnameOf(name + ":" + port) == name
    ensures (name == "" || name[0] != '[') && ':' !in name ==> HostnameOf(name) == name
    ensures ']' !in name ==> HostnameOf("[" + name + "]" + port) == name
    ensures ']' !in name && name != "" ==> HostnameOf("[" + name) == name[..|name| - 1]
  {
    hide HostnameOf;
    if ':' !in port { PortOff(name, port); }
    if ':' !in name { NoColon(name); }
    if ']' !in name { Brackets(name, port); }
    if ']' !in name && name != "" { OpenBracket(name); }
  }

  lemma {:induction false} PortOff(name: string, port: string)
    requires ':' !in port
    ensures (name == "" || name[0] != '[') ==> HostnameOf(name + ":" + port) == name
  {
    hide OccursAt;
    var host := name + ":" + port;
    OneOccurs(host, ':', |name|);
    forall k | |name| < k ensures !OccursAt(host, ":", k) {
      OneOccurs(host, ':', k);
    }
    LastIndexIs(host, ":", |name|);
  }

  lemma {:induction false} NoColon(name: string)
    requires ':' !in name
    ensures (name == "" || name[0] != '[') ==> HostnameOf(name) == name
  {
    hide OccursAt;
    OneOccurs(name, ':', LastIndexOf(name, ":"));
  }

  lemma {:induction false} Brackets(name: string, port: string)
    requires ']' !in name
    ensures HostnameOf("[" + name + "]" + port) == name
  {
    hide OccursAt;
    var host := "[" + name + "]" + port;
    OneOccurs(host, ']', |name| + 1);
    forall k | 0 <= k < |name| + 1 ensures !OccursAt(host, "]", k) {
      OneOccurs(host, ']', k);
    }
    IndexIs(host, "]", |name| + 1);
  }

  lemma {:induction false} OpenBracket(name: string)
    requires ']' !in name && name != ""
    ensures HostnameOf("[" + name) == name[..|name| - 1]
  {
    hide OccursAt;
    var host := "[" + name;
    OneOccurs(host, ']', IndexOf(host, "]"));
    assert forall k | 0 <= k < |host| :: host[k] != ']';
  }

  /** The first of several Location headers. */
  function FirstLocation(location: string): string {
    var i := IndexOf(location, ", ");
    if i < 0 then location else location[..i]
  }

  /** A comma and a blank end the first one; a single one is taken whole. */
  lemma {:induction false} FirstLocationExact(first: string, more: string)
    requires forall i :: !OccursAt(first, ", ", i)
    ensures FirstLocation(first) == first && FirstLocation(first + ", " + more) == first
  {
    var all := first + ", " + more;
    forall k | 0 <= k < |first| ensures !OccursAt(all, ", ", k) {
      if k + 1 < |first| {
        assert all[k..k + 2] == first[k..k + 2];
        assert !OccursAt(first, ", ", k);
      } else {
        assert all[k..k + 2][1] == ',';
      }
    }
    assert all[|first|..|first| + 2] == ", ";
    IndexIs(all, ", ", |first|);
  }

  /** Section 15.4 of RFC 9110, but for 300, 304 and 305. */
  predicate Redirects(a: Answer) {
    && a.Reply? && FirstLocation(a.location) != ""
    && (a.status == 301 || a.status == 302 || a.status == 303 || a.status == 307 || a.status == 308)
  }

  // --- what the k-th request must be, given what went before ---------------------------------------------------

  ghost predicate TrustedUpTo(w: World, log: seq<Exchange>, k: int)
    requires 0 <= k < |log|
  {
    forall j | 0 < j <= k :: Trusted(w, log[0].request.target, log[j - 1].request.target, log[j].request.target)
  }

  /** Every hop before the `k`-th request was a 307 or 308. */
  ghost predicate KeptUpTo(log: seq<Exchange>, k: int)
    requires 0 <= k <= |log|
  {
    forall j | 0 <= j < k :: log[j].answer.Reply? && log[j].answer.status in {307, 308}
  }

  /** What is sent as the `k`-th request, besides where it goes. */
  ghost predicate SentRight(w: World, c: Call, log: seq<Exchange>, k: int)
    requires 0 <= k < |log|
  {
    var r := log[k].request;
    && r.authorization == (if c.authorization != "" && TrustedUpTo(w, log, k) then Some(c.authorization) else None)
    && r.body == (if KeptUpTo(log, k) then c.body else None)
    && r.verb == (if KeptUpTo(log, k) || c.verb == "HEAD" then c.verb else "GET")
    && r.contentType == c.body.Some?
  }

  /** The first request goes to the address, and every later one where the answer before it redirects. */
  ghost predicate GoesRight(w: World, c: Call, log: seq<Exchange>, k: int)
    requires 0 <= k < |log|
  {
    if k == 0 then Some(log[0].request.target) == w.resolve(None, c.address)
    else
      && Redirects(log[k - 1].answer)
      && Some(log[k].request.target) == w.resolve(Some(log[k - 1].request.target), FirstLocation(log[k - 1].answer.location))
  }

  /** A run of the loop, as far as it has come. */
  ghost predicate IsRun(w: World, c: Call, log: seq<Exchange>) {
    && |log| <= 10
    && forall k | 0 <= k < |log| ::
         GoesRight(w, c, log, k) && SentRight(w, c, log, k) && log[k].answer == w.answer(log[..k], log[k].request)
  }

  /** How a run ends, and that it ends no sooner. */
  ghost predicate EndsRight(w: World, c: Call, log: seq<Exchange>, outcome: Outcome) {
    if log == [] then w.resolve(None, c.address) == None && outcome == BadAddress
    else
      var last := log[|log| - 1];
      var silence := if last.answer.gone then CallerGone else NoAnswer;
      if last.answer.Failed? then outcome == silence
      else if Redirects(last.answer) then
        && outcome == silence
        && (|log| == 10 || w.resolve(Some(last.request.target), FirstLocation(last.answer.location)) == None)
      else if last.answer.status >= 400 then outcome == GatewayError(last.answer.status)
      else outcome == if last.answer.bodyArrives then Whole(last.answer.status) else silence
  }

  // --- the loop ----------------------------------------------------------------------------------------------------

  /** What the loop's variables hold between two requests. */
  ghost predicate Ready(w: World, c: Call, first: Target, log: seq<Exchange>, target: Target, verb: string, payload: Option<string>, stripped: bool) {
    && payload == (if KeptUpTo(log, |log|) then c.body else None)
    && verb == (if KeptUpTo(log, |log|) || c.verb == "HEAD" then c.verb else "GET")
    && Some(first) == w.resolve(None, c.address)
    && if log == [] then target == first && !stripped
       else
         var last := log[|log| - 1];
         && log[0].request.target == first
         && Redirects(last.answer)
         && Some(target) == w.resolve(Some(last.request.target), FirstLocation(last.answer.location))
         && stripped == !(TrustedUpTo(w, log, |log| - 1) && Trusted(w, first, last.request.target, target))
  }

  method Follow(w: World, c: Call) returns (log: seq<Exchange>, outcome: Outcome)
    ensures IsRun(w, c, log) && EndsRight(w, c, log, outcome)
  {
    hide Trusted, FirstLocation, IsRun, Ready;
    log := [];
    var resolved := w.resolve(None, c.address);
    NothingYet(w, c);
    if resolved.None? { return log, BadAddress; }
    var first := resolved.value;
    var target, verb, payload, stripped := first, c.verb, c.body, false;
    var requests := 1;
    assert Ready(w, c, first, log, target, verb, payload, stripped) by { FirstReady(w, c, first); }
    while true
      invariant 1 <= requests == |log| + 1 <= MAX_REQUESTS
      invariant IsRun(w, c, log) && Ready(w, c, first, log, target, verb, payload, stripped)
      decreases MAX_REQUESTS - requests
    {
      var request := Request(target, verb, if c.authorization != "" && !stripped then Some(c.authorization) else None, c.body.Some?, payload);
      var answer := w.answer(log, request);
      ghost var before := log;
      log := log + [Exchange(request, answer)];
      assert log[|log| - 1] == Exchange(request, answer);
      Sends(w, c, first, before, target, verb, payload, stripped, log);
      if answer.Failed? { return log, Silence(answer); }
      var location := FirstLocation(answer.location);
      if answer.status !in FOLLOWED || location == "" {
        if answer.status >= 400 { return log, GatewayError(answer.status); }
        return log, if answer.bodyArrives then Whole(answer.status) else Silence(answer);
      }
      var next := w.resolve(Some(target), location);
      if next.None? { return log, Silence(answer); }
      if requests >= MAX_REQUESTS { return log, Silence(answer); }
      ghost var was := (verb, payload, stripped);
      if !Trusted(w, first, target, next.value) { stripped := true; }
      if answer.status <= 303 && verb != "GET" && verb != "HEAD" { verb := "GET"; }
      if answer.status <= 303 { payload := None; }
      GoesOn(w, c, first, before, target, was.0, was.1, was.2, log, next.value);
      target := next.value;
      requests := requests + 1;
    }
  }

  lemma {:induction false} NothingYet(w: World, c: Call)
    ensures IsRun(w, c, [])
  {
  }

  lemma {:induction false} FirstReady(w: World, c: Call, first: Target)
    requires Some(first) == w.resolve(None, c.address)
    ensures Ready(w, c, first, [], first, c.verb, c.body, false)
  {
  }

  /** The request the variables make is the right one. */
  lemma {:induction false} Sends(w: World, c: Call, first: Target, before: seq<Exchange>,
                                 target: Target, verb: string, payload: Option<string>, stripped: bool, log: seq<Exchange>)
    requires IsRun(w, c, before) && Ready(w, c, first, before, target, verb, payload, stripped) && |before| < MAX_REQUESTS
    requires |log| == |before| + 1 && log == before + [log[|before|]]
    requires log[|before|].answer == w.answer(before, log[|before|].request)
    requires log[|before|].request ==
             Request(target, verb, if c.authorization != "" && !stripped then Some(c.authorization) else None, c.body.Some?, payload)
    ensures IsRun(w, c, log)
  {
    hide Trusted, FirstLocation, Redirects, TrustedUpTo, KeptUpTo, Ready, GoesRight, SentRight;
    var n := |before|;
    assert log[..n] == before;
    forall k | 0 <= k < n
      ensures GoesRight(w, c, log, k) && SentRight(w, c, log, k) && log[k].answer == w.answer(log[..k], log[k].request)
    {
      StaysRight(w, c, before, log, k);
    }
    SentLast(w, c, first, before, target, verb, payload, stripped, log);
  }

  lemma {:induction false} SentLast(w: World, c: Call, first: Target, before: seq<Exchange>,
                                    target: Target, verb: string, payload: Option<string>, stripped: bool, log: seq<Exchange>)
    requires Ready(w, c, first, before, target, verb, payload, stripped)
    requires |log| == |before| + 1 && log[..|before|] == before
    requires log[|before|].request ==
             Request(target, verb, if c.authorization != "" && !stripped then Some(c.authorization) else None, c.body.Some?, payload)
    ensures GoesRight(w, c, log, |before|) && SentRight(w, c, log, |before|)
  {
    hide Trusted, FirstLocation, Redirects, TrustedUpTo, KeptUpTo;
    var n := |before|;
    SameHistory(w, before, log, n);
    if n > 0 {
      assert log[n - 1] == before[n - 1] && log[0] == before[0];
      SameHistory(w, before, log, n - 1);
      TrustedNext(w, log, n);
    } else {
      TrustedAtFirst(w, log);
    }
  }

  lemma {:induction false} SameHistory(w: World, before: seq<Exchange>, log: seq<Exchange>, k: int)
    requires 0 <= k <= |before| < |log| && log[..|before|] == before
    ensures KeptUpTo(log, k) == KeptUpTo(before, k)
    ensures k < |before| ==> TrustedUpTo(w, log, k) == TrustedUpTo(w, before, k)
  {
    hide Trusted;
    assert forall j | 0 <= j < |before| :: log[j] == before[j];
  }

  /** What held of an earlier request still holds. */
  lemma {:induction false} StaysRight(w: World, c: Call, before: seq<Exchange>, log: seq<Exchange>, k: int)
    requires IsRun(w, c, before) && 0 <= k < |before| < |log| && log[..|before|] == before
    ensures GoesRight(w, c, log, k) && SentRight(w, c, log, k) && log[k].answer == w.answer(log[..k], log[k].request)
  {
    hide TrustedUpTo, KeptUpTo, FirstLocation, Redirects;
    SameHistory(w, before, log, k);
    assert log[..k] == before[..k] && log[k] == before[k] && log[0] == before[0] && (k > 0 ==> log[k - 1] == before[k - 1]);
    assert GoesRight(w, c, before, k) && SentRight(w, c, before, k);
  }

  /** After a redirect the variables are ready for the next request. */
  lemma {:induction false} GoesOn(w: World, c: Call, first: Target, before: seq<Exchange>,
                                  target: Target, verb: string, payload: Option<string>, stripped: bool, log: seq<Exchange>, next: Target)
    requires Ready(w, c, first, before, target, verb, payload, stripped)
    requires |log| == |before| + 1 && log == before + [log[|before|]]
    requires var e := log[|before|];
             && e.request.target == target && Redirects(e.answer)
             && w.resolve(Some(target), FirstLocation(e.answer.location)) == Some(next)
    ensures var status := log[|before|].answer.status;
            Ready(w, c, first, log, next,
              if status <= 303 && verb != "GET" && verb != "HEAD" then "GET" else verb,
              if status <= 303 then None else payload,
              stripped || !Trusted(w, first, target, next))
  {
    hide Trusted, FirstLocation, GoesRight, SentRight, KeptUpTo, TrustedUpTo;
    var n := |before|;
    assert log[..n] == before && log[|log| - 1] == log[n];
    SameHistory(w, before, log, n);
    KeptNext(log, n);
    if n > 0 {
      assert log[n - 1] == before[n - 1] && log[0] == before[0];
      SameHistory(w, before, log, n - 1);
      TrustedNext(w, log, n);
    } else {
      TrustedAtFirst(w, log);
    }
  }

  lemma {:induction false} KeptNext(log: seq<Exchange>, n: int)
    requires 0 <= n < |log|
    ensures KeptUpTo(log, n + 1) == (KeptUpTo(log, n) && log[n].answer.Reply? && log[n].answer.status in {307, 308})
  {
  }

  // --- safety over every run -------------------------------------------------------------------------------------------

  /** Once a request goes without Authorization, all later ones do, also when a hop comes back to the first host. */
  lemma {:induction false} StrippedForGood(w: World, c: Call, log: seq<Exchange>, i: int, k: int)
    requires IsRun(w, c, log) && 0 <= i <= k < |log|
    ensures log[i].request.authorization == None ==> log[k].request.authorization == None
  {
    hide Trusted, GoesRight;
    assert SentRight(w, c, log, i) && SentRight(w, c, log, k);
  }

  /**
   While Authorization is sent it is the caller's, every host name fetched so far is the first one or below it — the
   very name, when that has no subdomains — by both readings, and the scheme has not gone from https to http.
   */
  lemma {:induction false} AuthorizationStaysHome(w: World, c: Call, log: seq<Exchange>, k: int, i: int, j: int)
    requires IsRun(w, c, log) && 0 <= i <= j <= k < |log| && log[k].request.authorization.Some?
    ensures log[k].request.authorization.value == c.authorization != ""
    ensures log[i].request.target.https ==> log[j].request.target.https
    ensures var first, at := log[0].request.target, log[j].request.target;
            var name := FirstName(w, first);
            if ExactOnly(name) then at.hostname == first.hostname && (at.host == first.host || w.ascii(HostnameOf(at.host)) == name)
            else IsDomainOrSubdomain(at.hostname, first.hostname) &&
                 (at.host == first.host || IsDomainOrSubdomain(w.ascii(HostnameOf(at.host)), name))
    decreases j
  {
    hide GoesRight, HostnameOf, IsDomainOrSubdomain, ExactOnly;
    assert SentRight(w, c, log, k);
    if j > 0 {
      assert Trusted(w, log[0].request.target, log[j - 1].request.target, log[j].request.target);
      if i < j { AuthorizationStaysHome(w, c, log, k, i, j - 1); }
    } else {
      assert IsDomainOrSubdomain(log[0].request.target.hostname, log[0].request.target.hostname) by { Reflexive(log[0].request.target.hostname); }
    }
  }

  /** The host as written is the first one, or its name is within the first one's domain; and so is the name that is fetched. */
  ghost predicate StaysHome(w: World, first: Target, at: Target) {
    var firstName := w.ascii(HostnameOf(first.host));
    && (at.host == first.host || AtHome(firstName, w.ascii(HostnameOf(at.host)), firstName))
    && AtHome(firstName, at.hostname, first.hostname)
  }

  /**
   And it is sent whenever it may be: when every host so far is at home by both readings and no hop stepped down from
   https to http. The hosts decide, whatever the answers were.
   */
  lemma {:induction false} AuthorizationExact(w: World, c: Call, log: seq<Exchange>, k: int)
    requires IsRun(w, c, log) && 0 <= k < |log|
    ensures log[k].request.authorization == Some(c.authorization) <==>
      && c.authorization != ""
      && (forall j | 0 < j <= k :: StaysHome(w, log[0].request.target, log[j].request.target))
      && (forall j | 0 < j <= k :: log[j - 1].request.target.https ==> log[j].request.target.https)
    ensures log[k].request.authorization != Some(c.authorization) ==> log[k].request.authorization == None
  {
    hide GoesRight, TrustedUpTo;
    assert SentRight(w, c, log, k);
    TrustedUpToMeans(w, log, k);
  }

  lemma {:induction false} TrustedUpToMeans(w: World, log: seq<Exchange>, k: int)
    requires 0 <= k < |log|
    ensures TrustedUpTo(w, log, k) <==>
      && (forall j | 0 < j <= k :: StaysHome(w, log[0].request.target, log[j].request.target))
      && (forall j | 0 < j <= k :: log[j - 1].request.target.https ==> log[j].request.target.https)
    decreases k
  {
    hide StaysHome, Trusted, TrustedUpTo;
    if k == 0 {
      TrustedAtFirst(w, log);
    } else {
      TrustedNext(w, log, k);
      TrustedUpToMeans(w, log, k - 1);
      TrustedMeans(w, log[0].request.target, log[k - 1].request.target, log[k].request.target);
    }
  }

  lemma {:induction false} TrustedMeans(w: World, first: Target, from: Target, to: Target)
    ensures Trusted(w, first, from, to) <==> StaysHome(w, first, to) && (from.https ==> to.https)
  {
    hide AtHome, SameDomain, HostnameOf;
    var firstName := FirstName(w, first);
    AtHomeExact(firstName, w.ascii(HostnameOf(to.host)), firstName);
    AtHomeExact(firstName, to.hostname, first.hostname);
  }

  lemma {:induction false} Reflexive(name: string)
    ensures IsDomainOrSubdomain(name, name)
  {
  }

  /** A body is sent only while every hop so far was a 307 or 308, and then with the original verb. */
  lemma {:induction false} BodyNeedsKeptVerb(w: World, c: Call, log: seq<Exchange>, k: int)
    requires IsRun(w, c, log) && 0 <= k < |log| && log[k].request.body.Some?
    ensures log[k].request.body == c.body && log[k].request.verb == c.verb
    ensures forall j | 0 <= j < k :: log[j].answer.Reply? && log[j].answer.status in {307, 308}
  {
    hide GoesRight;
    assert SentRight(w, c, log, k);
  }

  /** After a 301, 302 or 303 the verb is GET (a HEAD stays one) and there is no body, for good; Content-Type never changes. */
  lemma {:induction false} RewrittenForGood(w: World, c: Call, log: seq<Exchange>, j: int, k: int)
    requires IsRun(w, c, log) && 0 <= j < k < |log| && log[j].answer.Reply? && log[j].answer.status in {301, 302, 303}
    ensures log[k].request.verb == (if c.verb == "HEAD" then "HEAD" else "GET") && log[k].request.body == None
    ensures log[k].request.contentType == log[0].request.contentType == c.body.Some?
  {
    hide GoesRight, TrustedUpTo;
    assert SentRight(w, c, log, k) && SentRight(w, c, log, 0);
  }

  /** What is sent next depends on nothing but the exchanges so far. */
  lemma {:induction false} SameNext(w: World, c: Call, a: seq<Exchange>, b: seq<Exchange>, n: int)
    requires IsRun(w, c, a) && IsRun(w, c, b) && 0 <= n < |a| && n < |b| && a[..n] == b[..n]
    ensures a[n] == b[n]
  {
    hide Trusted, Redirects, FirstLocation, TrustedUpTo, KeptUpTo;
    var h := a[..n];
    assert GoesRight(w, c, a, n) && GoesRight(w, c, b, n) && SentRight(w, c, a, n) && SentRight(w, c, b, n);
    SameHistory(w, h, a, n);
    SameHistory(w, h, b, n);
    if n > 0 {
      assert a[n - 1] == h[n - 1] == b[n - 1] && a[0] == h[0] == b[0];
      SameHistory(w, h, a, n - 1);
      SameHistory(w, h, b, n - 1);
      TrustedNext(w, a, n);
      TrustedNext(w, b, n);
    } else {
      assert TrustedUpTo(w, a, 0) && TrustedUpTo(w, b, 0) by { TrustedAtFirst(w, a); TrustedAtFirst(w, b); }
    }
    assert a[n].request == b[n].request;
  }

  lemma {:induction false} TrustedNext(w: World, log: seq<Exchange>, n: int)
    requires 0 < n < |log|
    ensures TrustedUpTo(w, log, n) == (TrustedUpTo(w, log, n - 1) && Trusted(w, log[0].request.target, log[n - 1].request.target, log[n].request.target))
  {
    hide Trusted;
  }

  lemma {:induction false} TrustedAtFirst(w: World, log: seq<Exchange>)
    requires log != []
    ensures TrustedUpTo(w, log, 0)
  {
  }

  /** A run is decided by the world: of two runs of one call, one is the beginning of the other. */
  lemma {:induction false} RunsAgree(w: World, c: Call, a: seq<Exchange>, b: seq<Exchange>, k: int)
    requires IsRun(w, c, a) && IsRun(w, c, b) && 0 <= k <= |a| && k <= |b|
    ensures a[..k] == b[..k]
    decreases k
  {
    hide IsRun;
    if k > 0 {
      RunsAgree(w, c, a, b, k - 1);
      SameNext(w, c, a, b, k - 1);
      assert a[..k] == a[..k - 1] + [a[k - 1]] && b[..k] == b[..k - 1] + [b[k - 1]];
    }
  }
}
