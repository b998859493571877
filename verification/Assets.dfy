/** `discover_assets`: the budgeted, scope-bound walk over host names. */
module Assets {
  import opened Options
  import opened Sequences

  const MAX_REDIRECTS: nat := 2
  const WEB_PORTS: seq<int> := [80, 443, 8080, 8443]
  const DOCUMENTS: seq<string> := ["/.well-known/security.txt", "/robots.txt"]

  /** One call of the probe. */
  datatype Request = Request(host: string, ip: string, port: int, scheme: Option<string>, path: string,
                             hostHeader: Option<string>)

  datatype Response = Response(open: bool, scheme: string, status: int, location: string, server: string, title: string)

  datatype Parts = Parts(scheme: string, hostname: string, port: int, path: string, query: string)

  datatype Target = Target(host: string, port: int, scheme: string, path: string)

  datatype Reason = NameOutsideScope | ResolvedOutsideScope | Unresolved | RedirectUnparseable | RedirectOutsideScope

  datatype Blocked = Blocked(host: string, reason: Reason)

  datatype Finding = Finding(host: string, ip: string, port: int, service: string, vhost: bool, hops: seq<Target>,
                             documents: seq<string>)

  datatype Summary = Summary(hosts: seq<string>, requests: nat, blocked: seq<Blocked>, findings: seq<Finding>)

  /** What a response leads to: nothing more, or one further hop. */
  datatype Decision = Stop(blocked: seq<Blocked>) | Go(next: Target, ip: string)

  /** Where a chain of redirects ends: the probes sent so far, the hops, and what was refused. */
  datatype Hops = Hops(sent: seq<Request>, chain: seq<Target>, blocked: seq<Blocked>)

  /** What probing leaves: all probes sent so far, the request count, and what was found and refused. */
  datatype Out = Out(sent: seq<Request>, total: nat, findings: seq<Finding>, blocked: seq<Blocked>)

  /** The same for one name, with whether it counts as a host and whether its children are wanted. */
  datatype Visited = Visited(out: Out, isHost: bool, goesOn: bool)

  /** The limits of one walk. */
  datatype Limits = Limits(ct: bool, depth: nat, hosts: nat, requests: nat, plan: seq<int>, deep: bool)

  /** The walk between two names; `visited` are the names taken up, with their depths. */
  datatype Walk = Walk(queue: seq<(string, nat)>, visited: seq<(string, nat)>, hosts: seq<string>, out: Out)

  function AtLeast(x: int, low: nat): (r: nat)
    ensures r >= low && r >= x && (r == low || r == x)
  {
    if x < low then low else x
  }

  /** The most requests a walk with this limit can count. */
  function Most(limit: nat): nat {
    if limit <= 2 then limit else limit + 1
  }

  ghost function Both(a: Out, b: Out): Out {
    Out(b.sent, b.total, a.findings + b.findings, a.blocked + b.blocked)
  }

  lemma BothTrans(a: Out, b: Out, c: Out)
    ensures Both(Both(a, b), c) == Both(a, Both(b, c))
  {
  }

  ghost function NamesOf(visited: seq<(string, nat)>): (r: seq<string>)
    ensures |r| == |visited|
  {
    seq(|visited|, i requires 0 <= i < |visited| => visited[i].0)
  }

  ghost function Members(s: seq<string>): set<string> {
    set x | x in s
  }

  lemma NameAdded(visited: seq<(string, nat)>, name: string, level: nat)
    requires name !in NamesOf(visited)
    ensures NamesOf(visited + [(name, level)]) == NamesOf(visited) + [name]
    ensures Members(NamesOf(visited) + [name]) == Members(NamesOf(visited)) + {name}
    ensures AllDistinct(NamesOf(visited)) ==> AllDistinct(NamesOf(visited) + [name])
  {
    var names := NamesOf(visited);
    forall i, j | 0 <= i < j < |names + [name]| && AllDistinct(names) ensures (names + [name])[i] != (names + [name])[j] {
      if j == |names| {
        assert names[i] in names;
      }
    }
  }

  lemma {:induction false} DistinctSize(names: seq<string>)
    requires AllDistinct(names)
    ensures |Members(names)| == |names|
  {
    if names != [] {
      var front, last := names[..|names| - 1], names[|names| - 1];
      DistinctSize(front);
      assert Members(names) == Members(front) + {last};
      assert last !in front;
    }
  }

  /**
   * Everything outside: the scope decision, name resolution, certificate transparency and the probe.
   * Answers may depend on all probes sent before; `sent` records those.
   */
  class Network {
    const allowed: string -> bool
    const scopePorts: set<int>
    const clean: string -> string
    const split: string -> Option<Parts>
    const addressesOf: (seq<Request>, string) -> seq<string>
    const ctNames: (seq<Request>, string) -> seq<string>
    const answer: (seq<Request>, Request) -> Response
    var sent: seq<Request>

    constructor (allowed: string -> bool, scopePorts: set<int>, clean: string -> string, split: string -> Option<Parts>,
                 addressesOf: (seq<Request>, string) -> seq<string>, ctNames: (seq<Request>, string) -> seq<string>,
                 answer: (seq<Request>, Request) -> Response)
      ensures sent == [] && this.allowed == allowed && this.scopePorts == scopePorts && this.clean == clean
      ensures this.split == split && this.addressesOf == addressesOf && this.ctNames == ctNames && this.answer == answer
    {
      this.allowed, this.scopePorts, this.clean, this.split := allowed, scopePorts, clean, split;
      this.addressesOf, this.ctNames, this.answer := addressesOf, ctNames, answer;
      sent := [];
    }

    method Probe(r: Request) returns (a: Response)
      modifies this
      ensures sent == old(sent) + [r] && a == answer(old(sent), r)
    {
      a := answer(sent, r);
      sent := sent + [r];
    }

    // ---------------------------------------------------------------- scope and budget

    ghost predicate ScopedAt(trace: seq<Request>, i: nat)
      requires i < |trace|
    {
      allowed(trace[i].host) && allowed(trace[i].ip)
    }

    /** `n` more probes were sent, each to a name and an address in scope. */
    ghost predicate Grew(before: seq<Request>, after: seq<Request>, n: nat) {
      before <= after && |after| == |before| + n && forall i: nat :: |before| <= i < |after| ==> ScopedAt(after, i)
    }

    lemma GrewOne(trace: seq<Request>, r: Request)
      requires allowed(r.host) && allowed(r.ip)
      ensures Grew(trace, trace + [r], 1)
    {
    }

    lemma GrewTrans(a: seq<Request>, b: seq<Request>, c: seq<Request>, n: nat, m: nat)
      requires Grew(a, b, n) && Grew(b, c, m)
      ensures Grew(a, c, n + m)
    {
      forall i: nat | |a| <= i < |c| ensures ScopedAt(c, i) {
        assert i < |b| ==> ScopedAt(b, i) && c[i] == b[i];
      }
    }

    ghost predicate OpenAt(trace: seq<Request>, host: string, ip: string, port: int, i: nat) {
      && i < |trace| && trace[i].host == host && trace[i].ip == ip && trace[i].port == port
      && answer(trace[..i], trace[i]).open
    }

    /** The finding is in scope, and a probe of its host, address and port was answered as open. */
    ghost predicate FindingOk(trace: seq<Request>, f: Finding) {
      allowed(f.host) && allowed(f.ip) && exists i: nat :: OpenAt(trace, f.host, f.ip, f.port, i)
    }

    ghost predicate FindingsOk(trace: seq<Request>, fs: seq<Finding>) {
      forall k :: 0 <= k < |fs| ==> FindingOk(trace, fs[k])
    }

    lemma FindingStays(before: seq<Request>, after: seq<Request>, f: Finding)
      requires FindingOk(before, f) && before <= after
      ensures FindingOk(after, f)
    {
      var i: nat :| OpenAt(before, f.host, f.ip, f.port, i);
      assert after[..i] == before[..i];
      assert OpenAt(after, f.host, f.ip, f.port, i);
    }

    lemma FindingsJoin(before: seq<Request>, after: seq<Request>, fs: seq<Finding>, gs: seq<Finding>)
      requires FindingsOk(before, fs) && before <= after && FindingsOk(after, gs)
      ensures FindingsOk(after, fs + gs)
    {
      forall k | 0 <= k < |fs + gs| ensures FindingOk(after, (fs + gs)[k]) {
        if k < |fs| {
          FindingStays(before, after, fs[k]);
        }
      }
    }

    /** The budget may be passed by one, unless it is at most 2, and never by more; the count is exact. */
    ghost predicate OutOk(trace: seq<Request>, requests: nat, limit: nat, o: Out) {
      requests <= o.total <= Most(limit) && Grew(trace, o.sent, o.total - requests) && FindingsOk(o.sent, o.findings)
    }

    lemma OutJoin(trace: seq<Request>, requests: nat, limit: nat, a: Out, b: Out)
      requires OutOk(trace, requests, limit, a) && OutOk(a.sent, a.total, limit, b)
      ensures OutOk(trace, requests, limit, Both(a, b))
    {
      GrewTrans(trace, a.sent, b.sent, a.total - requests, b.total - a.total);
      FindingsJoin(a.sent, b.sent, a.findings, b.findings);
    }

    // ---------------------------------------------------------------- one response

    predicate IsVhost(candidate: Response, baseline: Response) {
      candidate.open && (!baseline.open ||
        (candidate.status, candidate.server, candidate.title) != (baseline.status, baseline.server, baseline.title))
    }

    /** Where a Location header leads; relative ones stay on the current host. */
    function RedirectTarget(location: string, host: string, scheme: string): Option<Target> {
      match split(location)
      case None => None
      case Some(p) =>
        var nextScheme := if p.scheme != "" then p.scheme else scheme;
        var nextHost := clean(if p.hostname != "" then p.hostname else host);
        var nextPort := if p.port != 0 then p.port else if nextScheme == "https" then 443 else 80;
        var path := if p.path != "" then p.path else "/";
        Some(Target(nextHost, nextPort, nextScheme, if p.query != "" then path + "?" + p.query else path))
    }

    /** The addresses that the scope authorises, in order. */
    function Authorised(addresses: seq<string>): (r: seq<string>)
      ensures forall a :: a in r <==> a in addresses && allowed(a)
    {
      Pick(addresses, allowed)
    }

    /** The first authorised address is the one before which none is in scope. */
    lemma FirstAuthorised(addresses: seq<string>)
      ensures var good := Authorised(addresses);
        good != [] ==>
          exists k :: 0 <= k < |addresses| && addresses[k] == good[0] && forall j :: 0 <= j < k ==> !allowed(addresses[j])
    {
      var good := Authorised(addresses);
      var from := PickSelects(addresses, allowed);
      if good != [] {
        assert PickedAt(good, addresses, from, 0);
        var k := from[0];
        forall j: nat | j < k ensures !allowed(addresses[j]) {
          assert PlaceKept(addresses, allowed, from, j);
        }
      }
    }

    /** A location that names no scheme, host or port keeps the host, and the port if and only if that is the scheme's own. */
    lemma RelativeRedirect(location: string, host: string, scheme: string, port: int)
      requires split(location).Some? && split(location).value.scheme == "" && split(location).value.hostname == ""
      requires split(location).value.port == 0
      ensures var t := RedirectTarget(location, host, scheme);
        && t.Some? && t.value.host == clean(host) && t.value.scheme == scheme
        && (t.value.port == port <==> port == if scheme == "https" then 443 else 80)
    {
    }

    /** A location that names all of them goes there. */
    lemma AbsoluteRedirect(location: string, host: string, scheme: string)
      requires split(location).Some? && split(location).value.scheme != "" && split(location).value.hostname != ""
      requires split(location).value.path != ""
      ensures var p, t := split(location).value, RedirectTarget(location, host, scheme);
        && t.Some? && t.value.host == clean(p.hostname) && t.value.scheme == p.scheme
        && (p.port != 0 ==> t.value.port == p.port)
        && (p.query == "" ==> t.value.path == p.path) && (p.query != "" ==> t.value.path == p.path + "?" + p.query)
    {
    }

    /** A response that redirects, with a budget to follow it. */
    predicate Redirects(r: Response, budget: bool) {
      r.status in {301, 302, 303, 307, 308} && r.location != "" && budget
    }

    /** A hop goes to the first authorised address of an authorised name, or nowhere. */
    ghost function Decide(trace: seq<Request>, current: Response, name: string, host: string, ip: string, scheme: string,
                          budget: bool): (d: Decision)
      ensures d.Go? ==> budget && allowed(d.next.host) && allowed(d.ip)
    {
      if !Redirects(current, budget) then Stop([])
      else match RedirectTarget(current.location, host, scheme)
        case None => Stop([Blocked(name, RedirectUnparseable)])
        case Some(next) =>
          var good := Authorised(if next.host != host then addressesOf(trace, next.host) else [ip]);
          assert good != [] ==> good[0] in good;
          if good == [] || !allowed(next.host) then Stop([Blocked(name, RedirectOutsideScope)]) else Go(next, good[0])
    }

    /**
     * A hop is taken exactly on a redirect with budget whose location parses to a name in scope of which some address is
     * in scope; it goes to the first such address, which for the host itself is the one in use.
     */
    lemma GoExact(trace: seq<Request>, current: Response, name: string, host: string, ip: string, scheme: string, budget: bool)
      ensures var d, t := Decide(trace, current, name, host, ip, scheme, budget), RedirectTarget(current.location, host, scheme);
        && (d.Go? <==>
            && current.status in {301, 302, 303, 307, 308} && current.location != "" && budget && t.Some? && allowed(t.value.host)
            && if t.value.host == host then allowed(ip) else exists a :: a in addressesOf(trace, t.value.host) && allowed(a))
        && (d.Go? ==>
              && d.next == t.value
              && if t.value.host == host then d.ip == ip else IsFirst(addressesOf(trace, t.value.host), d.ip))
      ensures var d := Decide(trace, current, name, host, ip, scheme, budget);
        var wanted := current.status in {301, 302, 303, 307, 308} && current.location != "" && budget;
        var t := RedirectTarget(current.location, host, scheme);
        d.Stop? ==>
          d.blocked == if wanted then [Blocked(name, if t.None? then RedirectUnparseable else RedirectOutsideScope)] else []
    {
      var t := RedirectTarget(current.location, host, scheme);
      if t.Some? && t.value.host != host {
        var addresses := addressesOf(trace, t.value.host);
        FirstAuthorised(addresses);
        if a :| a in addresses && allowed(a) {
          assert a in Authorised(addresses);
        }
        assert Authorised(addresses) != [] ==> Authorised(addresses)[0] in Authorised(addresses);
      } else {
        assert [ip][0] == ip && (allowed(ip) <==> ip in Authorised([ip]));
        assert Authorised([ip]) != [] ==> Authorised([ip])[0] in Authorised([ip]);
      }
    }

    ghost predicate IsFirst(addresses: seq<string>, a: string) {
      exists k :: 0 <= k < |addresses| && addresses[k] == a && allowed(a) && forall j :: 0 <= j < k ==> !allowed(addresses[j])
    }

    function HopRequest(next: Target, ip: string): Request {
      Request(next.host, ip, next.port, Some(next.scheme), next.path, None)
    }

    /** The hops from `current` on; `budget` is what the budget callback answers throughout. */
    ghost function HopsFrom(trace: seq<Request>, current: Response, name: string, host: string, ip: string, scheme: string,
                            budget: bool, turns: nat): Hops
      decreases turns, |trace|, 1
    {
      if turns == 0 then Hops(trace, [], [])
      else HopsAfter(trace, Decide(trace, current, name, host, ip, scheme, budget), name, budget, turns)
    }

    ghost function HopsAfter(trace: seq<Request>, d: Decision, name: string, budget: bool, turns: nat): Hops
      requires turns > 0
      decreases turns, |trace|, 0
    {
      match d
      case Stop(blocked) => Hops(trace, [], blocked)
      case Go(next, nextIp) =>
        var r := HopRequest(next, nextIp);
        if !answer(trace, r).open then Hops(trace + [r], [next], [])
        else
          var rest := HopsFrom(trace + [r], answer(trace, r), name, next.host, nextIp, next.scheme, budget, turns - 1);
          Hops(rest.sent, [next] + rest.chain, rest.blocked)
    }

    /** The probe for hop `k` of the chain. */
    ghost predicate HopSent(base: nat, h: Hops, k: nat)
      requires k < |h.chain|
    {
      && base + k < |h.sent|
      && h.sent[base + k] == Request(h.chain[k].host, h.sent[base + k].ip, h.chain[k].port, Some(h.chain[k].scheme),
                                     h.chain[k].path, None)
    }

    /** At most `turns` hops, each one probe in scope, of the place the hop names. */
    ghost predicate HopsOk(trace: seq<Request>, h: Hops, turns: nat) {
      && Grew(trace, h.sent, |h.chain|) && |h.chain| <= turns
      && forall k: nat :: k < |h.chain| ==> HopSent(|trace|, h, k)
    }

    lemma HopOk(trace: seq<Request>, next: Target, ip: string, rest: Hops, turns: nat)
      requires allowed(next.host) && allowed(ip) && HopsOk(trace + [HopRequest(next, ip)], rest, turns)
      ensures HopsOk(trace, Hops(rest.sent, [next] + rest.chain, rest.blocked), turns + 1)
    {
      var r, all := HopRequest(next, ip), Hops(rest.sent, [next] + rest.chain, rest.blocked);
      GrewOne(trace, r);
      GrewTrans(trace, trace + [r], rest.sent, 1, |rest.chain|);
      forall k: nat | k < |all.chain| ensures HopSent(|trace|, all, k) {
        assert k > 0 ==> HopSent(|trace| + 1, rest, k - 1);
        assert (trace + [r])[|trace|] == r;
      }
    }

    /** At most `turns` hops, each one probe in scope, and none without a budget. */
    lemma {:induction false} HopsSafe(trace: seq<Request>, current: Response, name: string, host: string, ip: string,
                                      scheme: string, budget: bool, turns: nat)
      ensures var h := HopsFrom(trace, current, name, host, ip, scheme, budget, turns);
        HopsOk(trace, h, turns) && (!budget ==> h.chain == [])
      decreases turns, 1
    {
      if turns > 0 {
        HopsAfterSafe(trace, Decide(trace, current, name, host, ip, scheme, budget), name, budget, turns);
      }
    }

    lemma {:induction false} HopsAfterSafe(trace: seq<Request>, d: Decision, name: string, budget: bool, turns: nat)
      requires turns > 0 && (d.Go? ==> budget && allowed(d.next.host) && allowed(d.ip))
      ensures var h := HopsAfter(trace, d, name, budget, turns); HopsOk(trace, h, turns) && (!budget ==> h.chain == [])
      decreases turns, 0
    {
      if d.Go? {
        var r := HopRequest(d.next, d.ip);
        if answer(trace, r).open {
          var rest := HopsFrom(trace + [r], answer(trace, r), name, d.next.host, d.ip, d.next.scheme, budget, turns - 1);
          HopsSafe(trace + [r], answer(trace, r), name, d.next.host, d.ip, d.next.scheme, budget, turns - 1);
          HopOk(trace, d.next, d.ip, rest, turns - 1);
        } else {
          GrewOne(trace, r);
        }
      }
    }

    /** One turn of the redirect loop. */
    lemma HopsTurn(trace: seq<Request>, current: Response, name: string, host: string, ip: string, scheme: string, budget: bool,
                   turns: nat)
      requires turns > 0
      ensures var h := HopsFrom(trace, current, name, host, ip, scheme, budget, turns);
        var d := Decide(trace, current, name, host, ip, scheme, budget);
        if d.Stop? then h == Hops(trace, [], d.blocked)
        else
          var r := HopRequest(d.next, d.ip);
          var a := answer(trace, r);
          if !a.open then h == Hops(trace + [r], [d.next], [])
          else
            var rest := HopsFrom(trace + [r], a, name, d.next.host, d.ip, d.next.scheme, budget, turns - 1);
            h == Hops(rest.sent, [d.next] + rest.chain, rest.blocked)
    {
      var d := Decide(trace, current, name, host, ip, scheme, budget);
      assert HopsFrom(trace, current, name, host, ip, scheme, budget, turns) == HopsAfter(trace, d, name, budget, turns);
    }

    /** Looks at one response: where it leads, if anywhere it may. */
    method NextHop(current: Response, name: string, host: string, ip: string, scheme: string, budget: bool)
      returns (d: Decision)
      ensures d == Decide(sent, current, name, host, ip, scheme, budget)
    {
      if !Redirects(current, budget) {
        return Stop([]);
      }
      var target := RedirectTarget(current.location, host, scheme);
      if target == None {
        return Stop([Blocked(name, RedirectUnparseable)]);
      }
      var next := target.value;
      var addresses := if next.host != host then addressesOf(sent, next.host) else [ip];
      var good := Authorised(addresses);
      if |addresses| == 0 || |good| == 0 || !allowed(next.host) {
        return Stop([Blocked(name, RedirectOutsideScope)]);
      }
      d := Go(next, good[0]);
    }

    /** The whole is what was done and what is still to come. */
    ghost predicate Joins(all: Hops, chain: seq<Target>, rest: Hops) {
      all == Hops(rest.sent, chain + rest.chain, rest.blocked)
    }

    lemma JoinsNext(all: Hops, chain: seq<Target>, next: Target, rest: Hops)
      requires Joins(all, chain, Hops(rest.sent, [next] + rest.chain, rest.blocked))
      ensures Joins(all, chain + [next], rest)
    {
      assert chain + ([next] + rest.chain) == (chain + [next]) + rest.chain;
    }

    /** One turn: the decision, and the response to the hop if one was taken. */
    method TakeHop(current: Response, name: string, host: string, ip: string, scheme: string, budget: bool, ghost turns: nat)
      returns (d: Decision, next: Response)
      requires turns > 0
      modifies this
      ensures var h := HopsFrom(old(sent), current, name, host, ip, scheme, budget, turns);
        if d.Stop? then h == Hops(sent, [], d.blocked)
        else if !next.open then h == Hops(sent, [d.next], [])
        else
          var rest := HopsFrom(sent, next, name, d.next.host, d.ip, d.next.scheme, budget, turns - 1);
          h == Hops(rest.sent, [d.next] + rest.chain, rest.blocked)
    {
      HopsTurn(sent, current, name, host, ip, scheme, budget, turns);
      next := current;
      d := NextHop(current, name, host, ip, scheme, budget);
      if d.Go? {
        next := Probe(HopRequest(d.next, d.ip));
      }
    }

    method FollowRedirects(candidate: Response, name: string, ip: string, scheme: string, budget: bool)
      returns (chain: seq<Target>, blocked: seq<Blocked>, used: nat)
      modifies this
      ensures used == |chain|
      ensures Hops(sent, chain, blocked) == HopsFrom(old(sent), candidate, name, name, ip, scheme, budget, MAX_REDIRECTS)
    {
      chain, blocked, used := [], [], 0;
      var turns := MAX_REDIRECTS;
      var current, host, address, currentScheme := candidate, name, ip, scheme;
      ghost var all := HopsFrom(sent, candidate, name, name, ip, scheme, budget, MAX_REDIRECTS);
      assert [] + all.chain == all.chain;
      while turns > 0
        invariant used == |chain| && blocked == []
        invariant Joins(all, chain, HopsFrom(sent, current, name, host, address, currentScheme, budget, turns))
        decreases turns
      {
        ghost var done := chain;
        var d;
        d, current := TakeHop(current, name, host, address, currentScheme, budget, turns);
        if d.Stop? {
          assert done + [] == done;
          return chain, d.blocked, used;
        }
        used, chain := used + 1, chain + [d.next];
        if !current.open {
          return;
        }
        JoinsNext(all, done, d.next, HopsFrom(sent, current, name, d.next.host, d.ip, d.next.scheme, budget, turns - 1));
        host, address, currentScheme, turns := d.next.host, d.ip, d.next.scheme, turns - 1;
      }
    }

    /** The documents from the `k`-th on: the probes sent, and the paths that answered. */
    ghost function DocumentsFrom(trace: seq<Request>, host: string, ip: string, port: int, scheme: string, k: nat)
      : (r: (seq<Request>, seq<string>))
      requires k <= |DOCUMENTS|
      decreases |DOCUMENTS| - k, |trace|
    {
      if k == |DOCUMENTS| then (trace, [])
      else
        var r := Request(host, ip, port, Some(scheme), DOCUMENTS[k], None);
        var rest := DocumentsFrom(trace + [r], host, ip, port, scheme, k + 1);
        (rest.0, (if answer(trace, r).open then [DOCUMENTS[k]] else []) + rest.1)
    }

    lemma {:induction false} DocumentsSafe(trace: seq<Request>, host: string, ip: string, port: int, scheme: string, k: nat)
      requires allowed(host) && allowed(ip) && k <= |DOCUMENTS|
      ensures Grew(trace, DocumentsFrom(trace, host, ip, port, scheme, k).0, |DOCUMENTS| - k)
      decreases |DOCUMENTS| - k
    {
      if k < |DOCUMENTS| {
        var r := Request(host, ip, port, Some(scheme), DOCUMENTS[k], None);
        GrewOne(trace, r);
        DocumentsSafe(trace + [r], host, ip, port, scheme, k + 1);
        GrewTrans(trace, trace + [r], DocumentsFrom(trace + [r], host, ip, port, scheme, k + 1).0, 1, |DOCUMENTS| - k - 1);
      }
    }

    /** Both documents are asked for in turn, and those that answer are the ones reported. */
    lemma DocumentsAre(trace: seq<Request>, host: string, ip: string, port: int, scheme: string)
      ensures var first := Request(host, ip, port, Some(scheme), "/.well-known/security.txt", None);
        var second := Request(host, ip, port, Some(scheme), "/robots.txt", None);
        var r := DocumentsFrom(trace, host, ip, port, scheme, 0);
        && r.0 == trace + [first, second]
        && ("/.well-known/security.txt" in r.1 <==> answer(trace, first).open)
        && ("/robots.txt" in r.1 <==> answer(trace + [first], second).open) && |r.1| <= 2
    {
      var first := Request(host, ip, port, Some(scheme), "/.well-known/security.txt", None);
      var second := Request(host, ip, port, Some(scheme), "/robots.txt", None);
      var last := trace + [first] + [second];
      assert DocumentsFrom(last, host, ip, port, scheme, 2) == (last, []);
      assert DocumentsFrom(trace + [first], host, ip, port, scheme, 1).0 == last;
      assert last == trace + [first, second];
      assert "/.well-known/security.txt"[1] != "/robots.txt"[1];
    }

    /** The whole is `found` and then the rest. */
    ghost predicate Follows(all: (seq<Request>, seq<string>), found: seq<string>, rest: (seq<Request>, seq<string>)) {
      all == (rest.0, found + rest.1)
    }

    lemma FollowsNext(all: (seq<Request>, seq<string>), found: seq<string>, before: (seq<Request>, seq<string>),
                      more: seq<string>, rest: (seq<Request>, seq<string>))
      requires Follows(all, found, before) && Follows(before, more, rest)
      ensures Follows(all, found + more, rest)
    {
      assert found + (more + rest.1) == (found + more) + rest.1;
    }

    /** One document: its probe, and its path if it answered. */
    method ProbeDocument(host: string, ip: string, port: int, scheme: string, k: nat) returns (found: seq<string>)
      requires k < |DOCUMENTS|
      modifies this
      ensures var rest := DocumentsFrom(sent, host, ip, port, scheme, k + 1);
        Follows(DocumentsFrom(old(sent), host, ip, port, scheme, k), found, rest)
    {
      var document := Probe(Request(host, ip, port, Some(scheme), DOCUMENTS[k], None));
      found := if document.open then [DOCUMENTS[k]] else [];
    }

    /** Fetches the two well-known documents, or neither. */
    method ProbeDocuments(host: string, ip: string, port: int, scheme: string, budget: bool)
      returns (found: seq<string>, used: nat)
      modifies this
      ensures used == if budget then |DOCUMENTS| else 0
      ensures (sent, found) == if budget then DocumentsFrom(old(sent), host, ip, port, scheme, 0) else (old(sent), [])
    {
      found, used := [], 0;
      ghost var all := DocumentsFrom(sent, host, ip, port, scheme, 0);
      if !budget {
        return;
      }
      assert [] + all.1 == all.1;
      for k := 0 to |DOCUMENTS|
        invariant used == k
        invariant Follows(all, found, DocumentsFrom(sent, host, ip, port, scheme, k))
      {
        ghost var before := DocumentsFrom(sent, host, ip, port, scheme, k);
        var more := ProbeDocument(host, ip, port, scheme, k);
        FollowsNext(all, found, before, more, DocumentsFrom(sent, host, ip, port, scheme, k + 1));
        found, used := found + more, used + 1;
      }
      assert found + [] == found;
    }

    // ---------------------------------------------------------------- one address and port

    /** The probe, the comparison with the address's default response, the redirects and the documents. */
    ghost function PortOut(trace: seq<Request>, name: string, ip: string, port: int, deep: bool, requests: nat, limit: nat): Out {
      var first := Request(name, ip, port, None, "/", None);
      var candidate := answer(trace, first);
      if !candidate.open then Out(trace + [first], requests + 1, [], [])
      else
        var plain := Request(name, ip, port, None, "/", Some(ip));
        var again := requests + 1 < limit;
        var t1 := if again then trace + [first] + [plain] else trace + [first];
        var n1: nat := if again then requests + 2 else requests + 1;
        var vhost := again && IsVhost(candidate, answer(trace + [first], plain));
        var hops := HopsFrom(t1, candidate, name, name, ip, candidate.scheme, n1 < limit, MAX_REDIRECTS);
        var n2 := n1 + |hops.chain|;
        var more := deep && n2 < limit;
        var documents := if more then DocumentsFrom(hops.sent, name, ip, port, candidate.scheme, 0) else (hops.sent, []);
        Out(documents.0, if more then n2 + |DOCUMENTS| else n2,
            [Finding(name, ip, port, candidate.scheme, vhost, hops.chain, documents.1)], hops.blocked)
    }

    /**
     * One port passes the budget by one exactly when it is open and the first of two hops, or the first of
     * the two documents, takes the last request; and never by more.
     */
    lemma PortExact(trace: seq<Request>, name: string, ip: string, port: int, deep: bool, requests: nat, limit: nat)
      requires requests < limit
      ensures var first := Request(name, ip, port, None, "/", None);
        var candidate := answer(trace, first);
        var n1: nat := if requests + 1 < limit then requests + 2 else requests + 1;
        var plain := Request(name, ip, port, None, "/", Some(ip));
        var t1 := if requests + 1 < limit then trace + [first] + [plain] else trace + [first];
        var hops := |HopsFrom(t1, candidate, name, name, ip, candidate.scheme, n1 < limit, MAX_REDIRECTS).chain|;
        var o := PortOut(trace, name, ip, port, deep, requests, limit);
        && o.total <= limit + 1
        && (o.total == limit + 1 <==>
            candidate.open && ((n1 == limit - 1 && hops == MAX_REDIRECTS) || (deep && n1 + hops == limit - 1)))
    {
      var first, plain := Request(name, ip, port, None, "/", None), Request(name, ip, port, None, "/", Some(ip));
      var candidate := answer(trace, first);
      var n1: nat := if requests + 1 < limit then requests + 2 else requests + 1;
      var t1 := if requests + 1 < limit then trace + [first] + [plain] else trace + [first];
      HopsSafe(t1, candidate, name, name, ip, candidate.scheme, n1 < limit, MAX_REDIRECTS);
    }

    /**
     * What an open port leaves while the budget lasts: one finding, with the hops taken and the documents that
     * answered, and the redirect that was refused, if any.
     */
    lemma PortParts(trace: seq<Request>, name: string, ip: string, port: int, deep: bool, requests: nat, limit: nat)
      requires var o := PortOut(trace, name, ip, port, deep, requests, limit); o.total < limit
      requires answer(trace, Request(name, ip, port, None, "/", None)).open
      ensures var o := PortOut(trace, name, ip, port, deep, requests, limit);
        var first, plain := Request(name, ip, port, None, "/", None), Request(name, ip, port, None, "/", Some(ip));
        var a := answer(trace, first);
        var h := HopsFrom(trace + [first] + [plain], a, name, name, ip, a.scheme, true, 2);
        && |o.findings| == 1 && o.findings[0].hops == h.chain && o.blocked == h.blocked
        && (deep ==> (o.sent, o.findings[0].documents) == DocumentsFrom(h.sent, name, ip, port, a.scheme, 0))
        && (!deep ==> o.sent == h.sent && o.findings[0].documents == [])
    {
      var first, plain := Request(name, ip, port, None, "/", None), Request(name, ip, port, None, "/", Some(ip));
      var a := answer(trace, first);
      if requests + 1 < limit {
        HopsSafe(trace + [first] + [plain], a, name, name, ip, a.scheme, requests + 2 < limit, MAX_REDIRECTS);
      } else {
        HopsSafe(trace + [first], a, name, name, ip, a.scheme, false, MAX_REDIRECTS);
      }
    }

    /** Stays in scope, counts exactly, and passes the budget by at most one. */
    lemma PortSafe(trace: seq<Request>, name: string, ip: string, port: int, deep: bool, requests: nat, limit: nat)
      requires allowed(name) && allowed(ip) && requests < limit
      ensures OutOk(trace, requests, limit, PortOut(trace, name, ip, port, deep, requests, limit))
    {
      var first, plain := Request(name, ip, port, None, "/", None), Request(name, ip, port, None, "/", Some(ip));
      var candidate := answer(trace, first);
      PortExact(trace, name, ip, port, deep, requests, limit);
      GrewOne(trace, first);
      if candidate.open {
        var again := requests + 1 < limit;
        var t1 := if again then trace + [first] + [plain] else trace + [first];
        var n1: nat := if again then requests + 2 else requests + 1;
        GrewOne(trace + [first], plain);
        if again {
          GrewTrans(trace, trace + [first], t1, 1, 1);
        }
        var hops := HopsFrom(t1, candidate, name, name, ip, candidate.scheme, n1 < limit, MAX_REDIRECTS);
        HopsSafe(t1, candidate, name, name, ip, candidate.scheme, n1 < limit, MAX_REDIRECTS);
        GrewTrans(trace, t1, hops.sent, n1 - requests, |hops.chain|);
        DocumentsSafe(hops.sent, name, ip, port, candidate.scheme, 0);
        var o := PortOut(trace, name, ip, port, deep, requests, limit);
        if deep && n1 + |hops.chain| < limit {
          GrewTrans(trace, hops.sent, o.sent, n1 - requests + |hops.chain|, |DOCUMENTS|);
        }
        OpenFinding(trace, first, o.sent, o.findings[0]);
      }
    }

    lemma OpenFinding(trace: seq<Request>, r: Request, after: seq<Request>, f: Finding)
      requires trace + [r] <= after && answer(trace, r).open && allowed(f.host) && allowed(f.ip)
      requires r.host == f.host && r.ip == f.ip && r.port == f.port
      ensures FindingOk(after, f)
    {
      assert after[..|trace|] == trace && after[|trace|] == r;
      assert OpenAt(after, f.host, f.ip, f.port, |trace|);
    }

    method ProbePort(name: string, ip: string, port: int, deep: bool, requests: nat, maxRequests: nat)
      returns (total: nat, findings: seq<Finding>, blocked: seq<Blocked>)
      modifies this
      ensures Out(sent, total, findings, blocked) == PortOut(old(sent), name, ip, port, deep, requests, maxRequests)
    {
      findings, blocked, total := [], [], requests;
      var candidate := Probe(Request(name, ip, port, None, "/", None));
      total := total + 1;
      if !candidate.open {
        return;
      }
      var vhost := false;
      if total < maxRequests {
        var baseline := Probe(Request(name, ip, port, None, "/", Some(ip)));
        total := total + 1;
        vhost := IsVhost(candidate, baseline);
      }
      var chain, more, used := FollowRedirects(candidate, name, ip, candidate.scheme, total < maxRequests);
      total, blocked := total + used, more;
      var documents := [];
      if deep && total < maxRequests {
        documents, used := ProbeDocuments(name, ip, port, candidate.scheme, total < maxRequests);
        total := total + used;
      }
      findings := [Finding(name, ip, port, candidate.scheme, vhost, chain, documents)];
    }

    // ---------------------------------------------------------------- one name

    ghost function PortsOut(trace: seq<Request>, name: string, ip: string, plan: seq<int>, deep: bool, requests: nat,
                            limit: nat): Out
      decreases |plan|
    {
      if plan == [] || requests >= limit then Out(trace, requests, [], [])
      else
        var first := PortOut(trace, name, ip, plan[0], deep, requests, limit);
        Both(first, PortsOut(first.sent, name, ip, plan[1..], deep, first.total, limit))
    }

    ghost function HostOut(trace: seq<Request>, name: string, good: seq<string>, plan: seq<int>, deep: bool, requests: nat,
                           limit: nat): Out
      decreases |good|
    {
      if good == [] then Out(trace, requests, [], [])
      else
        var first := PortsOut(trace, name, good[0], plan, deep, requests, limit);
        Both(first, HostOut(first.sent, name, good[1..], plan, deep, first.total, limit))
    }

    lemma NothingSent(trace: seq<Request>, requests: nat, limit: nat)
      requires requests <= Most(limit)
      ensures OutOk(trace, requests, limit, Out(trace, requests, [], []))
    {
    }

    lemma {:induction false} PortsSafe(trace: seq<Request>, name: string, ip: string, plan: seq<int>, deep: bool,
                                       requests: nat, limit: nat)
      requires allowed(name) && allowed(ip) && requests <= Most(limit)
      ensures OutOk(trace, requests, limit, PortsOut(trace, name, ip, plan, deep, requests, limit))
      decreases |plan|
    {
      if plan == [] || requests >= limit {
        NothingSent(trace, requests, limit);
      } else {
        var first := PortOut(trace, name, ip, plan[0], deep, requests, limit);
        PortSafe(trace, name, ip, plan[0], deep, requests, limit);
        PortsSafe(first.sent, name, ip, plan[1..], deep, first.total, limit);
        OutJoin(trace, requests, limit, first, PortsOut(first.sent, name, ip, plan[1..], deep, first.total, limit));
      }
    }

    lemma {:induction false} HostSafe(trace: seq<Request>, name: string, good: seq<string>, plan: seq<int>, deep: bool,
                                      requests: nat, limit: nat)
      requires allowed(name) && (forall a :: a in good ==> allowed(a)) && requests <= Most(limit)
      ensures OutOk(trace, requests, limit, HostOut(trace, name, good, plan, deep, requests, limit))
      decreases |good|
    {
      if good == [] {
        NothingSent(trace, requests, limit);
      } else {
        var first := PortsOut(trace, name, good[0], plan, deep, requests, limit);
        assert good[0] in good;
        PortsSafe(trace, name, good[0], plan, deep, requests, limit);
        HostSafe(first.sent, name, good[1..], plan, deep, first.total, limit);
        OutJoin(trace, requests, limit, first, HostOut(first.sent, name, good[1..], plan, deep, first.total, limit));
      }
    }

    /** All planned ports of one address, while the budget lasts. */
    method ProbePorts(name: string, ip: string, plan: seq<int>, deep: bool, requests: nat, maxRequests: nat)
      returns (total: nat, findings: seq<Finding>, blocked: seq<Blocked>)
      modifies this
      ensures Out(sent, total, findings, blocked) == PortsOut(old(sent), name, ip, plan, deep, requests, maxRequests)
    {
      ghost var all := PortsOut(sent, name, ip, plan, deep, requests, maxRequests);
      total, findings, blocked := requests, [], [];
      for j := 0 to |plan|
        invariant all == Both(Out(sent, total, findings, blocked), PortsOut(sent, name, ip, plan[j..], deep, total, maxRequests))
      {
        if total >= maxRequests {
          break;
        }
        ghost var before := Out(sent, total, findings, blocked);
        assert plan[j..][0] == plan[j] && plan[j..][1..] == plan[j + 1..];
        var found, more;
        total, found, more := ProbePort(name, ip, plan[j], deep, total, maxRequests);
        BothTrans(before, Out(sent, total, found, more), PortsOut(sent, name, ip, plan[j + 1..], deep, total, maxRequests));
        findings, blocked := findings + found, blocked + more;
      }
    }

    method ProbeHost(name: string, good: seq<string>, plan: seq<int>, deep: bool, requests: nat, maxRequests: nat)
      returns (total: nat, findings: seq<Finding>, blocked: seq<Blocked>)
      modifies this
      ensures Out(sent, total, findings, blocked) == HostOut(old(sent), name, good, plan, deep, requests, maxRequests)
    {
      ghost var all := HostOut(sent, name, good, plan, deep, requests, maxRequests);
      total, findings, blocked := requests, [], [];
      for i := 0 to |good|
        invariant all == Both(Out(sent, total, findings, blocked), HostOut(sent, name, good[i..], plan, deep, total, maxRequests))
      {
        ghost var before := Out(sent, total, findings, blocked);
        assert good[i..][0] == good[i] && good[i..][1..] == good[i + 1..];
        var found, more;
        total, found, more := ProbePorts(name, good[i], plan, deep, total, maxRequests);
        BothTrans(before, Out(sent, total, found, more), HostOut(sent, name, good[i + 1..], plan, deep, total, maxRequests));
        findings, blocked := findings + found, blocked + more;
      }
    }

    /** What taking up one name leads to. */
    ghost function VisitOut(trace: seq<Request>, name: string, l: Limits, requests: nat): Visited {
      var addresses := addressesOf(trace, name);
      var good := Authorised(addresses);
      if !allowed(name) then Visited(Out(trace, requests, [], [Blocked(name, NameOutsideScope)]), false, false)
      else if addresses != [] && good == [] then
        Visited(Out(trace, requests, [], [Blocked(name, ResolvedOutsideScope)]), false, false)
      else if good == [] then Visited(Out(trace, requests, [], [Blocked(name, Unresolved)]), false, true)
      else Visited(HostOut(trace, name, good, l.plan, l.deep, requests, l.requests), true, true)
    }

    lemma VisitSafe(trace: seq<Request>, name: string, l: Limits, requests: nat)
      requires requests <= Most(l.requests)
      ensures var v := VisitOut(trace, name, l, requests);
        OutOk(trace, requests, l.requests, v.out) && (v.goesOn ==> allowed(name)) && (v.isHost ==> allowed(name))
    {
      NothingSent(trace, requests, l.requests);
      if allowed(name) {
        HostSafe(trace, name, Authorised(addressesOf(trace, name)), l.plan, l.deep, requests, l.requests);
      }
    }

    /** One name: resolve it, keep what the scope authorises, probe that. */
    method Visit(name: string, l: Limits, requests: nat) returns (v: Visited)
      modifies this
      ensures v == VisitOut(old(sent), name, l, requests) && sent == v.out.sent
    {
      if !allowed(name) {
        return Visited(Out(sent, requests, [], [Blocked(name, NameOutsideScope)]), false, false);
      }
      var addresses := addressesOf(sent, name);
      var good := Authorised(addresses);
      if |addresses| > 0 && |good| == 0 {
        return Visited(Out(sent, requests, [], [Blocked(name, ResolvedOutsideScope)]), false, false);
      }
      if |good| == 0 {
        return Visited(Out(sent, requests, [], [Blocked(name, Unresolved)]), false, true);
      }
      var total, findings, blocked := ProbeHost(name, good, l.plan, l.deep, requests, l.requests);
      v := Visited(Out(sent, total, findings, blocked), true, true);
    }

    // ---------------------------------------------------------------- the walk

    /** The caller's ports, or the web ports the scope allows; repeats removed. */
    function PlanOf(given: seq<int>, all: bool): (plan: seq<int>)
      ensures AllDistinct(plan)
      ensures forall p :: p in plan <==> p in given && (all || scopePorts == {} || p in scopePorts)
    {
      if given == [] then []
      else
        var front, last := PlanOf(given[..|given| - 1], all), given[|given| - 1];
        assert given == given[..|given| - 1] + [last];
        if (all || scopePorts == {} || last in scopePorts) && last !in front then front + [last] else front
    }

    /** Planned ports keep the order of their first places in the list given. */
    lemma {:induction false} PlanInOrder(given: seq<int>, all: bool, i: nat, j: nat) returns (a: nat)
      requires i < j < |PlanOf(given, all)|
      ensures a < |given| && given[a] == PlanOf(given, all)[i] && PlanOf(given, all)[j] !in given[..a + 1]
    {
      var front := given[..|given| - 1];
      var r := PlanOf(front, all);
      if j < |r| {
        a := PlanInOrder(front, all, i, j);
        assert given[..a + 1] == front[..a + 1];
      } else {
        assert r[i] in r && r[i] in front;
        a :| a < |front| && front[a] == r[i];
        assert given[..a + 1] <= front;
        assert forall x :: x in given[..a + 1] ==> x in front;
      }
    }

    method PortPlan(webPorts: Option<seq<int>>) returns (plan: seq<int>)
      ensures plan == PlanOf(if webPorts.Some? then webPorts.value else WEB_PORTS, webPorts.Some?)
    {
      plan := [];
      var given := if webPorts.Some? then webPorts.value else WEB_PORTS;
      for i := 0 to |given|
        invariant plan == PlanOf(given[..i], webPorts.Some?)
      {
        assert given[..i + 1][..i] == given[..i];
        if (webPorts.Some? || scopePorts == {} || given[i] in scopePorts) && given[i] !in plan {
          plan := plan + [given[i]];
        }
      }
      assert given[..|given|] == given;
    }

    /** The cleaned non-empty seeds, at depth 0. */
    function Seeds(seeds: seq<string>): (queue: seq<(string, nat)>)
      ensures forall k :: 0 <= k < |queue| ==> queue[k].1 == 0
    {
      if seeds == [] then []
      else
        var front, name := Seeds(seeds[..|seeds| - 1]), clean(seeds[|seeds| - 1]);
        if name != "" then front + [(name, 0)] else front
    }

    method SeedQueue(seeds: seq<string>) returns (queue: seq<(string, nat)>)
      ensures queue == Seeds(seeds)
    {
      queue := [];
      for i := 0 to |seeds|
        invariant queue == Seeds(seeds[..i])
      {
        assert seeds[..i + 1][..i] == seeds[..i];
        var name := clean(seeds[i]);
        if name != "" {
          queue := queue + [(name, 0)];
        }
      }
      assert seeds[..|seeds|] == seeds;
    }

    /** The names certificate transparency adds, one level deeper, and those the scope refuses. */
    ghost function Children(names: seq<string>, level: nat, seen: set<string>): (r: (seq<(string, nat)>, seq<Blocked>))
      ensures forall k :: 0 <= k < |r.0| ==> r.0[k].1 == level + 1
    {
      if names == [] then ([], [])
      else
        var front, child := Children(names[..|names| - 1], level, seen), names[|names| - 1];
        if child in seen then front
        else if !allowed(child) then (front.0, front.1 + [Blocked(child, NameOutsideScope)])
        else (front.0 + [(child, level + 1)], front.1)
    }

    method Expand(name: string, level: nat, seen: set<string>) returns (more: seq<(string, nat)>, blocked: seq<Blocked>)
      ensures (more, blocked) == Children(ctNames(sent, name), level, seen)
    {
      more, blocked := [], [];
      var children := ctNames(sent, name);
      for i := 0 to |children|
        invariant (more, blocked) == Children(children[..i], level, seen)
      {
        assert children[..i + 1][..i] == children[..i];
        if children[i] in seen {
          continue;
        }
        if !allowed(children[i]) {
          blocked := blocked + [Blocked(children[i], NameOutsideScope)];
          continue;
        }
        more := more + [(children[i], level + 1)];
      }
      assert children[..|children|] == children;
    }

    ghost predicate Running(w: Walk, l: Limits) {
      w.queue != [] && |w.visited| < l.hosts && w.out.total < l.requests
    }

    /** One turn: the front name is skipped if known, else visited, and its children queued while there is room. */
    ghost function Turn(w: Walk, l: Limits): Walk
      requires w.queue != []
    {
      var (name, level) := w.queue[0];
      if name in NamesOf(w.visited) then w.(queue := w.queue[1..])
      else
        var visited := w.visited + [(name, level)];
        var v := VisitOut(w.out.sent, name, l, w.out.total);
        var out := Both(w.out, v.out);
        var hosts := if v.isHost then w.hosts + [name] else w.hosts;
        if v.goesOn && l.ct && level < l.depth && |visited| + |w.queue| - 1 < l.hosts then
          var kids := Children(ctNames(out.sent, name), level, Members(NamesOf(visited)));
          Walk(w.queue[1..] + kids.0, visited, hosts, out.(blocked := out.blocked + kids.1))
        else Walk(w.queue[1..], visited, hosts, out)
    }

    ghost function WalkEnd(w: Walk, l: Limits): Walk
      decreases if |w.visited| < l.hosts then l.hosts - |w.visited| else 0, |w.queue|
    {
      if !Running(w, l) then w else WalkEnd(Turn(w, l), l)
    }

    /** In scope and within every limit. */
    ghost predicate WalkOk(start: seq<Request>, w: Walk, l: Limits) {
      && OutOk(start, 0, l.requests, w.out)
      && AllDistinct(NamesOf(w.visited)) && |w.visited| <= l.hosts
      && (forall k :: 0 <= k < |w.visited| ==> w.visited[k].1 <= l.depth)
      && (forall k :: 0 <= k < |w.queue| ==> w.queue[k].1 <= l.depth)
      && AllDistinct(w.hosts) && (forall h :: h in w.hosts ==> h in NamesOf(w.visited) && allowed(h))
    }

    lemma TurnOk(start: seq<Request>, w: Walk, l: Limits)
      requires WalkOk(start, w, l) && Running(w, l)
      ensures WalkOk(start, Turn(w, l), l)
    {
      var (name, level) := w.queue[0];
      if name !in NamesOf(w.visited) {
        NameAdded(w.visited, name, level);
        VisitSafe(w.out.sent, name, l, w.out.total);
        OutJoin(start, 0, l.requests, w.out, VisitOut(w.out.sent, name, l, w.out.total).out);
      }
    }

    lemma {:induction false} WalkSafe(start: seq<Request>, w: Walk, l: Limits)
      requires WalkOk(start, w, l)
      ensures WalkOk(start, WalkEnd(w, l), l)
      decreases if |w.visited| < l.hosts then l.hosts - |w.visited| else 0, |w.queue|
    {
      if Running(w, l) {
        TurnOk(start, w, l);
        WalkSafe(start, Turn(w, l), l);
      }
    }

    // ---------------------------------------------------------------- what must be probed

    /** `b` is `a` and more. */
    ghost predicate Extends(a: Out, b: Out) {
      a.sent <= b.sent && a.total <= b.total && a.findings <= b.findings && a.blocked <= b.blocked
    }

    /** There is a finding for the response `a`, a virtual host if and only if `b` is closed or looks different. */
    ghost predicate Found(o: Out, name: string, ip: string, port: int, a: Response, b: Response) {
      exists f :: f in o.findings && f.host == name && f.ip == ip && f.port == port && f.service == a.scheme
                  && (f.vhost <==> !b.open || a.status != b.status || a.server != b.server || a.title != b.title)
    }

    /** The `i`-th probe is that of the port; if it is open the next asks for the default host, and there is a finding. */
    ghost predicate ProbedAt(o: Out, name: string, ip: string, port: int, i: nat) {
      && i < |o.sent| && o.sent[i] == Request(name, ip, port, None, "/", None)
      && var a := answer(o.sent[..i], o.sent[i]);
         a.open ==>
           && i + 1 < |o.sent| && o.sent[i + 1] == Request(name, ip, port, None, "/", Some(ip))
           && Found(o, name, ip, port, a, answer(o.sent[..i + 1], o.sent[i + 1]))
    }

    /** The port was probed after the first `from` probes, and found if it was open. */
    ghost predicate Probed(o: Out, from: nat, name: string, ip: string, port: int) {
      exists i: nat :: from <= i && ProbedAt(o, name, ip, port, i)
    }

    ghost predicate AllProbed(o: Out, from: nat, name: string, ip: string, plan: seq<int>) {
      forall port :: port in plan ==> Probed(o, from, name, ip, port)
    }

    ghost predicate AddressesProbed(o: Out, from: nat, name: string, good: seq<string>, plan: seq<int>) {
      forall ip :: ip in good ==> AllProbed(o, from, name, ip, plan)
    }

    lemma ProbedStays(a: Out, b: Out, name: string, ip: string, port: int, from: nat, less: nat)
      requires Probed(a, from, name, ip, port) && less <= from && a.sent <= b.sent
      requires forall f :: f in a.findings ==> f in b.findings
      ensures Probed(b, less, name, ip, port)
    {
      var i: nat :| from <= i && ProbedAt(a, name, ip, port, i);
      assert b.sent[..i] == a.sent[..i] && b.sent[i] == a.sent[i];
      if i + 1 < |a.sent| {
        assert b.sent[..i + 1] == a.sent[..i + 1] && b.sent[i + 1] == a.sent[i + 1];
      }
      assert ProbedAt(b, name, ip, port, i);
    }

    lemma AllProbedStays(a: Out, b: Out, name: string, ip: string, plan: seq<int>, from: nat, less: nat)
      requires AllProbed(a, from, name, ip, plan) && less <= from && a.sent <= b.sent
      requires forall f :: f in a.findings ==> f in b.findings
      ensures AllProbed(b, less, name, ip, plan)
    {
      forall port | port in plan ensures Probed(b, less, name, ip, port) {
        ProbedStays(a, b, name, ip, port, from, less);
      }
    }

    lemma AddressesStay(a: Out, b: Out, name: string, good: seq<string>, plan: seq<int>, from: nat, less: nat)
      requires AddressesProbed(a, from, name, good, plan) && less <= from && a.sent <= b.sent
      requires forall f :: f in a.findings ==> f in b.findings
      ensures AddressesProbed(b, less, name, good, plan)
    {
      forall ip | ip in good ensures AllProbed(b, less, name, ip, plan) {
        AllProbedStays(a, b, name, ip, plan, from, less);
      }
    }

    lemma PortCovers(trace: seq<Request>, name: string, ip: string, port: int, deep: bool, requests: nat, limit: nat)
      requires allowed(name) && allowed(ip) && PortOut(trace, name, ip, port, deep, requests, limit).total < limit
      ensures Probed(PortOut(trace, name, ip, port, deep, requests, limit), |trace|, name, ip, port)
    {
      var o := PortOut(trace, name, ip, port, deep, requests, limit);
      PortSafe(trace, name, ip, port, deep, requests, limit);
      assert o.sent[..|trace|] == trace;
      PortFirst(trace, name, ip, port, deep, requests, limit);
      if answer(trace, o.sent[|trace|]).open {
        assert o.sent[..|trace| + 1] == trace + [o.sent[|trace|]];
      }
      assert ProbedAt(o, name, ip, port, |trace|);
    }

    lemma PortFirst(trace: seq<Request>, name: string, ip: string, port: int, deep: bool, requests: nat, limit: nat)
      requires allowed(name) && allowed(ip) && PortOut(trace, name, ip, port, deep, requests, limit).total < limit
      ensures var o, first := PortOut(trace, name, ip, port, deep, requests, limit), Request(name, ip, port, None, "/", None);
        var plain := Request(name, ip, port, None, "/", Some(ip));
        |trace| < |o.sent| && o.sent[|trace|] == first
        && (answer(trace, first).open ==>
              |trace| + 1 < |o.sent| && o.sent[|trace| + 1] == plain
              && Found(o, name, ip, port, answer(trace, first), answer(trace + [first], plain)))
    {
      var first, plain := Request(name, ip, port, None, "/", None), Request(name, ip, port, None, "/", Some(ip));
      var candidate := answer(trace, first);
      if candidate.open {
        var t1 := trace + [first] + [plain];
        var hops := HopsFrom(t1, candidate, name, name, ip, candidate.scheme, requests + 2 < limit, MAX_REDIRECTS);
        HopsSafe(t1, candidate, name, name, ip, candidate.scheme, requests + 2 < limit, MAX_REDIRECTS);
        DocumentsSafe(hops.sent, name, ip, port, candidate.scheme, 0);
        var o := PortOut(trace, name, ip, port, deep, requests, limit);
        assert o.findings[0] in o.findings;
        assert t1 <= hops.sent <= o.sent && t1[|trace|] == first && t1[|trace| + 1] == plain;
      }
    }

    /** While the budget lasts every planned port of the address is probed. */
    lemma {:induction false} PortsCover(trace: seq<Request>, name: string, ip: string, plan: seq<int>, deep: bool,
                                        requests: nat, limit: nat)
      requires allowed(name) && allowed(ip) && requests <= Most(limit)
      requires PortsOut(trace, name, ip, plan, deep, requests, limit).total < limit
      ensures AllProbed(PortsOut(trace, name, ip, plan, deep, requests, limit), |trace|, name, ip, plan)
      decreases |plan|
    {
      PortsSafe(trace, name, ip, plan, deep, requests, limit);
      if plan != [] {
        var o := PortsOut(trace, name, ip, plan, deep, requests, limit);
        var first := PortOut(trace, name, ip, plan[0], deep, requests, limit);
        var rest := PortsOut(first.sent, name, ip, plan[1..], deep, first.total, limit);
        PortSafe(trace, name, ip, plan[0], deep, requests, limit);
        PortsSafe(first.sent, name, ip, plan[1..], deep, first.total, limit);
        assert first.total <= o.total;
        PortCovers(trace, name, ip, plan[0], deep, requests, limit);
        PortsCover(first.sent, name, ip, plan[1..], deep, first.total, limit);
        ProbedStays(first, o, name, ip, plan[0], |trace|, |trace|);
        AllProbedStays(rest, o, name, ip, plan[1..], |first.sent|, |trace|);
        forall port | port in plan ensures Probed(o, |trace|, name, ip, port) {
          assert port == plan[0] || port in plan[1..];
        }
      }
    }

    lemma {:induction false} HostCovers(trace: seq<Request>, name: string, good: seq<string>, plan: seq<int>, deep: bool,
                                        requests: nat, limit: nat)
      requires allowed(name) && (forall a :: a in good ==> allowed(a)) && requests <= Most(limit)
      requires HostOut(trace, name, good, plan, deep, requests, limit).total < limit
      ensures AddressesProbed(HostOut(trace, name, good, plan, deep, requests, limit), |trace|, name, good, plan)
      decreases |good|
    {
      if good != [] {
        var o := HostOut(trace, name, good, plan, deep, requests, limit);
        var first := PortsOut(trace, name, good[0], plan, deep, requests, limit);
        var rest := HostOut(first.sent, name, good[1..], plan, deep, first.total, limit);
        assert good[0] in good;
        PortsSafe(trace, name, good[0], plan, deep, requests, limit);
        HostSafe(first.sent, name, good[1..], plan, deep, first.total, limit);
        PortsCover(trace, name, good[0], plan, deep, requests, limit);
        HostCovers(first.sent, name, good[1..], plan, deep, first.total, limit);
        AllProbedStays(first, o, name, good[0], plan, |trace|, |trace|);
        AddressesStay(rest, o, name, good[1..], plan, |first.sent|, |trace|);
        forall ip | ip in good ensures AllProbed(o, |trace|, name, ip, plan) {
          assert ip == good[0] || ip in good[1..];
        }
      }
    }

    /** After the first `|t|` probes `name` was dealt with: refused, unresolved, or a host with every planned port probed. */
    ghost predicate Handled(o: Out, hosts: seq<string>, name: string, t: seq<Request>, plan: seq<int>) {
      var addresses := addressesOf(t, name);
      && t <= o.sent
      && if !allowed(name) then Blocked(name, NameOutsideScope) in o.blocked
         else if forall ip :: ip in addresses ==> !allowed(ip) then
           Blocked(name, if addresses == [] then Unresolved else ResolvedOutsideScope) in o.blocked
         else
           && name in hosts
           && forall ip :: ip in addresses && allowed(ip) ==> AllProbed(o, |t|, name, ip, plan)
    }

    ghost predicate HandledSome(w: Walk, name: string, plan: seq<int>) {
      exists t :: Handled(w.out, w.hosts, name, t, plan)
    }

    ghost predicate AllHandled(w: Walk, plan: seq<int>) {
      forall name :: name in NamesOf(w.visited) ==> HandledSome(w, name, plan)
    }

    /** `b` is `a` and more. */
    ghost predicate WalkExtends(a: Walk, b: Walk) {
      Extends(a.out, b.out) && a.hosts <= b.hosts && NamesOf(a.visited) <= NamesOf(b.visited)
    }

    lemma HandledStays(a: Walk, b: Walk, name: string, plan: seq<int>)
      requires HandledSome(a, name, plan) && WalkExtends(a, b)
      ensures HandledSome(b, name, plan)
    {
      var t :| Handled(a.out, a.hosts, name, t, plan);
      forall ip | ip in addressesOf(t, name) && allowed(ip) && allowed(name)
        ensures AllProbed(b.out, |t|, name, ip, plan)
      {
        AllProbedStays(a.out, b.out, name, ip, plan, |t|, |t|);
      }
      assert Handled(b.out, b.hosts, name, t, plan);
    }

    lemma VisitHandles(w: Walk, name: string, l: Limits)
      requires w.out.total <= Most(l.requests)
      requires var v := VisitOut(w.out.sent, name, l, w.out.total); v.out.total < l.requests
      ensures var v := VisitOut(w.out.sent, name, l, w.out.total);
        Handled(Both(w.out, v.out), if v.isHost then w.hosts + [name] else w.hosts, name, w.out.sent, l.plan)
    {
      var trace, v := w.out.sent, VisitOut(w.out.sent, name, l, w.out.total);
      var good := Authorised(addressesOf(trace, name));
      VisitSafe(trace, name, l, w.out.total);
      if allowed(name) && good != [] {
        assert good[0] in good;
        HostCovers(trace, name, good, l.plan, l.deep, w.out.total, l.requests);
        AddressesStay(v.out, Both(w.out, v.out), name, good, l.plan, |trace|, |trace|);
        assert good[0] in addressesOf(trace, name) && allowed(good[0]);
      }
    }

    lemma TurnExtends(w: Walk, l: Limits)
      requires w.queue != [] && w.out.total <= Most(l.requests)
      ensures WalkExtends(w, Turn(w, l))
    {
      var (name, level) := w.queue[0];
      VisitSafe(w.out.sent, name, l, w.out.total);
      if name !in NamesOf(w.visited) {
        NameAdded(w.visited, name, level);
      }
    }

    lemma {:induction false} EndExtends(start: seq<Request>, w: Walk, l: Limits)
      requires WalkOk(start, w, l)
      ensures WalkExtends(w, WalkEnd(w, l))
      decreases if |w.visited| < l.hosts then l.hosts - |w.visited| else 0, |w.queue|
    {
      if Running(w, l) {
        TurnOk(start, w, l);
        TurnExtends(w, l);
        EndExtends(start, Turn(w, l), l);
      }
    }

    lemma TurnHandles(w: Walk, l: Limits)
      requires Running(w, l) && AllHandled(w, l.plan) && Turn(w, l).out.total < l.requests
      ensures AllHandled(Turn(w, l), l.plan)
    {
      var (name, level) := w.queue[0];
      var next := Turn(w, l);
      TurnExtends(w, l);
      if name !in NamesOf(w.visited) {
        NameAdded(w.visited, name, level);
        VisitHandles(w, name, l);
        HandledNow(w, l);
      }
      forall x | x in NamesOf(next.visited) ensures HandledSome(next, x, l.plan) {
        if x in NamesOf(w.visited) {
          HandledStays(w, next, x, l.plan);
        }
      }
    }

    /** The children refused afterwards change nothing about the name just visited. */
    lemma HandledNow(w: Walk, l: Limits)
      requires Running(w, l) && w.queue[0].0 !in NamesOf(w.visited)
      requires var v := VisitOut(w.out.sent, w.queue[0].0, l, w.out.total);
        Handled(Both(w.out, v.out), if v.isHost then w.hosts + [w.queue[0].0] else w.hosts, w.queue[0].0, w.out.sent, l.plan)
      ensures HandledSome(Turn(w, l), w.queue[0].0, l.plan)
    {
      var name := w.queue[0].0;
      var v := VisitOut(w.out.sent, name, l, w.out.total);
      var a := Walk([], [], if v.isHost then w.hosts + [name] else w.hosts, Both(w.out, v.out));
      assert HandledSome(a, name, l.plan);
      HandledStays(a, Turn(w, l), name, l.plan);
    }

    /** A walk that ends below its request limit has dealt with every name it took up. */
    lemma {:induction false} WalkCovers(start: seq<Request>, w: Walk, l: Limits)
      requires WalkOk(start, w, l) && AllHandled(w, l.plan) && WalkEnd(w, l).out.total < l.requests
      ensures AllHandled(WalkEnd(w, l), l.plan)
      decreases if |w.visited| < l.hosts then l.hosts - |w.visited| else 0, |w.queue|
    {
      if Running(w, l) {
        TurnOk(start, w, l);
        EndExtends(start, Turn(w, l), l);
        TurnHandles(w, l);
        WalkCovers(start, Turn(w, l), l);
      }
    }

    /** The walk stopped for want of names, not of budget or room. */
    ghost predicate Exhausted(w: Walk, l: Limits) {
      w.out.total < l.requests && |w.visited| < l.hosts
    }

    /** Then every name that was ever queued has been taken up. */
    lemma {:induction false} QueuedIsVisited(start: seq<Request>, w: Walk, l: Limits, x: (string, nat))
      requires WalkOk(start, w, l) && x in w.queue && Exhausted(WalkEnd(w, l), l)
      ensures x.0 in NamesOf(WalkEnd(w, l).visited)
      decreases if |w.visited| < l.hosts then l.hosts - |w.visited| else 0, |w.queue|
    {
      if Running(w, l) {
        TurnOk(start, w, l);
        EndExtends(start, Turn(w, l), l);
        if x.0 in NamesOf(Turn(w, l).visited) {
        } else {
          TurnKeeps(w, l, x);
          QueuedIsVisited(start, Turn(w, l), l, x);
        }
      }
    }

    lemma TurnKeeps(w: Walk, l: Limits, x: (string, nat))
      requires w.queue != [] && x in w.queue
      ensures x in Turn(w, l).queue || x.0 in NamesOf(Turn(w, l).visited)
    {
      var (name, level) := w.queue[0];
      assert x == w.queue[0] || x in w.queue[1..];
      if name !in NamesOf(w.visited) {
        NameAdded(w.visited, name, level);
        assert name in NamesOf(w.visited) + [name];
      }
    }

    /** Some address of the name is in scope, or it has none. */
    ghost predicate GoesOn(trace: seq<Request>, name: string) {
      var addresses := addressesOf(trace, name);
      allowed(name) && (addresses == [] || exists ip :: ip in addresses && allowed(ip))
    }

    lemma {:induction false} ChildrenHold(names: seq<string>, level: nat, seen: set<string>, child: string)
      requires child in names && child !in seen && allowed(child)
      ensures (child, level + 1) in Children(names, level, seen).0
    {
      var front, last := names[..|names| - 1], names[|names| - 1];
      if child != last {
        assert child in front;
        ChildrenHold(front, level, seen, child);
      }
    }

    /** And the new names out of scope are recorded as refused. */
    lemma {:induction false} ChildrenRefused(names: seq<string>, level: nat, seen: set<string>, b: Blocked)
      ensures b in Children(names, level, seen).1
         <==> b.host in names && b.host !in seen && !allowed(b.host) && b.reason == NameOutsideScope
    {
      if names != [] {
        var front, last := names[..|names| - 1], names[|names| - 1];
        assert names == front + [last];
        ChildrenRefused(front, level, seen, b);
      }
    }

    /** With certificate transparency, depth and room left, every new name in scope that it gives is queued. */
    lemma TurnQueues(w: Walk, l: Limits, child: string)
      requires Running(w, l) && w.queue[0].0 !in NamesOf(w.visited) && GoesOn(w.out.sent, w.queue[0].0)
      requires l.ct && w.queue[0].1 < l.depth && |w.visited| + |w.queue| < l.hosts
      requires child in ctNames(Turn(w, l).out.sent, w.queue[0].0) && allowed(child)
      requires child != w.queue[0].0 && child !in NamesOf(w.visited)
      ensures (child, w.queue[0].1 + 1) in Turn(w, l).queue
    {
      var (name, level) := w.queue[0];
      NameAdded(w.visited, name, level);
      var good := Authorised(addressesOf(w.out.sent, name));
      assert good != [] ==> good[0] in good;
      var known := Members(NamesOf(w.visited + [(name, level)]));
      ChildrenHold(ctNames(Turn(w, l).out.sent, name), level, known, child);
    }

    /** The walk after `n` turns. */
    ghost function WalkAfter(w: Walk, l: Limits, n: nat): Walk
      decreases n
    {
      if n == 0 || !Running(w, l) then w else WalkAfter(Turn(w, l), l, n - 1)
    }

    lemma {:induction false} AfterEnds(start: seq<Request>, w: Walk, l: Limits, n: nat)
      requires WalkOk(start, w, l)
      ensures WalkOk(start, WalkAfter(w, l, n), l) && WalkEnd(WalkAfter(w, l, n), l) == WalkEnd(w, l)
      decreases n
    {
      if n > 0 && Running(w, l) {
        TurnOk(start, w, l);
        AfterEnds(start, Turn(w, l), l, n - 1);
      }
    }

    /** So in a walk that stopped for want of names, at every turn such a child has been taken up in the end. */
    lemma ChildIsVisited(start: seq<Request>, w: Walk, l: Limits, n: nat, child: string)
      requires WalkOk(start, w, l) && Exhausted(WalkEnd(w, l), l)
      requires var v := WalkAfter(w, l, n);
        && Running(v, l) && v.queue[0].0 !in NamesOf(v.visited) && GoesOn(v.out.sent, v.queue[0].0)
        && l.ct && v.queue[0].1 < l.depth && |v.visited| + |v.queue| < l.hosts
        && child in ctNames(Turn(v, l).out.sent, v.queue[0].0) && allowed(child)
      ensures child in NamesOf(WalkEnd(w, l).visited)
    {
      var v := WalkAfter(w, l, n);
      AfterEnds(start, w, l, n);
      EndExtends(start, v, l);
      TurnOk(start, v, l);
      if child == v.queue[0].0 {
        QueuedIsVisited(start, v, l, v.queue[0]);
      } else if child !in NamesOf(v.visited) {
        TurnQueues(v, l, child);
        QueuedIsVisited(start, Turn(v, l), l, (child, v.queue[0].1 + 1));
      }
    }

    lemma {:induction false} SeedsHold(seeds: seq<string>, seed: string)
      requires seed in seeds && clean(seed) != ""
      ensures (clean(seed), 0) in Seeds(seeds)
    {
      var front, last := seeds[..|seeds| - 1], seeds[|seeds| - 1];
      if seed != last {
        assert seed in front;
        SeedsHold(front, seed);
      }
    }

    /** What a call promises to have covered. */
    ghost predicate Complete(w: Walk, l: Limits, seeds: seq<string>) {
      && (w.out.total < l.requests ==> AllHandled(w, l.plan))
      && (Exhausted(w, l) ==> forall seed :: seed in seeds && clean(seed) != "" ==> clean(seed) in NamesOf(w.visited))
    }

    lemma WalkComplete(start: seq<Request>, seeds: seq<string>, l: Limits)
      requires l.hosts >= 1
      ensures Complete(WalkEnd(Walk(Seeds(seeds), [], [], Out(start, 0, [], [])), l), l, seeds)
    {
      var w := Walk(Seeds(seeds), [], [], Out(start, 0, [], []));
      var e := WalkEnd(w, l);
      NothingSent(start, 0, l.requests);
      if e.out.total < l.requests {
        WalkCovers(start, w, l);
      }
      if Exhausted(e, l) {
        forall seed | seed in seeds && clean(seed) != "" ensures clean(seed) in NamesOf(e.visited) {
          SeedsHold(seeds, seed);
          QueuedIsVisited(start, w, l, (clean(seed), 0));
        }
      }
    }

    ghost function LimitsOf(ct: bool, depth: int, maxHosts: int, maxRequests: int, webPorts: Option<seq<int>>,
                            deep: bool): Limits {
      Limits(ct, AtLeast(depth, 0), AtLeast(maxHosts, 1), AtLeast(maxRequests, 0),
             PlanOf(if webPorts.Some? then webPorts.value else WEB_PORTS, webPorts.Some?), deep)
    }

    /** A known name is dropped from the queue. */
    lemma Dropped(w: Walk, l: Limits)
      requires Running(w, l) && w.queue[0].0 in NamesOf(w.visited)
      ensures WalkEnd(w.(queue := w.queue[1..]), l) == WalkEnd(w, l)
    {
    }

    /** One turn of the walk for a name not yet known; `next` is the walk after it. */
    method TakeTurn(ghost w: Walk, l: Limits, queue: seq<(string, nat)>, seen: set<string>, requests: nat)
      returns (rest: seq<(string, nat)>, known: set<string>, v: Visited, refused: seq<Blocked>, ghost next: Walk)
      requires w.queue == queue != [] && w.out.sent == sent && w.out.total == requests && Running(w, l)
      requires seen == Members(NamesOf(w.visited)) && AllDistinct(NamesOf(w.visited)) && queue[0].0 !in seen
      modifies this
      ensures WalkEnd(next, l) == WalkEnd(w, l) && next.out.sent == sent
      ensures known == Members(NamesOf(next.visited)) && |known| == |next.visited| == |w.visited| + 1
      ensures AllDistinct(NamesOf(next.visited))
      ensures next == Walk(rest, next.visited, if v.isHost then w.hosts + [queue[0].0] else w.hosts,
                           Out(sent, v.out.total, w.out.findings + v.out.findings, w.out.blocked + v.out.blocked + refused))
    {
      var (name, level) := queue[0];
      rest, refused := queue[1..], [];
      known := seen + {name};
      assert name !in NamesOf(w.visited);
      NameAdded(w.visited, name, level);
      DistinctSize(NamesOf(w.visited + [(name, level)]));
      v := Visit(name, l, requests);
      assert w.out.blocked + v.out.blocked + [] == w.out.blocked + v.out.blocked;
      if v.goesOn && l.ct && level < l.depth && |known| + |rest| < l.hosts {
        var more, outside := Expand(name, level, known);
        rest, refused := rest + more, outside;
      }
      next := Turn(w, l);
    }

    /** Walks the authorised surface. */
    method DiscoverAssets(seeds: seq<string>, ct: bool, depth: int, maxHosts: int, maxRequests: int,
                          webPorts: Option<seq<int>>, deep: bool)
      returns (r: Summary, ghost w: Walk)
      modifies this
      ensures w == WalkEnd(Walk(Seeds(seeds), [], [], Out(old(sent), 0, [], [])),
                           LimitsOf(ct, depth, maxHosts, maxRequests, webPorts, deep))
      ensures sent == w.out.sent && r == Summary(w.hosts, w.out.total, w.out.blocked, w.out.findings)
      ensures WalkOk(old(sent), w, LimitsOf(ct, depth, maxHosts, maxRequests, webPorts, deep))
      ensures r.requests == |sent| - |old(sent)| <= Most(AtLeast(maxRequests, 0))
      ensures Complete(w, LimitsOf(ct, depth, maxHosts, maxRequests, webPorts, deep), seeds)
    {
      var plan := PortPlan(webPorts);
      var l := Limits(ct, AtLeast(depth, 0), AtLeast(maxHosts, 1), AtLeast(maxRequests, 0), plan, deep);
      var queue := SeedQueue(seeds);
      var seen: set<string>, hosts, findings, blocked := {}, [], [], [];
      var requests: nat := 0;
      w := Walk(queue, [], [], Out(sent, 0, [], []));
      ghost var all := WalkEnd(w, l);
      NothingSent(sent, 0, l.requests);
      WalkSafe(sent, w, l);
      while |queue| > 0 && |seen| < l.hosts && requests < l.requests
        invariant w == Walk(queue, w.visited, hosts, Out(sent, requests, findings, blocked))
        invariant all == WalkEnd(w, l)
        invariant seen == Members(NamesOf(w.visited)) && |seen| == |w.visited| && AllDistinct(NamesOf(w.visited))
        decreases l.hosts - |seen|, |queue|
      {
        var name := queue[0].0;
        if name in seen {
          Dropped(w, l);
          queue := queue[1..];
          w := w.(queue := queue);
          continue;
        }
        var v, refused;
        queue, seen, v, refused, w := TakeTurn(w, l, queue, seen, requests);
        requests, findings, blocked := v.out.total, findings + v.out.findings, blocked + v.out.blocked + refused;
        if v.isHost {
          hosts := hosts + [name];
        }
      }
      WalkComplete(old(sent), seeds, l);
      r := Summary(hosts, requests, blocked, findings);
    }

    // ---------------------------------------------------------------- the bound is exact

    ghost predicate AnswersAt(n: nat, trace: seq<Request>, r: Request) {
      answer(trace, r) == Response(|r.ip| == n, "http", 302, "/", "", "")
    }

    /** Everything is in scope; an address answers if and only if it is `n` long, and then redirects to "/". */
    ghost predicate RedirectsAt(n: nat) {
      && (forall name :: allowed(name) && clean(name) == name)
      && (forall location :: split(location) == Some(Parts("", "", 0, "/", "")))
      && (forall trace, r :: AnswersAt(n, trace, r))
    }

    /** With the budget for one more request a chain takes two. */
    lemma TwoHops(trace: seq<Request>, current: Response, name: string, ip: string)
      requires RedirectsAt(|ip|) && current == Response(true, "http", 302, "/", "", "")
      ensures |HopsFrom(trace, current, name, name, ip, "http", true, 2).chain| == 2
    {
      assert Authorised([ip]) == [ip];
      var next := Target(name, 80, "http", "/");
      var again := trace + [HopRequest(next, ip)];
      assert AnswersAt(|ip|, trace, HopRequest(next, ip)) && AnswersAt(|ip|, again, HopRequest(next, ip));
      assert Decide(trace, current, name, name, ip, "http", true) == Go(next, ip);
      assert Decide(again, current, name, name, ip, "http", true) == Go(next, ip);
      HopsTurn(trace, current, name, name, ip, "http", true, 2);
      HopsTurn(again, current, name, name, ip, "http", true, 1);
    }

    /** An open port with three requests left, or with all of a smaller budget, takes the most there is. */
    lemma MostAtPort(trace: seq<Request>, name: string, ip: string, port: int, deep: bool, requests: nat, limit: nat)
      requires RedirectsAt(|ip|) && requests < limit && (requests == limit - 3 || (requests == 0 && limit <= 2))
      ensures PortOut(trace, name, ip, port, deep, requests, limit).total == Most(limit)
    {
      PortExact(trace, name, ip, port, deep, requests, limit);
      var first, plain := Request(name, ip, port, None, "/", None), Request(name, ip, port, None, "/", Some(ip));
      assert AnswersAt(|ip|, trace, first);
      if limit > 2 {
        TwoHops(trace + [first] + [plain], answer(trace, first), name, ip);
      }
    }

    /** With one planned port an address costs what its port does. */
    lemma OnePort(trace: seq<Request>, name: string, ip: string, plan: seq<int>, deep: bool, requests: nat, limit: nat)
      requires requests < limit && |plan| == 1
      ensures PortsOut(trace, name, ip, plan, deep, requests, limit).total
           == PortOut(trace, name, ip, plan[0], deep, requests, limit).total
    {
      var one := PortOut(trace, name, ip, plan[0], deep, requests, limit);
      assert plan[1..] == [] && PortsOut(one.sent, name, ip, plan[1..], deep, one.total, limit).total == one.total;
    }

    lemma ClosedPort(trace: seq<Request>, name: string, ip: string, port: int, n: nat, deep: bool, requests: nat, limit: nat)
      requires RedirectsAt(n) && |ip| != n
      ensures PortOut(trace, name, ip, port, deep, requests, limit).total == requests + 1
    {
      assert AnswersAt(n, trace, Request(name, ip, port, None, "/", None));
    }

    /** An address costs what its port does, and the others what they cost from there. */
    lemma HostTotal(trace: seq<Request>, name: string, good: seq<string>, plan: seq<int>, deep: bool, requests: nat, limit: nat)
      returns (after: seq<Request>)
      requires good != [] && |plan| == 1 && requests < limit
      ensures HostOut(trace, name, good, plan, deep, requests, limit).total
           == HostOut(after, name, good[1..], plan, deep, PortOut(trace, name, good[0], plan[0], deep, requests, limit).total,
                      limit).total
    {
      OnePort(trace, name, good[0], plan, deep, requests, limit);
      after := PortsOut(trace, name, good[0], plan, deep, requests, limit).sent;
    }

    /** Every address is probed and closed, down to the last, which takes the most there is. */
    lemma {:induction false} MostAtHost(trace: seq<Request>, name: string, good: seq<string>, i: nat, n: nat, plan: seq<int>,
                                        deep: bool, limit: nat)
      requires good != [] && Lengthening(good, i) && i + |good| == n == AtLeast(limit - 2, 1) && limit > 0
      requires RedirectsAt(n) && |plan| == 1
      ensures HostOut(trace, name, good, plan, deep, i, limit).total == Most(limit)
      decreases |good|
    {
      assert LongBy(good, i, 0);
      var after := HostTotal(trace, name, good, plan, deep, i, limit);
      if |good| == 1 {
        MostAtPort(trace, name, good[0], plan[0], deep, i, limit);
      } else {
        ClosedPort(trace, name, good[0], plan[0], n, deep, i, limit);
        LengtheningRest(good, i);
        MostAtHost(after, name, good[1..], i + 1, n, plan, deep, limit);
      }
    }

    lemma {:induction false} AllAuthorised(addresses: seq<string>)
      requires forall name :: allowed(name)
      ensures Authorised(addresses) == addresses
    {
      if addresses != [] {
        AllAuthorised(addresses[1..]);
      }
    }

    /** Visiting a name whose addresses are those takes the most there is. */
    lemma MostAtName(name: string, l: Limits)
      requires l.requests > 0 && |l.plan| == 1
      requires var n := AtLeast(l.requests - 2, 1); RedirectsAt(n) && addressesOf(sent, name) == Addresses(n)
      ensures VisitOut(sent, name, l, 0).out.total == Most(l.requests)
    {
      var n := AtLeast(l.requests - 2, 1);
      AllAuthorised(Addresses(n));
      MostAtHost(sent, name, Addresses(n), 0, n, l.plan, l.deep, l.requests);
    }

    lemma JustOnePort()
      ensures PlanOf([80], true) == [80]
    {
      var given := [80];
      assert given[..|given| - 1] == [] && given[|given| - 1] == 80;
    }

    lemma OneSeed(name: string)
      requires clean(name) == name != ""
      ensures Seeds([name]) == [(name, 0)]
    {
      assert [name][..0] == [];
    }

    /** One name on such a network takes the most there is. */
    lemma MostOnWalk(name: string, maxRequests: int, deep: bool)
      requires name != "" && RedirectsAt(AtLeast(maxRequests - 2, 1))
      requires addressesOf(sent, name) == Addresses(AtLeast(maxRequests - 2, 1))
      ensures var l := LimitsOf(false, 0, 1, maxRequests, Some([80]), deep);
        WalkEnd(Walk(Seeds([name]), [], [], Out(sent, 0, [], [])), l).out.total == Most(l.requests)
    {
      JustOnePort();
      OneSeed(name);
      var l := LimitsOf(false, 0, 1, maxRequests, Some([80]), deep);
      if l.requests > 0 {
        var w := Walk([(name, 0)], [], [], Out(sent, 0, [], []));
        MostAtName(name, l);
        assert Running(w, l) && !Running(Turn(w, l), l);
        assert WalkEnd(w, l) == WalkEnd(Turn(w, l), l) == Turn(w, l);
      }
    }
  }

  ghost predicate LongBy(good: seq<string>, i: nat, k: nat)
    requires k < |good|
  {
    |good[k]| == i + k + 1
  }

  ghost predicate Lengthening(good: seq<string>, i: nat) {
    forall k: nat :: k < |good| ==> LongBy(good, i, k)
  }

  lemma LengtheningRest(good: seq<string>, i: nat)
    requires good != [] && Lengthening(good, i)
    ensures Lengthening(good[1..], i + 1)
  {
    var rest := good[1..];
    var next := i + 1;
    forall k: nat | k < |rest| ensures LongBy(rest, next, k) {
      assert LongBy(good, i, k + 1);
    }
  }

  function Addresses(n: nat): (r: seq<string>)
    ensures |r| == n && Lengthening(r, 0)
  {
    seq(n, i requires 0 <= i < n => seq(i + 1, _ => '1'))
  }

  /** A name with `n` addresses, of which only the last answers, and then redirects for ever. */
  method WorstNetwork(n: nat) returns (network: Network)
    ensures fresh(network) && network.sent == [] && network.RedirectsAt(n) && network.addressesOf([], "h") == Addresses(n)
  {
    network := new Network(_ => true, {}, name => name, _ => Some(Parts("", "", 0, "/", "")), (_, _) => Addresses(n),
                           (_, _) => [], (_, r: Request) => Response(|r.ip| == n, "http", 302, "/", "", ""));
  }

  /** For every limit some walk takes the most that `DiscoverAssets` allows: for a limit of 3 or more, one too many. */
  method TakeMost(maxRequests: int, deep: bool) returns (r: Summary)
    ensures r.requests == Most(AtLeast(maxRequests, 0))
  {
    var network := WorstNetwork(AtLeast(maxRequests - 2, 1));
    network.MostOnWalk("h", maxRequests, deep);
    ghost var w;
    r, w := network.DiscoverAssets(["h"], false, 0, 1, maxRequests, Some([80]), deep);
  }

  /** The walk of a call counts no more requests than the call allows. */
  ghost predicate Kept(network: Network, trace: seq<Request>, seeds: seq<string>, ct: bool, depth: int, maxHosts: int,
                       maxRequests: int, webPorts: Option<seq<int>>, deep: bool) {
    var l := network.LimitsOf(ct, depth, maxHosts, maxRequests, webPorts, deep);
    network.WalkEnd(Walk(network.Seeds(seeds), [], [], Out(trace, 0, [], [])), l).out.total <= l.requests
  }

  lemma KeptWhenSmall(network: Network, trace: seq<Request>, seeds: seq<string>, ct: bool, depth: int, maxHosts: int,
                      maxRequests: int, webPorts: Option<seq<int>>, deep: bool)
    requires maxRequests <= 2
    ensures Kept(network, trace, seeds, ct, depth, maxHosts, maxRequests, webPorts, deep)
  {
    var l := network.LimitsOf(ct, depth, maxHosts, maxRequests, webPorts, deep);
    network.NothingSent(trace, 0, l.requests);
    network.WalkSafe(trace, Walk(network.Seeds(seeds), [], [], Out(trace, 0, [], [])), l);
  }

  lemma BrokenWhenLarge(network: Network, maxRequests: int, deep: bool)
    requires maxRequests >= 3 && network.sent == []
    requires var n := AtLeast(maxRequests - 2, 1); network.RedirectsAt(n) && network.addressesOf([], "h") == Addresses(n)
    ensures !Kept(network, [], ["h"], false, 0, 1, maxRequests, Some([80]), deep)
  {
    network.MostOnWalk("h", maxRequests, deep);
  }

  lemma AllKept(maxRequests: int, deep: bool)
    requires maxRequests <= 2
    ensures forall network: Network, trace, seeds, ct, depth, maxHosts, webPorts ::
              Kept(network, trace, seeds, ct, depth, maxHosts, maxRequests, webPorts, deep)
  {
    forall network: Network, trace, seeds, ct, depth, maxHosts, webPorts
      ensures Kept(network, trace, seeds, ct, depth, maxHosts, maxRequests, webPorts, deep)
    {
      KeptWhenSmall(network, trace, seeds, ct, depth, maxHosts, maxRequests, webPorts, deep);
    }
  }

  /** Every call on every network keeps within `max_requests` if and only if that is at most 2. */
  method LimitExact(maxRequests: int, deep: bool) returns (kept: bool)
    ensures kept <==> maxRequests <= 2
    ensures kept <==> forall network: Network, trace, seeds, ct, depth, maxHosts, webPorts ::
                        Kept(network, trace, seeds, ct, depth, maxHosts, maxRequests, webPorts, deep)
  {
    kept := maxRequests <= 2;
    if kept {
      AllKept(maxRequests, deep);
    } else {
      var network := WorstNetwork(AtLeast(maxRequests - 2, 1));
      BrokenWhenLarge(network, maxRequests, deep);
    }
  }
}
