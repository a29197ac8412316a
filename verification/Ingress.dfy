/** The ingress route table: its operations, and what a history of them leaves exposed. */
module IngressRegistry {
  import opened Prelude

  datatype Ipv4 = Ipv4(a: byte, b: byte, c: byte, d: byte)

  datatype PortRoute = PortRoute(port: u16, inject_headers: seq<(Bytes, Bytes)>)

  datatype WorkspaceRoutes = WorkspaceRoutes(guest_ip: Ipv4, ports: map<u16, PortRoute>)

  datatype Target = Target(guest_ip: Ipv4, port: u16, inject_headers: seq<(Bytes, Bytes)>)

  datatype RegistryError = WorkspaceNotFound | PortNotFound

  type Table = map<Bytes, WorkspaceRoutes>

  datatype Op =
    | Upsert(wsid: Bytes, guest_ip: Ipv4, routes: seq<PortRoute>)
    | Expose(wsid: Bytes, route: PortRoute)
    | Unexpose(wsid: Bytes, port: u16)
    | Remove(wsid: Bytes)

  /** Routes keyed by port; a later route for the same port replaces an earlier one. */
  function Collect(routes: seq<PortRoute>): map<u16, PortRoute> {
    if routes == [] then map[]
    else
      var last := routes[|routes| - 1];
      Collect(routes[..|routes| - 1])[last.port := last]
  }

  function Apply(t: Table, op: Op): Table {
    match op
    case Upsert(wsid, ip, routes) => t[wsid := WorkspaceRoutes(ip, Collect(routes))]
    case Expose(wsid, route) =>
      if wsid in t then t[wsid := t[wsid].(ports := t[wsid].ports[route.port := route])] else t
    case Unexpose(wsid, port) =>
      if wsid in t then t[wsid := t[wsid].(ports := t[wsid].ports - {port})] else t
    case Remove(wsid) => t - {wsid}
  }

  function Answer(t: Table, op: Op): Result<(), RegistryError> {
    match op
    case Expose(wsid, _) => if wsid in t then Ok(()) else Err(WorkspaceNotFound)
    case Unexpose(wsid, port) =>
      if wsid !in t then Err(WorkspaceNotFound) else if port !in t[wsid].ports then Err(PortNotFound) else Ok(())
    case _ => Ok(())
  }

  function Lookup(t: Table, wsid: Bytes, port: u16): Option<Target> {
    if wsid in t && port in t[wsid].ports then
      Some(Target(t[wsid].guest_ip, port, t[wsid].ports[port].inject_headers))
    else None
  }

  class Registry {
    var inner: Table

    constructor ()
      ensures inner == map[]
    {
      inner := map[];
    }

    method UpsertWorkspace(wsid: Bytes, guestIp: Ipv4, routes: seq<PortRoute>)
      modifies this
      ensures inner == Apply(old(inner), Upsert(wsid, guestIp, routes))
    {
      var ports: map<u16, PortRoute> := map[];
      for i := 0 to |routes|
        invariant ports == Collect(routes[..i])
      {
        assert routes[..i + 1][..i] == routes[..i];
        ports := ports[routes[i].port := routes[i]];
      }
      assert routes[..|routes|] == routes;
      inner := inner[wsid := WorkspaceRoutes(guestIp, ports)];
    }

    method ExposePort(wsid: Bytes, route: PortRoute) returns (r: Result<(), RegistryError>)
      modifies this
      ensures inner == Apply(old(inner), Expose(wsid, route)) && r == Answer(old(inner), Expose(wsid, route))
    {
      if wsid !in inner {
        return Err(WorkspaceNotFound);
      }
      var ws := inner[wsid];
      inner := inner[wsid := ws.(ports := ws.ports[route.port := route])];
      r := Ok(());
    }

    method UnexposePort(wsid: Bytes, port: u16) returns (r: Result<(), RegistryError>)
      modifies this
      ensures inner == Apply(old(inner), Unexpose(wsid, port)) && r == Answer(old(inner), Unexpose(wsid, port))
    {
      if wsid !in inner {
        return Err(WorkspaceNotFound);
      }
      var ws := inner[wsid];
      if port !in ws.ports {
        assert ws.ports - {port} == ws.ports;
        assert inner[wsid := ws] == inner;
        return Err(PortNotFound);
      }
      inner := inner[wsid := ws.(ports := ws.ports - {port})];
      r := Ok(());
    }

    method RemoveWorkspace(wsid: Bytes)
      modifies this
      ensures inner == Apply(old(inner), Remove(wsid))
    {
      inner := inner - {wsid};
    }

    method Resolve(wsid: Bytes, port: u16) returns (r: Option<Target>)
      ensures r == Lookup(inner, wsid, port)
    {
      if wsid !in inner || port !in inner[wsid].ports {
        return None;
      }
      var ws := inner[wsid];
      r := Some(Target(ws.guest_ip, port, ws.ports[port].inject_headers));
    }

    method WorkspaceExists(wsid: Bytes) returns (r: bool)
      ensures r == (wsid in inner)
    {
      r := wsid in inner;
    }
  }

  // ---------------------------------------------------------------- histories

  function Replay(ops: seq<Op>): Table {
    if ops == [] then map[] else Apply(Replay(ops[..|ops| - 1]), ops[|ops| - 1])
  }

  /** The guest that the workspace's latest upsert named, unless the workspace was removed since. */
  function GuestOf(ops: seq<Op>, wsid: Bytes): Option<Ipv4> {
    if ops == [] then None
    else
      var before, last := ops[..|ops| - 1], ops[|ops| - 1];
      if last.wsid != wsid then GuestOf(before, wsid)
      else match last
        case Upsert(_, ip, _) => Some(ip)
        case Remove(_) => None
        case _ => GuestOf(before, wsid)
  }

  /** The last of the given routes for a port. */
  function LastFor(routes: seq<PortRoute>, port: u16): Option<PortRoute> {
    if routes == [] then None
    else if routes[|routes| - 1].port == port then Some(routes[|routes| - 1])
    else LastFor(routes[..|routes| - 1], port)
  }

  /** The route that the history leaves exposed for a port: set by the latest upsert or by a later
      exposure, and neither withdrawn nor removed since. */
  function ExposedRoute(ops: seq<Op>, wsid: Bytes, port: u16): Option<PortRoute> {
    if ops == [] then None
    else
      var before, last := ops[..|ops| - 1], ops[|ops| - 1];
      if last.wsid != wsid then ExposedRoute(before, wsid, port)
      else match last
        case Upsert(_, _, routes) => LastFor(routes, port)
        case Remove(_) => None
        case Unexpose(_, p) => if p == port then None else ExposedRoute(before, wsid, port)
        case Expose(_, route) =>
          if route.port == port && GuestOf(before, wsid).Some? then Some(route)
          else ExposedRoute(before, wsid, port)
  }

  lemma {:induction false} CollectIsLast(routes: seq<PortRoute>, port: u16)
    ensures port in Collect(routes) <==> LastFor(routes, port).Some?
    ensures port in Collect(routes) ==> LastFor(routes, port) == Some(Collect(routes)[port])
  {
    if routes != [] {
      CollectIsLast(routes[..|routes| - 1], port);
    }
  }

  /** A workspace is in the table exactly when the history names its guest. */
  lemma {:induction false} TableGuest(ops: seq<Op>, wsid: Bytes)
    ensures wsid in Replay(ops) <==> GuestOf(ops, wsid).Some?
    ensures wsid in Replay(ops) ==> GuestOf(ops, wsid) == Some(Replay(ops)[wsid].guest_ip)
  {
    if ops != [] {
      TableGuest(ops[..|ops| - 1], wsid);
    }
  }

  lemma {:induction false} TablePort(ops: seq<Op>, wsid: Bytes, port: u16)
    ensures wsid in Replay(ops) && port in Replay(ops)[wsid].ports <==> ExposedRoute(ops, wsid, port).Some?
    ensures wsid in Replay(ops) && port in Replay(ops)[wsid].ports ==>
              ExposedRoute(ops, wsid, port) == Some(Replay(ops)[wsid].ports[port])
  {
    if ops != [] {
      var before, last := ops[..|ops| - 1], ops[|ops| - 1];
      TablePort(before, wsid, port);
      TableGuest(before, wsid);
      if last.Upsert? {
        CollectIsLast(last.routes, port);
      }
    }
  }

  /** The answers in terms of the history: exposing needs a registered workspace, withdrawing also an exposed
      port. */
  lemma AnswerIsHistory(ops: seq<Op>, op: Op)
    ensures Answer(Replay(ops), op) ==
            if (op.Expose? || op.Unexpose?) && GuestOf(ops, op.wsid).None? then Err(WorkspaceNotFound)
            else if op.Unexpose? && ExposedRoute(ops, op.wsid, op.port).None? then Err(PortNotFound)
            else Ok(())
  {
    hide Replay;
    hide GuestOf;
    hide ExposedRoute;
    TableGuest(ops, op.wsid);
    if op.Unexpose? {
      TablePort(ops, op.wsid, op.port);
    }
  }

  /** The target a history leaves for a port. */
  function TargetOf(ops: seq<Op>, wsid: Bytes, port: u16): Option<Target> {
    match (GuestOf(ops, wsid), ExposedRoute(ops, wsid, port))
    case (Some(ip), Some(route)) => Some(Target(ip, port, route.inject_headers))
    case _ => None
  }

  /** Resolving in the table is asking the history. */
  lemma ResolveIsHistory(ops: seq<Op>, wsid: Bytes, port: u16)
    ensures Lookup(Replay(ops), wsid, port) == TargetOf(ops, wsid, port)
  {
    hide Replay;
    hide GuestOf;
    hide ExposedRoute;
    TableGuest(ops, wsid);
    TablePort(ops, wsid, port);
  }
}

/** Routing decisions, with registry operations running between the router's two locks. */
module IngressRouter {
  import opened Prelude
  import opened IngressHost
  import Text
  import opened IngressRegistry

  datatype DenyReason = ParseError | DomainMismatch | SsrfGuard | UnexposedPort | UnknownWorkspace

  datatype Decision = Allow(target: Target, wsid: Bytes, port: u16) | Deny(reason: DenyReason)

  predicate IsLinkLocal(ip: Ipv4) { ip.a == 169 && ip.b == 254 }

  /** The reading of the Host header, before any lock is taken. */
  function ReadHost(host: Bytes, domain: Bytes): Result<(u16, Bytes), DenyReason> {
    if DOT !in Text.Trim(Before(host, COLON)) then Err(ParseError)
    else match ParseHost(host, domain)
      case Ok(route) => Ok(route)
      case Err(DomainMismatch) => Err(DenyReason.DomainMismatch)
      case Err(Parse) => Err(ParseError)
  }

  /** Where one routing decision stands.  `at` is the number of registry operations that had happened
      at the resolve instant, `end` the number at the last lock taken. */
  datatype Router =
    | Start
    | Missed(wsid: Bytes, port: u16, at: nat)
    | Done(decision: Decision, at: nat, end: nat)

  datatype World = World(history: seq<Op>, router: Router)

  datatype Action = Registry(op: Op) | Step

  /** The first lock: resolve. */
  function ResolveStep(host: Bytes, domain: Bytes, history: seq<Op>): Router {
    match ReadHost(host, domain)
    case Err(reason) => Done(Deny(reason), |history|, |history|)
    case Ok((port, wsid)) =>
      match Lookup(Replay(history), wsid, port)
      case Some(target) =>
        Done(if IsLinkLocal(target.guest_ip) then Allow(target, wsid, port) else Deny(SsrfGuard), |history|, |history|)
      case None => Missed(wsid, port, |history|)
  }

  function Next(host: Bytes, domain: Bytes, w: World, action: Action): World {
    match action
    case Registry(op) => w.(history := w.history + [op])
    case Step => match w.router
      case Start => w.(router := ResolveStep(host, domain, w.history))
      case Missed(wsid, port, at) =>
        // The second lock: does the workspace exist now?
        var reason := if wsid in Replay(w.history) then UnexposedPort else UnknownWorkspace;
        w.(router := Done(Deny(reason), at, |w.history|))
      case Done(_, _, _) => w
  }

  function Run(host: Bytes, domain: Bytes, w: World, actions: seq<Action>): World {
    if actions == [] then w
    else Next(host, domain, Run(host, domain, w, actions[..|actions| - 1]), actions[|actions| - 1])
  }

  /** Why a port without a route is denied, given a history: its workspace is unknown, or known without
      that port. */
  function ExactReason(ops: seq<Op>, wsid: Bytes): DenyReason {
    if GuestOf(ops, wsid).Some? then UnexposedPort else UnknownWorkspace
  }

  /** What a decision says: the route is the one at the resolve instant, and the reason given for a
      missing route is the one at the last lock. */
  predicate Justified(host: Bytes, domain: Bytes, decision: Decision, atResolve: seq<Op>, atEnd: seq<Op>) {
    match ReadHost(host, domain)
    case Err(reason) => decision == Deny(reason)
    case Ok((port, wsid)) =>
      match TargetOf(atResolve, wsid, port)
      case Some(target) =>
        decision == if target.guest_ip.a == 169 && target.guest_ip.b == 254 then Allow(target, wsid, port)
                    else Deny(SsrfGuard)
      case None => decision == Deny(ExactReason(atEnd, wsid))
  }

  ghost predicate Inv(host: Bytes, domain: Bytes, w: World) {
    match w.router
    case Start => true
    case Missed(wsid, port, at) =>
      && at <= |w.history| && ReadHost(host, domain) == Ok((port, wsid))
      && TargetOf(w.history[..at], wsid, port).None?
    case Done(decision, at, end) =>
      at <= end <= |w.history| && Justified(host, domain, decision, w.history[..at], w.history[..end])
  }

  lemma NextKeepsInv(host: Bytes, domain: Bytes, w: World, action: Action)
    requires Inv(host, domain, w)
    ensures Inv(host, domain, Next(host, domain, w, action))
  {
    hide Replay;
    hide ReadHost;
    hide TargetOf;
    hide GuestOf;
    match action
    case Registry(op) =>
      if !w.router.Start? {
        assert (w.history + [op])[..w.router.at] == w.history[..w.router.at];
      }
      if w.router.Done? {
        assert (w.history + [op])[..w.router.end] == w.history[..w.router.end];
      }
    case Step =>
      assert w.history[..|w.history|] == w.history;
      if ReadHost(host, domain).Ok? {
        var (port, wsid) := ReadHost(host, domain).value;
        ResolveIsHistory(w.history, wsid, port);
        TableGuest(w.history, wsid);
      }
  }

  lemma {:induction false} RunKeepsInv(host: Bytes, domain: Bytes, history: seq<Op>, actions: seq<Action>)
    ensures Inv(host, domain, Run(host, domain, World(history, Start), actions))
    decreases |actions|
  {
    if actions != [] {
      RunKeepsInv(host, domain, history, actions[..|actions| - 1]);
      NextKeepsInv(host, domain, Run(host, domain, World(history, Start), actions[..|actions| - 1]),
                   actions[|actions| - 1]);
    }
  }

  /** Under every interleaving of registry operations with the router's two locks: a request is allowed
      exactly when, at the resolve instant, the history left that port exposed on a link-local guest;
      and a denial for an unknown workspace or an unexposed port means there was no route then. */
  lemma DecisionsAreJustified(host: Bytes, domain: Bytes, history: seq<Op>, actions: seq<Action>)
    requires Run(host, domain, World(history, Start), actions).router.Done?
    ensures var w := Run(host, domain, World(history, Start), actions);
            && w.router.at <= |w.history|
            && var decision, ops := w.router.decision, w.history[..w.router.at];
            && (forall target, wsid, port: u16 :: decision == Allow(target, wsid, port) <==>
                  && ReadHost(host, domain) == Ok((port, wsid))
                  && TargetOf(ops, wsid, port) == Some(target)
                  && target.guest_ip.a == 169 && target.guest_ip.b == 254)
            && (decision == Deny(SsrfGuard) <==>
                  && ReadHost(host, domain).Ok?
                  && var (port, wsid) := ReadHost(host, domain).value;
                  && TargetOf(ops, wsid, port).Some?
                  && !(TargetOf(ops, wsid, port).value.guest_ip.a == 169 &&
                       TargetOf(ops, wsid, port).value.guest_ip.b == 254))
            && (decision == Deny(ParseError) <==> ReadHost(host, domain) == Err(ParseError))
            && (decision == Deny(DenyReason.DomainMismatch) <==>
                  ReadHost(host, domain) == Err(DenyReason.DomainMismatch))
            && (decision == Deny(UnknownWorkspace) || decision == Deny(UnexposedPort) <==>
                  && ReadHost(host, domain).Ok?
                  && var (port, wsid) := ReadHost(host, domain).value;
                  TargetOf(ops, wsid, port).None?)
  {
    hide Run;
    hide ReadHost;
    hide TargetOf;
    RunKeepsInv(host, domain, history, actions);
    ReadHostReasons(host, domain);
  }

  /** How the Host header is read: with a port and a workspace exactly when it spells them, as a foreign domain
      exactly when it has a dot and does not end in the domain, and otherwise not at all. */
  lemma ReadHostIff(host: Bytes, domain: Bytes)
    ensures forall port: u16, wsid :: ReadHost(host, domain) == Ok((port, wsid)) <==>
              exists portText, spelled :: Spells(host, domain, port, wsid, portText, spelled)
    ensures ReadHost(host, domain) == Err(DenyReason.DomainMismatch) <==>
            && 46 in Text.Trim(Before(host, 58))
            && forall lab, spelled ::
                 Text.Trim(Before(host, 58)) == lab + ([46] + spelled) ==> Text.Lower(spelled) != Text.Lower(domain)
    ensures ReadHost(host, domain).Err? ==>
            ReadHost(host, domain).error in {ParseError, DenyReason.DomainMismatch}
  {
    hide ParseHost, Text.Trim, Before;
    MismatchIff(host, domain);
    forall port: u16, wsid
      ensures ReadHost(host, domain) == Ok((port, wsid)) <==>
              exists portText, spelled :: Spells(host, domain, port, wsid, portText, spelled)
    {
      ParsesIff(host, domain, port, wsid);
      if portText, spelled :| Spells(host, domain, port, wsid, portText, spelled) {
        var bare := Text.Trim(Before(host, 58));
        assert bare[|portText| + 1 + |wsid|] == 46;
      }
    }
  }

  lemma ReadHostReasons(host: Bytes, domain: Bytes)
    ensures ReadHost(host, domain).Err? ==> ReadHost(host, domain).error == ParseError ||
                                            ReadHost(host, domain).error == DenyReason.DomainMismatch
  {
  }

  /** What the last Upsert or Remove of a workspace in a stretch of operations leaves: registered or not. */
  function LastChange(ops: seq<Op>, wsid: Bytes): Option<bool> {
    if ops == [] then None
    else
      var last := ops[|ops| - 1];
      if last.wsid == wsid && last.Upsert? then Some(true)
      else if last.wsid == wsid && last.Remove? then Some(false)
      else LastChange(ops[..|ops| - 1], wsid)
  }

  lemma {:induction false} GuestAfter(before: seq<Op>, between: seq<Op>, wsid: Bytes)
    ensures GuestOf(before + between, wsid).Some? <==>
            match LastChange(between, wsid) case None => GuestOf(before, wsid).Some? case Some(known) => known
    decreases |between|
  {
    var ops := before + between;
    if between == [] {
      assert ops == before;
    } else {
      assert ops[..|ops| - 1] == before + between[..|between| - 1];
      GuestAfter(before, between[..|between| - 1], wsid);
    }
  }

  /** The exact condition for the reason, over every run that ends in a denial for a missing route: it is
      the reason at the resolve instant exactly when the last Upsert or Remove of the workspace between
      the two locks, if there is one, left it registered or unregistered as it was. */
  lemma ReasonIsExactIff(host: Bytes, domain: Bytes, history: seq<Op>, actions: seq<Action>)
    requires var w := Run(host, domain, World(history, Start), actions);
             w.router.Done? && (w.router.decision == Deny(UnknownWorkspace) || w.router.decision == Deny(UnexposedPort))
    ensures var w := Run(host, domain, World(history, Start), actions);
            && w.router.at <= w.router.end <= |w.history|
            && ReadHost(host, domain).Ok?
            && var (port, wsid) := ReadHost(host, domain).value;
            var atResolve, between := w.history[..w.router.at], w.history[w.router.at..w.router.end];
            && TargetOf(atResolve, wsid, port).None?
            && (w.router.decision == Deny(ExactReason(atResolve, wsid)) <==>
                  var change := LastChange(between, wsid);
                  change.Some? ==> change.value == GuestOf(atResolve, wsid).Some?)
  {
    hide Run;
    hide ReadHost;
    hide TargetOf;
    hide GuestOf;
    hide LastChange;
    RunKeepsInv(host, domain, history, actions);
    ReadHostReasons(host, domain);
    var w := Run(host, domain, World(history, Start), actions);
    var (port, wsid) := ReadHost(host, domain).value;
    var atResolve, between := w.history[..w.router.at], w.history[w.router.at..w.router.end];
    assert atResolve + between == w.history[..w.router.end];
    GuestAfter(atResolve, between, wsid);
  }

  /** With operations in between it need not be: the workspace here is unknown at the resolve instant
      and registered, with the port exposed, by the time of the second lock. */
  lemma ReasonCanBeStale(host: Bytes, domain: Bytes, ip: Ipv4)
    requires ReadHost(host, domain).Ok?
    ensures var (port, wsid) := ReadHost(host, domain).value;
            var register := Registry(Upsert(wsid, ip, [PortRoute(port, [])]));
            var w := Run(host, domain, World([], Start), [Step, register, Step]);
            && w.router == Done(Deny(UnexposedPort), 0, 1) && ExactReason([], wsid) == UnknownWorkspace
            && TargetOf(w.history, wsid, port) == Some(Target(ip, port, []))
  {
    hide ReadHost;
    var (port, wsid) := ReadHost(host, domain).value;
    var register := Registry(Upsert(wsid, ip, [PortRoute(port, [])]));
    var start := World([], Start);
    RunSnoc(host, domain, start, [], Step);
    RunSnoc(host, domain, start, [Step], register);
    RunSnoc(host, domain, start, [Step, register], Step);
    assert [] + [Step] == [Step] && [Step] + [register] == [Step, register];
    assert [Step, register] + [Step] == [Step, register, Step];
    var ops := [register.op];
    assert [] + [register.op] == ops && ops[..0] == [];
    TableGuest(ops, wsid);
  }

  lemma RunSnoc(host: Bytes, domain: Bytes, w: World, actions: seq<Action>, action: Action)
    ensures Run(host, domain, w, actions + [action]) == Next(host, domain, Run(host, domain, w, actions), action)
  {
    assert (actions + [action])[..|actions|] == actions;
  }
}
