/** Sessions taking tunnel addresses, routing to them and giving them back, in any interleaving. */
module Tunnel {
  import opened IpPoolSpec

  datatype Route = Route(peerAddress: string, session: nat)

  /**
   A session first leases an address, then registers the route; it unregisters the route before giving
   the address back.
   */
  datatype Phase = Idle | Leased(address: nat) | Routed(address: nat) | Unrouted(address: nat)

  datatype World = World(config: Config, pool: Pool, routes: map<nat, Route>, phases: map<nat, Phase>)

  datatype Move =
    | TakeLease(session: nat, identity: string, address: nat)
    | Register(session: nat, peerAddress: string)
    | Unregister(session: nat)
    | GiveBack(session: nat, now: nat)

  function PhaseOf(w: World, session: nat): Phase {
    if session in w.phases then w.phases[session] else Idle
  }

  predicate Holds(w: World, session: nat, a: nat) {
    var p := PhaseOf(w, session);
    !p.Idle? && p.address == a
  }

  ghost function Step(w: World, m: Move): World {
    match m
    case TakeLease(session, identity, address) =>
      if PhaseOf(w, session).Idle? && Chosen(w.config, w.pool, identity, address) then
        w.(pool := Commit(w.pool, address, identity), phases := w.phases[session := Leased(address)])
      else w
    case Register(session, peerAddress) =>
      var p := PhaseOf(w, session);
      if p.Leased? then
        w.(routes := if peerAddress != "" then w.routes[p.address := Route(peerAddress, session)] else w.routes,
           phases := w.phases[session := Routed(p.address)])
      else w
    case Unregister(session) =>
      var p := PhaseOf(w, session);
      if p.Routed? then w.(routes := w.routes - {p.address}, phases := w.phases[session := Unrouted(p.address)]) else w
    case GiveBack(session, now) =>
      var p := PhaseOf(w, session);
      if p.Unrouted? then w.(pool := Release(w.pool, p.address, now), phases := w.phases[session := Idle]) else w
  }

  ghost function Run(w: World, moves: seq<Move>): World {
    if |moves| == 0 then w else Step(Run(w, moves[..|moves| - 1]), moves[|moves| - 1])
  }

  function Start(config: Config): World {
    World(config, EmptyPool(), map[], map[])
  }

  /**
   Addresses in use are held by exactly one session each, and a route belongs to the session that holds
   its address.
   */
  ghost predicate Owned(w: World) {
    && Consistent(w.config, w.pool)
    && (forall s, a :: Holds(w, s, a) ==> a in w.pool.used)
    && (forall s, t, a :: Holds(w, s, a) && Holds(w, t, a) ==> s == t)
    && (forall a :: a in w.routes ==> PhaseOf(w, w.routes[a].session) == Routed(a))
  }

  lemma MovesOn(w: World, next: World, session: nat, phase: Phase)
    requires next.phases == w.phases[session := phase]
    ensures forall s, a {:trigger Holds(next, s, a)} :: Holds(next, s, a) <==> if s == session then
          !phase.Idle? && phase.address == a else Holds(w, s, a)
    ensures forall s {:trigger PhaseOf(next, s)} :: PhaseOf(next, s) == if s == session then phase else PhaseOf(w, s)
  {
  }

  lemma TakeKeeps(w: World, session: nat, identity: string, address: nat)
    requires Owned(w) && PhaseOf(w, session).Idle? && Chosen(w.config, w.pool, identity, address)
    ensures Owned(Step(w, TakeLease(session, identity, address)))
  {
    ChosenIsFree(w.config, w.pool, identity, address);
    CommitKeeps(w.config, w.pool, address, identity);
    assert Commit(w.pool, address, identity).used == w.pool.used + {address};
    MovesOn(w, Step(w, TakeLease(session, identity, address)), session, Leased(address));
    hide Consistent, Commit, Chosen, Holds, PhaseOf;
  }

  lemma GiveBackKeeps(w: World, session: nat, now: nat)
    requires Owned(w) && PhaseOf(w, session).Unrouted?
    ensures Owned(Step(w, GiveBack(session, now)))
  {
    var a := PhaseOf(w, session).address;
    ReleaseKeeps(w.config, w.pool, a, now);
    assert Release(w.pool, a, now).used == w.pool.used - {a};
    MovesOn(w, Step(w, GiveBack(session, now)), session, Idle);
    assert Holds(w, session, a);
    hide Consistent, Release, Holds;
  }

  lemma StepKeeps(w: World, m: Move)
    requires Owned(w)
    ensures Owned(Step(w, m)) && Step(w, m).config == w.config
  {
    match m
    case TakeLease(session, identity, address) =>
      if PhaseOf(w, session).Idle? &&
          Chosen(w.config, w.pool, identity, address) { TakeKeeps(w, session, identity, address); }
    case Register(session, peerAddress) => RegisterKeeps(w, session, peerAddress);
    case Unregister(session) => UnregisterKeeps(w, session);
    case GiveBack(session, now) =>
      if PhaseOf(w, session).Unrouted? { GiveBackKeeps(w, session, now); }
  }

  lemma RegisterKeeps(w: World, session: nat, peerAddress: string)
    requires Owned(w)
    ensures Owned(Step(w, Register(session, peerAddress)))
  {
    hide Consistent;
    var p := PhaseOf(w, session);
    if p.Leased? {
      assert Holds(w, session, p.address);
      MovesOn(w, Step(w, Register(session, peerAddress)), session, Routed(p.address));
      hide Holds;
    }
  }

  /** Unregistering removes no route but the session's own. */
  lemma UnregisterKeeps(w: World, session: nat)
    requires Owned(w)
    ensures Owned(Step(w, Unregister(session)))
    ensures forall a :: a in w.routes && a !in Step(w, Unregister(session)).routes ==> w.routes[a].session == session
  {
    hide Consistent;
    var p := PhaseOf(w, session);
    if p.Routed? {
      forall a | a in w.routes ensures Holds(w, w.routes[a].session, a) {}
      assert Holds(w, session, p.address);
      MovesOn(w, Step(w, Unregister(session)), session, Unrouted(p.address));
      hide Holds;
    }
  }

  lemma {:induction false} RunKeeps(config: Config, moves: seq<Move>)
    ensures Owned(Run(Start(config), moves)) && Run(Start(config), moves).config == config
    decreases |moves|
  {
    if |moves| > 0 {
      hide Owned, Step;
      RunKeeps(config, moves[..|moves| - 1]);
      StepKeeps(Run(Start(config), moves[..|moves| - 1]), moves[|moves| - 1]);
    }
  }

  /**
   Outstanding leases are client addresses, no two alike, and in net30 no two pairs overlap; the
   server's is never among them.
   */
  lemma LeasesApart(config: Config, moves: seq<Move>, s: nat, t: nat, a: nat, b: nat)
    requires var w := Run(Start(config), moves); Holds(w, s, a) && Holds(w, t, b) && s != t
    ensures IsClient(config, a) && IsClient(config, b) && a != b && a != config.server
    ensures config.topology == Net30 ==>
          a != b - 1 && a - 1 != b && a - 1 != b - 1 && config.server !in {a, a - 1, b, b - 1}
  {
    hide Run;
    RunKeeps(config, moves);
  }

  /**
   A route leads to the session that holds the address, so a source is only accepted from the session
   that leased it.
   */
  lemma RoutesLeadToHolders(config: Config, moves: seq<Move>, a: nat)
    ensures var w := Run(Start(config), moves);
            a in w.routes ==> Holds(w, w.routes[a].session, a) && forall s :: Holds(w, s, a) ==>
                s == w.routes[a].session
  {
    hide Run;
    RunKeeps(config, moves);
  }
}
