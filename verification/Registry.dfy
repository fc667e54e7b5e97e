/** The server's session registries and instance reservations. */
module RegistrySpec {
  import opened Bytes

  /** A session by its fields; `remote` is its UDP address, if it has one. */
  datatype Session = Session(
    peerAddress: string,
    peerID: Option<nat>,
    identity: string,
    remote: Option<string>,
    certificate: nat,
    reserved: bool)

  /** Sessions are known by numbers; `loose` counts reservations not yet given to a session. */
  datatype Server = Server(
    maxClients: nat,
    sessions: map<nat, Session>,
    byPeer: map<string, nat>,
    byPeerID: map<nat, nat>,
    byIdentity: map<string, nat>,
    udp: map<string, nat>,
    initial: map<string, nat>,
    instances: nat,
    loose: nat)

  function Fresh(maxClients: nat): Server {
    Server(maxClients, map[], map[], map[], map[], map[], map[], 0, 0)
  }

  predicate Listed(s: Server, id: nat) {
    id in s.sessions && s.sessions[id].peerAddress in s.byPeer && s.byPeer[s.sessions[id].peerAddress] == id
  }

  function Dropped<K>(m: map<K, nat>, id: nat): map<K, nat> {
    map k | k in m && m[k] != id :: m[k]
  }

  function WithoutOwn<K>(m: map<K, nat>, key: K, id: nat): map<K, nat> {
    if key in m && m[key] == id then m - {key} else m
  }

  /** Takes a session out of every registry. */
  function Evict(s: Server, id: nat): Server {
    if id !in s.sessions then s
    else
      var x := s.sessions[id];
      s.(byPeer := WithoutOwn(s.byPeer, x.peerAddress, id),
         byPeerID := if x.peerID.Some? then WithoutOwn(s.byPeerID, x.peerID.value, id) else s.byPeerID,
         byIdentity := if x.identity != "" then WithoutOwn(s.byIdentity, x.identity, id) else s.byIdentity,
         udp := Dropped(s.udp, id),
         initial := Dropped(s.initial, id))
  }

  function Bind(s: Server, id: nat, peerAddress: string): Server
    requires id in s.sessions
  {
    s.(sessions := s.sessions[id := s.sessions[id].(peerAddress := peerAddress)], byPeer := s.byPeer[peerAddress := id])
  }

  /** A new session, which no registry knows. */
  function Create(s: Server, id: nat, remote: Option<string>, certificate: nat): Server {
    if id in s.sessions then s
    else s.(sessions := s.sessions[id := Session("", None, "", remote, certificate, false)])
  }

  /** Another session has the name. */
  predicate OtherHas(m: map<string, nat>, name: string, id: nat) {
    name in m && m[name] != id
  }

  /** `name` is the address the session is bound to, one that no other session has. */
  function Register(s: Server, id: nat, name: string): Server {
    if id !in s.sessions || OtherHas(s.byPeer, name, id) then s
    else
      var remote := s.sessions[id].remote;
      if remote.Some? && OtherHas(s.udp, remote.value, id) then s
      else
        var bound := Bind(s, id, name);
        if remote.Some? then bound.(udp := bound.udp[remote.value := id]) else bound
  }

  /** The server once the session in the initial slot of the address has gone. */
  function Vacated(s: Server, id: nat, address: string): Server {
    if OtherHas(s.initial, address, id) then Evict(s, s.initial[address]) else s
  }

  /** The newest session takes over the initial slot of its address. */
  function RegisterInitial(s: Server, id: nat, name: string): Server {
    if id !in s.sessions || s.sessions[id].remote.None? then s
    else
      var address := s.sessions[id].remote.value;
      var cleared := Vacated(s, id, address);
      if OtherHas(cleared.byPeer, name, id) then s
      else
        var bound := Bind(cleared, id, name);
        bound.(initial := bound.initial[address := id])
  }

  /** One session's reservation goes to another. */
  function Passed(s: Server, from: nat, to: nat): Server
    requires from in s.sessions && to in s.sessions
  {
    var mine, theirs := s.sessions[to].(reserved := s.sessions[from].reserved), s.sessions[from].(reserved := false);
    s.(sessions := s.sessions[to := mine][from := theirs])
  }

  /** A session in the initial slot displaces the one that serves its address, and takes over its reservation. */
  function Promote(s: Server, id: nat): Server {
    if id !in s.sessions || s.sessions[id].remote.None? then s
    else
      var address := s.sessions[id].remote.value;
      if address !in s.initial || s.initial[address] != id then s
      else
        var moved := s.(initial := s.initial - {address});
        if address in s.udp && s.udp[address] != id && s.udp[address] in s.sessions then
          var other := s.udp[address];
          var cleared := Evict(moved, other);
          var passed := Passed(cleared, other, id);
          passed.(udp := passed.udp[address := id])
        else moved.(udp := moved.udp[address := id])
  }

  function Reserve(s: Server): Server {
    if s.instances >= s.maxClients then s else s.(instances := s.instances + 1, loose := s.loose + 1)
  }

  function ReleaseLoose(s: Server): Server {
    if s.loose == 0 || s.instances == 0 then s else s.(instances := s.instances - 1, loose := s.loose - 1)
  }

  predicate Initial(s: Server, id: nat) {
    exists a :: a in s.initial && s.initial[a] == id
  }

  /** The listener gives its reservation to the session it made; a promoted session fetches one for itself. */
  ghost function Store(s: Server, id: nat): Server {
    if id !in s.sessions || s.sessions[id].reserved || s.loose == 0 || Initial(s, id) then s
    else s.(loose := s.loose - 1, sessions := s.sessions[id := s.sessions[id].(reserved := true)])
  }

  function ReleaseReservation(s: Server, id: nat): Server {
    if id !in s.sessions || !s.sessions[id].reserved || s.instances == 0 then s
    else s.(instances := s.instances - 1, sessions := s.sessions[id := s.sessions[id].(reserved := false)])
  }

  /** A session is given one identity, and the newest session with it owns it. */
  function RegisterIdentity(s: Server, id: nat, identity: string, duplicates: bool): Server {
    if id !in s.sessions || s.sessions[id].identity != "" || identity == "" then s
    else
      var named := s.(sessions := s.sessions[id := s.sessions[id].(identity := identity)]);
      if !duplicates && Listed(s, id) then named.(byIdentity := named.byIdentity[identity := id]) else named
  }

  function EnablePeerID(s: Server, id: nat, peerID: nat): Server {
    if !Listed(s, id) || s.sessions[id].peerID.Some? || peerID >= s.maxClients || peerID in s.byPeerID then s
    else s.(sessions := s.sessions[id := s.sessions[id].(peerID := Some(peerID))], byPeerID := s.byPeerID[peerID := id])
  }

  /** Another session has the address. */
  predicate TakenBy(s: Server, id: nat, address: string) {
    address in s.udp && s.udp[address] != id && s.udp[address] in s.sessions
  }

  /** A listed session may move, unless a session of another client has the address. */
  predicate MayFloat(s: Server, id: nat, address: string) {
    && Listed(s, id)
    && (s.sessions[id].peerID.Some? ==>
          s.sessions[id].peerID.value in s.byPeerID && s.byPeerID[s.sessions[id].peerID.value] == id)
    && (TakenBy(s, id, address) ==> s.sessions[s.udp[address]].certificate == s.sessions[id].certificate)
  }

  /** A session moves to the address its packets come from, displacing a session of the same client there. */
  function Float(s: Server, id: nat, address: string): Server {
    if !MayFloat(s, id, address) then s
    else
      var cleared := if TakenBy(s, id, address) then Evict(s, s.udp[address]) else s;
      cleared.(udp := Dropped(cleared.udp, id)[address := id],
               sessions := cleared.sessions[id := cleared.sessions[id].(remote := Some(address))])
  }

  // ---- What every step keeps ---------------------------------------------

  ghost predicate PeersKept(s: Server) {
    forall a :: a in s.byPeer ==>
      s.byPeer[a] in s.sessions && s.sessions[s.byPeer[a]].peerAddress == a
  }

  ghost predicate PeerIDsKept(s: Server) {
    forall p :: p in s.byPeerID ==>
        Listed(s, s.byPeerID[p]) && p < s.maxClients && s.sessions[s.byPeerID[p]].peerID == Some(p)
  }

  ghost predicate IdentitiesKept(s: Server) {
    forall i :: i in s.byIdentity ==> Listed(s, s.byIdentity[i]) && i != "" && s.sessions[s.byIdentity[i]].identity == i
  }

  ghost predicate AddressesKept(s: Server) {
    forall a :: a in s.udp ==> Listed(s, s.udp[a]) && s.sessions[s.udp[a]].remote == Some(a)
  }

  ghost predicate InitialsKept(s: Server) {
    && (forall a :: a in s.initial ==> Listed(s, s.initial[a]) && !s.sessions[s.initial[a]].reserved)
    && (forall a, b :: a in s.initial && b in s.initial && s.initial[a] == s.initial[b] ==> a == b)
  }

  /** Whoever is in any registry is in the main one under its own address. */
  ghost predicate Registered(s: Server) {
    PeersKept(s) && PeerIDsKept(s) && IdentitiesKept(s) && AddressesKept(s) && InitialsKept(s)
  }

  function Holders(s: Server): set<nat> {
    set id | id in s.sessions && s.sessions[id].reserved
  }

  /** Every instance counted is a reservation somebody holds. */
  ghost predicate Counted(s: Server) {
    s.instances == |Holders(s)| + s.loose && s.instances <= s.maxClients
  }

  datatype Move =
    | CreateSession(id: nat, remote: Option<string>, certificate: nat)
    | RegisterSession(id: nat, name: string)
    | RegisterInitialSession(id: nat, name: string)
    | PromoteSession(id: nat)
    | SetIdentity(id: nat, identity: string, duplicates: bool)
    | SetPeerID(id: nat, peerID: nat)
    | FloatSession(id: nat, address: string)
    | EvictSession(id: nat)
    | ReserveInstance
    | DropReservation
    | StoreReservation(id: nat)
    | FinishReservation(id: nat)

  ghost function Step(s: Server, m: Move): Server {
    match m
    case CreateSession(id, remote, certificate) => Create(s, id, remote, certificate)
    case RegisterSession(id, name) => Register(s, id, name)
    case RegisterInitialSession(id, name) => RegisterInitial(s, id, name)
    case PromoteSession(id) => Promote(s, id)
    case SetIdentity(id, identity, duplicates) => RegisterIdentity(s, id, identity, duplicates)
    case SetPeerID(id, peerID) => EnablePeerID(s, id, peerID)
    case FloatSession(id, address) => Float(s, id, address)
    case EvictSession(id) => Evict(s, id)
    case ReserveInstance => Reserve(s)
    case DropReservation => ReleaseLoose(s)
    case StoreReservation(id) => Store(s, id)
    case FinishReservation(id) => ReleaseReservation(s, id)
  }

  ghost function Run(s: Server, moves: seq<Move>): Server {
    if |moves| == 0 then s else Step(Run(s, moves[..|moves| - 1]), moves[|moves| - 1])
  }

  predicate Enters(m: Move, id: nat) {
    (m.RegisterSession? || m.RegisterInitialSession?) && m.id == id
  }

  /** The call changes nothing, because the session, the name or the address is not to be had. */
  predicate Refuses(s: Server, id: nat, name: string) {
    || id !in s.sessions || OtherHas(s.byPeer, name, id)
    || (s.sessions[id].remote.Some? && OtherHas(s.udp, s.sessions[id].remote.value, id))
  }

  predicate RefusesInitial(s: Server, id: nat, name: string) {
    || id !in s.sessions || s.sessions[id].remote.None?
    || OtherHas(Vacated(s, id, s.sessions[id].remote.value).byPeer, name, id)
  }

  /** The session would be listed under a second name. */
  predicate Renames(s: Server, id: nat, name: string) {
    Listed(s, id) && name != s.sessions[id].peerAddress
  }

  predicate OtherSlot(s: Server, id: nat, address: string) {
    exists a :: a in s.initial && s.initial[a] == id && a != address
  }

  /**
   Registering does not give a session a second name, a second initial slot, or an initial slot beside
   a reservation.
   */
  predicate EntersWell(s: Server, m: Move) {
    match m
    case RegisterSession(id, name) => Refuses(s, id, name) || !Renames(s, id, name)
    case RegisterInitialSession(id, name) =>
      || RefusesInitial(s, id, name)
      || (!Renames(s, id, name) && !s.sessions[id].reserved && !OtherSlot(s, id, s.sessions[id].remote.value))
    case _ => true
  }

  ghost predicate AllEnterWell(s: Server, moves: seq<Move>) {
    |moves| == 0 || (AllEnterWell(s, moves[..|moves| - 1]) &&
        EntersWell(Run(s, moves[..|moves| - 1]), moves[|moves| - 1]))
  }

  /**
   What the listeners see to: no session is registered while it is listed, nor for the initial slot
   with a reservation.
   */
  predicate EntersOnce(s: Server, m: Move) {
    && (m.RegisterSession? || m.RegisterInitialSession? ==> !Listed(s, m.id))
    && (m.RegisterInitialSession? && m.id in s.sessions ==> !s.sessions[m.id].reserved)
  }
}

module RegistrySafety {
  import opened Bytes
  import opened RegistrySpec

  /** Only session `id` and its place in the main registry may differ. */
  ghost predicate Elsewhere(s: Server, next: Server, id: nat) {
    && next.maxClients == s.maxClients
    && (forall other :: other in s.sessions && other != id ==>
          other in next.sessions && next.sessions[other] == s.sessions[other])
    && (forall other :: other != id && Listed(s, other) ==> Listed(next, other))
  }

  lemma EvictPeers(s: Server, id: nat)
    requires PeersKept(s)
    ensures PeersKept(Evict(s, id)) && Elsewhere(s, Evict(s, id), id)
    ensures id in s.sessions ==> forall a :: a in Evict(s, id).byPeer ==> Evict(s, id).byPeer[a] != id
  {
    hide Dropped;
  }

  lemma EvictPeerIDs(s: Server, id: nat)
    requires PeersKept(s) && PeerIDsKept(s) && id in s.sessions
    ensures PeerIDsKept(Evict(s, id))
  {
    EvictPeers(s, id);
    hide Listed, Dropped, PeersKept;
  }

  lemma EvictIdentities(s: Server, id: nat)
    requires PeersKept(s) && IdentitiesKept(s) && id in s.sessions
    ensures IdentitiesKept(Evict(s, id))
  {
    EvictPeers(s, id);
    hide Listed, Dropped, PeersKept;
  }

  lemma EvictAddresses(s: Server, id: nat)
    requires PeersKept(s) && AddressesKept(s) && InitialsKept(s) && id in s.sessions
    ensures AddressesKept(Evict(s, id)) && InitialsKept(Evict(s, id))
  {
    EvictPeers(s, id);
    hide Listed, WithoutOwn, PeersKept;
  }

  lemma EvictKeeps(s: Server, id: nat)
    requires Registered(s)
    ensures Registered(Evict(s, id)) && Elsewhere(s, Evict(s, id), id)
  {
    hide PeersKept, PeerIDsKept, IdentitiesKept, AddressesKept, InitialsKept, Elsewhere;
    EvictPeers(s, id);
    if id in s.sessions {
      hide Evict;
      EvictPeerIDs(s, id);
      EvictIdentities(s, id);
      EvictAddresses(s, id);
    }
  }

  lemma BindElsewhere(s: Server, id: nat, name: string)
    requires PeersKept(s) && id in s.sessions && !Listed(s, id) && name !in s.byPeer
    ensures Elsewhere(s, Bind(s, id, name), id) && Listed(Bind(s, id, name), id) && PeersKept(Bind(s, id, name))
  {
    assert forall a :: a in s.byPeer ==> s.byPeer[a] != id;
  }

  lemma BindKeeps(s: Server, id: nat, name: string)
    requires Registered(s) && id in s.sessions && !Listed(s, id) && name !in s.byPeer
    ensures Registered(Bind(s, id, name)) && Elsewhere(s, Bind(s, id, name), id) && Listed(Bind(s, id, name), id)
  {
    BindElsewhere(s, id, name);
    hide Listed, PeersKept;
  }

  /** A session that is not listed has no name and no slot. */
  lemma UnlistedHasNone(s: Server, id: nat)
    requires Registered(s) && !Listed(s, id)
    ensures forall a :: (a in s.byPeer ==> s.byPeer[a] != id) && (a in s.initial ==> s.initial[a] != id)
  {
  }

  lemma BindsOwnName(s: Server, id: nat)
    requires Listed(s, id)
    ensures Bind(s, id, s.sessions[id].peerAddress) == s
  {
  }

  /** A second name leaves the first one pointing at a session that no longer has it. */
  lemma SecondName(s: Server, id: nat, name: string, next: Server)
    requires Renames(s, id, name) && next.byPeer == Bind(s, id, name).byPeer
    requires next.sessions == Bind(s, id, name).sessions
    ensures !PeersKept(next)
  {
    var first := s.sessions[id].peerAddress;
    assert first in next.byPeer && next.byPeer[first] == id && next.sessions[id].peerAddress == name;
  }

  /** The registries agree after a registration exactly when it was refused or gives no second name. */
  lemma RegisterExactly(s: Server, id: nat, name: string)
    requires Registered(s)
    ensures Registered(Register(s, id, name)) <==> Refuses(s, id, name) || !Renames(s, id, name)
  {
    if !Refuses(s, id, name) {
      var remote := s.sessions[id].remote;
      if Renames(s, id, name) {
        SecondName(s, id, name, Register(s, id, name));
      } else {
        if Listed(s, id) {
          BindsOwnName(s, id);
        } else {
          UnlistedHasNone(s, id);
          BindKeeps(s, id, name);
        }
        var bound := Bind(s, id, name);
        hide Registered;
        if remote.Some? { AddressAdded(bound, id, remote.value); }
      }
    }
  }

  lemma AddressAdded(s: Server, id: nat, address: string)
    requires Registered(s) && Listed(s, id) && s.sessions[id].remote == Some(address)
    ensures Registered(s.(udp := s.udp[address := id]))
  {
  }

  /** Taking the initial slot from another session leaves this one as it was. */
  lemma VacatedKeeps(s: Server, id: nat, address: string)
    requires Registered(s)
    ensures var cleared := Vacated(s, id, address);
            && Registered(cleared) && cleared.sessions == s.sessions && (Listed(cleared, id) <==> Listed(s, id))
            && (OtherSlot(cleared, id, address) <==> OtherSlot(s, id, address))
  {
    if OtherHas(s.initial, address, id) {
      var other := s.initial[address];
      EvictKeeps(s, other);
      EvictKeepsSessions(s, other);
      EvictKeepsSlots(s, other, id, address);
      hide Registered, Evict, OtherSlot;
      assert Listed(s, id) ==> Listed(Evict(s, other), id);
    }
  }

  lemma EvictKeepsSlots(s: Server, other: nat, id: nat, address: string)
    requires id != other
    ensures OtherSlot(Evict(s, other), id, address) <==> OtherSlot(s, id, address)
  {
    hide WithoutOwn;
    if other in s.sessions {
      var next := Evict(s, other);
      forall a ensures (a in next.initial && next.initial[a] == id) <==> (a in s.initial && s.initial[a] == id) {}
    }
  }

  lemma EvictKeepsSessions(s: Server, id: nat)
    ensures Evict(s, id).sessions == s.sessions
    ensures forall a :: a in Evict(s, id).byPeer ==> a in s.byPeer && Evict(s, id).byPeer[a] == s.byPeer[a]
  {
    hide Dropped;
  }

  /** A listed session can be put into an initial slot exactly when it holds no reservation and no other slot. */
  lemma InitialAdded(s: Server, id: nat, address: string)
    requires Registered(s) && Listed(s, id)
    ensures Registered(s.(initial := s.initial[address := id])) <==>
          !s.sessions[id].reserved && !OtherSlot(s, id, address)
  {
    var next := s.(initial := s.initial[address := id]);
    assert address in next.initial && next.initial[address] == id;
    if OtherSlot(s, id, address) {
      var a :| a in s.initial && s.initial[a] == id && a != address;
      assert a in next.initial && next.initial[a] == id;
    }
    assert forall other :: Listed(next, other) <==> Listed(s, other);
    hide Listed, PeerIDsKept, IdentitiesKept, AddressesKept;
  }

  /** The same for the initial slot. */
  lemma RegisterInitialExactly(s: Server, id: nat, name: string)
    requires Registered(s)
    ensures Registered(RegisterInitial(s, id, name)) <==>
            || RefusesInitial(s, id, name)
            || (!Renames(s, id, name) && !s.sessions[id].reserved && !OtherSlot(s, id, s.sessions[id].remote.value))
  {
    if !RefusesInitial(s, id, name) {
      var address := s.sessions[id].remote.value;
      var cleared := Vacated(s, id, address);
      VacatedKeeps(s, id, address);
      hide Vacated, OtherSlot;
      var bound := Bind(cleared, id, name);
      assert RegisterInitial(s, id, name) ==
          bound.(initial := bound.initial[address := id]) by { InitialIs(s, id, name); }
      hide RegisterInitial;
      if Renames(s, id, name) {
        SecondName(cleared, id, name, RegisterInitial(s, id, name));
      } else {
        EntersListed(cleared, id, name);
        SameSlots(cleared, bound, id, address);
        hide Registered, Bind;
        InitialAdded(bound, id, address);
      }
    }
  }

  lemma InitialIs(s: Server, id: nat, name: string)
    requires !RefusesInitial(s, id, name)
    ensures var address := s.sessions[id].remote.value;
            var cleared := Vacated(s, id, address);
            && id in cleared.sessions
            && RegisterInitial(s, id, name) ==
               var bound := Bind(cleared, id, name); bound.(initial := bound.initial[address := id])
  {
    var address := s.sessions[id].remote.value;
    if address in s.initial { EvictKeepsSessions(s, s.initial[address]); }
    hide Evict;
  }

  lemma EntersListed(s: Server, id: nat, name: string)
    requires Registered(s) && id in s.sessions && !Renames(s, id, name) && !OtherHas(s.byPeer, name, id)
    ensures var bound := Bind(s, id, name);
            && Registered(bound) && Listed(bound, id) && bound.initial == s.initial
            && bound.sessions[id].reserved == s.sessions[id].reserved
  {
    if Listed(s, id) {
      BindsOwnName(s, id);
    } else {
      UnlistedHasNone(s, id);
      BindKeeps(s, id, name);
    }
    hide Registered;
  }

  lemma SameSlots(s: Server, next: Server, id: nat, address: string)
    requires next.initial == s.initial
    ensures OtherSlot(next, id, address) <==> OtherSlot(s, id, address)
  {
  }

  /** What the listeners see to is enough. */
  lemma ListenersEnterWell(s: Server, m: Move)
    requires Registered(s) && EntersOnce(s, m)
    ensures EntersWell(s, m)
  {
    hide Evict;
    if m.RegisterInitialSession? { UnlistedHasNone(s, m.id); }
  }

  /** Changing a session's fields is harmless as long as the registries that know it agree. */
  lemma UpdateKeeps(s: Server, id: nat, x: Session)
    requires Registered(s) && id in s.sessions
    requires x.peerAddress == s.sessions[id].peerAddress
    requires forall p :: p in s.byPeerID && s.byPeerID[p] == id ==> x.peerID == Some(p)
    requires forall i :: i in s.byIdentity && s.byIdentity[i] == id ==> x.identity == i
    requires forall a :: a in s.udp && s.udp[a] == id ==> x.remote == Some(a)
    requires forall a :: a in s.initial && s.initial[a] == id ==> !x.reserved
    ensures var next := s.(sessions := s.sessions[id := x]);
            Registered(next) && forall other :: Listed(next, other) <==> Listed(s, other)
  {
    hide Listed, PeersKept;
    UpdateListed(s, id, x);
  }

  lemma UpdateListed(s: Server, id: nat, x: Session)
    requires PeersKept(s) && id in s.sessions
    requires x.peerAddress == s.sessions[id].peerAddress
    ensures var next := s.(sessions := s.sessions[id := x]);
            PeersKept(next) && forall other :: Listed(next, other) <==> Listed(s, other)
  {
  }

  lemma IdentityAdded(s: Server, id: nat, identity: string)
    requires Registered(s) && Listed(s, id) && identity != "" && s.sessions[id].identity == identity
    ensures Registered(s.(byIdentity := s.byIdentity[identity := id]))
  {
  }

  lemma IdentityKeeps(s: Server, id: nat, identity: string, duplicates: bool)
    requires Registered(s)
    ensures Registered(RegisterIdentity(s, id, identity, duplicates))
  {
    if id in s.sessions && s.sessions[id].identity == "" && identity != "" {
      var x := s.sessions[id].(identity := identity);
      UpdateKeeps(s, id, x);
      var named := s.(sessions := s.sessions[id := x]);
      hide Registered;
      if !duplicates && Listed(s, id) {
        assert Listed(named, id);
        IdentityAdded(named, id, identity);
      }
    }
  }

  lemma PeerIDAdded(s: Server, id: nat, peerID: nat)
    requires Registered(s) && Listed(s, id) && peerID < s.maxClients && s.sessions[id].peerID == Some(peerID)
    ensures Registered(s.(byPeerID := s.byPeerID[peerID := id]))
  {
  }

  lemma PeerIDKeeps(s: Server, id: nat, peerID: nat)
    requires Registered(s)
    ensures Registered(EnablePeerID(s, id, peerID))
  {
    if Listed(s, id) && s.sessions[id].peerID.None? && peerID < s.maxClients {
      var x := s.sessions[id].(peerID := Some(peerID));
      UpdateKeeps(s, id, x);
      hide Registered;
      var named := s.(sessions := s.sessions[id := x]);
      assert Listed(named, id);
      PeerIDAdded(named, id, peerID);
    }
  }

  lemma AddressesDropped(s: Server, id: nat)
    requires Registered(s)
    ensures Registered(s.(udp := Dropped(s.udp, id)))
  {
  }

  lemma FloatKeeps(s: Server, id: nat, address: string)
    requires Registered(s)
    ensures Registered(Float(s, id, address))
  {
    if Float(s, id, address) != s && Listed(s, id) {
      hide Registered, Evict;
      var taken := address in s.udp && s.udp[address] != id && s.udp[address] in s.sessions;
      var cleared := if taken then Evict(s, s.udp[address]) else s;
      if taken { EvictKeeps(s, s.udp[address]); }
      assert Listed(cleared, id) && cleared.sessions[id] == s.sessions[id];
      MovedKeeps(cleared, id, address);
    }
  }

  lemma MovedKeeps(s: Server, id: nat, address: string)
    requires Registered(s) && Listed(s, id)
    ensures Registered(s.(udp := Dropped(s.udp, id)[address := id],
          sessions := s.sessions[id := s.sessions[id].(remote := Some(address))]))
  {
    var unbound, x := s.(udp := Dropped(s.udp, id)), s.sessions[id].(remote := Some(address));
    AddressesDropped(s, id);
    UpdateKeeps(unbound, id, x);
    var moved := unbound.(sessions := s.sessions[id := x]);
    hide Registered;
    assert Listed(moved, id);
    AddressAdded(moved, id, address);
  }

  lemma InitialRemoved(s: Server, address: string)
    requires Registered(s)
    ensures var next := s.(initial := s.initial - {address});
            Registered(next) && forall id :: Listed(next, id) <==> Listed(s, id)
  {
  }

  lemma PromoteKeeps(s: Server, id: nat)
    requires Registered(s)
    ensures Registered(Promote(s, id))
  {
    if id in s.sessions && s.sessions[id].remote.Some? {
      var address := s.sessions[id].remote.value;
      if address in s.initial && s.initial[address] == id {
        InitialRemoved(s, address);
        assert Listed(s, id);
        var moved := s.(initial := s.initial - {address});
        assert forall a :: a in moved.initial ==> moved.initial[a] != id;
        hide Registered, Evict;
        assert Listed(moved, id);
        if address in s.udp && s.udp[address] != id && s.udp[address] in s.sessions {
          EvictKeeps(moved, s.udp[address]);
          TransferKeeps(moved, id, s.udp[address], address);
        } else {
          AddressAdded(moved, id, address);
        }
      }
    }
  }

  lemma TransferKeeps(s: Server, id: nat, other: nat, address: string)
    requires Registered(s) && Listed(s, id) && id != other && other in s.sessions
    requires s.sessions[id].remote == Some(address)
    requires forall a :: a in s.initial ==> s.initial[a] != id
    ensures var cleared := Evict(s, other);
            && id in cleared.sessions && other in cleared.sessions
            && var passed := Passed(cleared, other, id);
               Registered(passed.(udp := passed.udp[address := id]))
  {
    EvictKeeps(s, other);
    var cleared := Evict(s, other);
    assert Listed(cleared, id);
    NotInitial(s, id, other);
    hide Evict, Dropped, WithoutOwn;
    var x, y := cleared.sessions[id].(reserved := cleared.sessions[other].reserved),
        cleared.sessions[other].(reserved := false);
    UpdateKeeps(cleared, id, x);
    var taken := cleared.(sessions := cleared.sessions[id := x]);
    UpdateKeeps(taken, other, y);
    var passed := taken.(sessions := taken.sessions[other := y]);
    hide Registered;
    assert Listed(passed, id);
    AddressAdded(passed, id, address);
  }

  lemma NotInitial(s: Server, id: nat, other: nat)
    requires other in s.sessions && forall a :: a in s.initial ==> s.initial[a] != id
    ensures forall a :: a in Evict(s, other).initial ==> Evict(s, other).initial[a] != id
  {
  }

  // ---- Reservations ------------------------------------------------------

  lemma SameHolders(s: Server, next: Server)
    requires forall id :: (id in s.sessions && s.sessions[id].reserved) <==>
          (id in next.sessions && next.sessions[id].reserved)
    ensures Holders(next) == Holders(s)
  {
  }

  lemma EvictCounts(s: Server, id: nat)
    ensures var next := Evict(s, id);
            && Holders(next) == Holders(s) && next.instances == s.instances && next.loose == s.loose &&
                  next.maxClients == s.maxClients
            && (forall other :: other in s.sessions ==>
                  other in next.sessions && next.sessions[other].reserved == s.sessions[other].reserved)
  {
    SameHolders(s, Evict(s, id));
  }

  lemma RegisterCounts(s: Server, id: nat, name: string)
    requires Counted(s)
    ensures Counted(Register(s, id, name))
  {
    hide Holders;
    if Register(s, id, name) != s {
      var x := s.sessions[id].(peerAddress := name);
      FieldsCount(s, id, x);
      SameCount(s.(sessions := s.sessions[id := x]), Register(s, id, name));
    }
  }

  lemma RegisterInitialCounts(s: Server, id: nat, name: string)
    requires Counted(s)
    ensures Counted(RegisterInitial(s, id, name))
  {
    hide Evict, Holders;
    if id in s.sessions && s.sessions[id].remote.Some? {
      var address := s.sessions[id].remote.value;
      var cleared := if OtherHas(s.initial, address, id) then Evict(s, s.initial[address]) else s;
      if address in s.initial { EvictCounts(s, s.initial[address]); }
      SameHolders(cleared, Bind(cleared, id, name));
      if RegisterInitial(s, id, name) != s {
        SameCount(Bind(cleared, id, name), RegisterInitial(s, id, name));
      }
    }
  }

  lemma SameCount(s: Server, next: Server)
    requires next.sessions == s.sessions
    ensures Holders(next) == Holders(s)
  {
  }

  lemma FloatCounts(s: Server, id: nat, address: string)
    requires Counted(s)
    ensures Counted(Float(s, id, address))
  {
    if address in s.udp { EvictCounts(s, s.udp[address]); }
    hide Evict;
    SameHolders(s, Float(s, id, address));
  }

  lemma PromoteCounts(s: Server, id: nat)
    requires Registered(s) && Counted(s)
    ensures Counted(Promote(s, id))
  {
    hide Evict, Holders;
    if id in s.sessions && s.sessions[id].remote.Some? {
      var address := s.sessions[id].remote.value;
      if address in s.initial && s.initial[address] == id {
        assert !s.sessions[id].reserved by { assert InitialsKept(s); }
        hide Registered;
        var moved, next := s.(initial := s.initial - {address}), Promote(s, id);
        SameCount(s, moved);
        if address in s.udp && s.udp[address] != id && s.udp[address] in s.sessions {
          EvictCounts(moved, s.udp[address]);
          TransferCounts(Evict(moved, s.udp[address]), next, id, s.udp[address]);
        } else {
          SameCount(moved, next);
        }
      }
    }
  }

  lemma TransferCounts(s: Server, next: Server, id: nat, other: nat)
    requires id in s.sessions && other in s.sessions && id != other && !s.sessions[id].reserved
    requires next.sessions == Passed(s, other, id).sessions
    ensures |Holders(next)| == |Holders(s)|
  {
    var before, after := Holders(s), Holders(next);
    assert after == if other in before then before - {other} + {id} else before;
    hide Holders;
    Swapped(before, after, id, other);
  }

  lemma Swapped(before: set<nat>, after: set<nat>, id: nat, other: nat)
    requires id !in before && id != other && after == if other in before then before - {other} + {id} else before
    ensures |after| == |before|
  {
  }

  lemma StoreCounts(s: Server, id: nat)
    requires Counted(s)
    ensures Counted(Store(s, id))
  {
    var next := Store(s, id);
    if next != s {
      assert Holders(next) == Holders(s) + {id} && id !in Holders(s);
      hide Store, Holders;
    }
  }

  lemma ReleaseCounts(s: Server, id: nat)
    requires Counted(s)
    ensures Counted(ReleaseReservation(s, id))
  {
    var next := ReleaseReservation(s, id);
    if next != s {
      assert Holders(next) == Holders(s) - {id} && id in Holders(s);
      hide Holders;
    }
  }

  lemma FieldsCount(s: Server, id: nat, x: Session)
    requires id in s.sessions && x.reserved == s.sessions[id].reserved
    ensures Holders(s.(sessions := s.sessions[id := x])) == Holders(s)
  {
    SameHolders(s, s.(sessions := s.sessions[id := x]));
  }

  lemma NamesCount(s: Server, id: nat, identity: string, duplicates: bool, peerID: nat)
    requires Counted(s)
    ensures Counted(RegisterIdentity(s, id, identity, duplicates)) && Counted(EnablePeerID(s, id, peerID))
  {
    hide Holders;
    if id in s.sessions {
      var x, y := s.sessions[id].(identity := identity), s.sessions[id].(peerID := Some(peerID));
      FieldsCount(s, id, x);
      FieldsCount(s, id, y);
      if RegisterIdentity(s, id, identity, duplicates) != s {
        SameCount(s.(sessions := s.sessions[id := x]), RegisterIdentity(s, id, identity, duplicates));
      }
      if EnablePeerID(s, id, peerID) != s {
        SameCount(s.(sessions := s.sessions[id := y]), EnablePeerID(s, id, peerID));
      }
    }
  }

  lemma CreateCounts(s: Server, id: nat, remote: Option<string>, certificate: nat)
    requires Counted(s)
    ensures Counted(Create(s, id, remote, certificate))
  {
    var next := Create(s, id, remote, certificate);
    if id !in s.sessions {
      assert forall other :: other in next.sessions <==> other in s.sessions || other == id;
      SameHolders(s, next);
    }
  }

  lemma LooseCounts(s: Server, next: Server)
    requires Counted(s) && (next == Reserve(s) || next == ReleaseLoose(s))
    ensures Counted(next)
  {
    hide Holders;
    SameCount(s, next);
  }

  lemma StepCounts(s: Server, m: Move)
    requires Registered(s) && Counted(s)
    ensures Counted(Step(s, m))
  {
    hide Registered, Counted, Create, Register, RegisterInitial, Promote, RegisterIdentity, EnablePeerID, Float, Evict;
    hide Reserve, ReleaseLoose, Store, ReleaseReservation;
    match m
    case CreateSession(id, remote, certificate) => CreateCounts(s, id, remote, certificate);
    case RegisterSession(id, name) => RegisterCounts(s, id, name);
    case RegisterInitialSession(id, name) => RegisterInitialCounts(s, id, name);
    case PromoteSession(id) => PromoteCounts(s, id);
    case SetIdentity(id, identity, duplicates) => NamesCount(s, id, identity, duplicates, 0);
    case SetPeerID(id, peerID) => NamesCount(s, id, "", false, peerID);
    case FloatSession(id, address) => FloatCounts(s, id, address);
    case EvictSession(id) => EvictIsCounted(s, id);
    case ReserveInstance => LooseCounts(s, Reserve(s));
    case DropReservation => LooseCounts(s, ReleaseLoose(s));
    case StoreReservation(id) => StoreCounts(s, id);
    case FinishReservation(id) => ReleaseCounts(s, id);
  }

  lemma EvictIsCounted(s: Server, id: nat)
    requires Counted(s)
    ensures Counted(Evict(s, id))
  {
    hide Evict, Holders;
    EvictCounts(s, id);
  }

  lemma CreateElsewhere(s: Server, id: nat, remote: Option<string>, certificate: nat)
    requires PeersKept(s) && id !in s.sessions
    ensures PeersKept(Create(s, id, remote, certificate)) && Elsewhere(s, Create(s, id, remote, certificate), id)
  {
  }

  lemma CreateKeeps(s: Server, id: nat, remote: Option<string>, certificate: nat)
    requires Registered(s)
    ensures Registered(Create(s, id, remote, certificate))
  {
    if id !in s.sessions {
      CreateElsewhere(s, id, remote, certificate);
      assert !Listed(s, id);
      hide Listed, PeersKept;
    }
  }

  lemma ReservationsKeep(s: Server, id: nat)
    requires Registered(s)
    ensures Registered(Reserve(s)) && Registered(ReleaseLoose(s)) && Registered(Store(s, id)) &&
          Registered(ReleaseReservation(s, id))
  {
    CountersIgnored(s, Reserve(s));
    CountersIgnored(s, ReleaseLoose(s));
    StoreKeeps(s, id);
    ReleaseKeeps(s, id);
    hide Registered;
  }

  lemma StoreKeeps(s: Server, id: nat)
    requires Registered(s)
    ensures Registered(Store(s, id))
  {
    if Store(s, id) != s {
      var up := s.sessions[id].(reserved := true);
      assert forall a :: a in s.initial ==> s.initial[a] != id;
      UpdateKeeps(s, id, up);
      hide Registered;
      CountersIgnored(s.(sessions := s.sessions[id := up]), Store(s, id));
    }
  }

  lemma ReleaseKeeps(s: Server, id: nat)
    requires Registered(s)
    ensures Registered(ReleaseReservation(s, id))
  {
    if ReleaseReservation(s, id) != s {
      var down := s.sessions[id].(reserved := false);
      UpdateKeeps(s, id, down);
      hide Registered;
      CountersIgnored(s.(sessions := s.sessions[id := down]), ReleaseReservation(s, id));
    }
  }

  lemma CountersIgnored(s: Server, next: Server)
    requires Registered(s) && next == s.(instances := next.instances, loose := next.loose)
    ensures Registered(next)
  {
  }

  /** Of all moves only an ill-advised registration makes the registries disagree, and it always does. */
  lemma StepExactly(s: Server, m: Move)
    requires Registered(s)
    ensures Registered(Step(s, m)) <==> EntersWell(s, m)
  {
    hide Registered, Create, Register, RegisterInitial, Promote, RegisterIdentity, EnablePeerID, Float, Evict;
    hide Reserve, ReleaseLoose, Store, ReleaseReservation, Refuses, RefusesInitial, Renames, OtherSlot;
    match m
    case CreateSession(id, remote, certificate) => CreateKeeps(s, id, remote, certificate);
    case RegisterSession(id, name) => RegisterExactly(s, id, name);
    case RegisterInitialSession(id, name) => RegisterInitialExactly(s, id, name);
    case PromoteSession(id) => PromoteKeeps(s, id);
    case SetIdentity(id, identity, duplicates) => IdentityKeeps(s, id, identity, duplicates);
    case SetPeerID(id, peerID) => PeerIDKeeps(s, id, peerID);
    case FloatSession(id, address) => FloatKeeps(s, id, address);
    case EvictSession(id) => EvictKeeps(s, id);
    case ReserveInstance => ReservationsKeep(s, 0);
    case DropReservation => ReservationsKeep(s, 0);
    case StoreReservation(id) => ReservationsKeep(s, id);
    case FinishReservation(id) => ReservationsKeep(s, id);
  }

  lemma {:induction false} RunKeeps(maxClients: nat, moves: seq<Move>)
    requires AllEnterWell(Fresh(maxClients), moves)
    ensures Registered(Run(Fresh(maxClients), moves)) && Counted(Run(Fresh(maxClients), moves))
    decreases |moves|
  {
    if |moves| == 0 {
      assert Holders(Fresh(maxClients)) == {};
    } else {
      hide Registered, Counted, Step, EntersWell;
      var front, m := moves[..|moves| - 1], moves[|moves| - 1];
      RunKeeps(maxClients, front);
      StepExactly(Run(Fresh(maxClients), front), m);
      StepCounts(Run(Fresh(maxClients), front), m);
    }
  }

  ghost predicate AgreeThroughout(maxClients: nat, moves: seq<Move>) {
    forall n :: 0 <= n <= |moves| ==> Registered(Run(Fresh(maxClients), moves[..n]))
  }

  /** The registries agree in every state of a run exactly when every registration in it is well-advised. */
  lemma {:induction false} AgreeExactly(maxClients: nat, moves: seq<Move>)
    ensures AgreeThroughout(maxClients, moves) <==> AllEnterWell(Fresh(maxClients), moves)
    decreases |moves|
  {
    hide Step, EntersWell;
    if |moves| == 0 {
      assert Registered(Fresh(maxClients));
      hide Registered;
      assert moves[..0] == moves;
    } else {
      hide Registered;
      var front, m := moves[..|moves| - 1], moves[|moves| - 1];
      AgreeExactly(maxClients, front);
      AgreeGrows(maxClients, moves);
      hide AgreeThroughout;
      if AgreeThroughout(maxClients, front) { StepExactly(Run(Fresh(maxClients), front), m); }
    }
  }

  lemma AgreeGrows(maxClients: nat, moves: seq<Move>)
    requires |moves| > 0
    ensures var front := moves[..|moves| - 1];
            && (AgreeThroughout(maxClients, moves) <==>
                  AgreeThroughout(maxClients, front) && Registered(Run(Fresh(maxClients), moves)))
            && (AgreeThroughout(maxClients, front) ==> Registered(Run(Fresh(maxClients), front)))
  {
    hide Registered, Run;
    var front := moves[..|moves| - 1];
    assert forall n :: 0 <= n <= |front| ==> front[..n] == moves[..n];
    assert moves[..|moves|] == moves && front[..|front|] == front;
  }

  /** Any session in any registry is in the main one under its own address; peer IDs and UDP bindings are its alone. */
  lemma RegistriesAgree(maxClients: nat, moves: seq<Move>)
    requires AllEnterWell(Fresh(maxClients), moves)
    ensures var s := Run(Fresh(maxClients), moves);
            && (forall p :: p in s.byPeerID ==> Listed(s, s.byPeerID[p]) && p < s.maxClients)
            && (forall i :: i in s.byIdentity ==> Listed(s, s.byIdentity[i]))
            && (forall a :: a in s.udp ==> Listed(s, s.udp[a]))
            && (forall a :: a in s.initial ==> Listed(s, s.initial[a]))
            && (forall p, q :: p in s.byPeerID && q in s.byPeerID && s.byPeerID[p] == s.byPeerID[q] ==> p == q)
            && (forall a, b :: a in s.udp && b in s.udp && s.udp[a] == s.udp[b] ==> a == b)
            && (forall a, b :: a in s.initial && b in s.initial && s.initial[a] == s.initial[b] ==> a == b)
  {
    RunKeeps(maxClients, moves);
    hide Run, Listed, Counted, AllEnterWell;
  }

  /** The instances counted are the reservations held, and never more than the limit. */
  lemma InstancesAreReservations(maxClients: nat, moves: seq<Move>)
    requires AllEnterWell(Fresh(maxClients), moves)
    ensures var s := Run(Fresh(maxClients), moves); s.instances == |Holders(s)| + s.loose && s.instances <= s.maxClients
  {
    RunKeeps(maxClients, moves);
    hide Run, Registered, Holders, AllEnterWell;
  }

  predicate Anywhere(s: Server, id: nat) {
    || (exists a :: a in s.byPeer && s.byPeer[a] == id)
    || (exists p :: p in s.byPeerID && s.byPeerID[p] == id)
    || (exists i :: i in s.byIdentity && s.byIdentity[i] == id)
    || (exists a :: a in s.udp && s.udp[a] == id)
    || (exists a :: a in s.initial && s.initial[a] == id)
  }

  lemma UnlistedIsNowhere(s: Server, id: nat)
    requires Registered(s) && !Listed(s, id)
    ensures !Anywhere(s, id)
  {
  }

  predicate Out(s: Server, id: nat) {
    id in s.sessions && !Listed(s, id)
  }

  lemma EvictStaysOut(s: Server, other: nat, id: nat)
    requires PeersKept(s) && Out(s, id)
    ensures Out(Evict(s, other), id) && Evict(s, other).sessions == s.sessions
  {
    hide Dropped;
  }

  lemma MovesStayOut(s: Server, m: Move, id: nat)
    requires Registered(s) && Out(s, id)
    requires (m.RegisterInitialSession? || m.PromoteSession? || m.FloatSession?) && !Enters(m, id)
    ensures Out(Step(s, m), id)
  {
    if m.id in s.sessions && s.sessions[m.id].remote.Some? {
      var address := s.sessions[m.id].remote.value;
      if address in s.initial { EvictStaysOut(s, s.initial[address], id); }
      if address in s.udp { EvictStaysOut(s.(initial := s.initial - {address}), s.udp[address], id); }
    }
    if m.FloatSession? && m.address in s.udp { EvictStaysOut(s, s.udp[m.address], id); }
    UnlistedHasNone(s, id);
    hide Evict, Dropped, Registered;
  }

  lemma RegisterLeavesOut(s: Server, other: nat, name: string, id: nat)
    requires Out(s, id) && other != id
    ensures Out(Register(s, other, name), id)
  {
  }

  lemma NamesLeaveOut(s: Server, other: nat, identity: string, duplicates: bool, peerID: nat, id: nat)
    requires Out(s, id)
    ensures Out(RegisterIdentity(s, other, identity, duplicates), id) && Out(EnablePeerID(s, other, peerID), id)
  {
  }

  lemma StaysUnlisted(s: Server, m: Move, id: nat)
    requires Registered(s) && Out(s, id) && !Enters(m, id)
    ensures Out(Step(s, m), id)
  {
    assert PeersKept(s);
    hide Initial, Evict, RegisterInitial, Promote, Float, Register, RegisterIdentity, EnablePeerID, Registered,
        PeersKept;
    match m
    case EvictSession(other) => EvictStaysOut(s, other, id);
    case RegisterSession(other, name) => RegisterLeavesOut(s, other, name, id);
    case SetIdentity(other, identity, duplicates) => NamesLeaveOut(s, other, identity, duplicates, 0, id);
    case SetPeerID(other, peerID) => NamesLeaveOut(s, other, "", false, peerID, id);
    case RegisterInitialSession(_, _) => MovesStayOut(s, m, id);
    case PromoteSession(_) => MovesStayOut(s, m, id);
    case FloatSession(_, _) => MovesStayOut(s, m, id);
    case _ =>
  }

  /** From an eviction on, a session is in no registry unless it is registered again. */
  lemma EvictedForGood(maxClients: nat, moves: seq<Move>, id: nat, more: seq<Move>)
    requires id in Run(Fresh(maxClients), moves).sessions
    requires AllEnterWell(Fresh(maxClients), moves + [EvictSession(id)] + more)
    requires forall k :: 0 <= k < |more| ==> !Enters(more[k], id)
    ensures var s := Run(Fresh(maxClients), moves + [EvictSession(id)] + more); id in s.sessions && !Anywhere(s, id)
  {
    var all := moves + [EvictSession(id)] + more;
    StaysOut(maxClients, moves, id, more);
    RunKeeps(maxClients, all);
    hide Run, Registered, Anywhere, Counted, AllEnterWell;
    UnlistedIsNowhere(Run(Fresh(maxClients), all), id);
  }

  lemma {:induction false} StaysOut(maxClients: nat, moves: seq<Move>, id: nat, more: seq<Move>)
    requires id in Run(Fresh(maxClients), moves).sessions
    requires AllEnterWell(Fresh(maxClients), moves + [EvictSession(id)] + more)
    requires forall k :: 0 <= k < |more| ==> !Enters(more[k], id)
    ensures Out(Run(Fresh(maxClients), moves + [EvictSession(id)] + more), id)
    decreases |more|
  {
    hide Step, Registered, Counted, Enters;
    var start, out := Fresh(maxClients), moves + [EvictSession(id)];
    if |more| == 0 {
      assert out + more == out && out[..|out| - 1] == moves;
      RunKeeps(maxClients, moves);
      EvictedIsOut(Run(start, moves), id);
    } else {
      var front, m := more[..|more| - 1], more[|more| - 1];
      var all := out + more;
      assert all[..|all| - 1] == out + front;
      StaysOut(maxClients, moves, id, front);
      RunKeeps(maxClients, out + front);
      StaysUnlisted(Run(start, out + front), m, id);
    }
  }

  lemma EvictedIsOut(s: Server, id: nat)
    requires Registered(s) && id in s.sessions
    ensures Out(Step(s, EvictSession(id)), id)
  {
    EvictPeers(s, id);
  }

  /** A session registered twice, under two names, is left in a registry when it is evicted. */
  lemma RegisteredTwice(maxClients: nat)
    ensures var s := Run(Fresh(maxClients),
          [CreateSession(0, None, 0), RegisterSession(0, "a"), RegisterSession(0, "b"), EvictSession(0)]);
            Anywhere(s, 0)
  {
    var moves := [CreateSession(0, None, 0), RegisterSession(0, "a"), RegisterSession(0, "b"), EvictSession(0)];
    var start := Fresh(maxClients);
    assert moves[..3][..2] == moves[..2] && moves[..2][..1] == moves[..1] && moves[..1][..0] == [];
    var created := Create(start, 0, None, 0);
    assert Run(start, moves[..1]) == created;
    var once := Register(created, 0, "a");
    assert Run(start, moves[..2]) == once;
    var twice := Register(once, 0, "b");
    assert Run(start, moves[..3]) == twice;
    assert Run(start, moves) == Evict(twice, 0);
    assert Evict(twice, 0).byPeer["a"] == 0;
  }
}
