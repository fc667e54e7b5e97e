/** The server's registries as they are kept, with the walks and searches over them. */
module ServerState {
  import opened Bytes
  import opened RegistrySpec
  import opened Collections

  // ---- Numbered addresses ------------------------------------------------

  function Decimal(n: nat): string {
    if n < 10 then [('0' as int + n) as char] else Decimal(n / 10) + [('0' as int + n % 10) as char]
  }

  lemma {:induction false} DecimalIsUnique(n: nat, m: nat)
    requires Decimal(n) == Decimal(m)
    ensures n == m
  {
    var a, b := Decimal(n), Decimal(m);
    assert a[|a| - 1] == ('0' as int + n % 10) as char && b[|b| - 1] == ('0' as int + m % 10) as char;
    assert n % 10 == m % 10;
    if n >= 10 && m >= 10 {
      assert a[..|a| - 1] == Decimal(n / 10) && b[..|b| - 1] == Decimal(m / 10);
      DecimalIsUnique(n / 10, m / 10);
    }
  }

  function Numbered(peerAddress: string, n: nat): string {
    peerAddress + "#session=" + Decimal(n)
  }

  lemma NumberedIsUnique(peerAddress: string, n: nat, m: nat)
    ensures Numbered(peerAddress, n) == Numbered(peerAddress, m) ==> n == m
  {
    var head := peerAddress + "#session=";
    assert Numbered(peerAddress, n)[|head|..] == Decimal(n) && Numbered(peerAddress, m)[|head|..] == Decimal(m);
    if Decimal(n) == Decimal(m) { DecimalIsUnique(n, m); }
  }

  /** The numbered addresses from `first` up to `last`. */
  ghost function Names(peerAddress: string, first: nat, last: nat): set<string> {
    if last <= first then {} else Names(peerAddress, first, last - 1) + {Numbered(peerAddress, last - 1)}
  }

  lemma {:induction false} NamesDiffer(peerAddress: string, first: nat, last: nat, n: nat)
    requires first <= last <= n
    ensures Numbered(peerAddress, n) !in Names(peerAddress, first, last)
    ensures |Names(peerAddress, first, last)| == last - first
    decreases last
  {
    hide Numbered;
    if first < last {
      NamesDiffer(peerAddress, first, last - 1, n);
      NamesDiffer(peerAddress, first, last - 1, last - 1);
      NumberedIsUnique(peerAddress, n, last - 1);
    }
  }

  /** The name a session gets, and the counter after it. */
  ghost predicate Named(byPeer: map<string, nat>, peerAddress: string, id: nat, before: nat, after: nat, name: string) {
    if OtherHas(byPeer, peerAddress, id) then
      && before < after && name == Numbered(peerAddress, after) && name !in byPeer
      && forall n :: before < n < after ==> Numbered(peerAddress, n) in byPeer
    else name == peerAddress && after == before
  }

  // ---- The server --------------------------------------------------------

  class TlsServer {
    const maxClients: nat
    var sessions: map<nat, Session>
    var byPeer: map<string, nat>
    var byPeerID: map<nat, nat>
    var byIdentity: map<string, nat>
    var udp: map<string, nat>
    var initial: map<string, nat>
    var sessionCounter: nat
    var instances: nat
    var loose: nat

    ghost function View(): Server
      reads this
    {
      Server(maxClients, sessions, byPeer, byPeerID, byIdentity, udp, initial, instances, loose)
    }

    constructor (maxClients: nat)
      ensures View() == RegistrySpec.Fresh(maxClients)
    {
      this.maxClients := maxClients;
      sessions, byPeer, byPeerID, byIdentity, udp, initial := map[], map[], map[], map[], map[], map[];
      sessionCounter, instances, loose := 0, 0, 0;
    }

    /** The given address unless another session has it, or the first free one with a number behind it, counting on. */
    method FreeName(peerAddress: string, id: nat) returns (name: string)
      modifies `sessionCounter
      ensures Named(byPeer, peerAddress, id, old(sessionCounter), sessionCounter, name)
    {
      hide Numbered;
      name := peerAddress;
      if name !in byPeer || byPeer[name] == id {
        return;
      }
      sessionCounter := sessionCounter + 1;
      name := Numbered(peerAddress, sessionCounter);
      ghost var first := sessionCounter;
      while name in byPeer
        invariant first <= sessionCounter && name == Numbered(peerAddress, sessionCounter)
        invariant forall n :: first <= n < sessionCounter ==> Numbered(peerAddress, n) in byPeer
        invariant Names(peerAddress, first, sessionCounter) <= byPeer.Keys
        decreases |byPeer.Keys| - |Names(peerAddress, first, sessionCounter)|
      {
        NamesDiffer(peerAddress, first, sessionCounter, sessionCounter);
        NamesDiffer(peerAddress, first, sessionCounter + 1, sessionCounter + 1);
        Fewer(Names(peerAddress, first, sessionCounter + 1), byPeer.Keys);
        sessionCounter := sessionCounter + 1;
        name := Numbered(peerAddress, sessionCounter);
      }
    }

    /** Takes every binding of a session out of a map of addresses. */
    method Unbind(m: map<string, nat>, id: nat) returns (r: map<string, nat>)
      ensures r == Dropped(m, id)
    {
      r := m;
      var rest := m.Keys;
      while rest != {}
        invariant rest <= m.Keys && r.Keys <= m.Keys && (forall a :: a in r ==> r[a] == m[a])
        invariant forall a :: a in m && (m[a] != id || a in rest) ==> a in r
        invariant forall a :: a in r && a !in rest ==> m[a] != id
        decreases rest
      {
        var address :| address in rest;
        rest := rest - {address};
        if m[address] == id {
          r := r - {address};
        }
      }
    }

    method EvictNames(id: nat)
      requires id in sessions
      modifies `byPeer, `byPeerID, `byIdentity
      ensures var x := sessions[id];
              && byPeer == WithoutOwn(old(byPeer), x.peerAddress, id)
              && byPeerID == (if x.peerID.Some? then WithoutOwn(old(byPeerID), x.peerID.value, id) else old(byPeerID))
              && byIdentity == (if x.identity != "" then WithoutOwn(old(byIdentity), x.identity, id)
                    else old(byIdentity))
    {
      var x := sessions[id];
      if x.peerAddress in byPeer && byPeer[x.peerAddress] == id {
        byPeer := byPeer - {x.peerAddress};
      }
      if x.peerID.Some? && x.peerID.value in byPeerID && byPeerID[x.peerID.value] == id {
        byPeerID := byPeerID - {x.peerID.value};
      }
      if x.identity != "" && x.identity in byIdentity && byIdentity[x.identity] == id {
        byIdentity := byIdentity - {x.identity};
      }
    }

    method EvictSession(id: nat)
      requires id in sessions
      modifies `byPeer, `byPeerID, `byIdentity, `udp, `initial
      ensures View() == Evict(old(View()), id)
    {
      hide Dropped, WithoutOwn;
      EvictNames(id);
      udp := Unbind(udp, id);
      initial := Unbind(initial, id);
    }

    method BindSession(id: nat, name: string)
      requires id in sessions
      modifies `sessions, `byPeer
      ensures View() == Bind(old(View()), id, name)
    {
      sessions := sessions[id := sessions[id].(peerAddress := name)];
      byPeer := byPeer[name := id];
    }

    method RegisterSession(id: nat, peerAddress: string) returns (registered: bool)
      requires id in sessions
      modifies this
      ensures registered <==>
              peerAddress != "" &&
                  (old(sessions)[id].remote.Some? ==> !OtherHas(old(udp), old(sessions)[id].remote.value, id))
      ensures registered ==>
                && id in sessions && View() == Register(old(View()), id, sessions[id].peerAddress) && Listed(View(), id)
                && Named(old(byPeer), peerAddress, id, old(sessionCounter), sessionCounter, sessions[id].peerAddress)
      ensures !registered ==> View() == old(View())
    {
      hide Bind;
      var remote := sessions[id].remote;
      if peerAddress == "" || (remote.Some? && remote.value in udp && udp[remote.value] != id) {
        return false;
      }
      var name := FreeName(peerAddress, id);
      BindFields(View(), id, name);
      BindListed(View(), id, name);
      BindSession(id, name);
      if remote.Some? {
        udp := udp[remote.value := id];
      }
      assert View() == Register(old(View()), id, name);
      return true;
    }

    /** The session that was in the initial slot of the address has to go; the caller ends it. */
    method RegisterInitialSession(id: nat, peerAddress: string) returns (displaced: Option<nat>, registered: bool)
      requires Registered(View()) && id in sessions
      modifies this
      ensures registered <==> peerAddress != "" && old(sessions)[id].remote.Some?
      ensures registered ==>
                && id in sessions && View() == RegisterInitial(old(View()), id, sessions[id].peerAddress) &&
                      Listed(View(), id)
      ensures !registered ==> View() == old(View()) && displaced == None
      ensures registered ==>
                var address := old(sessions)[id].remote.value;
                && displaced == (if OtherHas(old(initial), address, id) then Some(old(initial)[address]) else None)
                && var cleared := if displaced.Some? then Evict(old(View()), displaced.value) else old(View());
                   Named(cleared.byPeer, peerAddress, id, old(sessionCounter), sessionCounter, sessions[id].peerAddress)
    {
      hide Evict, Bind;
      ghost var s := View();
      displaced := None;
      if peerAddress == "" || sessions[id].remote.None? {
        return None, false;
      }
      var address := sessions[id].remote.value;
      assert address in initial ==> initial[address] in sessions by { assert InitialsKept(s); }
      hide Registered;
      if address in initial && initial[address] != id {
        displaced := Some(initial[address]);
        EvictKeepsRecord(s, initial[address], id);
        EvictSession(initial[address]);
      }
      ghost var cleared := View();
      var name := FreeName(peerAddress, id);
      BindFields(cleared, id, name);
      BindListed(cleared, id, name);
      BindSession(id, name);
      ghost var bound := View();
      initial := initial[address := id];
      assert View() == bound.(initial := bound.initial[address := id]);
      assert View() == RegisterInitial(s, id, name);
      registered := true;
    }

    /** The session in the initial slot takes over the address, and the reservation of whoever had it. */
    method PromoteInitialSession(id: nat) returns (displaced: Option<nat>)
      requires Registered(View()) && id in sessions
      modifies this
      ensures View() == Promote(old(View()), id)
      ensures displaced ==
              var s := old(View());
              var remote := s.sessions[id].remote;
              if remote.Some? && remote.value in s.initial && s.initial[remote.value] == id &&
                  TakenBy(s, id, remote.value)
              then Some(s.udp[remote.value]) else None
    {
      hide Evict, Registered;
      ghost var s := View();
      displaced := None;
      if sessions[id].remote.None? {
        return;
      }
      var address := sessions[id].remote.value;
      if address !in initial || initial[address] != id {
        return;
      }
      initial := initial - {address};
      if address in udp && udp[address] != id && udp[address] in sessions {
        var other := udp[address];
        displaced := Some(other);
        EvictKeepsRecord(View(), other, id);
        EvictKeepsRecord(View(), other, other);
        EvictSession(other);
        var mine, theirs := sessions[id].(reserved := sessions[other].reserved), sessions[other].(reserved := false);
        sessions := sessions[id := mine][other := theirs];
      }
      udp := udp[address := id];
    }

    /** The packets of a session come from a new address. */
    method FloatSession(id: nat, address: string) returns (displaced: Option<nat>, floated: bool)
      requires Registered(View())
      modifies this
      ensures View() == Float(old(View()), id, address) && (floated <==> MayFloat(old(View()), id, address))
      ensures displaced == if floated && TakenBy(old(View()), id, address) then Some(old(udp)[address]) else None
    {
      hide Evict, Registered, Dropped;
      displaced := None;
      if id !in sessions || sessions[id].peerAddress !in byPeer || byPeer[sessions[id].peerAddress] != id {
        return None, false;
      }
      var peerID := sessions[id].peerID;
      if peerID.Some? && (peerID.value !in byPeerID || byPeerID[peerID.value] != id) {
        return None, false;
      }
      if address in udp && udp[address] != id && udp[address] in sessions {
        var existing := udp[address];
        if sessions[existing].certificate != sessions[id].certificate {
          return None, false;
        }
        EvictKeepsRecord(View(), existing, id);
        EvictSession(existing);
        displaced := Some(existing);
      }
      udp := Unbind(udp, id);
      udp := udp[address := id];
      sessions := sessions[id := sessions[id].(remote := Some(address))];
      floated := true;
    }

    method ReserveInstance() returns (reserved: bool)
      modifies this
      ensures View() == Reserve(old(View())) && reserved == (old(instances) < maxClients)
    {
      if instances >= maxClients {
        return false;
      }
      instances := instances + 1;
      loose := loose + 1;
      return true;
    }

    method ReleaseResourceReservation(id: nat)
      requires Counted(View()) && id in sessions
      modifies this
      ensures View() == ReleaseReservation(old(View()), id)
      ensures instances == old(instances) - if old(sessions)[id].reserved then 1 else 0
    {
      ghost var s := View();
      var held := sessions[id].reserved;
      if held {
        HolderCounts(s, id);
        sessions := sessions[id := sessions[id].(reserved := false)];
        instances := instances - 1;
      }
    }

    /** The lowest peer ID that is free. */
    method AllocatePeerID() returns (r: Option<nat>)
      ensures r.Some? ==> r.value < maxClients && r.value !in byPeerID && forall p :: 0 <= p < r.value ==> p in byPeerID
      ensures r.None? ==> forall p :: 0 <= p < maxClients ==> p in byPeerID
    {
      for candidate := 0 to maxClients
        invariant forall p :: 0 <= p < candidate ==> p in byPeerID
      {
        if candidate !in byPeerID {
          return Some(candidate);
        }
      }
      return None;
    }

    method EnablePeerID(id: nat) returns (enabled: bool)
      modifies this
      ensures enabled <==>
              && Listed(old(View()), id)
              && (old(sessions)[id].peerID.Some? || exists p :: 0 <= p < maxClients && p !in old(byPeerID))
      ensures !enabled || old(sessions)[id].peerID.Some? ==> View() == old(View())
      ensures enabled && old(sessions)[id].peerID.None? ==>
                && id in sessions && sessions[id].peerID.Some?
                && var peerID := sessions[id].peerID.value;
                  && peerID < maxClients && peerID !in old(byPeerID) &&
                        (forall p :: 0 <= p < peerID ==> p in old(byPeerID))
                  && View() == RegistrySpec.EnablePeerID(old(View()), id, peerID)
    {
      if id !in sessions || sessions[id].peerAddress !in byPeer || byPeer[sessions[id].peerAddress] != id {
        return false;
      }
      if sessions[id].peerID.Some? {
        return true;
      }
      var peerID := AllocatePeerID();
      if peerID.None? {
        return false;
      }
      sessions := sessions[id := sessions[id].(peerID := peerID)];
      byPeerID := byPeerID[peerID.value := id];
      assert View() == RegistrySpec.EnablePeerID(old(View()), id, peerID.value);
      return true;
    }
  }

  lemma EvictKeepsRecord(s: Server, other: nat, id: nat)
    requires other in s.sessions && id in s.sessions
    ensures Evict(s, other).sessions == s.sessions
  {
    hide Dropped, WithoutOwn;
  }

  lemma BindListed(s: Server, id: nat, name: string)
    requires id in s.sessions
    ensures Listed(Bind(s, id, name), id)
  {
  }

  lemma HolderCounts(s: Server, id: nat)
    requires Counted(s) && id in s.sessions && s.sessions[id].reserved
    ensures s.instances > 0
  {
    assert id in Holders(s);
    assert Holders(s) == (Holders(s) - {id}) + {id};
  }

  lemma BindFields(s: Server, id: nat, name: string)
    requires id in s.sessions
    ensures var b := Bind(s, id, name);
            && b.sessions[id].peerAddress == name
            && b == s.(sessions := b.sessions, byPeer := b.byPeer) && id in b.sessions &&
                  b.sessions[id].remote == s.sessions[id].remote
  {
  }
}
