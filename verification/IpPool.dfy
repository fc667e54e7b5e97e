/** The IPv4 address pool: which addresses may be leased, to whom, and which one is next. */
module IpPoolSpec {
  import opened Bytes

  datatype Topology = Subnet | P2P | Net30

  /** A network of `size` addresses and the range its leases come from. */
  datatype Config = Config(topology: Topology, network: nat, size: nat, server: nat, start: nat, end: nat)

  datatype Lease = Lease(client: nat, peer: Option<nat>)

  function Size(bits: nat): (n: nat)
    requires bits <= 32
    ensures n > 0
    decreases 32 - bits
  {
    if bits == 32 then 1 else 2 * Size(bits + 1)
  }

  function Configure(topology: Topology, network: nat, bits: nat): (r: Option<Config>)
    requires bits <= 32 && network % Size(bits) == 0 && network + Size(bits) <= 0x1_0000_0000
  {
    if bits < 16 || bits > 29 then None
    else
      var size := Size(bits);
      var broadcast := network + size - 1;
      var start := if topology == Subnet then network + 2 else network + 4;
      var reserve := if topology == Subnet then 1 else if bits == 29 then 0 else 4;
      if start > broadcast - reserve then None
      else Some(Config(topology, network, size, network + 1, start, broadcast - reserve))
  }

  predicate IsClient(c: Config, a: nat) {
    match c.topology
    case Net30 => c.start + 2 <= a <= c.end && (a - c.start) % 4 == 2 && a != c.server && a - 1 != c.server
    case _ => c.start <= a <= c.end && a != c.server
  }

  function LeaseOf(c: Config, a: nat): Lease {
    match c.topology
    case Subnet => Lease(a, None)
    case P2P => Lease(a, Some(c.server))
    case Net30 => Lease(a, if a > 0 then Some(a - 1) else None)
  }

  lemma {:induction false} SizeDoubles(bits: nat)
    requires bits <= 29
    ensures Size(bits) >= 8 && (bits < 29 ==> Size(bits) >= 16)
    decreases 29 - bits
  {
    if bits < 29 {
      SizeDoubles(bits + 1);
    }
  }

  /** Every accepted network has an address to lease, and its range leaves out the network and the server. */
  lemma ConfiguredHasRoom(topology: Topology, network: nat, bits: nat)
    requires 16 <= bits <= 29 && network % Size(bits) == 0 && network + Size(bits) <= 0x1_0000_0000
    ensures var r := Configure(topology, network, bits);
            && r.Some? && r.value.server == network + 1
            && (exists a: nat :: IsClient(r.value, a))
            && (forall a: nat :: IsClient(r.value, a) ==> network + 1 < a < network + r.value.size)
  {
    hide Size;
    SizeDoubles(bits);
    var r := Configure(topology, network, bits);
    var c := r.value;
    assert IsClient(c, if topology == Net30 then network + 6 else c.start);
  }

  /** The server may be moved to any host of the network but the first and the last. */
  predicate IsHost(c: Config, address: nat) {
    c.network < address < c.network + c.size - 1
  }

  /** A lease takes the address, for the client or for its peer. */
  predicate Takes(c: Config, a: nat, address: nat) {
    a == address || (c.topology == Net30 && a - 1 == address)
  }

  /** Wherever the server is moved, something is left to lease, except in a net30 network with a single pair. */
  lemma MovedHasRoom(topology: Topology, network: nat, bits: nat, address: nat)
    requires 16 <= bits <= 29 && network % Size(bits) == 0 && network + Size(bits) <= 0x1_0000_0000
    requires Configure(topology, network, bits).Some? && IsHost(Configure(topology, network, bits).value, address)
    ensures var moved := Configure(topology, network, bits).value.(server := address);
            && ((exists a: nat :: IsClient(moved, a)) <==>
                  !(topology == Net30 && bits == 29 && address in {network + 5, network + 6}))
            && (forall a: nat :: IsClient(moved, a) ==> !Takes(moved, a, address))
  {
    hide Size;
    SizeDoubles(bits);
    assert bits == 29 ==> Size(bits) == 8 by { SmallestSize(); }
    var moved := Configure(topology, network, bits).value.(server := address);
    if topology == Net30 {
      var first := network + 6;
      assert IsClient(moved, first) || address in {first - 1, first};
      if bits < 29 { assert IsClient(moved, first) || IsClient(moved, first + 4); }
    } else {
      assert IsClient(moved, moved.start) || IsClient(moved, moved.start + 1);
    }
  }

  lemma SmallestSize()
    ensures Size(29) == 8
  {
    assert Size(32) == 1 && Size(31) == 2 && Size(30) == 4;
  }

  /** In the net30 topology two leases never share an address, and none is the server's. */
  lemma PairsDisjoint(c: Config, a: nat, b: nat)
    requires c.topology == Net30 && IsClient(c, a) && IsClient(c, b) && a != b
    ensures a != b - 1 && a - 1 != b && c.server !in {a, a - 1, b, b - 1}
  {
  }

  // ---- Leases ------------------------------------------------------------

  datatype Pool = Pool(used: set<nat>, identity: map<nat, string>, address: map<string, nat>, released: map<nat, nat>)

  function EmptyPool(): Pool {
    Pool({}, map[], map[], map[])
  }

  /** Sticky identities and their addresses are each other's inverse; all addresses are clients. */
  ghost predicate Consistent(c: Config, p: Pool) {
    && (forall a :: a in p.used ==> IsClient(c, a))
    && (forall a :: a in p.identity ==>
          p.identity[a] != "" && p.identity[a] in p.address && p.address[p.identity[a]] == a)
    && (forall i :: i in p.address ==>
          i != "" && IsClient(c, p.address[i]) && p.address[i] in p.identity && p.identity[p.address[i]] == i)
    && (forall a :: a in p.released ==> a in p.identity && a !in p.used)
  }

  /** When an address was last given up by an identity, 0 if it was not. */
  function ReleasedAt(p: Pool, a: nat): nat {
    if a in p.released then p.released[a] else 0
  }

  predicate Free(c: Config, p: Pool, a: nat) {
    IsClient(c, a) && a !in p.used
  }

  function Displaced(p: Pool, a: nat, identity: string): map<string, nat> {
    if a in p.identity && p.identity[a] != "" && p.identity[a] != identity && p.identity[a] in p.address &&
        p.address[p.identity[a]] == a
    then p.address - {p.identity[a]} else p.address
  }

  function Commit(p: Pool, a: nat, identity: string): Pool {
    var address := Displaced(p, a, identity);
    var gone := if identity != "" && identity in address && address[identity] != a then {address[identity]} else {};
    Pool(p.used + {a},
         if identity != "" then (p.identity - gone)[a := identity] else p.identity - {a},
         if identity != "" then address[identity := a] else address,
         (p.released - {a}) - gone)
  }

  function Release(p: Pool, a: nat, now: nat): Pool {
    p.(used := p.used - {a}, released := if a in p.identity && p.identity[a] != "" then p.released[a := now]
        else p.released - {a})
  }

  /** Without an identity the lowest free address; with one, the free address given up longest ago. */
  ghost predicate Next(c: Config, p: Pool, identity: string, a: nat) {
    && Free(c, p, a)
    && (identity == "" ==> forall b :: Free(c, p, b) ==> a <= b)
    && (identity != "" ==> forall b :: Free(c, p, b) ==>
          ReleasedAt(p, a) < ReleasedAt(p, b) || (ReleasedAt(p, a) == ReleasedAt(p, b) && a <= b))
  }

  /** An identity gets its own address back if it is free, and otherwise the next one. */
  ghost predicate Chosen(c: Config, p: Pool, identity: string, a: nat) {
    if identity != "" && identity in p.address && p.address[identity] !in p.used then a == p.address[identity]
    else Next(c, p, identity, a)
  }

  lemma CommitKeeps(c: Config, p: Pool, a: nat, identity: string)
    requires Consistent(c, p) && Free(c, p, a)
    ensures Consistent(c, Commit(p, a, identity))
  {
    assert IsClient(c, a);
    hide IsClient;
  }

  lemma ReleaseKeeps(c: Config, p: Pool, a: nat, now: nat)
    requires Consistent(c, p)
    ensures Consistent(c, Release(p, a, now))
  {
  }

  /**
   Moving the server while nothing is leased agrees with what the pool remembers unless a remembered
   lease takes the new address.
   */
  lemma MoveKeeps(c: Config, p: Pool, address: nat)
    requires Consistent(c, p) && p.used == {}
    ensures Consistent(c.(server := address), p) <==> forall i :: i in p.address ==> !Takes(c, p.address[i], address)
  {
    forall i | i in p.address ensures IsClient(c.(server := address), p.address[i]) <==>
        !Takes(c, p.address[i], address) {}
  }

  /** Otherwise whoever had the lease is given the address of the server. */
  lemma ServerIsLeased(c: Config, p: Pool, a: nat, identity: string, now: nat, b: nat)
    requires Consistent(c, p) && p.used == {} && Free(c, p, a) && IsHost(c, a) && identity != ""
    requires Chosen(c.(server := a), Release(Commit(p, a, identity), a, now), identity, b)
    ensures Release(Commit(p, a, identity), a, now).used == {} && b == a
  {
  }

  lemma ChosenIsFree(c: Config, p: Pool, identity: string, a: nat)
    requires Consistent(c, p) && Chosen(c, p, identity, a)
    ensures Free(c, p, a)
  {
  }

  /** A lease given up by an identity and asked for again by it is the same lease. */
  lemma Sticky(c: Config, p: Pool, a: nat, identity: string, now: nat, b: nat)
    requires Consistent(c, p) && Free(c, p, a) && identity != ""
    requires Chosen(c, Release(Commit(p, a, identity), a, now), identity, b)
    ensures b == a
  {
  }
}

/** The pool as it is kept. */
module IpPools {
  import opened Bytes
  import opened IpPoolSpec

  datatype Best = Best(selected: Option<nat>, released: nat)

  /** The best lease among the clients below `limit`, none of which ended the search. */
  ghost predicate BestBelow(c: Config, p: Pool, identity: string, limit: nat, best: Best) {
    && (best.selected.None? ==> forall b: nat :: b < limit ==> !Free(c, p, b))
    && (best.selected.Some? ==>
          var a := best.selected.value;
          && identity != "" && Free(c, p, a) && a < limit && best.released == ReleasedAt(p, a) > 0
          && forall b: nat :: b < limit && Free(c, p, b) ==>
               ReleasedAt(p, a) < ReleasedAt(p, b) || (ReleasedAt(p, a) == ReleasedAt(p, b) && a <= b))
  }

  lemma SkipTo(c: Config, p: Pool, identity: string, limit: nat, next: nat, best: Best)
    requires BestBelow(c, p, identity, limit, best) && limit <= next
    requires forall b: nat :: limit <= b < next ==> !Free(c, p, b)
    ensures BestBelow(c, p, identity, next, best)
  {
  }

  lemma BestIsNext(c: Config, p: Pool, identity: string, limit: nat, best: Best)
    requires BestBelow(c, p, identity, limit, best) && forall b: nat :: b >= limit ==> !Free(c, p, b)
    ensures best.selected.Some? ==> Next(c, p, identity, best.selected.value)
    ensures best.selected.None? ==> forall a: nat :: !Free(c, p, a)
  {
  }

  lemma NoneBefore(c: Config, p: Pool, identity: string)
    requires c.topology == Net30
    ensures BestBelow(c, p, identity, c.start + 2, Best(None, 0))
  {
  }

  /** A block has one client address, unless the server is in the block. */
  lemma OneInBlock(c: Config, block: nat)
    requires c.topology == Net30 && c.start <= block && (block - c.start) % 4 == 0 && block + 2 <= c.end
    ensures IsClient(c, block + 2) <==> c.server != block + 1 && c.server != block + 2
    ensures forall a: nat :: block + 2 < a < block + 6 ==> !IsClient(c, a)
  {
  }

  lemma NoneAfter(c: Config, p: Pool, limit: nat)
    requires c.topology == Net30 && limit > c.end
    ensures forall a: nat :: a >= limit ==> !Free(c, p, a)
  {
  }

  class IpPool {
    var config: Config
    var used: set<nat>
    var identity: map<nat, string>
    var address: map<string, nat>
    var released: map<nat, nat>

    ghost function View(): Pool
      reads this
    {
      Pool(used, identity, address, released)
    }

    constructor (config: Config)
      ensures this.config == config && View() == EmptyPool()
    {
      this.config := config;
      used, identity, address, released := {}, map[], map[], map[];
    }

    method SetServer(server: Option<nat>) returns (failed: bool)
      modifies this`config
      ensures failed <==> server.Some? && (!IsHost(old(config), server.value) || used != {})
      ensures config == if server.Some? && !failed then old(config).(server := server.value) else old(config)
    {
      if server.None? {
        return false;
      }
      if !(config.network <= server.value < config.network + config.size) {
        return true;
      }
      if server.value == config.network || server.value == config.network + config.size - 1 {
        return true;
      }
      if |used| > 0 {
        return true;
      }
      config := config.(server := server.value);
      return false;
    }

    /** What the search makes of one client: whether it goes on, and the best one so far. */
    method Consider(forIdentity: string, candidate: nat, best: Best) returns (more: bool, r: Best)
      requires IsClient(config, candidate) && BestBelow(config, View(), forIdentity, candidate, best)
      ensures more ==> BestBelow(config, View(), forIdentity, candidate + 1, r)
      ensures !more ==> r.selected.Some? && Next(config, View(), forIdentity, r.selected.value)
    {
      r := best;
      if candidate in used {
        return true, best;
      }
      if forIdentity == "" {
        return false, Best(Some(candidate), 0);
      }
      var at := if candidate in released then released[candidate] else 0;
      if best.selected.None? || at < best.released {
        r := Best(Some(candidate), at);
      }
      more := at != 0;
    }

    method FindNext(forIdentity: string) returns (r: Option<nat>)
      ensures r.Some? ==> Next(config, View(), forIdentity, r.value)
      ensures r.None? ==> forall a: nat :: !Free(config, View(), a)
    {
      if config.topology == Net30 {
        r := FindBlock(forIdentity);
      } else {
        r := FindAddress(forIdentity);
      }
    }

    method FindAddress(forIdentity: string) returns (r: Option<nat>)
      requires config.topology != Net30
      ensures r.Some? ==> Next(config, View(), forIdentity, r.value)
      ensures r.None? ==> forall a: nat :: !Free(config, View(), a)
    {
      var best := Best(None, 0);
      var client := config.start;
      while client <= config.end
        invariant config.start <= client && BestBelow(config, View(), forIdentity, client, best)
        decreases config.end - client
      {
        if client == config.server {
          SkipTo(config, View(), forIdentity, client, client + 1, best);
          client := client + 1;
          continue;
        }
        var more;
        more, best := Consider(forIdentity, client, best);
        if !more {
          return best.selected;
        }
        client := client + 1;
      }
      BestIsNext(config, View(), forIdentity, client, best);
      return best.selected;
    }

    method FindBlock(forIdentity: string) returns (r: Option<nat>)
      requires config.topology == Net30
      ensures r.Some? ==> Next(config, View(), forIdentity, r.value)
      ensures r.None? ==> forall a: nat :: !Free(config, View(), a)
    {
      hide IsClient, BestBelow, Next;
      var best := Best(None, 0);
      var block := config.start;
      NoneBefore(config, View(), forIdentity);
      while block <= config.end
        invariant config.start <= block && (block - config.start) % 4 == 0
        invariant BestBelow(config, View(), forIdentity, block + 2, best)
        decreases config.end - block
      {
        var peer, client := block + 1, block + 2;
        if client > config.end {
          break;
        }
        OneInBlock(config, block);
        if peer == config.server || client == config.server {
          SkipTo(config, View(), forIdentity, client, client + 4, best);
          block := block + 4;
          continue;
        }
        var more;
        more, best := Consider(forIdentity, client, best);
        if !more {
          return best.selected;
        }
        SkipTo(config, View(), forIdentity, client + 1, client + 4, best);
        block := block + 4;
      }
      NoneAfter(config, View(), block + 2);
      BestIsNext(config, View(), forIdentity, block + 2, best);
      return best.selected;
    }

    /** Whoever had the address before no longer finds it. */
    method Displace(client: nat, forIdentity: string)
      modifies this`address
      ensures address == Displaced(old(View()), client, forIdentity)
    {
      if client in identity {
        var previous := identity[client];
        if previous != "" && previous != forIdentity && previous in address && address[previous] == client {
          address := address - {previous};
        }
      }
    }

    method CommitLease(client: nat, forIdentity: string)
      modifies this`used, this`identity, this`address, this`released
      ensures View() == Commit(old(View()), client, forIdentity)
    {
      hide Displaced;
      Displace(client, forIdentity);
      used := used + {client};
      released := released - {client};
      if forIdentity != "" {
        if forIdentity in address && address[forIdentity] != client {
          identity := identity - {address[forIdentity]};
          released := released - {address[forIdentity]};
        } else {
          assert identity - {} == identity && released - {} == released;
        }
        identity := identity[client := forIdentity];
        address := address[forIdentity := client];
      } else {
        assert released - {} == released;
        identity := identity - {client};
      }
    }

    /** A lease for an identity, its own if that is free; refused only when every client address is in use. */
    method Allocate(forIdentity: string) returns (r: Option<Lease>)
      requires Consistent(config, View())
      modifies this`used, this`identity, this`address, this`released
      ensures Consistent(config, View())
      ensures r.None? <==> forall a: nat :: !Free(config, old(View()), a)
      ensures r.None? ==> View() == old(View())
      ensures r.Some? ==>
                && r.value == LeaseOf(config, r.value.client) &&
                      Chosen(config, old(View()), forIdentity, r.value.client)
                && r.value.client !in old(used) && View() == Commit(old(View()), r.value.client, forIdentity)
    {
      hide Commit;
      if forIdentity != "" && forIdentity in address && address[forIdentity] !in used {
        var previous := address[forIdentity];
        ChosenIsFree(config, View(), forIdentity, previous);
        CommitKeeps(config, View(), previous, forIdentity);
        CommitLease(previous, forIdentity);
        return Some(LeaseOf(config, previous));
      }
      var client := FindNext(forIdentity);
      if client.None? {
        return None;
      }
      CommitKeeps(config, View(), client.value, forIdentity);
      CommitLease(client.value, forIdentity);
      return Some(LeaseOf(config, client.value));
    }

    method GiveBack(client: nat, now: nat)
      requires Consistent(config, View())
      modifies this`used, this`identity, this`address, this`released
      ensures Consistent(config, View()) && View() == Release(old(View()), client, now)
    {
      ReleaseKeeps(config, View(), client, now);
      used := used - {client};
      if client in identity && identity[client] != "" {
        released := released[client := now];
      } else {
        released := released - {client};
      }
    }
  }
}
