/** The lease memory of the DHCP parser (`DhcpParser.__call__`, dhcp.py): which client was last
    acknowledged for an address, bounded in size. Addresses and clients are natural numbers; an
    acknowledgement without address or client never reaches the table. */
module LeaseTable {
  import opened Options
  import opened OrderedDict

  datatype Ack = Ack(address: nat, client: nat)
  type Leases = Dict<nat, nat>

  function Step(leases: Leases, a: Ack, capacity: nat): Leases {
    Remember(leases, a.address, a.client, capacity)
  }

  /** The earlier client an acknowledgement is reported to displace, if any. */
  function Reuse(leases: Leases, a: Ack): Option<nat> {
    var previous := Get(leases, a.address);
    if previous.Some? && previous.value != a.client then previous else None
  }

  class LeaseTracker {
    const capacity: nat
    var leases: Leases

    constructor (capacity: nat)
      ensures this.capacity == capacity && leases == []
    {
      this.capacity := capacity;
      leases := [];
    }

    method Acknowledge(a: Ack) returns (displaced: Option<nat>)
      modifies this
      ensures displaced == Reuse(old(leases), a)
      ensures leases == Step(old(leases), a, capacity)
    {
      displaced := None;
      var previous := Get(leases, a.address);
      if previous.Some? && previous.value != a.client {
        displaced := previous;
      }
      leases := Put(leases, a.address, a.client);
      if |leases| > capacity {
        leases := leases[1..];
      }
    }
  }

  // ----- runs

  function After(acks: seq<Ack>, capacity: nat): Leases {
    if acks == [] then [] else Step(After(acks[..|acks| - 1], capacity), acks[|acks| - 1], capacity)
  }

  function Addresses(acks: seq<Ack>): seq<nat> {
    if acks == [] then [] else Addresses(acks[..|acks| - 1]) + [acks[|acks| - 1].address]
  }

  /** The last client acknowledged for an address, with unlimited memory. */
  function LastClient(acks: seq<Ack>, address: nat): Option<nat> {
    if acks == [] then None
    else if acks[|acks| - 1].address == address then Some(acks[|acks| - 1].client)
    else LastClient(acks[..|acks| - 1], address)
  }

  lemma {:induction false} LeasesAreShaped(acks: seq<Ack>, capacity: nat)
    requires capacity >= 1
    ensures var d := After(acks, capacity); Unique(d) && Recent(d, Addresses(acks)) && |d| <= capacity
  {
    if acks != [] {
      var before, a := acks[..|acks| - 1], acks[|acks| - 1];
      LeasesAreShaped(before, capacity);
      RememberStep(After(before, capacity), a.address, a.client, capacity, Addresses(before));
    }
  }

  /** The table agrees with the unbounded history, or has forgotten the address after at least
      `capacity` other addresses were acknowledged. */
  lemma {:induction false} LeasesAgreeWithHistory(acks: seq<Ack>, capacity: nat, address: nat)
    requires capacity >= 1
    ensures var d := After(acks, capacity);
            Get(d, address) == LastClient(acks, address)
            || (Get(d, address).None? && |Since(Addresses(acks), address)| >= capacity)
  {
    if acks != [] {
      var before, a := acks[..|acks| - 1], acks[|acks| - 1];
      LeasesAreShaped(before, capacity);
      LeasesAgreeWithHistory(before, capacity, address);
      RememberGet(After(before, capacity), a.address, a.client, capacity, Addresses(before), address);
      if a.address != address {
        SinceGrows(Addresses(before), a.address, address);
      }
    }
  }

  /** A reported reuse is always real, and unless `capacity` other addresses came between, reuse is
      reported exactly when the client last acknowledged for the address was another one. */
  lemma ReuseIsRight(acks: seq<Ack>, capacity: nat, a: Ack)
    requires capacity >= 1
    ensures var reported, last := Reuse(After(acks, capacity), a), LastClient(acks, a.address);
            && (reported.Some? ==> reported == last && last.value != a.client)
            && (|Since(Addresses(acks), a.address)| < capacity ==>
                  (reported.Some? <==> last.Some? && last.value != a.client))
  {
    LeasesAgreeWithHistory(acks, capacity, a.address);
  }

  /** The bound is exact: with room for one address, one other address makes a reuse go unseen. */
  lemma ForgettingHappens()
    ensures var acks := [Ack(1, 10), Ack(2, 20)];
            LastClient(acks, 1) == Some(10) && Reuse(After(acks, 1), Ack(1, 11)) == None
  {
    var first := [Ack(1, 10)];
    assert [Ack(1, 10), Ack(2, 20)][..1] == first && first[..0] == [];
    assert After(first, 1) == [Item(1, 10)];
    assert [Item(1, 10)][1..] == [] && Put([Item(1, 10)], 2, 20) == [Item(1, 10), Item(2, 20)];
    assert After([Ack(1, 10), Ack(2, 20)], 1) == [Item(2, 20)];
    assert Get([Item(2, 20)][1..], 1) == None;
  }
}
