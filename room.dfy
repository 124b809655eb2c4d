/** The relay's room (cmd/server/bro.go): the peers it knows, keyed by the
    text form of their UDP address, and at most two of them once the relay
    loop has admitted them. */
module Room {
  import opened GoTypes
  import opened Arith

  /** A `net.Addr`, represented by its `String()` form. */
  type Addr = string

  /** A peer: its address and the name it sent (Go `string(data)`, kept as
      the bytes it was made from). */
  datatype Bro = Bro(addr: Addr, name: seq<byte>)

  /** Every entry is stored under its own address. */
  predicate Keyed(room: map<Addr, Bro>)
  {
    forall k :: k in room ==> room[k].addr == k
  }

  /** The room is full for `addr`: two or more peers, and `addr` is not one
      of them. */
  function Full(room: map<Addr, Bro>, addr: Addr): (full: bool)
    ensures full ==> |room.Keys - {addr}| >= 2
  {
    |room| >= 2 && addr !in room
  }

  /** Some peer other than `addr`, or `None` when there is none. Go ranges
      over the map in no fixed order; this picks one such peer, which is the
      only one whenever the room is not full for `addr` and holds at most
      two peers (`OneOther`). */
  ghost function Other(room: map<Addr, Bro>, addr: Addr): (o: Option<Addr>)
    ensures o.None? <==> forall k :: k in room ==> k == addr
    ensures o.Some? ==> exists k :: k in room && k != addr && room[k].addr == o.value
  {
    if exists k :: k in room && k != addr then
      var k :| k in room && k != addr; Some(room[k].addr)
    else None
  }

  /** A room of at most two that is not full for `addr` has at most one peer
      besides `addr`. */
  lemma OneOther(room: map<Addr, Bro>, addr: Addr, k1: Addr, k2: Addr)
    requires |room| <= 2 && !Full(room, addr)
    requires k1 in room && k1 != addr && k2 in room && k2 != addr
    ensures k1 == k2
  {
    if k1 != k2 {
      if addr in room {
        SubsetSize({addr, k1, k2}, room.Keys);
      } else {
        SubsetSize({k1, k2}, room.Keys);
      }
    }
  }

  /** With exactly the two peers `a` and `b`, the peer other than `a` is `b`. */
  lemma OtherOfPair(room: map<Addr, Bro>, a: Addr, b: Addr)
    requires Keyed(room) && room.Keys == {a, b} && a != b
    ensures Other(room, a) == Some(b)
    ensures Other(room, b) == Some(a)
  {
  }

  /** `Bros`: the room, a map the relay updates in place. */
  class Bros {
    var entries: map<Addr, Bro>

    ghost predicate Valid()
      reads this
    {
      Keyed(entries)
    }

    /** `NewBros`. */
    constructor()
      ensures Valid() && entries == map[]
    {
      entries := map[];
    }

    /** `isRoomFull`: a scan over the keys looking for `addr`, skipped when
        the room has fewer than two peers. */
    method IsRoomFull(addr: Addr) returns (full: bool)
      ensures full <==> Full(entries, addr)
    {
      if |entries| < 2 {
        return false;
      }
      var keys := entries.Keys;
      while keys != {}
        invariant keys <= entries.Keys
        invariant addr in entries ==> addr in keys
        decreases keys
      {
        var k :| k in keys;
        if k == addr {
          return false;
        }
        keys := keys - {k};
      }
      return true;
    }

    /** `otherBro`: the address of the first peer met whose key is not
        `addr`. The map's order is not fixed, so any such peer may come
        back; in a room the relay keeps there is only one. */
    method OtherBro(addr: Addr) returns (other: Option<Addr>)
      ensures other.None? <==> forall k :: k in entries ==> k == addr
      ensures other.Some? ==> exists k :: k in entries && k != addr && entries[k].addr == other.value
      ensures |entries| <= 2 && !Full(entries, addr) ==> other == Other(entries, addr)
    {
      var keys := entries.Keys;
      while keys != {}
        invariant keys <= entries.Keys
        invariant forall k :: k in entries && k !in keys ==> k == addr
        decreases keys
      {
        var k :| k in keys;
        if k != addr {
          if |entries| <= 2 && !Full(entries, addr) {
            ghost var j :| j in entries && j != addr && entries[j].addr == Other(entries, addr).value;
            OneOther(entries, addr, j, k);
          }
          return Some(entries[k].addr);
        }
        keys := keys - {k};
      }
      return None;
    }

    /** `remove`: deletes the key `addr`, if present. */
    method Remove(addr: Addr)
      requires Valid()
      modifies this
      ensures Valid() && entries == old(entries) - {addr}
    {
      entries := entries - {addr};
    }

    /** `add`: stores `{addr, name}` under `addr`, replacing any entry there. */
    method Add(addr: Addr, name: seq<byte>)
      requires Valid()
      modifies this
      ensures Valid() && entries == old(entries)[addr := Bro(addr, name)]
    {
      entries := entries[addr := Bro(addr, name)];
    }
  }
}
