/** One pass of the relay server's receive loop (cmd/server/main.go:74-117):
    the room-full check, then the reaction to each message type. A datagram
    is the bytes one `ReadFrom` delivered; the writes the pass makes are
    returned as a list of (destination, bytes) sends, and the byte counter
    fed to the throughput statistics is kept as a running total. */
module Relay {
  import opened GoTypes
  import opened Message
  import opened Room
  import opened Arith

  /** One `WriteTo`: the bytes and the address they go to. */
  datatype Send = Send(to: Addr, msg: seq<byte>)

  /** What one pass does: the room afterwards, the sends in order, and the
      number of bytes given to `stats.ProcessBytes`. */
  datatype Turn = Turn(room: map<Addr, Bro>, sends: seq<Send>, fed: nat)

  /** The text payloads the relay sends, as the bytes Go converts them to. */
  const FullText: seq<byte> := [102, 117, 108, 108]        // "full"
  const EmptyText: seq<byte> := [101, 109, 112, 116, 121]  // "empty"
  const OkText: seq<byte> := [111, 107]                    // "ok"

  /** A Frame or Audio message goes to the other peer unchanged, rebuilt
      from its type and payload; with no other peer the sender is told the
      room is empty. */
  ghost function Forward(room: map<Addr, Bro>, sender: Addr, t: MessageType, payload: seq<byte>, n: nat): (turn: Turn)
    requires t == Frame || t == Audio
    ensures turn.room == room && turn.fed == n && |turn.sends| == 1
    ensures turn.sends[0].to == sender || exists k :: k in room && k != sender && room[k].addr == turn.sends[0].to
  {
    var msg := if t == Frame then MakeFrame(payload) else MakeAudio(payload);
    match Other(room, sender)
    case Some(to) => Turn(room, [Send(to, msg)], n)
    case None => Turn(room, [Send(sender, MakeError(EmptyText))], n)
  }

  /** One pass of the loop for datagram `d` from `sender`. A sender for whom
      the room is full gets `Error("full")` whatever it sent; otherwise an
      empty datagram makes `Parse` index past its end. */
  ghost function Relaying(room: map<Addr, Bro>, sender: Addr, d: seq<byte>): (r: Outcome<Turn>)
    ensures r.Ok? ==> r.value.room.Keys <= room.Keys + {sender}
    ensures r.Ok? ==> |r.value.sends| <= 1 && r.value.fed <= |d|
  {
    if Full(room, sender) then Ok(Turn(room, [Send(sender, MakeError(FullText))], 0))
    else if |d| == 0 then Panic(IndexOutOfRange)
    else
      var (payload, t) := Parse(d);
      match t
      case Info => Ok(Turn(room[sender := Bro(sender, payload)], [Send(sender, MakeInfo(OkText))], 0))
      case Frame => Ok(Forward(room, sender, Frame, payload, |d|))
      case Audio => Ok(Forward(room, sender, Audio, payload, |d|))
      case Error => Ok(Turn(room - {sender}, [], 0))
      case Unknown => Ok(Turn(room, [], 0))
  }

  /** The rooms the loop keeps: entries under their own address, at most two. */
  predicate Admissible(room: map<Addr, Bro>)
  {
    Keyed(room) && |room| <= 2
  }

  /** The loop's state: the room, and the bytes counted so far. */
  class Server {
    const bros: Bros
    var fed: nat

    ghost predicate Valid()
      reads this, bros
    {
      bros.Valid() && Admissible(bros.entries)
    }

    constructor()
      ensures Valid() && fresh(bros) && bros.entries == map[] && fed == 0
    {
      bros := new Bros();
      fed := 0;
    }

    /** The body of the receive loop for one datagram. */
    method Handle(sender: Addr, d: seq<byte>) returns (r: Outcome<seq<Send>>)
      requires Valid()
      modifies this, bros
      ensures Valid()
      ensures Relaying(old(bros.entries), sender, d).Panic? ==>
        r == Panic(IndexOutOfRange) && bros.entries == old(bros.entries) && fed == old(fed)
      ensures Relaying(old(bros.entries), sender, d).Ok? ==>
        var t := Relaying(old(bros.entries), sender, d).value;
        r == Ok(t.sends) && bros.entries == t.room && fed == old(fed) + t.fed
    {
      ghost var room := bros.entries;
      var full := bros.IsRoomFull(sender);
      if full {
        return Ok([Send(sender, MakeError(FullText))]);
      }
      if |d| == 0 {
        return Panic(IndexOutOfRange);
      }
      var (payload, t) := Parse(d);
      match t {
        case Info =>
          bros.Add(sender, payload);
          RoomGrowsToTwo(room, sender, payload);
          return Ok([Send(sender, MakeInfo(OkText))]);
        case Frame =>
          fed := fed + |d|;
          var other := bros.OtherBro(sender);
          if other.Some? {
            return Ok([Send(other.value, MakeFrame(payload))]);
          }
          return Ok([Send(sender, MakeError(EmptyText))]);
        case Audio =>
          fed := fed + |d|;
          var other := bros.OtherBro(sender);
          if other.Some? {
            return Ok([Send(other.value, MakeAudio(payload))]);
          }
          return Ok([Send(sender, MakeError(EmptyText))]);
        case Error =>
          bros.Remove(sender);
          SubsetSize((room - {sender}).Keys, room.Keys);
          return Ok([]);
        case Unknown =>
          return Ok([]);
      }
    }
  }

  /** Adding a sender the room is not full for keeps it at two or fewer. */
  lemma RoomGrowsToTwo(room: map<Addr, Bro>, sender: Addr, name: seq<byte>)
    requires Admissible(room) && !Full(room, sender)
    ensures Admissible(room[sender := Bro(sender, name)])
  {
    if sender in room {
      assert room[sender := Bro(sender, name)].Keys == room.Keys;
    } else {
      assert room[sender := Bro(sender, name)].Keys == room.Keys + {sender};
    }
  }

  // ---------------------------------------------------------------------
  // What one pass does
  // ---------------------------------------------------------------------

  /** A third address gets `Error("full")` and nothing changes, whatever it
      sent (an empty datagram included). */
  lemma Refused(room: map<Addr, Bro>, sender: Addr, d: seq<byte>)
    requires |room| >= 2 && sender !in room
    ensures Relaying(room, sender, d) == Ok(Turn(room, [Send(sender, [99, 102, 117, 108, 108])], 0))
  {
    assert MakeError(FullText) == [99, 102, 117, 108, 108];
  }

  /** Info registers the sender under its address, with the payload as its
      name, and answers `Info("ok")`. */
  lemma Registers(room: map<Addr, Bro>, sender: Addr, name: seq<byte>)
    requires !Full(room, sender)
    ensures Relaying(room, sender, MakeInfo(name)) ==
      Ok(Turn(room[sender := Bro(sender, name)], [Send(sender, [0, 111, 107])], 0))
  {
    ParseMake(Info, name);
    assert MakeInfo(OkText) == [0, 111, 107];
  }

  /** Frame and Audio datagrams reach the other peer byte for byte, and only
      that peer; every byte of them is counted. */
  lemma Forwards(room: map<Addr, Bro>, sender: Addr, d: seq<byte>)
    requires Admissible(room) && !Full(room, sender)
    requires |d| > 0 && (d[0] == 1 || d[0] == 2)
    requires exists k :: k in room && k != sender
    ensures Relaying(room, sender, d).Ok?
    ensures var t := Relaying(room, sender, d).value;
      t.room == room && t.fed == |d| && |t.sends| == 1 &&
      t.sends[0].msg == d && t.sends[0].to in room && t.sends[0].to != sender
  {
    MakeParse(d);
  }

  /** Frame and Audio with nobody else in the room: the sender is told
      `Error("empty")`, the room is left as it was, the bytes still count. */
  lemma NoPeer(room: map<Addr, Bro>, sender: Addr, d: seq<byte>)
    requires !Full(room, sender) && forall k :: k in room ==> k == sender
    requires |d| > 0 && (d[0] == 1 || d[0] == 2)
    ensures Relaying(room, sender, d) ==
      Ok(Turn(room, [Send(sender, [99, 101, 109, 112, 116, 121])], |d|))
  {
    assert MakeError(EmptyText) == [99, 101, 109, 112, 116, 121];
  }

  /** Error removes the sender and sends nothing. */
  lemma Leaves(room: map<Addr, Bro>, sender: Addr, d: seq<byte>)
    requires !Full(room, sender) && |d| > 0 && d[0] == 99
    ensures Relaying(room, sender, d) == Ok(Turn(room - {sender}, [], 0))
  {
  }

  /** An unknown tag changes nothing and sends nothing. */
  lemma Ignores(room: map<Addr, Bro>, sender: Addr, d: seq<byte>)
    requires !Full(room, sender) && |d| > 0 && d[0] !in {0, 1, 2, 99}
    ensures Relaying(room, sender, d) == Ok(Turn(room, [], 0))
  {
  }

  /** An empty datagram from an admitted sender, or while the room has
      space, stops the server. */
  lemma EmptyDatagramPanics(room: map<Addr, Bro>, sender: Addr)
    requires !Full(room, sender)
    ensures Relaying(room, sender, []) == Panic(IndexOutOfRange)
  {
  }

  /** A sender that never registered still has its Frame and Audio
      forwarded while the room holds exactly one peer. */
  lemma NewcomerForwarded(room: map<Addr, Bro>, sender: Addr, peer: Addr, d: seq<byte>)
    requires Keyed(room) && room.Keys == {peer} && sender != peer
    requires |d| > 0 && (d[0] == 1 || d[0] == 2)
    ensures Relaying(room, sender, d) == Ok(Turn(room, [Send(peer, d)], |d|))
  {
    assert |room| == 1 by {
      assert |room.Keys| == 1;
    }
    Forwards(room, sender, d);
  }

  /** A pass never takes the room beyond two peers or breaks its keying. */
  lemma StepAdmissible(room: map<Addr, Bro>, sender: Addr, d: seq<byte>)
    requires Admissible(room) && Relaying(room, sender, d).Ok?
    ensures Admissible(Relaying(room, sender, d).value.room)
  {
    if !Full(room, sender) && |d| > 0 {
      var (payload, t) := Parse(d);
      if t == Info {
        RoomGrowsToTwo(room, sender, payload);
      } else if t == Error {
        SubsetSize((room - {sender}).Keys, room.Keys);
      }
    }
  }

  // ---------------------------------------------------------------------
  // Any number of passes
  // ---------------------------------------------------------------------

  /** A datagram and the address it came from. */
  datatype Datagram = Datagram(from: Addr, bytes: seq<byte>)

  /** The addresses the datagrams `ds` came from. */
  function Senders(ds: seq<Datagram>): set<Addr>
  {
    if ds == [] then {} else Senders(ds[..|ds| - 1]) + {ds[|ds| - 1].from}
  }

  /** The room after the loop has handled `ds` in order, or the panic that
      stopped it. */
  ghost function Serve(room: map<Addr, Bro>, ds: seq<Datagram>): (r: Outcome<map<Addr, Bro>>)
    ensures r.Ok? ==> r.value.Keys <= room.Keys + Senders(ds)
  {
    if ds == [] then Ok(room)
    else
      match Serve(room, ds[..|ds| - 1])
      case Panic(m) => Panic(m)
      case Ok(before) =>
        match Relaying(before, ds[|ds| - 1].from, ds[|ds| - 1].bytes)
        case Panic(m) => Panic(m)
        case Ok(t) => Ok(t.room)
  }

  /** However many datagrams arrive, from however many addresses, the room
      never holds more than two peers. */
  lemma {:induction false} RoomStaysSmall(room: map<Addr, Bro>, ds: seq<Datagram>)
    requires Admissible(room)
    ensures Serve(room, ds).Ok? ==> Admissible(Serve(room, ds).value)
  {
    if ds != [] {
      var last := ds[|ds| - 1];
      RoomStaysSmall(room, ds[..|ds| - 1]);
      var before := Serve(room, ds[..|ds| - 1]);
      if before.Ok? && Relaying(before.value, last.from, last.bytes).Ok? {
        StepAdmissible(before.value, last.from, last.bytes);
      }
    }
  }
}
