/**
 * The relayer: a list of connected sockets; every inbound message goes out
 * again, byte for byte, to each listed socket that is OPEN. Whether a socket
 * is OPEN, and whether `send` throws on it, are given with each message.
 */
module Relayer {
  import opened Sockets

  /** One call of `send` on a socket, with the bytes it was given. */
  datatype Delivery = Delivery(to: SocketId, data: Bytes)

  /**
   * What the `forEach` in the `message` handler sends: the OPEN sockets in
   * list order, until a `send` throws; the `catch` ends the pass there.
   */
  function Fanout(sockets: seq<SocketId>, data: Bytes, open: set<SocketId>, throwing: set<SocketId>): seq<Delivery> {
    if sockets == [] then []
    else if sockets[0] !in open then Fanout(sockets[1..], data, open, throwing)
    else if sockets[0] in throwing then []
    else [Delivery(sockets[0], data)] + Fanout(sockets[1..], data, open, throwing)
  }

  /** The list without its first copy of `x`, as `indexOf` followed by a one-element `splice` leaves it. */
  function RemoveFirst(sockets: seq<SocketId>, x: SocketId): seq<SocketId> {
    if sockets == [] then []
    else if sockets[0] == x then sockets[1..]
    else [sockets[0]] + RemoveFirst(sockets[1..], x)
  }

  /** The `indexOf` search: the first position of `x`, or -1. */
  method IndexOf(sockets: seq<SocketId>, x: SocketId) returns (index: int)
    ensures -1 <= index < |sockets|
    ensures index == -1 <==> x !in sockets
    ensures 0 <= index ==> sockets[index] == x && x !in sockets[..index]
  {
    var i := 0;
    while i < |sockets|
      invariant 0 <= i <= |sockets|
      invariant x !in sockets[..i]
    {
      if sockets[i] == x {
        return i;
      }
      assert sockets[..i + 1] == sockets[..i] + [sockets[i]];
      i := i + 1;
    }
    assert sockets[..i] == sockets;
    return -1;
  }

  /** The relayer process: the connected sockets, and every message sent so far. */
  class Relay {
    var sockets: seq<SocketId>
    var outbox: seq<Delivery>

    constructor ()
      ensures sockets == [] && outbox == []
    {
      sockets := [];
      outbox := [];
    }

    /** The `connection` callback: the new socket goes to the end of the list. */
    method OnConnection(ws: SocketId)
      modifies this
      ensures sockets == old(sockets) + [ws]
      ensures outbox == old(outbox)
    {
      sockets := sockets + [ws];
    }

    /** The `message` callback of socket `from`: the sender is not skipped. */
    method OnMessage(from: SocketId, data: Bytes, open: set<SocketId>, throwing: set<SocketId>)
      modifies this
      ensures sockets == old(sockets)
      ensures outbox == old(outbox) + Fanout(sockets, data, open, throwing)
    {
      var i := 0;
      while i < |sockets|
        invariant 0 <= i <= |sockets|
        invariant sockets == old(sockets)
        invariant outbox + Fanout(sockets[i..], data, open, throwing) == old(outbox) + Fanout(sockets, data, open, throwing)
      {
        assert sockets[i..][1..] == sockets[i + 1..];
        if sockets[i] in open {
          if sockets[i] in throwing {
            break;
          }
          outbox := outbox + [Delivery(sockets[i], data)];
        }
        i := i + 1;
      }
    }

    /** The `close` callback of socket `ws`. */
    method OnClose(ws: SocketId)
      modifies this
      ensures sockets == RemoveFirst(old(sockets), ws)
      ensures outbox == old(outbox)
    {
      var index := IndexOf(sockets, ws);
      if index != -1 {
        RemoveFirstAt(sockets, ws, index);
        sockets := sockets[..index] + sockets[index + 1..];
      } else {
        RemoveFirstAbsent(sockets, ws);
      }
    }
  }

  // ---------- Properties of the fan-out ----------

  /** Every delivery carries the inbound bytes unchanged, to a listed OPEN socket whose `send` did not throw. */
  lemma {:induction false} FanoutSendsIdenticalBytes(sockets: seq<SocketId>, data: Bytes, open: set<SocketId>,
                                                     throwing: set<SocketId>, d: Delivery)
    requires d in Fanout(sockets, data, open, throwing)
    ensures d.data == data && d.to in sockets && d.to in open && d.to !in throwing
  {
    if sockets != [] && d in Fanout(sockets[1..], data, open, throwing) {
      FanoutSendsIdenticalBytes(sockets[1..], data, open, throwing, d);
    }
  }

  /**
   * While no `send` throws, each OPEN socket gets the message once per
   * listing, the sender included, and no other socket gets it.
   */
  lemma {:induction false} FanoutReachesEveryOpenSocket(sockets: seq<SocketId>, data: Bytes, open: set<SocketId>,
                                                        throwing: set<SocketId>, x: SocketId)
    requires forall i | 0 <= i < |sockets| :: sockets[i] in open ==> sockets[i] !in throwing
    ensures multiset(Fanout(sockets, data, open, throwing))[Delivery(x, data)]
         == if x in open then multiset(sockets)[x] else 0
  {
    if sockets != [] {
      FanoutReachesEveryOpenSocket(sockets[1..], data, open, throwing, x);
      assert sockets == [sockets[0]] + sockets[1..];
    }
  }

  /** The socket a message came from gets it back when it is listed and OPEN. */
  lemma SenderGetsItsOwnMessage(sockets: seq<SocketId>, from: SocketId, data: Bytes, open: set<SocketId>,
                                throwing: set<SocketId>)
    requires from in sockets && from in open
    requires forall i | 0 <= i < |sockets| :: sockets[i] in open ==> sockets[i] !in throwing
    ensures Delivery(from, data) in Fanout(sockets, data, open, throwing)
  {
    FanoutReachesEveryOpenSocket(sockets, data, open, throwing, from);
  }

  /** A pass without a throw splits at any point of the list. */
  lemma {:induction false} FanoutAppend(a: seq<SocketId>, b: seq<SocketId>, data: Bytes, open: set<SocketId>,
                                        throwing: set<SocketId>)
    requires forall i | 0 <= i < |a| :: a[i] in open ==> a[i] !in throwing
    ensures Fanout(a + b, data, open, throwing) == Fanout(a, data, open, throwing) + Fanout(b, data, open, throwing)
  {
    if a == [] {
      assert a + b == b;
    } else {
      assert (a + b)[0] == a[0] && (a + b)[1..] == a[1..] + b;
      FanoutAppend(a[1..], b, data, open, throwing);
    }
  }

  /**
   * A throwing `send` on the first OPEN socket that throws ends the pass:
   * only the sockets before it are served.
   */
  lemma FanoutStopsAtThrow(sockets: seq<SocketId>, k: nat, data: Bytes, open: set<SocketId>, throwing: set<SocketId>)
    requires k < |sockets| && sockets[k] in open && sockets[k] in throwing
    requires forall i | 0 <= i < k :: sockets[i] in open ==> sockets[i] !in throwing
    ensures Fanout(sockets, data, open, throwing) == Fanout(sockets[..k], data, open, throwing)
  {
    assert sockets == sockets[..k] + sockets[k..];
    FanoutAppend(sockets[..k], sockets[k..], data, open, throwing);
    assert Fanout(sockets[k..], data, open, throwing) == [];
  }

  // ---------- Properties of close ----------

  /** Removing the first copy at its position: the sockets before and after keep their order. */
  lemma {:induction false} RemoveFirstAt(sockets: seq<SocketId>, x: SocketId, index: nat)
    requires index < |sockets| && sockets[index] == x && x !in sockets[..index]
    ensures RemoveFirst(sockets, x) == sockets[..index] + sockets[index + 1..]
  {
    if index > 0 {
      assert sockets[0] in sockets[..index];
      assert sockets[1..][..index - 1] == sockets[1..index];
      RemoveFirstAt(sockets[1..], x, index - 1);
      assert sockets[..index] == [sockets[0]] + sockets[1..index];
    }
  }

  /** Closing a socket that is not listed leaves the list unchanged. */
  lemma {:induction false} RemoveFirstAbsent(sockets: seq<SocketId>, x: SocketId)
    requires x !in sockets
    ensures RemoveFirst(sockets, x) == sockets
  {
    if sockets != [] {
      RemoveFirstAbsent(sockets[1..], x);
    }
  }

  /** Close takes away exactly one copy of the socket, when there is one, and nothing else. */
  lemma {:induction false} RemoveFirstTakesOneCopy(sockets: seq<SocketId>, x: SocketId)
    ensures multiset(RemoveFirst(sockets, x)) == multiset(sockets) - multiset{x}
  {
    if sockets != [] {
      RemoveFirstTakesOneCopy(sockets[1..], x);
      assert sockets == [sockets[0]] + sockets[1..];
    }
  }
}
