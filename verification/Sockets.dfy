/** A connected stream socket: what read(2) will still deliver, and what send(2) has put on the wire. */
module Sockets {
  /** How many of the next left bytes a read of n bytes delivers when the network has this many at hand:
      at least one, and no more than there are or were asked for. */
  function Delivered(supply: seq<nat>, n: nat, left: nat): (got: nat)
    requires n > 0 && left > 0
    ensures 1 <= got <= n && got <= left
  {
    var most := if left < n then left else n;
    if supply == [] || most < supply[0] then most else if supply[0] == 0 then 1 else supply[0]
  }

  function Later<T>(s: seq<T>): seq<T> {
    if s == [] then [] else s[1..]
  }

  class Socket {
    const fd: int
    /** The bytes read(2) delivers before it first fails. */
    var pending: seq<char>
    /** How many bytes the network has at hand for each of the next reads. */
    var supply: seq<nat>
    /** What the client sends after each response it has received. */
    var later: seq<seq<char>>
    /** Every byte send(2) has accepted. */
    var sent: seq<char>
    /** A faultless socket never fails to send, and takes up to SMALL bytes in one piece. */
    const faultless: bool

    static const SMALL := 256

    constructor (fd: int, pending: seq<char>, supply: seq<nat>, later: seq<seq<char>>, faultless: bool)
      ensures this.fd == fd && this.pending == pending && this.supply == supply && this.later == later
      ensures sent == [] && this.faultless == faultless
    {
      this.fd, this.pending, this.supply, this.later, sent, this.faultless := fd, pending, supply, later, [], faultless;
    }

    /** The client has received a response and sends what it has to say next, if anything. */
    method Respond()
      modifies this`pending, this`later
      ensures if old(later) == [] then pending == old(pending) && later == []
              else pending == old(pending) + old(later)[0] && later == old(later)[1..]
    {
      if later != [] {
        pending, later := pending + later[0], later[1..];
      }
    }

    /** read(fd, buf, n): as many of the next bytes as the network has at hand; -1 when none are to come. */
    method Read(buf: array<char>, n: nat) returns (got: int)
      requires 0 < n <= buf.Length
      modifies this`pending, this`supply, buf
      ensures old(pending) == [] ==> got == -1 && pending == [] && supply == old(supply)
      ensures old(pending) != [] ==>
        && got == Delivered(old(supply), n, |old(pending)|) && supply == Later(old(supply))
        && buf[..got] == old(pending)[..got] && pending == old(pending)[got..]
    {
      if pending == [] {
        return -1;
      }
      got := Delivered(supply, n, |pending|);
      for i := 0 to got
        invariant pending == old(pending) && supply == old(supply) && buf[..i] == pending[..i]
      {
        buf[i] := pending[i];
      }
      pending, supply := pending[got..], Later(supply);
    }

    /** send(fd, data, |data|): some leading part of the data goes out, at least one byte of any;
        -1 is a failure. */
    method Send(data: seq<char>) returns (n: int)
      modifies this`sent
      ensures -1 <= n <= |data| && (data != [] ==> n != 0)
      ensures sent == old(sent) + data[..if n < 0 then 0 else n]
      ensures faultless ==> 0 <= n && (|data| <= SMALL ==> n == |data|)
    {
      n :| -1 <= n <= |data| && (data != [] ==> n != 0) && (faultless ==> 0 <= n && (|data| <= SMALL ==> n == |data|));
      sent := sent + data[..if n < 0 then 0 else n];
    }
  }
}
