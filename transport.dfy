/**
 * The RFCOMM socket, abstracted. The core only ever calls read(s, buf, n)
 * and write(s, buf, n) on it; the socket itself, its 5-second receive
 * timeout and connect/close are outside the model.
 *
 * Inbound data is a queue of deliveries. One read(n) call takes at most n
 * bytes from the delivery at the head of the queue (a blocking stream read
 * returns what has arrived, never more than asked for); an empty delivery
 * is a read that timed out and returns 0 bytes, and a read on an empty
 * queue also returns 0 bytes (the peer stays silent). Outbound, every
 * successful write call is recorded in `outbox`; the peer accepts
 * `writesLeft` more write calls, after which write() fails with -1.
 */
module Transport {

  import opened Bytes

  datatype Wire = Wire(inbound: seq<seq<Byte>>, outbox: seq<seq<Byte>>, writesLeft: nat)

  /** Bytes still to be delivered, plus one per delivery; every read that returns data lowers it. */
  function Weight(q: seq<seq<Byte>>): nat
  {
    if q == [] then 0 else |q[0]| + 1 + Weight(q[1..])
  }

  datatype Got = Got(bytes: seq<Byte>, wire: Wire)

  /** read(s, buf, n): the bytes obtained and the link afterwards. */
  function ReadBytes(w: Wire, n: nat): (r: Got)
    ensures |r.bytes| <= n
    ensures r.wire.outbox == w.outbox && r.wire.writesLeft == w.writesLeft
    ensures Weight(r.wire.inbound) <= Weight(w.inbound)
    ensures n > 0 && w.inbound != [] ==> Weight(r.wire.inbound) < Weight(w.inbound)
  {
    if w.inbound == [] then Got([], w)
    else if |w.inbound[0]| <= n then Got(w.inbound[0], w.(inbound := w.inbound[1..]))
    else
      var q := [w.inbound[0][n..]] + w.inbound[1..];
      assert q[1..] == w.inbound[1..];
      Got(w.inbound[0][..n], w.(inbound := q))
  }

  lemma ReadWholeDelivery(w: Wire, n: nat, d: seq<Byte>, rest: seq<seq<Byte>>)
    requires w.inbound == [d] + rest && |d| <= n
    ensures ReadBytes(w, n) == Got(d, w.(inbound := rest))
  {
    assert w.inbound[1..] == rest;
  }

  lemma ReadDeliveryPrefix(w: Wire, n: nat, d: seq<Byte>, rest: seq<seq<Byte>>)
    requires w.inbound == [d] + rest && n < |d|
    ensures ReadBytes(w, n) == Got(d[..n], w.(inbound := [d[n..]] + rest))
  {
    assert w.inbound[1..] == rest;
  }

  datatype Written = Written(count: int, wire: Wire)

  /** write(s, buf, |bytes|): the count it returns and the link afterwards. */
  function WriteBytes(w: Wire, bytes: seq<Byte>): (r: Written)
    ensures r.wire.inbound == w.inbound
    ensures r.count == |bytes| <==> w.writesLeft > 0
    ensures w.writesLeft > 0 ==> r.wire.outbox == w.outbox + [bytes] && r.wire.writesLeft == w.writesLeft - 1
    ensures w.writesLeft == 0 ==> r.wire == w && r.count == -1
  {
    if w.writesLeft > 0 then Written(|bytes|, w.(outbox := w.outbox + [bytes], writesLeft := w.writesLeft - 1))
    else Written(-1, w)
  }

  /** The socket descriptor `s`. */
  class Link {
    var wire: Wire

    constructor (w: Wire)
      ensures wire == w
    {
      wire := w;
    }

    method Read(n: nat) returns (bytes: seq<Byte>)
      modifies this
      ensures Got(bytes, wire) == ReadBytes(old(wire), n)
    {
      var g := ReadBytes(wire, n);
      bytes, wire := g.bytes, g.wire;
    }

    method Write(bytes: seq<Byte>) returns (count: int)
      modifies this
      ensures Written(count, wire) == WriteBytes(old(wire), bytes)
    {
      var r := WriteBytes(wire, bytes);
      count, wire := r.count, r.wire;
    }
  }
}
