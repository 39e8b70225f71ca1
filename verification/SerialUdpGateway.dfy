/** The serial-to-UDP direction of the gateway, and both directions back to back. */
module SerialUdpGateway {
  import opened Bytes
  import opened EasylabFrames
  import opened StreamParserEncoders

  ghost predicate ZeroTail(buf: Datagram) {
    forall k :: PAYLOAD_SIZE <= k < DATAGRAM_SIZE ==> buf[k] == 0
  }

  /** The reused datagram after the next one or two floats have been copied into it. */
  function Fill(buf: Datagram, floats: seq<Single>): Datagram
    requires floats != []
  {
    var first: Bytes := floats[0];
    if |floats| == 1 then first + buf[4..]
    else
      var second: Bytes := floats[1];
      first + second + buf[8..]
  }

  function Unsent(floats: seq<Single>): seq<Single>
    requires floats != []
  {
    if |floats| == 1 then [] else floats[2..]
  }

  function From(floats: seq<Single>, i: nat): seq<Single> {
    if i <= |floats| then floats[i..] else []
  }

  /** The datagrams one call sends, `down` naming the sends of that call that throw. */
  function Packets(buf: Datagram, floats: seq<Single>, down: set<nat>, k: nat): seq<Datagram>
    decreases |floats|
  {
    if floats == [] then []
    else (if k in down then [] else [Fill(buf, floats)])
         + Packets(Fill(buf, floats), Unsent(floats), down, k + 1)
  }

  function BufferAfter(buf: Datagram, floats: seq<Single>): Datagram
    decreases |floats|
  {
    if floats == [] then buf else BufferAfter(Fill(buf, floats), Unsent(floats))
  }

  /** One turn of the sending loop at float `i`. */
  lemma SendStep(buf: Datagram, floats: seq<Single>, i: nat, down: set<nat>, k: nat)
    requires i < |floats|
    ensures floats[i..] == From(floats, i)
    ensures var d := Fill(buf, From(floats, i));
            && Packets(buf, From(floats, i), down, k)
               == (if k in down then [] else [d]) + Packets(d, From(floats, i + 2), down, k + 1)
            && BufferAfter(buf, From(floats, i)) == BufferAfter(d, From(floats, i + 2))
  {
    assert Unsent(From(floats, i)) == From(floats, i + 2);
  }

  lemma NothingLeft(buf: Datagram, down: set<nat>, k: nat)
    ensures Packets(buf, [], down, k) == [] && BufferAfter(buf, []) == buf
  {
  }

  ghost predicate ZeroTails(ds: seq<Datagram>) {
    forall k :: 0 <= k < |ds| ==> ZeroTail(ds[k])
  }

  class Gateway {
    const sendPacket: array<Byte>

    ghost predicate Valid()
      reads this, sendPacket
    {
      sendPacket.Length == DATAGRAM_SIZE && ZeroTail(sendPacket[..])
    }

    constructor ()
      ensures Valid() && fresh(sendPacket) && sendPacket[..] == seq(DATAGRAM_SIZE, _ => 0)
    {
      sendPacket := new Byte[DATAGRAM_SIZE](_ => 0);
    }

    /** Copies the next one or two floats over the front of the datagram. */
    method CopyFloats(floats: seq<Single>, i: nat)
      requires Valid() && i < |floats|
      modifies sendPacket
      ensures Valid()
      ensures sendPacket[..] == Fill(old(sendPacket[..]), floats[i..])
    {
      if i < |floats| - 1 {
        forall b | 0 <= b < 4 {
          sendPacket[b] := floats[i][b];
        }
        forall b | 0 <= b < 4 {
          sendPacket[4 + b] := floats[i + 1][b];
        }
      } else {
        // the C# clearing loop runs from 4 to 4: bytes 4..7 keep the previous float
        forall b | 0 <= b < 4 {
          sendPacket[b] := floats[i][b];
        }
      }
    }

    method SendPackets(receivedFloats: seq<Single>, down: set<nat>) returns (packetsSent: seq<Datagram>)
      requires Valid()
      modifies sendPacket
      ensures Valid()
      ensures packetsSent == Packets(old(sendPacket[..]), receivedFloats, down, 0)
      ensures sendPacket[..] == BufferAfter(old(sendPacket[..]), receivedFloats)
    {
      hide Packets, BufferAfter, Fill;
      packetsSent := [];
      assert receivedFloats == From(receivedFloats, 0);
      var i, sends: nat := 0, 0;
      while true
        invariant Valid() && 0 <= i
        invariant packetsSent + Packets(sendPacket[..], From(receivedFloats, i), down, sends)
               == Packets(old(sendPacket[..]), receivedFloats, down, 0)
        invariant BufferAfter(sendPacket[..], From(receivedFloats, i))
               == BufferAfter(old(sendPacket[..]), receivedFloats)
        decreases |receivedFloats| - i
      {
        if i > |receivedFloats| - 1 {
          NothingLeft(sendPacket[..], down, sends);
          assert From(receivedFloats, i) == [];
          break;
        }
        SendStep(sendPacket[..], receivedFloats, i, down, sends);
        CopyFloats(receivedFloats, i);
        if sends !in down {
          ConcatAssoc(packetsSent, [sendPacket[..]], Packets(sendPacket[..], From(receivedFloats, i + 2), down, sends + 1));
          packetsSent := packetsSent + [sendPacket[..]];
        }
        sends := sends + 1;
        i := i + 2;
      }
    }
  }

  // ------------------------------------------------------------------- what is delivered

  /** The payloads whose datagram was sent without an exception. */
  function Survivors(ps: seq<Payload>, down: set<nat>, k: nat): seq<Payload>
    decreases |ps|
  {
    if ps == [] then []
    else (if k in down then [] else [ps[0]]) + Survivors(ps[1..], down, k + 1)
  }

  /** For what the parser delivers - always an even number of floats - the datagrams keep
      their zero tail and carry the payloads, one each, in order. */
  lemma {:induction false} PacketsCarryPayloads(buf: Datagram, ps: seq<Payload>, down: set<nat>, k: nat)
    requires ZeroTail(buf)
    ensures Heads(Packets(buf, FloatsOf(ps), down, k)) == Survivors(ps, down, k)
    ensures ZeroTails(Packets(buf, FloatsOf(ps), down, k))
    ensures ZeroTail(BufferAfter(buf, FloatsOf(ps)))
    decreases |ps|
  {
    if ps == [] {
    } else {
      var fs := FloatsOf(ps);
      var d := Fill(buf, fs);
      assert Unsent(fs) == FloatsOf(ps[1..]);
      assert d[..8] == ps[0] && d[8..] == buf[8..];
      forall j | PAYLOAD_SIZE <= j < DATAGRAM_SIZE
        ensures d[j] == 0
      {
        assert d[j] == buf[8..][j - 8];
      }
      PacketsCarryPayloads(d, ps[1..], down, k + 1);
      var rest := Packets(d, FloatsOf(ps[1..]), down, k + 1);
      assert ([d] + rest)[1..] == rest && [] + rest == rest;
      assert ZeroTails([d] + rest);
      SendStep(buf, fs, 0, down, k);
    }
  }

  /** Serial bytes arriving in one event, and the sends that throw while serving it. */
  datatype Arrival = Arrival(bytes: Bytes, down: set<nat>)

  /** Every datagram the gateway emits over a whole run of arrivals. */
  function Run(rem: Bytes, buf: Datagram, arrivals: seq<Arrival>): seq<Datagram>
    decreases |arrivals|
  {
    if arrivals == [] then []
    else
      var s := rem + arrivals[0].bytes;
      var floats := FloatsOf(Payloads(s));
      Packets(buf, floats, arrivals[0].down, 0) + Run(Remainder(s), BufferAfter(buf, floats), arrivals[1..])
  }

  function Delivered(rem: Bytes, arrivals: seq<Arrival>): seq<Payload>
    decreases |arrivals|
  {
    if arrivals == [] then []
    else
      var s := rem + arrivals[0].bytes;
      Survivors(Payloads(s), arrivals[0].down, 0) + Delivered(Remainder(s), arrivals[1..])
  }

  lemma {:induction false} HeadsAppend(a: seq<Datagram>, b: seq<Datagram>)
    ensures Heads(a + b) == Heads(a) + Heads(b)
  {
    if a == [] {
      assert a + b == b;
    } else {
      HeadsAppend(a[1..], b);
      assert (a + b)[1..] == a[1..] + b;
      ConcatAssoc([a[0][..8]], Heads(a[1..]), Heads(b));
    }
  }

  lemma {:induction false} RunCarriesDelivered(rem: Bytes, buf: Datagram, arrivals: seq<Arrival>)
    requires ZeroTail(buf)
    ensures Heads(Run(rem, buf, arrivals)) == Delivered(rem, arrivals)
    ensures ZeroTails(Run(rem, buf, arrivals))
    decreases |arrivals|
  {
    if arrivals == [] {
    } else {
      var s := rem + arrivals[0].bytes;
      var ps := Payloads(s);
      var buf' := BufferAfter(buf, FloatsOf(ps));
      PacketsCarryPayloads(buf, ps, arrivals[0].down, 0);
      RunCarriesDelivered(Remainder(s), buf', arrivals[1..]);
      HeadsAppend(Packets(buf, FloatsOf(ps), arrivals[0].down, 0), Run(Remainder(s), buf', arrivals[1..]));
    }
  }

  function BytesOf(arrivals: seq<Arrival>): seq<Bytes> {
    if arrivals == [] then [] else [arrivals[0].bytes] + BytesOf(arrivals[1..])
  }

  lemma {:induction false} EveryoneSurvives(ps: seq<Payload>, k: nat)
    ensures Survivors(ps, {}, k) == ps
  {
    if ps == [] {
    } else {
      EveryoneSurvives(ps[1..], k + 1);
    }
  }

  lemma {:induction false} LosslessDelivery(rem: Bytes, arrivals: seq<Arrival>)
    requires forall a :: a in arrivals ==> a.down == {}
    requires |rem| < FRAME_SIZE
    ensures Delivered(rem, arrivals) == Payloads(rem + Concat(BytesOf(arrivals)))
    decreases |arrivals|
  {
    if arrivals == [] {
      assert rem + Concat(BytesOf(arrivals)) == rem;
    } else {
      var s := rem + arrivals[0].bytes;
      var rest := Concat(BytesOf(arrivals[1..]));
      EveryoneSurvives(Payloads(s), 0);
      LosslessDelivery(Remainder(s), arrivals[1..]);
      CutOnce(s, rest);
      ConcatAssoc(rem, arrivals[0].bytes, rest);
    }
  }

  /** End to end: serial bytes in any arrivals, through parser, datagrams and encoder, and
      parsed again from any chunks `cuts`, come out as the payloads that were sent, with
      nothing left over; and as all payloads of the stream when no send throws. */
  lemma GatewayIdentity(buf: Datagram, arrivals: seq<Arrival>, cuts: seq<Bytes>)
    requires ZeroTail(buf)
    requires Concat(cuts) == Concat(EncodeAll(Concat(Run([], buf, arrivals))))
    ensures FeedAll([], cuts) == (Delivered([], arrivals), [])
    ensures (forall a :: a in arrivals ==> a.down == {})
        ==> Delivered([], arrivals) == Payloads(Concat(BytesOf(arrivals)))
  {
    var ds := Run([], buf, arrivals);
    RunCarriesDelivered([], buf, arrivals);
    EncodeAllOfDatagrams(ds);
    ParseEncodedIff(ds);
    ChunkInvariance([], cuts);
    assert [] + Concat(cuts) == Concat(cuts);
    if forall a :: a in arrivals ==> a.down == {} {
      LosslessDelivery([], arrivals);
      assert [] + Concat(BytesOf(arrivals)) == Concat(BytesOf(arrivals));
    }
  }

  /** A lone last float goes out followed by the second float of the datagram before it, or
      in a first datagram by what the buffer held; so it is padded with zeros exactly when
      those four bytes are zero. */
  lemma {:induction false} LoneFloatIsPaddedIff(buf: Datagram, floats: seq<Single>, down: set<nat>, k: nat)
    requires |floats| % 2 == 1 && k + |floats| / 2 !in down
    ensures var n := |floats|;
            var sent := Packets(buf, floats, down, k);
            var stale: Bytes := if n == 1 then buf[4..8] else floats[n - 2];
            && sent != [] && sent[|sent| - 1] == BufferAfter(buf, floats)
            && sent[|sent| - 1][..8] == floats[n - 1] + stale
            && (sent[|sent| - 1][4..8] == [0, 0, 0, 0] <==> stale == [0, 0, 0, 0])
    decreases |floats|
  {
    var d := Fill(buf, floats);
    if |floats| == 1 {
      NothingLeft(d, down, k + 1);
      assert d[4..8] == buf[4..8] && d[..8] == floats[0] + buf[4..8];
      assert Packets(buf, floats, down, k) == [d];
    } else {
      LoneFloatIsPaddedIff(d, floats[2..], down, k + 1);
      var second: Bytes := floats[1];
      assert d[4..8] == second;
    }
  }

  /** Three floats, sent from a fresh buffer: the third goes out with the second behind it. */
  lemma ThirdFloatCarriesTheSecond(a: Single, b: Single, c: Single)
    requires b != [0, 0, 0, 0]
    ensures var sent := Packets(seq(DATAGRAM_SIZE, _ => 0), [a, b, c], {}, 0);
            |sent| == 2 && sent[1][..8] == c + b && sent[1][4..8] != [0, 0, 0, 0]
  {
    var buf: Datagram := seq(DATAGRAM_SIZE, _ => 0);
    LoneFloatIsPaddedIff(buf, [a, b, c], {}, 0);
    SendStep(buf, [a, b, c], 0, {}, 0);
    SendStep(Fill(buf, [a, b, c]), [a, b, c], 2, {}, 1);
  }
}
