/** The resumable frame parser and the frame encoder of the Easylab serial/UDP gateway. */
module StreamParserEncoders {
  import opened Bytes
  import opened EasylabFrames

  /** A single-precision float, kept as the four bytes the bit converter copies. */
  type Single = s: Bytes | |s| == 4 witness [0, 0, 0, 0]

  function FloatsOf(ps: seq<Payload>): seq<Single> {
    if ps == [] then [] else [ps[0][..4], ps[0][4..]] + FloatsOf(ps[1..])
  }

  lemma {:induction false} FloatsComeInPairs(ps: seq<Payload>)
    ensures |FloatsOf(ps)| == 2 * |ps|
  {
    if ps == [] {
    } else {
      FloatsComeInPairs(ps[1..]);
    }
  }

  /** The floats of some payloads spell these payloads, byte for byte. */
  lemma {:induction false} FloatsSpellPayloads(ps: seq<Payload>)
    ensures Concat(FloatsOf(ps)) == Concat(ps)
  {
    if ps == [] {
    } else {
      var p, rest := ps[0], FloatsOf(ps[1..]);
      FloatsSpellPayloads(ps[1..]);
      var fs := FloatsOf(ps);
      assert fs[0] == p[..4] && fs[1..] == [p[4..]] + rest;
      assert ([p[4..]] + rest)[1..] == rest;
      ConcatAssoc(p[..4], p[4..], Concat(rest));
      assert p[..4] + p[4..] == p;
    }
  }

  /** One turn of the parsing loop at position `i`. */
  lemma ScanStep(s: Bytes, i: nat)
    requires i + FRAME_SIZE <= |s|
    ensures s[i] != START_BYTE || s[i + 9] != Xor(s[i + 1..i + 9]) ==>
              Payloads(s[i..]) == Payloads(s[i + 1..]) && Remainder(s[i..]) == Remainder(s[i + 1..])
    ensures s[i] == START_BYTE && s[i + 9] == Xor(s[i + 1..i + 9]) ==>
              && FloatsOf(Payloads(s[i..])) == [s[i + 1..i + 5], s[i + 5..i + 9]] + FloatsOf(Payloads(s[i + 10..]))
              && Remainder(s[i..]) == Remainder(s[i + 10..])
  {
    var t := s[i..];
    var w := t[..10];
    assert w[1..9] == t[1..9] == s[i + 1..i + 9];
    assert w[0] == s[i] && w[9] == s[i + 9];
    assert t[1..] == s[i + 1..] && t[10..] == s[i + 10..];
    if ValidFrame(w) {
      var p: Payload, rest := t[1..9], Payloads(t[10..]);
      assert Payloads(t) == [p] + rest;
      assert ([p] + rest)[1..] == rest;
      assert t[1..9][..4] == s[i + 1..i + 5] && t[1..9][4..] == s[i + 5..i + 9];
    }
  }

  lemma ScanEnd(s: Bytes)
    requires |s| < FRAME_SIZE
    ensures Payloads(s) == [] && FloatsOf(Payloads(s)) == [] && Remainder(s) == s
  {
  }

  method Checksum(packet: array<Byte>, from: nat) returns (crc: Byte)
    requires from + PAYLOAD_SIZE <= packet.Length
    ensures crc == Xor(packet[from..from + PAYLOAD_SIZE])
  {
    crc := 0;
    for j := from to from + PAYLOAD_SIZE
      invariant crc == Xor(packet[from..j])
    {
      assert packet[from..j + 1][..j - from] == packet[from..j];
      crc := XorByte(crc, packet[j]);
    }
  }

  class StreamParserEncoder {
    var remainingLength: nat
    const remainingBytes: array<Byte>

    ghost predicate Valid()
      reads this
    {
      remainingBytes.Length == FRAME_SIZE - 1 && remainingLength <= FRAME_SIZE - 1
    }

    ghost function Remaining(): Bytes
      requires Valid()
      reads this, remainingBytes
    {
      remainingBytes[..remainingLength]
    }

    constructor ()
      ensures Valid() && fresh(remainingBytes) && Remaining() == []
    {
      remainingBytes := new Byte[FRAME_SIZE - 1];
      remainingLength := 0;
    }

    method ParseBytes(newBytesRead: array<Byte>)
      returns (newFloats: seq<Single>, prevRemaining: Bytes, actualRemaining: Bytes)
      requires Valid()
      modifies this`remainingLength, remainingBytes
      ensures Valid()
      ensures newFloats == FloatsOf(Payloads(old(Remaining() + newBytesRead[..])))
      ensures Remaining() == Remainder(old(Remaining() + newBytesRead[..]))
      ensures prevRemaining == old(Remaining()) && actualRemaining == Remaining()
    {
      hide Payloads, Remainder, FloatsOf;
      prevRemaining := remainingBytes[..remainingLength];
      var actualPacket := new Byte[remainingLength + newBytesRead.Length];
      forall k | 0 <= k < remainingLength {
        actualPacket[k] := remainingBytes[k];
      }
      forall k | 0 <= k < newBytesRead.Length {
        actualPacket[remainingLength + k] := newBytesRead[k];
      }
      assert actualPacket[..] == old(Remaining() + newBytesRead[..]);

      var actualIndex;
      newFloats, actualIndex := ScanPacket(actualPacket);

      remainingLength := actualPacket.Length - actualIndex;
      if remainingLength > 0 {
        forall k | 0 <= k < remainingLength {
          remainingBytes[k] := actualPacket[actualIndex + k];
        }
      }
      actualRemaining := remainingBytes[..remainingLength];
      assert actualRemaining == actualPacket[actualIndex..];
    }

    /** The parsing loop: the floats of the accepted frames, and where the remainder begins. */
    method ScanPacket(actualPacket: array<Byte>) returns (newFloats: seq<Single>, actualIndex: nat)
      ensures newFloats == FloatsOf(Payloads(actualPacket[..]))
      ensures actualIndex <= actualPacket.Length
      ensures actualPacket[actualIndex..] == Remainder(actualPacket[..])
    {
      hide Payloads, Remainder, FloatsOf, Xor;
      newFloats, actualIndex := [], 0;
      ghost var stream := actualPacket[..];
      assert stream == stream[0..];
      while actualPacket.Length - actualIndex >= FRAME_SIZE
        invariant actualIndex <= actualPacket.Length
        invariant newFloats + FloatsOf(Payloads(stream[actualIndex..])) == FloatsOf(Payloads(stream))
        invariant Remainder(stream[actualIndex..]) == Remainder(stream)
      {
        ScanStep(stream, actualIndex);
        var start := actualIndex;
        actualIndex := actualIndex + 1;
        if actualPacket[start] == START_BYTE {
          var crc := Checksum(actualPacket, actualIndex);
          if actualPacket[actualIndex + FRAME_SIZE - 2] == crc {
            var first := actualPacket[actualIndex..actualIndex + 4];
            var second := actualPacket[actualIndex + 4..actualIndex + 8];
            assert stream[start + 1..start + 5] == first && stream[start + 5..start + 9] == second;
            assert stream[start + 1..start + 9] == actualPacket[actualIndex..actualIndex + 8];
            ConcatAssoc(newFloats, [first, second], FloatsOf(Payloads(stream[start + 10..])));
            newFloats := newFloats + [first, second];
            actualIndex := actualIndex + FRAME_SIZE - 1;
          }
        }
      }
      ScanEnd(stream[actualIndex..]);
    }

    method EncodeBytes(received: array<Byte>) returns (newPackets: seq<Bytes>)
      ensures newPackets == EncodeAll(received[..])
    {
      newPackets := [];
      var actualIndex := 0;
      ghost var all := received[..];
      assert all[0..] == all;
      while received.Length - actualIndex >= DATAGRAM_SIZE
        invariant actualIndex <= received.Length
        invariant newPackets + EncodeAll(all[actualIndex..]) == EncodeAll(all)
      {
        var commPacket := EncodeOne(received, actualIndex);
        ghost var t := all[actualIndex..];
        assert t[..60] == all[actualIndex..actualIndex + 60];
        assert t[60..] == all[actualIndex + 60..];
        ConcatAssoc(newPackets, [commPacket[..]], EncodeAll(t[60..]));
        newPackets := newPackets + [commPacket[..]];
        actualIndex := actualIndex + DATAGRAM_SIZE;
      }
    }

    method EncodeOne(received: array<Byte>, at: nat) returns (commPacket: array<Byte>)
      requires at + DATAGRAM_SIZE <= received.Length
      ensures fresh(commPacket) && commPacket[..] == EncodeFrame(received[at..at + 60])
    {
      ghost var d := received[at..at + 60];
      var crc := received[at];
      commPacket := new Byte[FRAME_SIZE];
      commPacket[0] := START_BYTE;
      assert d[..1] == [received[at]] && d[..1][..0] == [];
      for j := 1 to FRAME_SIZE - 1
        invariant commPacket[0] == START_BYTE
        invariant forall k :: 1 <= k < j ==> commPacket[k] == d[k - 1]
        invariant crc == Xor(d[..j])
      {
        commPacket[j] := received[at + j - 1];
        assert d[..j + 1][..j] == d[..j];
        crc := XorByte(crc, received[at + j]);
      }
      commPacket[FRAME_SIZE - 1] := crc;
    }
  }
}
