/** The Easylab serial framing as a function on byte strings: ten-byte frames made of a start
    byte, eight payload bytes (two single-precision floats) and the XOR of the payload. */
module EasylabFrames {

  import opened Bytes

  const START_BYTE: Byte := 0xAA
  const FRAME_SIZE := 10
  const PAYLOAD_SIZE := 8
  const DATAGRAM_SIZE := 60

  type Payload = p: Bytes | |p| == PAYLOAD_SIZE witness [0, 0, 0, 0, 0, 0, 0, 0]
  type Datagram = d: Bytes | |d| == DATAGRAM_SIZE witness seq(DATAGRAM_SIZE, _ => 0)

  function Xor(s: Bytes): Byte {
    if s == [] then 0 else XorByte(Xor(s[..|s| - 1]), s[|s| - 1])
  }

  /** How many bytes of `s` have bit `k` set. */
  function Ones(s: Bytes, k: nat): nat {
    if s == [] then 0 else Ones(s[1..], k) + Bit(s[0], k)
  }

  lemma {:induction false} OnesAppend(a: Bytes, b: Bytes, k: nat)
    ensures Ones(a + b, k) == Ones(a, k) + Ones(b, k)
  {
    if a == [] {
      assert a + b == b;
    } else {
      assert (a + b)[1..] == a[1..] + b;
      OnesAppend(a[1..], b, k);
    }
  }

  /** The check byte is the one whose every bit is the parity of that bit over the bytes. */
  lemma {:induction false} XorIsParity(s: Bytes, k: nat)
    ensures Bit(Xor(s), k) == Ones(s, k) % 2
  {
    hide Bit, Ones, XorByte;
    if s == [] {
      ZeroHasNoBits(k);
      OnesAtEnds([], 0, k);
    } else {
      var init, last := s[..|s| - 1], s[|s| - 1];
      XorIsParity(init, k);
      XorByteAddsBits(Xor(init), last, k);
      assert s == init + [last];
      OnesAtEnds(init, last, k);
      AddParity(Ones(init, k), Bit(last, k));
    }
  }

  /** And there is only one such number. */
  lemma CheckByteIff(s: Bytes, x: Byte)
    ensures x == Xor(s) <==> forall k: nat :: Bit(x, k) == Ones(s, k) % 2
  {
    hide Bit, Ones, Xor;
    forall k: nat
      ensures Bit(Xor(s), k) == Ones(s, k) % 2
    {
      XorIsParity(s, k);
    }
    if forall k: nat :: Bit(x, k) == Ones(s, k) % 2 {
      SameBitsSameNumber(x, Xor(s));
    } else {
      var k: nat :| Bit(x, k) != Ones(s, k) % 2;
      XorIsParity(s, k);
    }
  }

  lemma OnesAtEnds(init: Bytes, last: Byte, k: nat)
    ensures Ones([], k) == 0
    ensures Ones(init + [last], k) == Ones(init, k) + Bit(last, k)
  {
    OnesAppend(init, [last], k);
  }

  lemma AddParity(m: nat, n: nat)
    ensures (m % 2 + n) % 2 == (m + n) % 2
  {
  }

  predicate ValidFrame(w: Bytes) {
    |w| == FRAME_SIZE && w[0] == START_BYTE && w[9] == Xor(w[1..9])
  }

  /** The payloads one left-to-right scan of `s` accepts. */
  function Payloads(s: Bytes): seq<Payload>
    decreases |s|
  {
    if |s| < FRAME_SIZE then []
    else if ValidFrame(s[..10]) then [s[1..9]] + Payloads(s[10..])
    else Payloads(s[1..])
  }

  /** The bytes such a scan leaves for the next call. */
  function Remainder(s: Bytes): (r: Bytes)
    ensures |r| < FRAME_SIZE
    decreases |s|
  {
    if |s| < FRAME_SIZE then s
    else if ValidFrame(s[..10]) then Remainder(s[10..])
    else Remainder(s[1..])
  }

  lemma XorOfTwo(a: Byte, b: Byte)
    ensures Xor([a, b]) == XorByte(a, b)
  {
    assert [a][..0] == [] && Xor([a]) == a;
    assert [a, b][..1] == [a];
  }

  lemma {:induction false} XorOfTrailingZeros(s: Bytes, n: nat)
    ensures Xor(s + seq(n, _ => 0)) == Xor(s)
  {
    if n == 0 {
      assert s + seq(n, _ => 0) == s;
    } else {
      XorOfTrailingZeros(s, n - 1);
      var t := s + seq(n, _ => 0);
      assert t[..|t| - 1] == s + seq(n - 1, _ => 0);
      BitXorFixesIff(Xor(s), 0);
    }
  }

  // ---------------------------------------------------------------- chunk invariance

  lemma Scan(s: Bytes)
    ensures |s| < FRAME_SIZE ==> Payloads(s) == [] && Remainder(s) == s
    ensures |s| >= FRAME_SIZE && ValidFrame(s[..10]) ==>
              Payloads(s) == [s[1..9]] + Payloads(s[10..]) && Remainder(s) == Remainder(s[10..])
    ensures |s| >= FRAME_SIZE && !ValidFrame(s[..10]) ==>
              Payloads(s) == Payloads(s[1..]) && Remainder(s) == Remainder(s[1..])
  {
  }

  /** One cut anywhere in a stream changes neither the payloads nor the remainder. */
  lemma {:induction false} CutOnce(a: Bytes, b: Bytes)
    ensures Payloads(a + b) == Payloads(a) + Payloads(Remainder(a) + b)
    ensures Remainder(a + b) == Remainder(Remainder(a) + b)
    decreases |a|
  {
    hide ValidFrame, Payloads, Remainder;
    var s := a + b;
    Scan(a);
    if |a| < FRAME_SIZE {
    } else {
      Scan(s);
      assert s[..10] == a[..10] && s[1..9] == a[1..9];
      if ValidFrame(a[..10]) {
        assert s[10..] == a[10..] + b;
        CutOnce(a[10..], b);
      } else {
        assert s[1..] == a[1..] + b;
        CutOnce(a[1..], b);
      }
    }
  }

  /** The parser as a machine: its state is the remainder, each call takes one chunk. */
  function FeedAll(rem: Bytes, chunks: seq<Bytes>): (seq<Payload>, Bytes)
    decreases |chunks|
  {
    if chunks == [] then ([], rem)
    else
      var s := rem + chunks[0];
      var rest := FeedAll(Remainder(s), chunks[1..]);
      (Payloads(s) + rest.0, rest.1)
  }

  /** Parsing a stream chunk by chunk, however it is cut, is parsing it at once. */
  lemma {:induction false} ChunkInvariance(rem: Bytes, chunks: seq<Bytes>)
    requires |rem| < FRAME_SIZE
    ensures FeedAll(rem, chunks) == (Payloads(rem + Concat(chunks)), Remainder(rem + Concat(chunks)))
    ensures |FeedAll(rem, chunks).1| <= 9
    decreases |chunks|
  {
    hide ValidFrame, Payloads, Remainder;
    if chunks == [] {
      assert rem + Concat(chunks) == rem;
      Scan(rem);
    } else {
      var s, rest := rem + chunks[0], Concat(chunks[1..]);
      ChunkInvariance(Remainder(s), chunks[1..]);
      CutOnce(s, rest);
      assert rem + Concat(chunks) == s + rest;
    }
  }

  // ------------------------------------------------------------- greedy, leftmost, total

  predicate FrameAt(s: Bytes, p: int) {
    0 <= p <= |s| - FRAME_SIZE && ValidFrame(s[p..p + 10])
  }

  function ValidWindows(s: Bytes): set<int> {
    set p | 0 <= p < |s| && FrameAt(s, p)
  }

  ghost predicate Covered(starts: seq<nat>, p: int) {
    exists k :: 0 <= k < |starts| && starts[k] <= p < starts[k] + FRAME_SIZE
  }

  /** The reference reading from position `i` on, given the positions `valid` at which a
      valid window begins: disjoint valid windows in stream order such that every valid
      window begins inside one of them. */
  ghost predicate GreedyReading(valid: set<int>, i: nat, starts: seq<nat>) {
    && (forall k :: 0 <= k < |starts| ==> i <= starts[k] && starts[k] in valid)
    && (forall j, k :: 0 <= j < k < |starts| ==> starts[j] + FRAME_SIZE <= starts[k])
    && (forall p {:trigger Covered(starts, p)} :: i <= p && p in valid ==> Covered(starts, p))
  }

  lemma GreedyCons(valid: set<int>, i: nat, t: seq<nat>)
    requires i in valid && GreedyReading(valid, i + 10, t)
    ensures GreedyReading(valid, i, [i] + t)
  {
    var r := [i] + t;
    forall p | i <= p && p in valid
      ensures Covered(r, p)
    {
      if p < i + 10 {
        assert r[0] == i;
      } else {
        assert Covered(t, p);
        var k :| 0 <= k < |t| && t[k] <= p < t[k] + FRAME_SIZE;
        assert r[k + 1] == t[k];
      }
    }
  }

  lemma GreedyTail(valid: set<int>, i: nat, starts: seq<nat>)
    requires i in valid && GreedyReading(valid, i, starts)
    ensures starts != [] && starts[0] == i && GreedyReading(valid, i + 10, starts[1..])
  {
    assert Covered(starts, i);
    var t := starts[1..];
    forall p | i + 10 <= p && p in valid
      ensures Covered(t, p)
    {
      assert Covered(starts, p);
      var k :| 0 <= k < |starts| && starts[k] <= p < starts[k] + FRAME_SIZE;
      assert t[k - 1] == starts[k];
    }
  }

  lemma FirstIsValid(valid: set<int>, i: nat, starts: seq<nat>)
    requires GreedyReading(valid, i, starts) && starts != []
    ensures i <= starts[0] && starts[0] in valid
  {
  }

  /** The positions at which the scan accepts a frame. */
  function StartsFrom(s: Bytes, i: nat): (r: seq<nat>)
    decreases |s| - i
  {
    if |s| < i + FRAME_SIZE then []
    else if FrameAt(s, i) then [i] + StartsFrom(s, i + 10)
    else StartsFrom(s, i + 1)
  }

  predicate Fits(s: Bytes, starts: seq<nat>) {
    starts == [] || (starts[0] + FRAME_SIZE <= |s| && Fits(s, starts[1..]))
  }

  function Windows(s: Bytes, starts: seq<nat>): seq<Payload>
    requires Fits(s, starts)
  {
    if starts == [] then []
    else [s[starts[0] + 1..starts[0] + 9]] + Windows(s, starts[1..])
  }

  lemma {:induction false} StartsAreGreedy(s: Bytes, i: nat)
    ensures GreedyReading(ValidWindows(s), i, StartsFrom(s, i))
    decreases |s| - i
  {
    if |s| < i + FRAME_SIZE {
    } else if FrameAt(s, i) {
      StartsAreGreedy(s, i + 10);
      GreedyCons(ValidWindows(s), i, StartsFrom(s, i + 10));
    } else {
      StartsAreGreedy(s, i + 1);
    }
  }

  lemma {:induction false} GreedyIsUnique(s: Bytes, i: nat, starts: seq<nat>)
    requires GreedyReading(ValidWindows(s), i, starts)
    ensures starts == StartsFrom(s, i)
    decreases |s| - i
  {
    if |s| < i + FRAME_SIZE {
      if starts != [] {
        FirstIsValid(ValidWindows(s), i, starts);
        assert false;
      }
    } else if FrameAt(s, i) {
      GreedyTail(ValidWindows(s), i, starts);
      GreedyIsUnique(s, i + 10, starts[1..]);
    } else {
      GreedyIsUnique(s, i + 1, starts);
    }
  }

  lemma {:induction false} PayloadsAreWindows(s: Bytes, i: nat)
    requires i <= |s|
    ensures Fits(s, StartsFrom(s, i))
    ensures Payloads(s[i..]) == Windows(s, StartsFrom(s, i))
    decreases |s| - i
  {
    var t := s[i..];
    if |t| < FRAME_SIZE {
    } else {
      assert t[..10] == s[i..i + 10];
      if FrameAt(s, i) {
        PayloadsAreWindows(s, i + 10);
        assert t[10..] == s[i + 10..];
        assert t[1..9] == s[i + 1..i + 9];
        assert StartsFrom(s, i)[1..] == StartsFrom(s, i + 10);
      } else {
        PayloadsAreWindows(s, i + 1);
        assert t[1..] == s[i + 1..];
      }
    }
  }

  /** The payloads of a stream are those of its greedy reading; there is only one such reading. */
  lemma PayloadsAreTheGreedyReading(s: Bytes, starts: seq<nat>)
    ensures GreedyReading(ValidWindows(s), 0, starts) <==> starts == StartsFrom(s, 0)
    ensures GreedyReading(ValidWindows(s), 0, starts) ==> Fits(s, starts) && Payloads(s) == Windows(s, starts)
  {
    StartsAreGreedy(s, 0);
    PayloadsAreWindows(s, 0);
    assert s[0..] == s;
    if GreedyReading(ValidWindows(s), 0, starts) {
      GreedyIsUnique(s, 0, starts);
    }
  }

  /** A scan seen as pieces: bytes skipped one at a time, and whole frames. */
  datatype Piece = Skipped(b: Byte) | Frame(payload: Payload)

  function Pieces(s: Bytes): seq<Piece>
    decreases |s|
  {
    if |s| < FRAME_SIZE then []
    else if ValidFrame(s[..10]) then [Frame(s[1..9])] + Pieces(s[10..])
    else [Skipped(s[0])] + Pieces(s[1..])
  }

  function PieceBytes(p: Piece): Bytes {
    match p
    case Skipped(b) => [b]
    case Frame(payload) => FrameOf(payload)
  }

  function FrameOf(p: Payload): Bytes {
    [START_BYTE] + p + [Xor(p)]
  }

  function FramesIn(ps: seq<Piece>): seq<Payload> {
    if ps == [] then []
    else (if ps[0].Frame? then [ps[0].payload] else []) + FramesIn(ps[1..])
  }

  function Flatten(ps: seq<Piece>): Bytes {
    if ps == [] then [] else PieceBytes(ps[0]) + Flatten(ps[1..])
  }

  /** A valid window spells the frame of its own payload. */
  lemma ValidFrameIsFrameOf(w: Bytes)
    ensures ValidFrame(w) <==> |w| == FRAME_SIZE && w == FrameOf(w[1..9])
  {
    if |w| == FRAME_SIZE {
      assert FrameOf(w[1..9])[1..9] == w[1..9];
    }
  }

  lemma {:induction false} PiecesCount(s: Bytes)
    ensures FramesIn(Pieces(s)) == Payloads(s)
    ensures |s| == 10 * |Payloads(s)| + (|Pieces(s)| - |Payloads(s)|) + |Remainder(s)|
    decreases |s|
  {
    if |s| < FRAME_SIZE {
    } else if ValidFrame(s[..10]) {
      PiecesCount(s[10..]);
    } else {
      PiecesCount(s[1..]);
    }
  }

  /** No received byte is lost or invented: skipped bytes, re-encoded frames and the
      remainder spell out the stream, byte for byte. */
  lemma {:induction false} ByteConservation(s: Bytes)
    ensures Flatten(Pieces(s)) + Remainder(s) == s
    decreases |s|
  {
    if |s| < FRAME_SIZE {
    } else if ValidFrame(s[..10]) {
      ByteConservation(s[10..]);
      ValidFrameIsFrameOf(s[..10]);
      assert s[..10][1..9] == s[1..9];
      ConcatAssoc(s[..10], Flatten(Pieces(s[10..])), Remainder(s[10..]));
    } else {
      ByteConservation(s[1..]);
      ConcatAssoc([s[0]], Flatten(Pieces(s[1..])), Remainder(s[1..]));
    }
  }

  // ----------------------------------------------------------------------------- noise

  lemma {:induction false} NoFrameBetween(s: Bytes, i: nat, j: nat)
    requires i <= j && forall p :: i <= p < j ==> !FrameAt(s, p)
    ensures StartsFrom(s, i) == StartsFrom(s, j)
    decreases j - i
  {
    if i == j {
    } else {
      NoFrameBetween(s, i + 1, j);
    }
  }

  lemma {:induction false} StartsAreLater(s: Bytes, i: nat)
    ensures forall p :: p in StartsFrom(s, i) ==> i <= p && FrameAt(s, p)
    decreases |s| - i
  {
    if |s| < i + FRAME_SIZE {
    } else if FrameAt(s, i) {
      StartsAreLater(s, i + 10);
    } else {
      StartsAreLater(s, i + 1);
    }
  }

  /** Having scanned the first `n` bytes from `i` on, the scan stands where their remainder
      begins. */
  lemma {:induction false} ScanReachesRemainder(s: Bytes, i: nat, n: nat) returns (early: seq<nat>)
    requires i <= n <= |s|
    ensures StartsFrom(s, i) == early + StartsFrom(s, n - |Remainder(s[i..n])|)
    ensures |Remainder(s[i..n])| <= n - i && forall p :: p in early ==> p < n - |Remainder(s[i..n])|
    decreases n - i
  {
    hide ValidFrame, Remainder;
    var t := s[i..n];
    early := [];
    Scan(t);
    if |t| < FRAME_SIZE {
    } else {
      assert t[..10] == s[i..i + 10];
      assert t[10..] == s[i + 10..n] && t[1..] == s[i + 1..n];
      if FrameAt(s, i) {
        early := ScanReachesRemainder(s, i + 10, n);
        ConcatAssoc([i], early, StartsFrom(s, n - |Remainder(t)|));
        early := [i] + early;
      } else {
        early := ScanReachesRemainder(s, i + 1, n);
      }
    }
  }

  /** Every frame found when reading starts at `n` is also found when it starts at 0. */
  ghost predicate CostsNothing(s: Bytes, n: nat) {
    forall q :: q in StartsFrom(s, n) ==> q in StartsFrom(s, 0)
  }

  /** The first valid window that begins in `lo..n` runs on over the beginning of another
      one at or past `n`. */
  ghost predicate Straddles(s: Bytes, lo: nat, n: nat) {
    exists p, q :: lo <= p < n <= q < p + FRAME_SIZE && FrameAt(s, p) && FrameAt(s, q) && NoFrameIn(s, lo, p)
  }

  ghost predicate NoFrameIn(s: Bytes, i: nat, j: nat) {
    forall p :: i <= p < j ==> !FrameAt(s, p)
  }

  function FirstFrame(s: Bytes, i: nat, j: nat): (p: nat)
    requires !NoFrameIn(s, i, j)
    ensures i <= p < j && FrameAt(s, p) && NoFrameIn(s, i, p)
    decreases j - i
  {
    if FrameAt(s, i) then i else FirstFrame(s, i + 1, j)
  }

  /** The scan from `lo`, less than a frame before `n`: at most one frame is accepted before
      `n`, and the frames from `n` on are all found unless that one runs over one of them. */
  lemma ScanAcross(s: Bytes, lo: nat, n: nat) returns (early: seq<nat>)
    requires lo <= n < lo + FRAME_SIZE
    ensures !Straddles(s, lo, n) ==> StartsFrom(s, lo) == early + StartsFrom(s, n)
    ensures Straddles(s, lo, n) ==> exists q :: q in StartsFrom(s, n) && q !in StartsFrom(s, lo)
  {
    early := [];
    if NoFrameIn(s, lo, n) {
      NoFrameBetween(s, lo, n);
    } else {
      var p := FirstFrame(s, lo, n);
      NoFrameBetween(s, lo, p);
      StartsAreLater(s, p + 10);
      assert StartsFrom(s, lo) == [p] + StartsFrom(s, p + 10);
      if NoFrameIn(s, n, p + 10) {
        NoFrameBetween(s, n, p + 10);
        early := [p];
      } else {
        var q := FirstFrame(s, n, p + 10);
        NoFrameBetween(s, n, q);
        assert StartsFrom(s, n)[0] == q && q !in StartsFrom(s, lo);
      }
    }
  }

  /** Whether noise costs the frames after it anything is decided by the last few bytes of
      it, those the parser carries over: it does not, if and only if the first valid window
      that begins in them does not run over the beginning of one after the noise. Then what
      is delivered ends in all the payloads of the stream after the noise. */
  lemma NoiseIsHarmlessIff(noise: Bytes, t: Bytes)
    ensures CostsNothing(noise + t, |noise|)
       <==> !Straddles(noise + t, |noise| - |Remainder(noise)|, |noise|)
    ensures CostsNothing(noise + t, |noise|) ==> exists early :: Payloads(noise + t) == early + Payloads(t)
  {
    hide StartsFrom, Remainder, Payloads, Straddles, FrameAt;
    var s, n := noise + t, |noise|;
    assert s[0..n] == noise && s[n..] == t;
    var first := ScanReachesRemainder(s, 0, n);
    var lo := n - |Remainder(noise)|;
    var second := ScanAcross(s, lo, n);
    StartsAreLater(s, n);
    if !Straddles(s, lo, n) {
      ConcatAssoc(first, second, StartsFrom(s, n));
      PayloadsEndAlike(s, n, first + second);
    }
  }

  lemma PayloadsEndAlike(s: Bytes, n: nat, early: seq<nat>)
    requires n <= |s| && StartsFrom(s, 0) == early + StartsFrom(s, n)
    ensures Fits(s, early) && Payloads(s) == Windows(s, early) + Payloads(s[n..])
  {
    hide StartsFrom, Payloads, Fits, Windows;
    assert s[0..] == s;
    PayloadsAreWindows(s, 0);
    PayloadsAreWindows(s, n);
    WindowsSplit(s, early, StartsFrom(s, n));
  }

  lemma {:induction false} WindowsSplit(s: Bytes, a: seq<nat>, b: seq<nat>)
    requires Fits(s, a + b)
    ensures Fits(s, a) && Fits(s, b) && Windows(s, a + b) == Windows(s, a) + Windows(s, b)
  {
    if a == [] {
      assert a + b == b;
    } else {
      assert (a + b)[1..] == a[1..] + b;
      WindowsSplit(s, a[1..], b);
    }
  }

  lemma {:induction false} NoiseWithoutStartByte(noise: Bytes, t: Bytes)
    requires START_BYTE !in noise
    ensures Payloads(noise + t) == Payloads(t)
    ensures |t| >= FRAME_SIZE ==> Remainder(noise + t) == Remainder(t)
    decreases |noise|
  {
    var s := noise + t;
    if noise == [] {
      assert s == t;
    } else if |s| >= FRAME_SIZE {
      assert s[..10][0] == noise[0];
      assert s[1..] == noise[1..] + t;
      NoiseWithoutStartByte(noise[1..], t);
    }
  }

  lemma XorOfZeroPadded(b: Byte, n: nat)
    ensures Xor([b] + seq(n, _ => 0)) == b
  {
    XorOfTrailingZeros([b], n);
    assert [b][..0] == [];
  }

  /** A single stray start byte in front of a good frame can cost that frame. */
  lemma StrayStartByteCanCostAFrame()
    ensures var p := [0, 0, 0, 0, 0, 0, 0, 0xAA];
            Payloads(FrameOf(p)) == [p] && p !in Payloads([START_BYTE] + FrameOf(p))
  {
    var p: Payload := [0, 0, 0, 0, 0, 0, 0, 0xAA];
    var q: Payload := [0xAA, 0, 0, 0, 0, 0, 0, 0];
    ParseOneFrame(p, []);
    assert FrameOf(p) + [] == FrameOf(p);
    XorOfZeroPadded(START_BYTE, 7);
    assert q == [START_BYTE] + seq(7, _ => 0);
    var s := [START_BYTE] + FrameOf(p);
    assert s == FrameOf(q) + s[10..];
    ParseOneFrame(q, s[10..]);
  }

  /** Frames with noise in front of each, and a noisy tail. */
  function NoisyStream(items: seq<(Bytes, Payload)>, tail: Bytes): Bytes {
    if items == [] then tail
    else items[0].0 + (FrameOf(items[0].1) + NoisyStream(items[1..], tail))
  }

  function PayloadsOf(items: seq<(Bytes, Payload)>): seq<Payload> {
    seq(|items|, k requires 0 <= k < |items| => items[k].1)
  }

  lemma ParseOneFrame(p: Payload, t: Bytes)
    ensures Payloads(FrameOf(p) + t) == [p] + Payloads(t)
    ensures Remainder(FrameOf(p) + t) == Remainder(t)
  {
    var s := FrameOf(p) + t;
    assert s[..10] == FrameOf(p);
    assert s[..10][1..9] == p == s[1..9];
    assert s[10..] == t;
  }

  /** A frame as it is on the wire: the check byte of 1, 3 and zeros is 2. */
  lemma KnownFrame()
    ensures Payloads([0xAA, 1, 3, 0, 0, 0, 0, 0, 0, 2]) == [[1, 3, 0, 0, 0, 0, 0, 0]]
  {
    var p: Payload := [1, 3, 0, 0, 0, 0, 0, 0];
    assert Xor(p) == 2 by {
      XorOfTrailingZeros([1, 3], 6);
      assert [1, 3] + seq(6, _ => 0) == p;
      XorOfTwo(1, 3);
      assert BitXor(0, 1) == 1 && BitXor(1, 3) == 2;
    }
    hide Xor, Payloads;
    ParseOneFrame(p, []);
    Scan([]);
    assert FrameOf(p) + [] == [0xAA, 1, 3, 0, 0, 0, 0, 0, 0, 2];
    assert [p] + [] == [p];
  }

  /** Noise free of start bytes, before, between and after frames, costs none of them. */
  lemma {:induction false} ParseFramesInNoise(items: seq<(Bytes, Payload)>, tail: Bytes)
    requires forall k :: 0 <= k < |items| ==> START_BYTE !in items[k].0
    requires START_BYTE !in tail
    ensures Payloads(NoisyStream(items, tail)) == PayloadsOf(items)
    decreases |items|
  {
    if items == [] {
      NoiseWithoutStartByte(tail, []);
      assert tail + [] == tail;
    } else {
      var rest := NoisyStream(items[1..], tail);
      ParseFramesInNoise(items[1..], tail);
      ParseOneFrame(items[0].1, rest);
      NoiseWithoutStartByte(items[0].0, FrameOf(items[0].1) + rest);
      assert PayloadsOf(items) == [items[0].1] + PayloadsOf(items[1..]);
    }
  }

  // --------------------------------------------------------------------------- encoder

  /** One 60-byte datagram as a frame; the check byte covers nine bytes of it. */
  function EncodeFrame(d: Datagram): (f: Bytes)
    ensures |f| == FRAME_SIZE
  {
    [START_BYTE] + d[..8] + [Xor(d[..9])]
  }

  function EncodeAll(received: Bytes): seq<Bytes>
    decreases |received|
  {
    if |received| < DATAGRAM_SIZE then []
    else [EncodeFrame(received[..60])] + EncodeAll(received[60..])
  }

  /** An encoded frame passes the parser's check exactly when byte 8 of its datagram is 0. */
  lemma EncodedFrameIsValidIff(d: Datagram)
    ensures ValidFrame(EncodeFrame(d)) <==> d[8] == 0
    ensures d[8] == 0 ==> EncodeFrame(d) == FrameOf(d[..8])
  {
    var f := EncodeFrame(d);
    assert f[1..9] == d[..8];
    assert d[..9][..8] == d[..8];
    BitXorFixesIff(Xor(d[..8]), d[8]);
  }

  function Frames(ds: seq<Datagram>): seq<Bytes> {
    if ds == [] then [] else [EncodeFrame(ds[0])] + Frames(ds[1..])
  }

  function Heads(ds: seq<Datagram>): seq<Payload> {
    if ds == [] then [] else [ds[0][..8]] + Heads(ds[1..])
  }

  /** Datagrams back to back in one buffer encode like the datagrams one by one. */
  lemma {:induction false} EncodeAllOfDatagrams(ds: seq<Datagram>)
    ensures EncodeAll(Concat(ds)) == Frames(ds)
  {
    if ds == [] {
    } else {
      EncodeAllOfDatagrams(ds[1..]);
      assert Concat(ds)[..60] == ds[0];
      assert Concat(ds)[60..] == Concat(ds[1..]);
    }
  }

  lemma {:induction false} PayloadsFit(s: Bytes)
    ensures 10 * |Payloads(s)| <= |s|
    decreases |s|
  {
    if |s| < FRAME_SIZE {
    } else if ValidFrame(s[..10]) {
      PayloadsFit(s[10..]);
    } else {
      PayloadsFit(s[1..]);
    }
  }

  lemma {:induction false} FramesLength(ds: seq<Datagram>)
    ensures |Concat(Frames(ds))| == 10 * |ds| && |Heads(ds)| == |ds|
  {
    if ds == [] {
    } else {
      FramesLength(ds[1..]);
    }
  }

  /** Encoding then parsing gives back the first eight bytes of every datagram if and only
      if byte 8 of every one is zero; nothing is then left over. */
  lemma {:induction false} ParseEncodedIff(ds: seq<Datagram>)
    ensures Payloads(Concat(Frames(ds))) == Heads(ds) <==> forall k :: 0 <= k < |ds| ==> ds[k][8] == 0
    ensures Payloads(Concat(Frames(ds))) == Heads(ds) ==> Remainder(Concat(Frames(ds))) == []
  {
    hide Payloads, Remainder, EncodeFrame, Xor;
    if ds == [] {
      Scan([]);
    } else {
      var s, rest := Concat(Frames(ds)), Concat(Frames(ds[1..]));
      assert s == EncodeFrame(ds[0]) + rest;
      assert s[..10] == EncodeFrame(ds[0]) && s[10..] == rest;
      FramesLength(ds);
      EncodedFrameIsValidIff(ds[0]);
      ParseEncodedIff(ds[1..]);
      Scan(s);
      if ds[0][8] == 0 {
        ParseOneFrame(ds[0][..8], rest);
        assert Heads(ds)[1..] == Heads(ds[1..]);
        assert Payloads(s)[1..] == Payloads(rest);
      } else {
        PayloadsFit(s[1..]);
      }
    }
  }

  /** A datagram whose byte 8 is not zero can cost the good one after it. */
  lemma BadDatagramCanCostTheNext()
    ensures var bad: Datagram := seq(8, _ => 0) + [0xAA] + seq(51, _ => 0);
            var good: Datagram := seq(7, _ => 0) + [0xAA] + seq(52, _ => 0);
            good[8] == 0 && Payloads(Concat(Frames([bad, good]))) == [[0xAA] + seq(7, _ => 0)]
  {
    var bad: Datagram := seq(8, _ => 0) + [0xAA] + seq(51, _ => 0);
    var good: Datagram := seq(7, _ => 0) + [0xAA] + seq(52, _ => 0);
    var p: Payload := [0xAA] + seq(7, _ => 0);
    EncodedFrameIsValidIff(bad);
    EncodedFrameIsValidIff(good);
    XorOfZeroPadded(START_BYTE, 7);
    ZerosInFront(8, START_BYTE);
    ZerosInFront(7, START_BYTE);
    assert bad[..9] == seq(8, _ => 0) + [START_BYTE];
    assert good[..8] == seq(7, _ => 0) + [START_BYTE];
    var s := Concat(Frames([bad, good]));
    assert [bad, good][1..] == [good] && [good][1..] == [];
    assert Frames([good]) == [EncodeFrame(good)];
    assert Concat(Frames([good])) == EncodeFrame(good);
    assert s == EncodeFrame(bad) + EncodeFrame(good);
    assert s[..10] == EncodeFrame(bad);
    var zeros := seq(8, _ => 0);
    assert EncodeFrame(bad) == [START_BYTE] + zeros + [START_BYTE];
    assert EncodeFrame(good) == [START_BYTE] + seq(7, _ => 0) + [START_BYTE, START_BYTE];
    assert FrameOf(p) == [START_BYTE, START_BYTE] + seq(7, _ => 0) + [START_BYTE];
    assert s[1..] == zeros + (FrameOf(p) + [START_BYTE]);
    NoiseWithoutStartByte(seq(8, _ => 0), FrameOf(p) + [START_BYTE]);
    ParseOneFrame(p, [START_BYTE]);
  }

  lemma {:induction false} ZerosInFront(n: nat, b: Byte)
    ensures Xor(seq(n, _ => 0) + [b]) == b
  {
    ZerosCancel(n);
    assert (seq(n, _ => 0) + [b])[..n] == seq(n, _ => 0);
  }

  lemma {:induction false} ZerosCancel(n: nat)
    ensures Xor(seq(n, _ => 0)) == 0
  {
    if n == 0 {
    } else {
      ZerosCancel(n - 1);
      assert seq(n, _ => 0)[..n - 1] == seq(n - 1, _ => 0);
    }
  }
}
