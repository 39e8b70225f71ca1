/** The stream channel between an SMCube block and its engine: transfers in pieces, and the
    exchange of one output update. */
module CommChannel {
  import opened Basics
  import opened Bytes

  /** What one send or recv does. A call that completes makes finitely many of them, given
      as a script; past its end the connection counts as broken. */
  datatype SendResult = Sent(count: nat) | Interrupted | SendError
  datatype RecvResult = Received(count: nat) | RecvError

  const EVENT_BYTES := 4

  ghost predicate IsPrefix(p: Bytes, s: Bytes) {
    |p| <= |s| && p == s[..|p|]
  }

  /** How many bytes the sends of a script would take before the first one that fails. */
  function Taken(script: seq<SendResult>): nat {
    if script == [] || script[0].SendError? then 0
    else Taken(script[1..]) + if script[0].Sent? then script[0].count else 0
  }

  /** A write always sends at least once; an interruption is no failure. */
  predicate WriteSucceeds(n: nat, script: seq<SendResult>) {
    script != [] && !script[0].SendError? && n <= Taken(script)
  }

  lemma {:induction false} TakenAppend(a: seq<SendResult>, b: seq<SendResult>)
    ensures Taken(a + b) == Taken(a) + if SendError in a then 0 else Taken(b)
  {
    if a == [] {
      assert a + b == b;
    } else {
      assert (a + b)[1..] == a[1..] + b;
      TakenAppend(a[1..], b);
    }
  }

  /** An interruption anywhere is retried and costs nothing. */
  lemma InterruptionsDoNotCount(a: seq<SendResult>, b: seq<SendResult>)
    ensures Taken(a + [Interrupted] + b) == Taken(a + b)
  {
    TakenAppend(a, [Interrupted]);
    TakenAppend(a + [Interrupted], b);
    TakenAppend(a, b);
    assert [Interrupted][1..] == [] && Taken([Interrupted]) == 0;
    assert SendError in a + [Interrupted] <==> SendError in a;
  }

  /** Two short sends take what one longer one does, and an error is the end. */
  lemma SendsAddUp(a: seq<SendResult>, m: nat, n: nat, b: seq<SendResult>)
    ensures Taken(a + [Sent(m), Sent(n)] + b) == Taken(a + [Sent(m + n)] + b)
    ensures Taken([Sent(n)]) == n && Taken(a + [SendError] + b) == Taken(a)
  {
    var two, one, fails := [Sent(m), Sent(n)], [Sent(m + n)], [SendError];
    TakenAppend([Sent(m)], [Sent(n)]);
    assert two == [Sent(m)] + [Sent(n)];
    assert [Sent(m)][1..] == [] && [Sent(n)][1..] == [] && one[1..] == [];
    assert SendError in fails;
    TakenAppend(a, two);
    TakenAppend(a, one);
    TakenAppend(a, fails);
    TakenAppend(a + two, b);
    TakenAppend(a + one, b);
    TakenAppend(a + fails, b);
  }

  /** A script without its interruptions. */
  function Uninterrupted(script: seq<SendResult>): seq<SendResult> {
    if script == [] then []
    else (if script[0].Interrupted? then [] else [script[0]]) + Uninterrupted(script[1..])
  }

  lemma {:induction false} TakenUninterrupted(script: seq<SendResult>)
    ensures Taken(Uninterrupted(script)) == Taken(script)
  {
    if script == [] {
    } else {
      TakenUninterrupted(script[1..]);
      var rest := Uninterrupted(script[1..]);
      assert Uninterrupted(script) == if script[0].Interrupted? then rest else [script[0]] + rest;
      assert ([script[0]] + rest)[1..] == rest;
    }
  }

  lemma TakesOnlyIfSent(script: seq<SendResult>)
    ensures Taken(script) > 0 ==> script != [] && !script[0].SendError?
  {
  }

  /** How many bytes the receives of a script would bring before the first one that fails or
      brings nothing. */
  function Brought(script: seq<RecvResult>): nat {
    if script == [] || script[0].RecvError? || script[0].count == 0 then 0
    else script[0].count + Brought(script[1..])
  }

  /** Two short receives bring what one longer one does; one that brings nothing, or an
      error, is the end. */
  lemma ReceivesAddUp(a: seq<RecvResult>, m: nat, n: nat, b: seq<RecvResult>)
    requires m > 0 && n > 0
    ensures Brought(a + [Received(m), Received(n)] + b) == Brought(a + [Received(m + n)] + b)
    ensures Brought([Received(n)]) == n
    ensures Brought(a + [RecvError] + b) == Brought(a + [Received(0)] + b) == Brought(a)
  {
    var two, one, fails, closed := [Received(m), Received(n)], [Received(m + n)], [RecvError], [Received(0)];
    assert two == [Received(m)] + [Received(n)];
    assert [Received(m)][1..] == [] && [Received(n)][1..] == [] && one[1..] == [];
    assert RecvError in fails && Received(0) in closed;
    BroughtAppend([Received(m)], [Received(n)]);
    BroughtAppend(a, two);
    BroughtAppend(a, one);
    BroughtAppend(a, fails);
    BroughtAppend(a, closed);
    BroughtAppend(a + two, b);
    BroughtAppend(a + one, b);
    BroughtAppend(a + fails, b);
    BroughtAppend(a + closed, b);
  }

  lemma {:induction false} BroughtAppend(a: seq<RecvResult>, b: seq<RecvResult>)
    ensures Brought(a + b) == Brought(a) + if RecvError in a || Received(0) in a then 0 else Brought(b)
  {
    if a == [] {
      assert a + b == b;
    } else {
      assert (a + b)[1..] == a[1..] + b;
      assert a == [a[0]] + a[1..];
      BroughtAppend(a[1..], b);
    }
  }

  lemma BroughtStep(script: seq<RecvResult>, i: nat)
    requires i <= |script|
    ensures Brought(script[i..])
         == if i == |script| || script[i] == RecvError || script[i].count == 0 then 0
            else script[i].count + Brought(script[i + 1..])
  {
    if i < |script| {
      assert script[i..][1..] == script[i + 1..];
    }
  }

  /** `available` bytes are there to be received; receiving none at all is a failure, as it
      looks like a closed connection. */
  predicate ReadSucceeds(n: nat, available: nat, script: seq<RecvResult>) {
    0 < n <= available && n <= Brought(script)
  }

  class Channel {
    var outgoing: Bytes  // everything sent so far
    var incoming: Bytes  // what the peer sent and was not received yet

    constructor (fromPeer: Bytes)
      ensures outgoing == [] && incoming == fromPeer
    {
      outgoing, incoming := [], fromPeer;
    }

    /** Interruptions and short sends only delay a write: it succeeds exactly when the sends
        before the first failing one take all of the data. */
    method Write(data: Bytes, script: seq<SendResult>) returns (ret: int)
      modifies this`outgoing
      ensures ret == if WriteSucceeds(|data|, script) then 0 else -1
      ensures outgoing == old(outgoing) + data[..Min(Taken(script), |data|)]
      ensures outgoing == old(outgoing) + data[..Min(Taken(Uninterrupted(script)), |data|)]
      ensures |data| > 0 ==> (ret == 0 <==> WriteSucceeds(|data|, Uninterrupted(script)))
      ensures |data| > 0 ==> (ret == 0 <==> outgoing == old(outgoing) + data)
    {
      TakenUninterrupted(script);
      TakesOnlyIfSent(script);
      TakesOnlyIfSent(Uninterrupted(script));
      var sent, i := 0, 0;
      var more := true;
      ghost var taken: nat := 0;
      assert script[0..] == script;
      while more
        invariant i <= |script| && Taken(script) == taken + Taken(script[i..])
        invariant sent == Min(taken, |data|)
        invariant outgoing == old(outgoing) + data[..sent]
        invariant i > 0 ==> !script[0].SendError? && (more <==> sent < |data|)
        invariant i == 0 ==> more && taken == 0
        decreases |script| - i, more
      {
        if i == |script| || script[i] == SendError {
          return -1;
        }
        assert script[i..][1..] == script[i + 1..];
        if script[i].Sent? {
          var bytes := Min(script[i].count, |data| - sent);
          outgoing := outgoing + data[sent..sent + bytes];
          assert data[..sent] + data[sent..sent + bytes] == data[..sent + bytes];
          sent := sent + bytes;
          taken := taken + script[i].count;
        }
        i := i + 1;
        more := sent < |data|;
      }
      ret := 0;
    }

    /** Short receives only delay a read of `size` bytes, cut to the room for them. */
    method Read(size: nat, maxSize: nat, script: seq<RecvResult>) returns (ret: int, data: Bytes)
      modifies this`incoming
      ensures ret == if ReadSucceeds(Min(size, maxSize), |old(incoming)|, script) then 0 else -1
      ensures |data| == Min(Brought(script), Min(Min(size, maxSize), |old(incoming)|))
      ensures data + incoming == old(incoming)
      ensures ret == 0 <==> |data| == Min(size, maxSize) > 0
    {
      hide Brought;
      var toRead, i := Min(size, maxSize), 0;
      data := [];
      var more := true;
      assert script[0..] == script;
      while more
        invariant |data| + toRead == Min(size, maxSize) && i <= |script|
        invariant |data| <= Brought(script)
        invariant more ==> incoming == [] || Brought(script) == |data| + Brought(script[i..])
        invariant !more ==> toRead == 0 && |data| > 0
        invariant if i == 0 then data == [] else more ==> toRead > 0
        invariant data + incoming == old(incoming)
        decreases |script| - i, more
      {
        BroughtStep(script, i);
        if i == |script| || script[i] == RecvError {
          return -1, data;
        }
        var read := Min(Min(script[i].count, toRead), |incoming|);
        assert |old(incoming)| == |data| + |incoming|;
        if read == 0 {
          return -1, data;
        }
        assert data + incoming == (data + incoming[..read]) + incoming[read..];
        data, incoming := data + incoming[..read], incoming[read..];
        toRead := toRead - read;
        i := i + 1;
        more := toRead > 0;
      }
      ret := 0;
    }

    /** The sending half of an output update. */
    method WriteUpdate(inevents: Bytes, input: Bytes, scripts: (seq<SendResult>, seq<SendResult>)) returns (ok: bool)
      requires |inevents| == EVENT_BYTES
      modifies this`outgoing
      ensures ok <==> MessageGoes(|input|, scripts)
      ensures outgoing == old(outgoing) + (inevents + input)[..MessageReach(|input|, scripts)]
      ensures ok <==> MessageReach(|input|, scripts) == |inevents + input|
    {
      var ret := Write(inevents, scripts.0);
      ok := ret == 0;
      var reach := Min(Taken(scripts.0), EVENT_BYTES);
      assert (inevents + input)[..reach] == inevents[..reach];
      if ok && |input| > 0 {
        assert inevents[..reach] == inevents;
        ret := Write(input, scripts.1);
        ok := ret == 0;
        var sent := input[..Min(Taken(scripts.1), |input|)];
        ConcatAssoc(old(outgoing), inevents, sent);
        assert (inevents + input)[..EVENT_BYTES + |sent|] == inevents + sent;
      }
    }

    /** The receiving half of an output update. */
    method ReadUpdate(outputSize: nat, scripts: (seq<RecvResult>, seq<RecvResult>))
      returns (ok: bool, output: Bytes, evtout: Bytes)
      modifies this`incoming
      ensures ok <==> ReplyComes(outputSize, |old(incoming)|, scripts)
      ensures (output + evtout) + incoming == old(incoming)
      ensures |output| <= outputSize && |evtout| <= EVENT_BYTES
      ensures ok ==> |output| == outputSize && |evtout| == EVENT_BYTES
    {
      var ret := 0;
      ok, output, evtout := true, [], [];
      if outputSize > 0 {
        ret, output := Read(outputSize, outputSize, scripts.0);
        ok := ret == 0;
      }
      assert output + incoming == old(incoming);
      assert output + [] == output;
      if ok {
        ghost var left := incoming;
        ret, evtout := Read(EVENT_BYTES, EVENT_BYTES, scripts.1);
        ok := ret == 0;
        assert evtout + incoming == left;
        ConcatAssoc(output, evtout, incoming);
      }
    }
  }

  /** Both writes of an update succeed; the second is skipped when there is no input. */
  predicate MessageGoes(inputSize: nat, scripts: (seq<SendResult>, seq<SendResult>)) {
    WriteSucceeds(EVENT_BYTES, scripts.0) && (inputSize > 0 ==> WriteSucceeds(inputSize, scripts.1))
  }

  /** How much of its message an update sends. */
  function MessageReach(inputSize: nat, scripts: (seq<SendResult>, seq<SendResult>)): (r: nat)
    ensures r <= EVENT_BYTES + inputSize
  {
    if WriteSucceeds(EVENT_BYTES, scripts.0) then EVENT_BYTES + Min(Taken(scripts.1), inputSize)
    else Min(Taken(scripts.0), EVENT_BYTES)
  }

  /** Both reads of an update succeed; the first is skipped when there is no output. */
  predicate ReplyComes(outputSize: nat, available: nat, scripts: (seq<RecvResult>, seq<RecvResult>)) {
    && (outputSize > 0 ==> ReadSucceeds(outputSize, available, scripts.0))
    && ReadSucceeds(EVENT_BYTES, available - outputSize, scripts.1)
  }

  ghost predicate AllOfSize(ms: seq<Bytes>, size: nat) {
    forall k :: 0 <= k < |ms| ==> |ms[k]| == size
  }

  /** The block's end of the channel. `messages` and `replies` are those of the updates that
      succeeded; `attempted` is the message of the one that failed, of which `lastSent` went
      out, and `lastTaken` the part of its reply that was received. */
  class BlockEnd {
    const channel: Channel
    const inputSize: nat
    const outputSize: nat
    var engineExists: bool
    ghost var messages: seq<Bytes>
    ghost var replies: seq<Bytes>
    ghost var fromEngine: Bytes
    ghost var attempted: Bytes
    ghost var lastSent: Bytes
    ghost var lastTaken: Bytes

    /** While the engine lives both directions stand at a message boundary; afterwards a
        prefix of one more message has gone out, and no reply to it was taken before all of
        it had. */
    ghost predicate Valid()
      reads this, channel
    {
      && |messages| == |replies|
      && AllOfSize(messages, EVENT_BYTES + inputSize) && AllOfSize(replies, outputSize + EVENT_BYTES)
      && channel.outgoing == Concat(messages) + lastSent
      && fromEngine == (Concat(replies) + lastTaken) + channel.incoming
      && (engineExists ==> lastSent == [] && lastTaken == [])
      && (!engineExists ==> |attempted| == EVENT_BYTES + inputSize && IsPrefix(lastSent, attempted))
      && |lastTaken| <= outputSize + EVENT_BYTES
      && (lastTaken != [] ==> lastSent == attempted)
    }

    constructor (engine: Bytes, inputSize: nat, outputSize: nat)
      ensures Valid() && engineExists && fresh(channel) && messages == [] && replies == []
      ensures fromEngine == engine && this.inputSize == inputSize && this.outputSize == outputSize
    {
      this.inputSize, this.outputSize := inputSize, outputSize;
      channel := new Channel(engine);
      engineExists, messages, replies, fromEngine := true, [], [], engine;
      attempted, lastSent, lastTaken := [], [], [];
    }

    /** One output update: events and input go out, output and events come back. */
    method OutputUpdate(inevents: Bytes, input: Bytes, sends: (seq<SendResult>, seq<SendResult>), recvs: (seq<RecvResult>, seq<RecvResult>))
      returns (done: bool, output: Bytes, evtout: Bytes)
      requires Valid() && |inevents| == EVENT_BYTES && |input| == inputSize
      modifies this`engineExists, this`messages, this`replies, this`attempted, this`lastSent, this`lastTaken, channel
      ensures Valid() && fromEngine == old(fromEngine)
      ensures done <==> old(engineExists) && MessageGoes(inputSize, sends)
                        && ReplyComes(outputSize, |old(channel.incoming)|, recvs)
      ensures engineExists == done
      ensures done ==> messages == old(messages) + [inevents + input] && replies == old(replies) + [output + evtout]
      ensures done ==> |output| == outputSize && |evtout| == EVENT_BYTES
      ensures !done ==> messages == old(messages) && replies == old(replies)
      ensures old(engineExists) && !done ==>
                attempted == inevents + input && lastSent == attempted[..MessageReach(inputSize, sends)]
      ensures !old(engineExists) ==>
                channel.outgoing == old(channel.outgoing) && attempted == old(attempted) && lastSent == old(lastSent)
    {
      done, output, evtout := false, [], [];
      if !engineExists {
        return;
      }
      hide Concat, AllOfSize, IsPrefix, Taken, WriteSucceeds, ReadSucceeds, MessageReach, MessageGoes, ReplyComes;
      ghost var m := inevents + input;
      ghost var stream := channel.incoming;
      NothingMore(Concat(messages));
      NothingMore(Concat(replies));
      var ok := channel.WriteUpdate(inevents, input, sends);
      lastSent := m[..MessageReach(inputSize, sends)];
      attempted := m;
      if ok {
        assert lastSent == m;
        ok, output, evtout := channel.ReadUpdate(outputSize, recvs);
        lastTaken := output + evtout;
        ConcatAssoc(Concat(replies), lastTaken, channel.incoming);
      }
      if ok {
        OneMore(messages, m);
        OneMore(replies, output + evtout);
        messages, replies, lastSent, lastTaken := messages + [m], replies + [lastTaken], [], [];
        NothingMore(Concat(messages));
        NothingMore(Concat(replies));
        done := true;
      } else {
        engineExists := false;
      }
    }
  }

  lemma NothingMore(s: Bytes)
    ensures s + [] == s
  {
  }

  lemma OneMore(ms: seq<Bytes>, m: Bytes)
    ensures Concat(ms + [m]) == Concat(ms) + m
    ensures forall size :: AllOfSize(ms, size) && |m| == size ==> AllOfSize(ms + [m], size)
  {
    ConcatAppend(ms, [m]);
    assert Concat([m]) == m;
  }

  // -------------------------------------------------------------------- the two ends

  /** How a peer that knows the message size reads a stream. */
  function Deframe(s: Bytes, size: nat): seq<Bytes>
    requires size > 0
    decreases |s|
  {
    if |s| < size then [] else [s[..size]] + Deframe(s[size..], size)
  }

  /** A stream of whole messages, and a last one perhaps cut short, is read as those messages. */
  lemma {:induction false} DeframeMessages(ms: seq<Bytes>, last: Bytes, size: nat)
    requires size > 0 && |last| < size && AllOfSize(ms, size)
    ensures Deframe(Concat(ms) + last, size) == ms
  {
    if ms == [] {
      assert Concat(ms) + last == last;
    } else {
      DeframeMessages(ms[1..], last, size);
      ConcatAssoc(ms[0], Concat(ms[1..]), last);
      var s := Concat(ms) + last;
      assert s[..size] == ms[0] && s[size..] == Concat(ms[1..]) + last;
    }
  }

  /** After any number of updates, the last one perhaps failed, the engine reads exactly the
      messages of the updates that succeeded, and that of a failed one if and only if all of
      it went out; the block has received exactly the first replies the engine sent. */
  lemma EndsAgree(block: BlockEnd, sent: seq<Bytes>)
    requires block.Valid() && block.fromEngine == Concat(sent)
    requires AllOfSize(sent, block.outputSize + EVENT_BYTES)
    ensures Deframe(block.channel.outgoing, EVENT_BYTES + block.inputSize)
         == block.messages + if !block.engineExists && block.lastSent == block.attempted then [block.attempted] else []
    ensures |block.replies| <= |sent| && block.replies == sent[..|block.replies|]
  {
    hide Concat, Deframe;
    var ms, size := block.messages, EVENT_BYTES + block.inputSize;
    ConcatAssoc(Concat(block.replies), block.lastTaken, block.channel.incoming);
    PrefixOfMessages(block.replies, block.lastTaken + block.channel.incoming, sent, block.outputSize + EVENT_BYTES);
    if |block.lastSent| < size {
      DeframeMessages(ms, block.lastSent, size);
      assert ms + [] == ms;
    } else {
      var all := ms + [block.attempted];
      OneMore(ms, block.attempted);
      NothingMore(Concat(all));
      DeframeMessages(all, [], size);
    }
  }

  lemma {:induction false} PrefixOfMessages(ms: seq<Bytes>, rest: Bytes, all: seq<Bytes>, size: nat)
    requires size > 0 && Concat(ms) + rest == Concat(all)
    requires AllOfSize(ms, size) && AllOfSize(all, size)
    ensures |ms| <= |all| && ms == all[..|ms|]
  {
    if ms == [] {
    } else {
      ConcatAssoc(ms[0], Concat(ms[1..]), rest);
      var s := Concat(all);
      assert s[..size] == ms[0] && s[size..] == Concat(ms[1..]) + rest;
      assert all != [];
      assert s[..size] == all[0] && s[size..] == Concat(all[1..]);
      PrefixOfMessages(ms[1..], rest, all[1..], size);
    }
  }
}
