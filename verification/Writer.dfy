/** The writing half of a connection: the queue, the batch on its way, and what the transport was given. */
module Writer {
  import opened Bytes
  import opened WriteQueue

  class Writer {
    var sendQueue: seq<Outgoing>
    var sendBufferSize: nat
    var writeFlag: bool
    var currentMsgs: seq<Outgoing>
    var sendBuffer: seq<seq<byte>>
    /** The transport: every buffer handed to it so far. */
    var written: seq<seq<byte>>
    /** The system of threads and strand that this object is part of. */
    ghost var sys: System

    constructor ()
      ensures Valid() && sys == INIT
    {
      sendQueue, sendBufferSize, writeFlag, currentMsgs, sendBuffer, written := [], 0, false, [], [], [];
      sys := INIT;
    }

    function View(): Fields
      reads this
    {
      Fields(sendQueue, sendBufferSize, writeFlag, currentMsgs)
    }

    /** The counter is the size of the payloads that wait. */
    predicate Counted()
      reads this`sendQueue, this`sendBufferSize
    {
      sendBufferSize == PayloadSum(sendQueue) % TWO_64
    }

    /** The protocol invariant, and the transport has the octets of the messages handed over. */
    ghost predicate Valid()
      reads this
    {
      && Inv(sys) && sys.fields == View() && Counted()
      && Flatten(written) == Octets(sys.handed)
      && (sys.inFlight == 0 ==> sendBuffer == [])
    }

    method WritePush(m: Outgoing)
      requires Counted()
      modifies this`sendQueue, this`sendBufferSize
      ensures Counted() && sendQueue == old(sendQueue) + [m]
    {
      hide PayloadSum;
      PayloadSumConcat(sendQueue, [m]);
      FirstOfBatch(m);
      ModularAdd(PayloadSum(sendQueue), |m.payload|);
      sendBufferSize := (sendBufferSize + |m.payload|) % TWO_64;
      sendQueue := sendQueue + [m];
    }

    method WritePop() returns (m: Option<Outgoing>)
      requires Counted()
      modifies this`sendQueue, this`sendBufferSize
      ensures Counted()
      ensures m.None? ==> sendQueue == old(sendQueue) == []
      ensures m.Some? ==> old(sendQueue) == [m.value] + sendQueue
    {
      hide PayloadSum;
      if sendQueue == [] {
        return None;
      }
      m := Some(sendQueue[0]);
      assert sendQueue == [m.value] + sendQueue[1..];
      PayloadSumConcat([m.value], sendQueue[1..]);
      FirstOfBatch(m.value);
      ModularSubtract(PayloadSum(sendQueue[1..]), |m.value.payload|);
      sendBufferSize := (sendBufferSize - |m.value.payload|) % TWO_64;
      sendQueue := sendQueue[1..];
    }

    /** What send, ping, pong and the closing handshake do under the lock. */
    method Enqueue(m: Outgoing) returns (needsWriting: bool)
      requires Valid()
      modifies this`sendQueue, this`sendBufferSize, this`sys
      ensures Valid() && sys == Apply(old(sys), Push(m))
      ensures sys.pushed == old(sys.pushed) + [m] && written == old(written)
      ensures needsWriting <==> sys.armed == old(sys.armed) + 1
      ensures needsWriting <==> !old(writeFlag)
    {
      InvIsKept(sys, Push(m));
      hide Inv, Octets, Flatten;
      SameCount(View(), m);
      WritePush(m);
      sys := Apply(sys, Push(m));
      needsWriting := !writeFlag && sendQueue != [];
    }

    /** The loop that stops after a terminal message. */
    method PullBatch()
      requires Counted() && currentMsgs == []
      modifies this`sendQueue, this`sendBufferSize, this`currentMsgs
      ensures Counted() && IsBatch(currentMsgs, old(sendQueue)) && old(sendQueue) == currentMsgs + sendQueue
      ensures currentMsgs == [] <==> old(sendQueue) == []
    {
      hide PayloadSum, Batch, OnlyLastTerminal;
      ghost var queue := sendQueue;
      var next := WritePop();
      ghost var b := if next.Some? then [next.value] else [];
      EmptyBatch();
      if next.Some? { FirstOfBatch(next.value); }
      while next.Some?
        invariant b == currentMsgs + (if next.Some? then [next.value] else [])
        invariant b + sendQueue == queue && (b == [] ==> queue == []) && OnlyLastTerminal(b) && Counted()
        invariant next.None? && b != [] ==> b[|b| - 1].terminal || sendQueue == []
        decreases next.Some?, |sendQueue|
      {
        currentMsgs := currentMsgs + [next.value];
        if !next.value.terminal {
          next := WritePop();
          if next.Some? {
            BatchGrows(b, next.value);
            Associative(b, [next.value], sendQueue);
            b := b + [next.value];
          }
        } else {
          next := None;
        }
      }
      if b != [] { BatchIsUnique(b, sendQueue); }
    }

    /** The first half of write_frame: take the messages up to a terminal one. */
    method CollectBatch() returns (owned: bool)
      requires Valid() && Enabled(sys, Collect)
      modifies this`sendQueue, this`sendBufferSize, this`writeFlag, this`currentMsgs, this`sys
      ensures Valid() && sys == Apply(old(sys), Collect)
      ensures !owned ==> View() == old(View())
      ensures owned ==> old(sendQueue) == currentMsgs + sendQueue && currentMsgs != [] && OnlyLastTerminal(currentMsgs)
      ensures owned ==> writeFlag && !old(writeFlag) && (currentMsgs[|currentMsgs| - 1].terminal || sendQueue == [])
    {
      InvIsKept(sys, Collect);
      CollectNothing(sys);
      hide Inv, PayloadSum, IsBatch, OnlyLastTerminal, Octets, Flatten, Apply, Enabled, Collected, Busy;
      ghost var before := sys;
      sys := Apply(sys, Collect);
      if writeFlag {
        return false;
      }
      PullBatch();
      if currentMsgs == [] {
        return false;
      }
      CollectSomething(before, currentMsgs, sendQueue);
      writeFlag := true;
      owned := true;
    }

    method FillBuffer()
      requires sendBuffer == []
      modifies this`sendBuffer
      ensures Flatten(sendBuffer) == Octets(currentMsgs)
    {
      hide Octets, Flatten;
      var i := 0;
      assert Flatten(sendBuffer) == Octets(currentMsgs[..0]) by { NoOctets(); }
      while i < |currentMsgs|
        invariant 0 <= i <= |currentMsgs| && Flatten(sendBuffer) == Octets(currentMsgs[..i])
      {
        var m := currentMsgs[i];
        FlattenAppend(sendBuffer, [m.header, m.payload]);
        TwoBuffers(m);
        OctetsConcat(currentMsgs[..i], [m]);
        assert currentMsgs[..i + 1] == currentMsgs[..i] + [m];
        sendBuffer := sendBuffer + [m.header, m.payload];
        i := i + 1;
      }
      assert currentMsgs[..i] == currentMsgs;
    }

    /** The second half of write_frame: hand header and payload of each message to the transport. */
    method HandOver()
      requires Valid() && Enabled(sys, Write)
      modifies this`sendBuffer, this`written, this`sys
      ensures Valid() && sys == Apply(old(sys), Write)
      ensures Octets(sys.pushed) == Flatten(written) + Octets(sendQueue)
    {
      InvIsKept(sys, Write);
      NothingOnItsWay(sys);
      AllButWaiting(Apply(sys, Write));
      hide Inv, PayloadSum, Octets, Flatten;
      FillBuffer();
      FlattenAppend(written, sendBuffer);
      OctetsConcat(sys.handed, currentMsgs);
      written := written + sendBuffer;
      sys := Apply(sys, Write);
    }

    /** The first part of handle_write_frame: whether to terminate, and the batch is done. */
    method FinishBatch(failed: bool) returns (terminate: bool)
      requires Valid() && Enabled(sys, Written(failed))
      modifies this`sendBuffer, this`currentMsgs, this`sys
      ensures Valid() && sys == Apply(old(sys), Written(failed))
      ensures terminate <==> sys.dead
      ensures terminate <==> failed || old(currentMsgs)[|old(currentMsgs)| - 1].terminal
      ensures written == old(written) && sendQueue == old(sendQueue) && currentMsgs == []
      ensures writeFlag && (!terminate ==> NoneTerminal(sys.handed))
    {
      InvIsKept(sys, Written(failed));
      Finished(sys, failed);
      hide Inv, Octets, Flatten, PayloadSum, NoneTerminal;
      var terminal := currentMsgs[|currentMsgs| - 1].terminal;
      sys := Apply(sys, Written(failed));
      sendBuffer := [];
      currentMsgs := [];
      terminate := failed || terminal;
    }

    /** The rest of handle_write_frame under the lock. */
    method ReleaseFlag() returns (needsWriting: bool)
      requires Valid() && Enabled(sys, Release)
      modifies this`writeFlag, this`sys
      ensures Valid() && sys == Apply(old(sys), Release) && !writeFlag
      ensures needsWriting <==> Flatten(written) != Octets(sys.pushed) || sendQueue != []
    {
      InvIsKept(sys, Release);
      NothingWaits(sys);
      hide Inv, Octets, Flatten, PayloadSum;
      writeFlag := false;
      sys := Apply(sys, Release);
      needsWriting := sendQueue != [];
    }

    /** A thread or the strand hands write_frame to the strand, which touches no field. */
    ghost method Dispatched(e: Event)
      requires Valid() && (e == Dispatch || e == Redispatch) && Enabled(sys, e)
      modifies this`sys
      ensures Valid() && sys == Apply(old(sys), e)
    {
      InvIsKept(sys, e);
      sys := Apply(sys, e);
    }
  }

  lemma SameCount(f: Fields, m: Outgoing)
    requires f.bufferSize == PayloadSum(f.queue) % TWO_64
    ensures Pushed(f, m).bufferSize == PayloadSum(f.queue + [m]) % TWO_64
  {
    hide PayloadSum;
    PayloadSumConcat(f.queue, [m]);
    FirstOfBatch(m);
    ModularAdd(PayloadSum(f.queue), |m.payload|);
  }

  predicate IsBatch(b: seq<Outgoing>, queue: seq<Outgoing>) { b == Batch(queue) }

  lemma CollectNothing(s: System)
    requires Inv(s) && Enabled(s, Collect)
    ensures !s.fields.writeFlag ==> s.fields.current == []
    ensures s.fields.writeFlag || s.fields.queue == [] ==>
              var t := Apply(s, Collect); t.fields == s.fields && t.handed == s.handed && t.inFlight == s.inFlight
  {
  }

  /** What a write_frame call takes when it finds the flag down. */
  lemma CollectSomething(s: System, b: seq<Outgoing>, rest: seq<Outgoing>)
    requires Inv(s) && Enabled(s, Collect) && !s.fields.writeFlag && b != []
    requires s.fields.queue == b + rest && IsBatch(b, s.fields.queue)
    ensures var t := Apply(s, Collect);
            && t.fields == Fields(rest, PayloadSum(rest) % TWO_64, true, b) && t.handed == s.handed
            && t.inFlight == s.inFlight && OnlyLastTerminal(b) && (b[|b| - 1].terminal || rest == [])
  {
    hide PayloadSum, Batch, TerminalInv, WakeInv;
    InvIsKept(s, Collect);
    assert [] + b == b;
    assert s.fields.queue[|b|..] == rest;
  }

  lemma EmptyBatch()
    ensures Batch([]) == [] && OnlyLastTerminal([])
  {
  }

  lemma NothingOnItsWay(s: System)
    requires Inv(s) && Enabled(s, Write)
    ensures s.inFlight == 0
  {
  }

  lemma NoOctets()
    ensures Flatten<byte>([]) == Octets([])
  {
  }

  /** After a batch has been handed over only the queue waits. */
  lemma AllButWaiting(s: System)
    requires Inv(s) && !s.strand.HandingOver?
    ensures Octets(s.pushed) == Octets(s.handed) + Octets(s.fields.queue)
  {
    hide Octets;
    OctetsConcat(s.handed, s.fields.queue);
    assert s.handed + [] + s.fields.queue == s.handed + s.fields.queue;
  }

  lemma Finished(s: System, failed: bool)
    requires Inv(s) && Enabled(s, Written(failed))
    ensures var t := Apply(s, Written(failed));
            && s.inFlight == 1 && !s.dead && t.inFlight == 0 && t.fields.writeFlag
            && (!t.dead ==> NoneTerminal(t.handed))
  {
  }

  lemma NothingWaits(s: System)
    requires Inv(s) && Enabled(s, Release)
    ensures s.fields.queue == [] ==> Octets(s.handed) == Octets(s.pushed)
  {
    hide Octets;
    assert s.handed + [] + [] == s.handed;
  }
}
