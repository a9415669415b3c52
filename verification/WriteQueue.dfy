/**
 The write queue of a connection. Any number of threads push messages under the write lock; one
 I/O strand collects them into batches, hands each batch to the transport and is called back when
 the transport has written it.
 */
module WriteQueue {
  import opened Bytes

  datatype Outgoing = Outgoing(header: seq<byte>, payload: seq<byte>, terminal: bool)

  // ---------- the fields under the write lock ----------

  datatype Fields = Fields(queue: seq<Outgoing>, bufferSize: nat, writeFlag: bool, current: seq<Outgoing>)

  function PayloadSum(ms: seq<Outgoing>): nat {
    if ms == [] then 0 else |ms[0].payload| + PayloadSum(ms[1..])
  }

  lemma {:induction false} PayloadSumConcat(a: seq<Outgoing>, b: seq<Outgoing>)
    ensures PayloadSum(a + b) == PayloadSum(a) + PayloadSum(b)
  {
    if a == [] {
      assert a + b == b;
    } else {
      PayloadSumConcat(a[1..], b);
      assert (a + b)[1..] == a[1..] + b;
    }
  }

  /** The messages of a queue up to the first terminal one, which is included. */
  function Batch(queue: seq<Outgoing>): (b: seq<Outgoing>)
    ensures b <= queue && (b == [] <==> queue == [])
    ensures forall i :: 0 <= i < |b| - 1 ==> !b[i].terminal
    ensures |b| < |queue| ==> b[|b| - 1].terminal
  {
    if queue == [] then []
    else if queue[0].terminal then [queue[0]]
    else [queue[0]] + Batch(queue[1..])
  }

  function Pushed(f: Fields, m: Outgoing): Fields {
    f.(queue := f.queue + [m], bufferSize := (f.bufferSize + |m.payload|) % TWO_64)
  }

  /** What write_frame does under the lock. */
  function Collected(f: Fields): Fields {
    if f.writeFlag || f.queue == [] then f
    else
      var batch := Batch(f.queue);
      Fields(f.queue[|batch|..], (f.bufferSize - PayloadSum(batch)) % TWO_64, true, f.current + batch)
  }

  predicate OnlyLastTerminal(ms: seq<Outgoing>) { forall i :: 0 <= i < |ms| - 1 ==> !ms[i].terminal }

  predicate NoneTerminal(ms: seq<Outgoing>) { forall i :: 0 <= i < |ms| ==> !ms[i].terminal }

  lemma FirstOfBatch(m: Outgoing)
    ensures OnlyLastTerminal([m]) && PayloadSum([m]) == |m.payload|
  {
    assert [m][1..] == [];
  }

  lemma BatchGrows(b: seq<Outgoing>, m: Outgoing)
    requires b != [] && OnlyLastTerminal(b) && !b[|b| - 1].terminal
    ensures OnlyLastTerminal(b + [m])
  {
  }

  lemma ModularAdd(a: nat, b: nat)
    ensures (a % TWO_64 + b) % TWO_64 == (a + b) % TWO_64
  {
  }

  lemma ModularSubtract(a: nat, b: nat)
    ensures ((a + b) % TWO_64 - b) % TWO_64 == a % TWO_64
  {
  }

  lemma {:induction false} BatchIsUnique(b: seq<Outgoing>, rest: seq<Outgoing>)
    requires b != [] && OnlyLastTerminal(b) && (b[|b| - 1].terminal || rest == [])
    ensures Batch(b + rest) == b
  {
    var q := b + rest;
    assert q[0] == b[0] && q[1..] == b[1..] + rest;
    if |b| > 1 {
      BatchIsUnique(b[1..], rest);
    } else if !b[0].terminal {
      assert q[1..] == [];
    }
  }

  /** Header and payload of each message, in order. */
  function Octets(ms: seq<Outgoing>): seq<byte> {
    if ms == [] then [] else ms[0].header + ms[0].payload + Octets(ms[1..])
  }

  lemma {:induction false} OctetsConcat(a: seq<Outgoing>, b: seq<Outgoing>)
    ensures Octets(a + b) == Octets(a) + Octets(b)
  {
    if a == [] {
      assert a + b == b;
    } else {
      OctetsConcat(a[1..], b);
      assert (a + b)[1..] == a[1..] + b;
      Associative(a[0].header + a[0].payload, Octets(a[1..]), Octets(b));
    }
  }

  lemma TwoBuffers(m: Outgoing)
    ensures Flatten([m.header, m.payload]) == Octets([m])
  {
    assert [m.header, m.payload][1..] == [m.payload] && [m.payload][1..] == [] && [m][1..] == [];
    assert m.payload + Flatten<byte>([]) == m.payload;
    assert m.header + m.payload + Octets([]) == m.header + m.payload;
  }

  // ---------- all interleavings ----------

  /** Where the I/O strand is. */
  datatype Strand =
    | Idle          // between handlers
    | HandingOver   // in write_frame, past the lock, with a batch to hand over
    | Releasing     // in handle_write_frame, before the lock
    | Redispatching // in handle_write_frame, past the lock, with messages waiting

  /**
   The system: the locked fields; how many threads have decided to dispatch write_frame but have
   not done so; how many write_frame calls are waiting for the strand; the strand; how many
   transport writes are outstanding; whether a write has ended the connection; and, as history,
   all messages pushed and all messages handed to the transport.
   */
  datatype System = System(fields: Fields, armed: nat, pending: nat, strand: Strand, inFlight: nat, dead: bool,
                           pushed: seq<Outgoing>, handed: seq<Outgoing>)

  const INIT: System := System(Fields([], 0, false, []), 0, 0, Idle, 0, false, [], [])

  datatype Event =
    | Push(m: Outgoing)
    | Dispatch
    | Collect
    | Write
    | Written(failed: bool)
    | Release
    | Redispatch

  predicate Enabled(s: System, e: Event) {
    match e
    case Push(_) => true
    case Dispatch => s.armed > 0
    case Collect => s.strand.Idle? && s.pending > 0
    case Write => s.strand.HandingOver?
    case Written(_) => s.strand.Idle? && s.inFlight > 0 && s.fields.current != []
    case Release => s.strand.Releasing?
    case Redispatch => s.strand.Redispatching?
  }

  function Apply(s: System, e: Event): System
    requires Enabled(s, e)
  {
    var f := s.fields;
    match e
    case Push(m) =>
      s.(fields := Pushed(f, m), armed := if f.writeFlag then s.armed else s.armed + 1, pushed := s.pushed + [m])
    case Dispatch => s.(armed := s.armed - 1, pending := s.pending + 1)
    case Collect =>
      s.(fields := Collected(f), pending := s.pending - 1,
         strand := if f.writeFlag || f.queue == [] then Idle else HandingOver)
    case Write => s.(strand := Idle, inFlight := s.inFlight + 1, handed := s.handed + f.current)
    case Written(failed) =>
      var over := failed || f.current[|f.current| - 1].terminal;
      s.(fields := f.(current := []), inFlight := s.inFlight - 1, dead := s.dead || over,
         strand := if over then Idle else Releasing)
    case Release => s.(fields := f.(writeFlag := false), strand := if f.queue == [] then Idle else Redispatching)
    case Redispatch => s.(pending := s.pending + 1, strand := Idle)
  }

  ghost predicate Run(s: System, es: seq<Event>)
    decreases |es|
  {
    es == [] || (Enabled(s, es[0]) && Run(Apply(s, es[0]), es[1..]))
  }

  ghost function After(s: System, es: seq<Event>): System
    requires Run(s, es)
    decreases |es|
  {
    if es == [] then s else After(Apply(s, es[0]), es[1..])
  }

  // ---------- what every interleaving keeps ----------

  /** A batch is being handed over, written, or has just been written. */
  predicate Busy(s: System) { s.strand.HandingOver? || s.inFlight > 0 || s.strand.Releasing? }

  /** The batch that has been collected but not handed over. */
  function InHand(s: System): seq<Outgoing> { if s.strand.HandingOver? then s.fields.current else [] }

  /** At most one write is outstanding, and the flag is up exactly while a batch is on its way or for good. */
  predicate FlagInv(s: System) {
    && s.inFlight <= 1 && (s.inFlight == 1 ==> s.strand.Idle?)
    && s.fields.writeFlag == (Busy(s) || s.dead)
    && (s.dead ==> !Busy(s) && s.strand.Idle?)
    && (s.fields.current != [] <==> s.strand.HandingOver? || s.inFlight > 0)
  }

  /** Messages that wait are seen by the owner of the flag or by a write_frame call to come. */
  predicate WakeInv(s: System) {
    s.fields.queue != [] ==> s.fields.writeFlag || s.armed > 0 || s.pending > 0 || s.strand.Redispatching?
  }

  /** Every message pushed was handed over, is about to be, or waits, in this order. */
  predicate OrderInv(s: System) {
    && s.pushed == s.handed + InHand(s) + s.fields.queue
    && s.fields.bufferSize == PayloadSum(s.fields.queue) % TWO_64
  }

  predicate EndsAlike(a: seq<Outgoing>, b: seq<Outgoing>) {
    a != [] && b != [] && a[|a| - 1] == b[|b| - 1]
  }

  /** A terminal message ends its batch, and nothing was handed over after one. */
  predicate TerminalInv(s: System) {
    && OnlyLastTerminal(s.fields.current)
    && (if s.dead || s.inFlight == 1 then OnlyLastTerminal(s.handed) else NoneTerminal(s.handed))
    && (s.inFlight == 1 ==> EndsAlike(s.handed, s.fields.current))
  }

  predicate Inv(s: System) { FlagInv(s) && WakeInv(s) && OrderInv(s) && TerminalInv(s) }

  lemma FlagIsKept(s: System, e: Event)
    requires FlagInv(s) && Enabled(s, e)
    ensures FlagInv(Apply(s, e))
  {
    hide PayloadSum, Batch;
    if e.Collect? && !s.fields.writeFlag && s.fields.queue != [] { assert Batch(s.fields.queue) != []; }
  }

  lemma WakeIsKept(s: System, e: Event)
    requires FlagInv(s) && WakeInv(s) && Enabled(s, e)
    ensures WakeInv(Apply(s, e))
  {
    hide PayloadSum, Batch;
  }

  lemma PushKeepsOrder(s: System, m: Outgoing)
    requires OrderInv(s)
    ensures OrderInv(Apply(s, Push(m)))
  {
    var f := s.fields;
    PayloadSumConcat(f.queue, [m]);
    FirstOfBatch(m);
    ModularAdd(PayloadSum(f.queue), |m.payload|);
  }

  lemma CollectKeepsOrder(s: System)
    requires FlagInv(s) && OrderInv(s) && Enabled(s, Collect)
    ensures OrderInv(Apply(s, Collect))
  {
    hide PayloadSum, Batch;
    var f := s.fields;
    if !f.writeFlag && f.queue != [] {
      var b := Batch(f.queue);
      var rest := f.queue[|b|..];
      assert f.queue == b + rest;
      PayloadSumConcat(b, rest);
      ModularSubtract(PayloadSum(rest), PayloadSum(b));
      assert s.handed + [] + f.queue == s.handed + b + rest;
      assert f.current + b == b;
    }
  }

  lemma OrderIsKept(s: System, e: Event)
    requires FlagInv(s) && OrderInv(s) && Enabled(s, e)
    ensures OrderInv(Apply(s, e))
  {
    hide PayloadSum, Batch;
    match e
    case Push(m) => PushKeepsOrder(s, m);
    case Collect => CollectKeepsOrder(s);
    case Write => assert s.handed + s.fields.current + [] == s.handed + s.fields.current;
    case _ =>
  }

  lemma TerminalIsKept(s: System, e: Event)
    requires FlagInv(s) && TerminalInv(s) && Enabled(s, e)
    ensures TerminalInv(Apply(s, e))
  {
    hide PayloadSum, Batch;
    if e.Collect? && !s.fields.writeFlag && s.fields.queue != [] {
      assert s.fields.current + Batch(s.fields.queue) == Batch(s.fields.queue);
    }
  }

  lemma InvIsKept(s: System, e: Event)
    requires Inv(s) && Enabled(s, e)
    ensures Inv(Apply(s, e))
  {
    hide FlagInv, WakeInv, OrderInv, TerminalInv, Apply, Enabled;
    FlagIsKept(s, e);
    WakeIsKept(s, e);
    OrderIsKept(s, e);
    TerminalIsKept(s, e);
  }

  lemma {:induction false} RunKeepsInv(s: System, es: seq<Event>)
    requires Inv(s) && Run(s, es)
    ensures Inv(After(s, es))
    decreases |es|
  {
    hide Inv, Apply, Enabled;
    if es != [] {
      InvIsKept(s, es[0]);
      RunKeepsInv(Apply(s, es[0]), es[1..]);
    }
  }

  /**
   However the threads interleave: at most one write is outstanding; no wakeup is lost; what was
   handed to the transport is a prefix of what was pushed, and the rest waits in order; the counter
   is the size of the payloads that wait; and only the last message handed over can be terminal.
   */
  lemma WriteProtocol(es: seq<Event>)
    requires Run(INIT, es)
    ensures var s := After(INIT, es);
            && s.inFlight <= 1
            && (s.fields.queue != [] ==> s.fields.writeFlag || s.armed > 0 || s.pending > 0 || s.strand.Redispatching?)
            && s.pushed == s.handed + InHand(s) + s.fields.queue
            && s.fields.bufferSize == PayloadSum(s.fields.queue) % TWO_64
            && OnlyLastTerminal(s.handed)
  {
    hide After;
    InitialInv();
    RunKeepsInv(INIT, es);
  }

  /** The octets on the wire are those of the messages pushed first. */
  lemma WireOrder(es: seq<Event>)
    requires Run(INIT, es)
    ensures var s := After(INIT, es);
            Octets(s.pushed) == Octets(s.handed) + Octets(InHand(s)) + Octets(s.fields.queue)
  {
    hide After, Octets;
    var s := After(INIT, es);
    WriteProtocol(es);
    OctetsConcat(s.handed + InHand(s), s.fields.queue);
    OctetsConcat(s.handed, InHand(s));
  }

  // ---------- terminal messages ----------

  /** A terminal message has been handed over, or a write has ended the connection. */
  predicate Final(s: System) { s.dead || (s.handed != [] && s.handed[|s.handed| - 1].terminal) }

  lemma FinalIsKept(s: System, e: Event)
    requires Inv(s) && Final(s) && Enabled(s, e)
    ensures Final(Apply(s, e)) && Apply(s, e).handed == s.handed && Apply(s, e).fields.writeFlag
  {
    hide PayloadSum, Batch;
  }

  lemma {:induction false} FinalForever(s: System, es: seq<Event>)
    requires Inv(s) && Final(s) && Run(s, es)
    ensures After(s, es).handed == s.handed && After(s, es).fields.writeFlag
    decreases |es|
  {
    hide Inv, Apply, Enabled;
    if es == [] {
      assert s.fields.writeFlag by { FinalFlag(s); }
    } else {
      FinalIsKept(s, es[0]);
      InvIsKept(s, es[0]);
      FinalForever(Apply(s, es[0]), es[1..]);
    }
  }

  lemma FinalFlag(s: System)
    requires Inv(s) && Final(s)
    ensures s.fields.writeFlag
  {
  }

  lemma InitialInv()
    ensures Inv(INIT)
  {
  }

  /**
   Once a terminal message has been handed over or a write has failed, in every continuation the
   flag stays up and nothing else reaches the transport.
   */
  lemma TerminalIsFinal(es: seq<Event>, more: seq<Event>)
    requires Run(INIT, es) && Final(After(INIT, es)) && Run(After(INIT, es), more)
    ensures var s := After(INIT, es); After(s, more).handed == s.handed && After(s, more).fields.writeFlag
  {
    assert Inv(INIT) by { InitialInv(); }
    hide *;
    RunKeepsInv(INIT, es);
    FinalForever(After(INIT, es), more);
  }

  lemma {:induction false} RunConcat(s: System, a: seq<Event>, b: seq<Event>)
    ensures Run(s, a + b) <==> Run(s, a) && Run(After(s, a), b)
    ensures Run(s, a + b) ==> After(s, a + b) == After(After(s, a), b)
    decreases |a|
  {
    hide Apply, Enabled;
    if a == [] {
      assert a + b == b;
    } else {
      assert (a + b)[0] == a[0] && (a + b)[1..] == a[1..] + b;
      if Enabled(s, a[0]) { RunConcat(Apply(s, a[0]), a[1..], b); }
    }
  }

  lemma WriteFails(s: System)
    requires Inv(s) && Run(s, [Written(true)])
    ensures var t := After(s, [Written(true)]); Inv(t) && Final(t) && t.handed == s.handed
  {
    hide Inv;
    assert [Written(true)][1..] == [];
    var t := Apply(s, Written(true));
    assert Run(t, []) && After(t, []) == t;
    InvIsKept(s, Written(true));
  }

  /** After a failed write the flag stays up and nothing else reaches the transport, whatever happens. */
  lemma FailedWriteIsFinal(before: seq<Event>, more: seq<Event>)
    requires Run(INIT, before + [Written(true)] + more)
    ensures Run(INIT, before)
    ensures var t := After(INIT, before + [Written(true)] + more);
            t.handed == After(INIT, before).handed && t.fields.writeFlag
  {
    assert Inv(INIT) by { InitialInv(); }
    hide *;
    RunConcat(INIT, before + [Written(true)], more);
    RunConcat(INIT, before, [Written(true)]);
    RunKeepsInv(INIT, before);
    WriteFails(After(INIT, before));
    FinalForever(After(INIT, before + [Written(true)]), more);
  }

  /** Without a failed write only a terminal message ends the connection. */
  lemma {:induction false} OnlyTerminalsEndUnfailed(s: System, es: seq<Event>)
    requires Inv(s) && Run(s, es) && Written(true) !in es
    requires s.dead ==> s.handed != [] && s.handed[|s.handed| - 1].terminal
    ensures var t := After(s, es); t.dead ==> t.handed != [] && t.handed[|t.handed| - 1].terminal
    decreases |es|
  {
    hide PayloadSum, Batch;
    if es != [] {
      InvIsKept(s, es[0]);
      if s.dead { FinalIsKept(s, es[0]); }
      OnlyTerminalsEndUnfailed(Apply(s, es[0]), es[1..]);
    }
  }

  // ---------- nothing waits forever ----------

  /** How much work is left before only another push can happen. */
  function Measure(s: System): nat {
    6 * |s.fields.queue| + 2 * s.armed + s.pending + 4 * s.inFlight +
    (match s.strand case Idle => 0 case HandingOver => 5 case Releasing => 3 case Redispatching => 2)
  }

  lemma WorkIsFinite(s: System, e: Event)
    requires Inv(s) && Enabled(s, e) && !e.Push?
    ensures Measure(Apply(s, e)) < Measure(s)
  {
    hide PayloadSum, Batch;
    if e.Collect? && !s.fields.writeFlag && s.fields.queue != [] { assert |Batch(s.fields.queue)| >= 1; }
  }

  /** Without further pushes no run is longer than the measure. */
  lemma {:induction false} RunsAreBounded(s: System, es: seq<Event>)
    requires Inv(s) && Run(s, es) && forall e :: e in es ==> !e.Push?
    ensures |es| <= Measure(s)
    decreases |es|
  {
    hide Inv, Apply, Enabled, Measure;
    if es != [] {
      WorkIsFinite(s, es[0]);
      InvIsKept(s, es[0]);
      RunsAreBounded(Apply(s, es[0]), es[1..]);
    }
  }

  predicate Quiet(s: System) {
    s.armed == 0 && s.pending == 0 && s.strand.Idle? && s.inFlight == 0
  }

  lemma QuietMeansDone(s: System)
    requires Inv(s)
    ensures Quiet(s) <==> forall e: Event :: Enabled(s, e) ==> e.Push?
    ensures Quiet(s) ==> s.dead || s.handed == s.pushed
  {
    if Quiet(s) {
      assert s.handed + [] + [] == s.handed;
    } else {
      assert Enabled(s, Dispatch) || Enabled(s, Collect) || Enabled(s, Write) || Enabled(s, Written(false))
             || Enabled(s, Release) || Enabled(s, Redispatch);
    }
  }

  /**
   No message is stranded: after any run, a run without further pushes is bounded, and when nothing
   but a push can happen every message pushed has been handed over, or the connection is over.
   */
  lemma NothingIsStranded(es: seq<Event>, more: seq<Event>)
    requires Run(INIT, es) && Run(After(INIT, es), more) && forall e :: e in more ==> !e.Push?
    ensures |more| <= Measure(After(INIT, es))
    ensures var t := After(After(INIT, es), more);
            (forall e: Event :: Enabled(t, e) ==> e.Push?) ==> t.dead || t.handed == t.pushed
  {
    hide After, Enabled;
    InitialInv();
    RunKeepsInv(INIT, es);
    RunKeepsInv(After(INIT, es), more);
    RunsAreBounded(After(INIT, es), more);
    QuietMeansDone(After(After(INIT, es), more));
  }

  /**
   Told by the events: when nothing but a push can happen, every message pushed has been handed
   over, unless a write has failed or the last message handed over was terminal.
   */
  lemma WhatIsLeftBehind(es: seq<Event>)
    requires Run(INIT, es) && forall e: Event :: Enabled(After(INIT, es), e) ==> e.Push?
    ensures var t := After(INIT, es);
            || t.handed == t.pushed || Written(true) in es
            || (t.handed != [] && t.handed[|t.handed| - 1].terminal)
  {
    hide After, Enabled, Run, Inv;
    InitialInv();
    RunKeepsInv(INIT, es);
    QuietMeansDone(After(INIT, es));
    if Written(true) !in es { OnlyTerminalsEndUnfailed(INIT, es); }
  }
}
