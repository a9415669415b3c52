/**
 The orchestrator's collection of a simulation step: workers send their particles in chunks over a
 bus that may repeat and reorder messages and still carries those of other steps.
 */
module Collect {
  import opened Bytes

  datatype Particle = Particle(id: string, position: seq<real>, velocity: seq<real>, acceleration: seq<real>,
                               mass: real, radius: real)

  // ---------- dictionaries that remember the order of insertion ----------

  datatype Dict<K(==), V> = Dict(keys: seq<K>, at: map<K, V>) {
    ghost predicate Valid() {
      && (forall i, j :: 0 <= i < j < |keys| ==> keys[i] != keys[j])
      && at.Keys == set k | k in keys
    }

    function Put(k: K, v: V): Dict<K, V> {
      Dict(if k in at then keys else keys + [k], at[k := v])
    }

    lemma PutKeepsValid(k: K, v: V)
      requires Valid()
      ensures Put(k, v).Valid()
    {
    }
  }

  // ---------- chunks ----------

  function Chunks<T>(ps: seq<T>, size: nat): (cs: seq<seq<T>>)
    requires size > 0
    decreases |ps|
  {
    if ps == [] then []
    else if |ps| <= size then [ps]
    else [ps[..size]] + Chunks(ps[size..], size)
  }

  /** Put together again the chunks give the list. */
  lemma {:induction false} ChunksFlatten<T>(ps: seq<T>, size: nat)
    requires size > 0
    ensures Flatten(Chunks(ps, size)) == ps
    decreases |ps|
  {
    hide Flatten;
    NoChunks<T>();
    if |ps| > size {
      ChunksFlatten(ps[size..], size);
      FlattenAppend([ps[..size]], Chunks(ps[size..], size));
      FlattenSnoc([], ps[..size]);
      assert [] + [ps[..size]] == [ps[..size]];
      assert ps[..size] + ps[size..] == ps;
    } else if ps != [] {
      FlattenSnoc([], ps);
      assert [] + [ps] == [ps];
    }
  }

  /** No chunk is empty or too long, only the last may be shorter, and there are no more than needed. */
  lemma {:induction false} ChunkSizes<T>(ps: seq<T>, size: nat)
    requires size > 0
    ensures var cs := Chunks(ps, size);
            && |ps| <= size * |cs| < |ps| + size
            && (forall i :: 0 <= i < |cs| ==> 0 < |cs[i]| <= size)
            && (forall i :: 0 <= i < |cs| - 1 ==> |cs[i]| == size)
    decreases |ps|
  {
    if |ps| > size {
      var cs := Chunks(ps[size..], size);
      ChunkSizes(ps[size..], size);
      assert Chunks(ps, size) == [ps[..size]] + cs;
      OneMoreChunk(size, |cs|);
    }
  }

  lemma NoChunks<T>()
    ensures Flatten<T>([]) == []
  {
  }

  lemma OneMoreChunk(size: nat, n: nat)
    ensures size * (n + 1) == size * n + size
  {
  }

  // ---------- messages ----------

  /** A message with all fields of an update, or anything else. */
  datatype BusMessage = Update(step: int, worker: int, index: int, total: int, particles: seq<Particle>) | Other

  predicate ValidateUpdate(m: BusMessage, target: int) { m.Update? && m.step == target }

  datatype Buffer = Buffer(total: int, chunks: map<int, seq<Particle>>, received: nat)

  datatype Collecting = Collecting(updates: Dict<int, seq<Particle>>, buffers: map<int, Buffer>)

  const EMPTY: Collecting := Collecting(Dict([], map[]), map[])

  predicate HasAll(chunks: map<int, seq<Particle>>, total: int) { forall i :: 0 <= i < total ==> i in chunks }

  function Joined(chunks: map<int, seq<Particle>>, total: nat): seq<Particle>
    requires HasAll(chunks, total)
  {
    if total == 0 then [] else Joined(chunks, total - 1) + chunks[total - 1]
  }

  function Opened(s: Collecting, m: BusMessage): Buffer
    requires m.Update?
  {
    if m.worker in s.buffers then s.buffers[m.worker] else Buffer(m.total, map[], 0)
  }

  function Stored(s: Collecting, m: BusMessage): Buffer
    requires m.Update?
  {
    var b := Opened(s, m);
    if m.index in b.chunks then b else Buffer(b.total, b.chunks[m.index := m.particles], b.received + 1)
  }

  /** What one message does; None is a missing key when the chunks are joined. */
  function Received(s: Collecting, target: int, m: BusMessage): Option<Collecting> {
    if !ValidateUpdate(m, target) then Some(s)
    else
      var b := Stored(s, m);
      if b.received != m.total then Some(s.(buffers := s.buffers[m.worker := b]))
      else if !HasAll(b.chunks, m.total) then None
      else Some(Collecting(s.updates.Put(m.worker, Joined(b.chunks, m.total)), s.buffers - {m.worker}))
  }

  /** What a sequence of messages does, in order. */
  function AllReceived(target: int, ms: seq<BusMessage>): Option<Collecting>
    decreases |ms|
  {
    if ms == [] then Some(EMPTY)
    else
      var before := AllReceived(target, ms[..|ms| - 1]);
      if before.None? then None else Received(before.value, target, ms[|ms| - 1])
  }

  // ---------- the collection loop ----------

  datatype Collected = Updates(updates: Dict<int, seq<Particle>>) | KeyError

  method JoinChunks(chunks: map<int, seq<Particle>>, total: int) returns (r: Option<seq<Particle>>)
    ensures r == if HasAll(chunks, total) then Some(if total < 0 then [] else Joined(chunks, total)) else None
  {
    var all := [];
    var idx := 0;
    while idx < total
      invariant 0 <= idx && (idx <= total || idx == 0) && HasAll(chunks, idx) && all == Joined(chunks, idx)
    {
      if idx !in chunks {
        return None;
      }
      all := all + chunks[idx];
      idx := idx + 1;
    }
    r := Some(all);
  }

  method ReceiveMessage(s: Collecting, target: int, m: BusMessage) returns (r: Option<Collecting>)
    ensures r == Received(s, target, m)
    ensures !m.Update? || m.step != target ==> r == Some(s)
  {
    if !ValidateUpdate(m, target) {
      return Some(s);
    }
    var buffers := s.buffers;
    if m.worker !in buffers {
      buffers := buffers[m.worker := Buffer(m.total, map[], 0)];
    }
    var b := buffers[m.worker];
    if m.index !in b.chunks {
      b := Buffer(b.total, b.chunks[m.index := m.particles], b.received + 1);
      buffers := buffers[m.worker := b];
    }
    assert buffers == s.buffers[m.worker := b];
    if b.received == m.total {
      var all := JoinChunks(b.chunks, m.total);
      if all.None? {
        return None;
      }
      assert buffers - {m.worker} == s.buffers - {m.worker};
      return Some(Collecting(s.updates.Put(m.worker, all.value), buffers - {m.worker}));
    }
    r := Some(Collecting(s.updates, buffers));
  }

  /** All batches that arrive before the timeout, or fewer if all workers have answered. */
  method CollectUpdates(numWorkers: nat, target: int, batches: seq<seq<BusMessage>>) returns (r: Collected, used: nat)
    ensures used <= |batches|
    ensures var s := AllReceived(target, Flatten(batches[..used]));
            match r
            case KeyError => s.None?
            case Updates(u) => s.Some? && s.value.updates == u && (used == |batches| || |u.keys| >= numWorkers)
    ensures forall k :: 0 < k < used ==>
              var s := AllReceived(target, Flatten(batches[..k])); s.Some? && |s.value.updates.keys| < numWorkers
  {
    hide Received, AllReceived, Flatten;
    var s := EMPTY;
    used := 0;
    var i := 0;
    assert AllReceived(target, Flatten(batches[..0])) == Some(s) by { NothingReceived(target); }
    while i < |batches|
      invariant 0 <= i <= |batches| && used == i
      invariant AllReceived(target, Flatten(batches[..i])) == Some(s)
      invariant forall k :: 0 < k <= i ==>
                  var s := AllReceived(target, Flatten(batches[..k])); s.Some? && |s.value.updates.keys| < numWorkers
    {
      ghost var before := Flatten(batches[..i]);
      used := i + 1;
      assert batches[..i + 1] == batches[..i] + [batches[i]];
      FlattenSnoc(batches[..i], batches[i]);
      assert before + batches[i][..0] == before;
      var j := 0;
      while j < |batches[i]|
        invariant 0 <= j <= |batches[i]| && AllReceived(target, before + batches[i][..j]) == Some(s)
      {
        ReceivedNext(target, before + batches[i][..j], batches[i][j]);
        assert before + batches[i][..j + 1] == before + batches[i][..j] + [batches[i][j]];
        var next := ReceiveMessage(s, target, batches[i][j]);
        j := j + 1;
        if next.None? {
          ErrorStays(target, before + batches[i][..j], batches[i][j..]);
          assert before + batches[i][..j] + batches[i][j..] == before + batches[i];
          return KeyError, used;
        }
        s := next.value;
      }
      assert batches[i][..j] == batches[i];
      if |s.updates.keys| >= numWorkers {
        return Updates(s.updates), used;
      }
      i := i + 1;
    }
    r := Updates(s.updates);
  }

  lemma NothingReceived(target: int)
    ensures AllReceived(target, Flatten([])) == Some(EMPTY)
  {
  }

  lemma ReceivedNext(target: int, ms: seq<BusMessage>, m: BusMessage)
    ensures AllReceived(target, ms + [m]) ==
            var before := AllReceived(target, ms); if before.None? then None else Received(before.value, target, m)
  {
    assert (ms + [m])[..|ms|] == ms;
  }

  lemma {:induction false} ErrorStays(target: int, ms: seq<BusMessage>, more: seq<BusMessage>)
    requires AllReceived(target, ms).None?
    ensures AllReceived(target, ms + more).None?
    decreases |more|
  {
    if more == [] {
      assert ms + more == ms;
    } else {
      ErrorStays(target, ms, more[..|more| - 1]);
      assert (ms + more)[..|ms + more| - 1] == ms + more[..|more| - 1];
    }
  }

  // ---------- what a message does, whatever it claims ----------

  /** The updates of one step. */
  function OfStep(target: int, ms: seq<BusMessage>): seq<BusMessage>
    decreases |ms|
  {
    if ms == [] then []
    else
      var m := ms[|ms| - 1];
      OfStep(target, ms[..|ms| - 1]) + if m.Update? && m.step == target then [m] else []
  }

  /** Messages of other steps, and anything that is no update, change nothing. */
  lemma {:induction false} OtherStepsAreIgnored(target: int, ms: seq<BusMessage>)
    ensures AllReceived(target, ms) == AllReceived(target, OfStep(target, ms))
    decreases |ms|
  {
    hide Opened, Stored, HasAll, Joined;
    if ms != [] {
      var init, m := ms[..|ms| - 1], ms[|ms| - 1];
      assert ms == init + [m];
      OtherStepsAreIgnored(target, init);
      ReceivedNext(target, init, m);
      if m.Update? && m.step == target {
        ReceivedNext(target, OfStep(target, init), m);
      } else {
        assert OfStep(target, ms) == OfStep(target, init) + [] == OfStep(target, init);
      }
    }
  }

  /** Every buffer counts its chunks. */
  ghost predicate Counts(s: Collecting) {
    forall w :: w in s.buffers ==> s.buffers[w].received == |s.buffers[w].chunks.Keys|
  }

  /** The chunks a worker has in its buffer. */
  function Buffered(s: Collecting, w: int): map<int, seq<Particle>> {
    if w in s.buffers then s.buffers[w].chunks else map[]
  }

  /** What a worker has with one more chunk, which is dropped if there is one of that number. */
  function With(chunks: map<int, seq<Particle>>, m: BusMessage): map<int, seq<Particle>>
    requires m.Update?
  {
    if m.index in chunks then chunks else chunks[m.index := m.particles]
  }

  /** The chunks 0 to n - 1. */
  function InSequence(chunks: map<int, seq<Particle>>, n: nat): seq<seq<Particle>> {
    seq(n, i requires 0 <= i < n => if i in chunks then chunks[i] else [])
  }

  lemma StoredCounts(s: Collecting, m: BusMessage)
    requires Counts(s) && m.Update?
    ensures Stored(s, m).chunks == With(Buffered(s, m.worker), m)
    ensures Stored(s, m).received == |With(Buffered(s, m.worker), m).Keys|
  {
    var before := Buffered(s, m.worker);
    assert m.index !in before ==> With(before, m).Keys == before.Keys + {m.index};
  }

  lemma OneBufferMore(s: Collecting, w: int, b: Buffer)
    requires Counts(s)
    ensures b.received == |b.chunks.Keys| ==> Counts(s.(buffers := s.buffers[w := b]))
    ensures forall u :: Counts(Collecting(u, s.buffers - {w}))
  {
  }

  /**
   An update of the step, whatever it claims. With as many chunks as the message says there are, the
   worker is complete and starts afresh; its particles are those of the chunks in the order of their
   numbers, and it is an error if these are not 0 to one less than that many. Otherwise the chunks wait.
   */
  lemma UpdateIsCounted(s: Collecting, target: int, m: BusMessage)
    requires Counts(s) && m.Update? && m.step == target
    ensures var now := With(Buffered(s, m.worker), m);
            && (Received(s, target, m).None? <==> |now.Keys| == m.total && now.Keys != Range(m.total))
            && (Received(s, target, m).Some? ==>
                  var t := Received(s, target, m).value;
                  && Counts(t)
                  && if |now.Keys| == m.total then
                       && Buffered(t, m.worker) == map[]
                       && t.updates == s.updates.Put(m.worker, Flatten(InSequence(now, m.total)))
                     else
                       Buffered(t, m.worker) == now && t.updates == s.updates)
  {
    hide Flatten, Joined, Range, Stored, With, HasAll, Counts;
    var now, b := With(Buffered(s, m.worker), m), Stored(s, m);
    StoredCounts(s, m);
    OneBufferMore(s, m.worker, b);
    if |now.Keys| == m.total {
      AllOrNotAll(now, m.total);
      if HasAll(now, m.total) { JoinedInSequence(now, m.total); }
    }
  }

  lemma JoinedInSequence(chunks: map<int, seq<Particle>>, n: nat)
    requires HasAll(chunks, n)
    ensures Joined(chunks, n) == Flatten(InSequence(chunks, n))
  {
    hide Flatten, Joined;
    JoinedIsFlatten(chunks, InSequence(chunks, n));
  }

  /** Whatever a message does, other workers keep their chunks and their entries. */
  lemma OthersAreLeftAlone(s: Collecting, target: int, m: BusMessage, w: int)
    requires Received(s, target, m).Some? && (m.Update? && m.step == target ==> m.worker != w)
    ensures var t := Received(s, target, m).value;
            && Buffered(t, w) == Buffered(s, w) && (w in t.updates.at <==> w in s.updates.at)
            && (w in s.updates.at ==> t.updates.at[w] == s.updates.at[w])
  {
    hide Joined, HasAll, Stored;
  }

  /** As many numbers as there are chunks: either all of them, or one is missing. */
  lemma AllOrNotAll(chunks: map<int, seq<Particle>>, n: nat)
    requires |chunks.Keys| == n
    ensures HasAll(chunks, n) <==> chunks.Keys == Range(n)
  {
    if HasAll(chunks, n) {
      assert Range(n) <= chunks.Keys;
      assert chunks.Keys == Range(n) + (chunks.Keys - Range(n));
      assert |chunks.Keys - Range(n)| == 0;
    }
  }

  lemma {:induction false} AllCounted(target: int, ms: seq<BusMessage>)
    ensures AllReceived(target, ms).Some? ==> Counts(AllReceived(target, ms).value)
    decreases |ms|
  {
    hide Counts, Received;
    if ms == [] {
      assert Counts(EMPTY) by { NothingCounted(); }
    } else {
      var init, m := ms[..|ms| - 1], ms[|ms| - 1];
      AllCounted(target, init);
      if AllReceived(target, init).Some? {
        if m.Update? && m.step == target {
          UpdateIsCounted(AllReceived(target, init).value, target, m);
        } else {
          Ignored(AllReceived(target, init).value, target, m);
        }
      }
    }
  }

  lemma NothingCounted()
    ensures Counts(EMPTY)
  {
  }

  lemma Ignored(s: Collecting, target: int, m: BusMessage)
    requires !m.Update? || m.step != target
    ensures Received(s, target, m) == Some(s)
  {
  }

  // ---------- what is collected ----------

  /** Every message of this step is a chunk of what its worker sends, correctly numbered. */
  ghost predicate Consistent(target: int, ms: seq<BusMessage>, sent: map<int, seq<seq<Particle>>>) {
    forall m :: m in ms && m.Update? && m.step == target ==>
      && m.worker in sent && m.total == |sent[m.worker]| && 0 <= m.index < m.total
      && m.particles == sent[m.worker][m.index]
  }

  /** The numbers of the chunks of a worker that have arrived. */
  function Seen(target: int, ms: seq<BusMessage>, w: int): set<int> {
    set m | m in ms && m.Update? && m.step == target && m.worker == w :: m.index
  }

  function Range(n: nat): (s: set<int>)
    ensures |s| == n && forall i :: i in s <==> 0 <= i < n
  {
    if n == 0 then {} else Range(n - 1) + {n - 1}
  }

  /** As many different numbers below n as there are: all of them. */
  lemma Pigeonhole(s: set<int>, n: nat)
    requires s <= Range(n) && |s| == n
    ensures s == Range(n)
  {
    var rest := Range(n) - s;
    assert Range(n) == s + rest;
    assert |rest| == 0;
  }

  /** A buffer holds chunks of what its worker sends, and has counted them. */
  ghost predicate Holds(b: Buffer, parts: seq<seq<Particle>>) {
    && b.received == |b.chunks| == |b.chunks.Keys|
    && (forall i :: i in b.chunks ==> 0 <= i < |parts| && b.chunks[i] == parts[i])
  }

  ghost predicate BufferOk(b: Buffer, parts: seq<seq<Particle>>) { Holds(b, parts) && b.received < |parts| }

  /** How far a worker is, given the numbers of its chunks that have arrived. */
  ghost predicate WorkerInv(s: Collecting, seen: set<int>, sent: map<int, seq<seq<Particle>>>, w: int) {
    && (w in s.buffers ==> w in sent && BufferOk(s.buffers[w], sent[w]))
    && if w in s.updates.at then
         w in sent && sent[w] != [] && seen == Range(|sent[w]|) && s.updates.at[w] == Flatten(sent[w])
       else
         seen == if w in s.buffers then s.buffers[w].chunks.Keys else {}
  }

  ghost predicate CollectInv(s: Collecting, target: int, ms: seq<BusMessage>, sent: map<int, seq<seq<Particle>>>) {
    s.updates.Valid() && forall w :: WorkerInv(s, Seen(target, ms, w), sent, w)
  }

  lemma SeenNext(target: int, ms: seq<BusMessage>, m: BusMessage, w: int)
    ensures Seen(target, ms + [m], w) ==
            Seen(target, ms, w) + if ValidateUpdate(m, target) && m.worker == w then {m.index} else {}
  {
  }

  lemma {:induction false} JoinedIsFlatten(chunks: map<int, seq<Particle>>, parts: seq<seq<Particle>>)
    requires HasAll(chunks, |parts|) && forall i :: 0 <= i < |parts| ==> chunks[i] == parts[i]
    ensures Joined(chunks, |parts|) == Flatten(parts)
    decreases |parts|
  {
    if parts != [] {
      var init := parts[..|parts| - 1];
      JoinedIsFlatten(chunks, init);
      FlattenSnoc(init, parts[|parts| - 1]);
      assert parts == init + [parts[|parts| - 1]];
    }
  }

  lemma StoredHolds(s: Collecting, m: BusMessage, parts: seq<seq<Particle>>)
    requires m.Update? && Holds(Opened(s, m), parts) && 0 <= m.index < |parts| && m.particles == parts[m.index]
    ensures Holds(Stored(s, m), parts) && Stored(s, m).chunks.Keys == Opened(s, m).chunks.Keys + {m.index}
  {
    hide Opened;
    var b := Opened(s, m);
    assert (b.chunks[m.index := m.particles]).Keys == b.chunks.Keys + {m.index};
  }

  /** As many chunks as there are numbers are all the chunks. */
  lemma FullBuffer(b: Buffer, parts: seq<seq<Particle>>)
    requires Holds(b, parts)
    ensures b.received <= |parts|
    ensures b.received == |parts| ==>
              && b.chunks.Keys == Range(|parts|) && HasAll(b.chunks, |parts|)
              && Joined(b.chunks, |parts|) == Flatten(parts)
  {
    hide Flatten, Joined;
    SubsetSize(b.chunks.Keys, Range(|parts|));
    if b.received == |parts| {
      Pigeonhole(b.chunks.Keys, |parts|);
      assert forall i :: 0 <= i < |parts| ==> i in b.chunks.Keys;
      JoinedIsFlatten(b.chunks, parts);
    }
  }

  lemma SubsetSize(a: set<int>, b: set<int>)
    requires a <= b
    ensures |a| <= |b|
  {
    assert b == a + (b - a);
  }

  /** A message is handled, and leaves its worker as far as the chunks that have arrived say. */
  lemma WorkerIsKept(s: Collecting, target: int, m: BusMessage, seen: set<int>, sent: map<int, seq<seq<Particle>>>)
    requires ValidateUpdate(m, target) && m.worker in sent && WorkerInv(s, seen, sent, m.worker)
    requires var parts := sent[m.worker]; m.total == |parts| && 0 <= m.index < m.total && m.particles == parts[m.index]
    ensures Received(s, target, m).Some?
    ensures WorkerInv(Received(s, target, m).value, seen + {m.index}, sent, m.worker)
  {
    hide Range, Flatten, Joined, HasAll, Stored, Holds, Opened;
    var w, b, parts := m.worker, Stored(s, m), sent[m.worker];
    OpenedHolds(s, m, parts);
    StoredHolds(s, m, parts);
    FullBuffer(b, parts);
    if w in s.updates.at { assert seen + {m.index} == seen by { assert m.index in Range(|parts|); } }
    assert w !in s.updates.at ==> b.chunks.Keys == seen + {m.index};
    if b.received == m.total {
      var t := Collecting(s.updates.Put(w, Flatten(parts)), s.buffers - {w});
      assert Received(s, target, m) == Some(t);
      assert w !in t.buffers && w in t.updates.at && t.updates.at[w] == Flatten(parts);
    } else {
      var t := s.(buffers := s.buffers[w := b]);
      assert Received(s, target, m) == Some(t);
      assert w in t.buffers && t.buffers[w] == b && BufferOk(b, parts);
    }
  }

  lemma OpenedHolds(s: Collecting, m: BusMessage, parts: seq<seq<Particle>>)
    requires m.Update? && (m.worker in s.buffers ==> BufferOk(s.buffers[m.worker], parts))
    ensures Holds(Opened(s, m), parts)
    ensures Opened(s, m).chunks.Keys == if m.worker in s.buffers then s.buffers[m.worker].chunks.Keys else {}
  {
  }

  lemma OthersAreKept(s: Collecting, target: int, m: BusMessage, seen: set<int>, sent: map<int, seq<seq<Particle>>>,
                      w: int)
    requires WorkerInv(s, seen, sent, w) && (ValidateUpdate(m, target) ==> m.worker != w)
             && Received(s, target, m).Some?
    ensures WorkerInv(Received(s, target, m).value, seen, sent, w)
  {
    hide Range, Flatten, Joined, HasAll, Stored, BufferOk;
  }

  lemma ReceivedKeepsInv(s: Collecting, target: int, ms: seq<BusMessage>, m: BusMessage,
                         sent: map<int, seq<seq<Particle>>>)
    requires CollectInv(s, target, ms, sent) && Consistent(target, [m], sent)
    ensures Received(s, target, m).Some? && CollectInv(Received(s, target, m).value, target, ms + [m], sent)
  {
    hide Seen, Range, Flatten, Joined, HasAll, Stored, WorkerInv;
    assert m in [m];
    if ValidateUpdate(m, target) {
      WorkerIsKept(s, target, m, Seen(target, ms, m.worker), sent);
      if Stored(s, m).received == m.total { s.updates.PutKeepsValid(m.worker, Joined(Stored(s, m).chunks, m.total)); }
    }
    var t := Received(s, target, m).value;
    forall w ensures WorkerInv(t, Seen(target, ms + [m], w), sent, w) {
      SeenNext(target, ms, m, w);
      assert WorkerInv(s, Seen(target, ms, w), sent, w);
      if !ValidateUpdate(m, target) || m.worker != w {
        OthersAreKept(s, target, m, Seen(target, ms, w), sent, w);
        assert Seen(target, ms, w) + {} == Seen(target, ms, w);
      }
    }
  }

  lemma {:induction false} AllReceivedInv(target: int, ms: seq<BusMessage>, sent: map<int, seq<seq<Particle>>>)
    requires Consistent(target, ms, sent)
    ensures AllReceived(target, ms).Some? && CollectInv(AllReceived(target, ms).value, target, ms, sent)
    decreases |ms|
  {
    hide Received, WorkerInv;
    if ms == [] {
      assert forall w :: WorkerInv(EMPTY, Seen(target, ms, w), sent, w) by { NothingSeen(target, sent); }
    } else {
      var init, m := ms[..|ms| - 1], ms[|ms| - 1];
      assert ms == init + [m];
      AllReceivedInv(target, init, sent);
      ReceivedKeepsInv(AllReceived(target, init).value, target, init, m, sent);
    }
  }

  lemma NothingSeen(target: int, sent: map<int, seq<seq<Particle>>>)
    ensures forall w :: WorkerInv(EMPTY, Seen(target, [], w), sent, w)
  {
  }

  /**
   In whatever order, however often and among whatever other messages the chunks arrive, joining
   them never fails, a worker has an entry exactly if every one of its chunks has arrived, and the
   entry is what the worker sent.
   */
  lemma Reassembly(target: int, ms: seq<BusMessage>, sent: map<int, seq<seq<Particle>>>)
    requires Consistent(target, ms, sent)
    ensures AllReceived(target, ms).Some?
    ensures var u := AllReceived(target, ms).value.updates;
            && u.Valid()
            && forall w ::
                 && (w in u.at <==> w in sent && sent[w] != [] && Seen(target, ms, w) == Range(|sent[w]|))
                 && (w in u.at ==> u.at[w] == Flatten(sent[w]))
  {
    hide Seen, Flatten;
    AllReceivedInv(target, ms, sent);
    var s := AllReceived(target, ms).value;
    forall w ensures w in s.updates.at <==> w in sent && sent[w] != [] && Seen(target, ms, w) == Range(|sent[w]|)
             ensures w in s.updates.at ==> s.updates.at[w] == Flatten(sent[w]) {
      assert WorkerInv(s, Seen(target, ms, w), sent, w);
    }
  }

  /** Every chunk of a worker has arrived, and there is at least one. */
  ghost predicate AllSeen(target: int, ms: seq<BusMessage>, w: int, sent: map<int, seq<seq<Particle>>>) {
    w in sent && sent[w] != [] && Seen(target, ms, w) == Range(|sent[w]|)
  }

  /** At some point all chunks of v had arrived, but not those of w. */
  ghost predicate Sooner(target: int, ms: seq<BusMessage>, v: int, w: int, sent: map<int, seq<seq<Particle>>>) {
    exists k :: 0 <= k <= |ms| && AllSeen(target, ms[..k], v, sent) && !AllSeen(target, ms[..k], w, sent)
  }

  lemma StillSooner(target: int, ms: seq<BusMessage>, m: BusMessage, v: int, w: int, sent: map<int, seq<seq<Particle>>>)
    requires Sooner(target, ms, v, w, sent)
    ensures Sooner(target, ms + [m], v, w, sent)
  {
    hide AllSeen;
    var k :| 0 <= k <= |ms| && AllSeen(target, ms[..k], v, sent) && !AllSeen(target, ms[..k], w, sent);
    assert (ms + [m])[..k] == ms[..k];
  }

  lemma KeysNext(s: Collecting, target: int, m: BusMessage)
    requires Received(s, target, m).Some?
    ensures var t := Received(s, target, m).value.updates.keys;
            t == s.updates.keys || (m.Update? && m.worker !in s.updates.at && t == s.updates.keys + [m.worker])
  {
    hide Joined, HasAll, Stored;
  }

  /** The entries are in the order in which their workers had all chunks there for the first time. */
  lemma {:induction false} FirstCompleteFirst(target: int, ms: seq<BusMessage>, sent: map<int, seq<seq<Particle>>>)
    requires Consistent(target, ms, sent)
    ensures AllReceived(target, ms).Some?
    ensures var keys := AllReceived(target, ms).value.updates.keys;
            forall i, j :: 0 <= i < j < |keys| ==> Sooner(target, ms, keys[i], keys[j], sent)
    decreases |ms|
  {
    hide Received, Sooner;
    Reassembly(target, ms, sent);
    if ms != [] {
      var init, m := ms[..|ms| - 1], ms[|ms| - 1];
      assert ms == init + [m];
      FirstCompleteFirst(target, init, sent);
      Reassembly(target, init, sent);
      var s := AllReceived(target, init).value;
      KeysNext(s, target, m);
      var keys := AllReceived(target, ms).value.updates.keys;
      forall i, j | 0 <= i < j < |keys| ensures Sooner(target, ms, keys[i], keys[j], sent) {
        if j < |s.updates.keys| {
          StillSooner(target, init, m, keys[i], keys[j], sent);
        } else {
          assert keys[i] in s.updates.keys && keys[i] in s.updates.at.Keys;
          assert AllSeen(target, init, keys[i], sent) && !AllSeen(target, init, keys[j], sent);
          assert Sooner(target, ms, keys[i], keys[j], sent) by { IsSooner(target, init, m, keys[i], keys[j], sent); }
        }
      }
    }
  }

  lemma IsSooner(target: int, ms: seq<BusMessage>, m: BusMessage, v: int, w: int, sent: map<int, seq<seq<Particle>>>)
    requires AllSeen(target, ms, v, sent) && !AllSeen(target, ms, w, sent)
    ensures Sooner(target, ms + [m], v, w, sent)
  {
    hide AllSeen;
    assert (ms + [m])[..|ms|] == ms;
  }

  function InChunks(lists: map<int, seq<Particle>>, size: nat): map<int, seq<seq<Particle>>>
    requires size > 0
  {
    map w | w in lists :: Chunks(lists[w], size)
  }

  lemma ChunksOfNothing<T>(ps: seq<T>, size: nat)
    requires size > 0
    ensures Chunks(ps, size) == [] <==> ps == []
  {
  }

  /** All chunks of a list have arrived, and there is at least one. */
  predicate Arrived(target: int, ms: seq<BusMessage>, w: int, ps: seq<Particle>, size: nat)
    requires size > 0
  {
    ps != [] && Seen(target, ms, w) == Range(|Chunks(ps, size)|)
  }

  /**
   Sent in chunks and collected, a list of particles arrives, as it was, exactly if it is not empty
   and all its chunks have arrived.
   */
  lemma ChunkedRoundTrip(target: int, ms: seq<BusMessage>, lists: map<int, seq<Particle>>, size: nat)
    requires size > 0 && Consistent(target, ms, InChunks(lists, size))
    ensures AllReceived(target, ms).Some?
    ensures var u := AllReceived(target, ms).value.updates;
            && u.Valid()
            && forall w ::
                 && (w in u.at <==> w in lists && Arrived(target, ms, w, lists[w], size))
                 && (w in u.at ==> u.at[w] == lists[w])
  {
    hide Seen, Chunks, Flatten, AllReceived, Consistent;
    Reassembly(target, ms, InChunks(lists, size));
    forall w | w in lists
      ensures Flatten(Chunks(lists[w], size)) == lists[w] && (Chunks(lists[w], size) == [] <==> lists[w] == []) {
      ChunksFlatten(lists[w], size);
      ChunksOfNothing(lists[w], size);
    }
  }
}
