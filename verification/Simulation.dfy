/** The orchestrator's step loop: collect a step, retry it a bounded number of times, merge, publish a frame. */
module Simulation {
  import opened Bytes
  import opened Collect

  const MAX_RETRIES: nat := 10

  type WorkerUpdates = Dict<int, seq<Particle>>

  // ---------- merging ----------

  function Ids(ps: seq<Particle>): set<string> { set p | p in ps :: p.id }

  predicate DistinctIds(ps: seq<Particle>) { forall i, j :: 0 <= i < j < |ps| ==> ps[i].id != ps[j].id }

  /** Later particles replace earlier ones with the same id. */
  function ById(ps: seq<Particle>): Dict<string, Particle>
    decreases |ps|
  {
    if ps == [] then Dict([], map[]) else var p := ps[|ps| - 1]; ById(ps[..|ps| - 1]).Put(p.id, p)
  }

  lemma {:induction false} ByIdHasIds(ps: seq<Particle>)
    ensures ById(ps).Valid() && ById(ps).at.Keys == Ids(ps)
    ensures forall id :: id in ById(ps).at ==> ById(ps).at[id].id == id && ById(ps).at[id] in ps
    decreases |ps|
  {
    if ps != [] {
      var init, p := ps[..|ps| - 1], ps[|ps| - 1];
      assert ps == init + [p];
      ByIdHasIds(init);
      ById(init).PutKeepsValid(p.id, p);
    }
  }

  function Values(d: Dict<string, Particle>): (vs: seq<Particle>)
    requires forall i :: 0 <= i < |d.keys| ==> d.keys[i] in d.at
    ensures |vs| == |d.keys| && forall i :: 0 <= i < |vs| ==> vs[i] == d.at[d.keys[i]]
  {
    seq(|d.keys|, i requires 0 <= i < |d.keys| => d.at[d.keys[i]])
  }

  function InOrder(u: WorkerUpdates): seq<seq<Particle>>
    requires forall i :: 0 <= i < |u.keys| ==> u.keys[i] in u.at
  {
    seq(|u.keys|, i requires 0 <= i < |u.keys| => u.at[u.keys[i]])
  }

  /** All particles of all workers, in the order in which the workers answered. */
  function AllParticles(u: WorkerUpdates): seq<Particle>
    requires forall i :: 0 <= i < |u.keys| ==> u.keys[i] in u.at
  {
    Flatten(InOrder(u))
  }

  ghost function Merged(u: WorkerUpdates): seq<Particle>
    requires u.Valid()
  {
    ByIdHasIds(AllParticles(u));
    Values(ById(AllParticles(u)))
  }

  /** The last particle with its id. */
  predicate IsLast(ps: seq<Particle>, p: Particle) {
    exists i :: 0 <= i < |ps| && ps[i] == p && forall j :: i < j < |ps| ==> ps[j].id != p.id
  }

  lemma {:induction false} LastWins(ps: seq<Particle>, id: string)
    requires id in Ids(ps)
    ensures id in ById(ps).at && IsLast(ps, ById(ps).at[id])
    decreases |ps|
  {
    var init, p := ps[..|ps| - 1], ps[|ps| - 1];
    assert ps == init + [p];
    if p.id == id {
      assert ps[|ps| - 1] == p;
    } else {
      assert id in Ids(init);
      LastWins(init, id);
      var q := ById(init).at[id];
      var i :| 0 <= i < |init| && init[i] == q && forall j :: i < j < |init| ==> init[j].id != q.id;
      ByIdHasIds(init);
      assert ps[i] == q && forall j :: i < j < |ps| ==> ps[j].id != q.id;
    }
  }

  /** Merging keeps each id once, with the particle reported last, and invents none. */
  lemma MergeKeepsIds(u: WorkerUpdates)
    requires u.Valid()
    ensures DistinctIds(Merged(u)) && Ids(Merged(u)) == Ids(AllParticles(u))
    ensures forall p :: p in Merged(u) ==> IsLast(AllParticles(u), p)
  {
    hide IsLast, ById, Flatten, AllParticles;
    var ps := AllParticles(u);
    var d := ById(ps);
    ByIdHasIds(ps);
    forall id | id in Ids(ps) ensures id in d.keys && IsLast(ps, d.at[id]) {
      LastWins(ps, id);
    }
    forall id | id in Ids(ps) ensures id in Ids(Merged(u)) {
      var i :| 0 <= i < |d.keys| && d.keys[i] == id;
      assert Merged(u)[i].id == id;
    }
  }

  // ---------- the order of the merge ----------

  /** The place of an earlier report: an earlier worker, or earlier in the list of the same worker. */
  predicate Earlier(i: nat, a: nat, j: nat, b: nat) { i < j || (i == j && a < b) }

  predicate Reports(parts: seq<seq<Particle>>, i: nat, a: nat, id: string) {
    i < |parts| && a < |parts[i]| && parts[i][a].id == id
  }

  /** The report at i, a is of particle p, and none later is of that id. */
  ghost predicate LastReport(parts: seq<seq<Particle>>, i: nat, a: nat, p: Particle) {
    && Reports(parts, i, a, p.id) && parts[i][a] == p
    && forall j: nat, b: nat :: Earlier(i, a, j, b) ==> !Reports(parts, j, b, p.id)
  }

  /** The report at i, a is of id x, and all those of id y are later. */
  ghost predicate FirstReport(parts: seq<seq<Particle>>, i: nat, a: nat, x: string, y: string) {
    Reports(parts, i, a, x) && forall j: nat, b: nat :: Reports(parts, j, b, y) ==> Earlier(i, a, j, b)
  }

  ghost predicate ReportedFirst(parts: seq<seq<Particle>>, x: string, y: string) {
    exists i: nat, a: nat :: FirstReport(parts, i, a, x, y)
  }

  lemma PlaceOf(parts: seq<seq<Particle>>, j: nat, b: nat, id: string) returns (g: nat)
    requires Reports(parts, j, b, id)
    ensures g < |Flatten(parts)| && Flatten(parts)[g].id == id
    ensures if j == 0 then g == b else g >= |parts[0]|
  {
    hide Flatten;
    FlattenAppend([parts[0]], parts[1..]);
    assert parts == [parts[0]] + parts[1..];
    FlattenSnoc([], parts[0]);
    NoChunks<Particle>();
    assert [] + [parts[0]] == [parts[0]];
    if j == 0 {
      g := b;
    } else {
      assert parts[1..][j - 1] == parts[j];
      InFlatten(parts[1..], parts[j][b]);
      var m :| 0 <= m < |Flatten(parts[1..])| && Flatten(parts[1..])[m] == parts[j][b];
      g := |parts[0]| + m;
    }
  }

  lemma {:induction false} LastInOrder(parts: seq<seq<Particle>>, p: Particle) returns (i: nat, a: nat)
    requires IsLast(Flatten(parts), p)
    ensures LastReport(parts, i, a, p)
    decreases |parts|
  {
    var ps := Flatten(parts);
    var k :| 0 <= k < |ps| && ps[k] == p && forall j :: k < j < |ps| ==> ps[j].id != p.id;
    var rest := Flatten(parts[1..]);
    assert ps == parts[0] + rest;
    if k < |parts[0]| {
      i, a := 0, k;
      forall j: nat, b: nat | Earlier(0, k, j, b) ensures !Reports(parts, j, b, p.id) {
        if Reports(parts, j, b, p.id) {
          var g := PlaceOf(parts, j, b, p.id);
          assert false;
        }
      }
    } else {
      assert rest[k - |parts[0]|] == p;
      assert forall j :: k - |parts[0]| < j < |rest| ==> rest[j] == ps[j + |parts[0]|];
      i, a := LastInOrder(parts[1..], p);
      i := i + 1;
      forall j: nat, b: nat | Earlier(i, a, j, b) ensures !Reports(parts, j, b, p.id) {
        assert Earlier(i - 1, a, j - 1, b);
        assert !Reports(parts[1..], j - 1, b, p.id);
      }
    }
  }

  /** Element f of a list has id x, and no element up to it has id y. */
  ghost predicate FirstAt(ps: seq<Particle>, f: nat, x: string, y: string) {
    f < |ps| && ps[f].id == x && forall g :: 0 <= g < |ps| && ps[g].id == y ==> f < g
  }

  lemma {:induction false} FirstInOrder(parts: seq<seq<Particle>>, f: nat, x: string, y: string)
    returns (i: nat, a: nat)
    requires FirstAt(Flatten(parts), f, x, y)
    ensures FirstReport(parts, i, a, x, y)
    decreases |parts|
  {
    var ps := Flatten(parts);
    var rest := Flatten(parts[1..]);
    assert ps == parts[0] + rest;
    assert forall b :: 0 <= b < |parts[0]| ==> ps[b] == parts[0][b];
    if f < |parts[0]| {
      i, a := 0, f;
    } else {
      var d := |parts[0]|;
      assert forall g :: 0 <= g < |rest| ==> rest[g] == ps[g + d];
      assert FirstAt(rest, f - d, x, y);
      i, a := FirstInOrder(parts[1..], f - d, x, y);
      i := i + 1;
      forall j: nat, b: nat | Reports(parts, j, b, y) ensures Earlier(i, a, j, b) {
        if j > 0 { assert Reports(parts[1..], j - 1, b, y); }
      }
    }
  }

  /** A dictionary of particles is in the order of the first particle of each id. */
  lemma {:induction false} KeysInOrder(ps: seq<Particle>, x: nat, y: nat) returns (f: nat)
    requires x < y < |ById(ps).keys|
    ensures FirstAt(ps, f, ById(ps).keys[x], ById(ps).keys[y])
    decreases |ps|
  {
    var init, p := ps[..|ps| - 1], ps[|ps| - 1];
    assert ps == init + [p];
    ByIdHasIds(init);
    var keys := ById(init).keys;
    if y < |keys| {
      f := KeysInOrder(init, x, y);
      assert keys[y] in keys && keys[y] in ById(init).at.Keys && p.id == keys[y] ==> f < |init|;
    } else {
      assert keys[x] in keys && keys[x] in ById(init).at.Keys;
      f :| 0 <= f < |init| && init[f].id == keys[x];
      assert forall g :: 0 <= g < |init| ==> init[g].id in Ids(init);
    }
  }

  lemma MergedInOrder(u: WorkerUpdates, x: nat, y: nat) returns (i: nat, a: nat)
    requires u.Valid() && x < y < |Merged(u)|
    ensures FirstReport(InOrder(u), i, a, Merged(u)[x].id, Merged(u)[y].id)
  {
    hide Flatten, ById, FirstReport, FirstAt;
    var d := ById(AllParticles(u));
    ByIdHasIds(AllParticles(u));
    assert forall k :: k in d.keys ==> k in d.at.Keys && d.at[k].id == k;
    assert d.keys[x] in d.keys && d.keys[y] in d.keys;
    var f := KeysInOrder(AllParticles(u), x, y);
    i, a := FirstInOrder(InOrder(u), f, Merged(u)[x].id, Merged(u)[y].id);
  }

  /**
   Each particle of the merge is the one reported last, by the last worker that reports its id, and
   the merge is in the order in which the ids were reported first.
   */
  lemma MergeIsInOrder(u: WorkerUpdates, parts: seq<seq<Particle>>)
    requires u.Valid() && |parts| == |u.keys|
    requires forall i :: 0 <= i < |u.keys| ==> u.keys[i] in u.at && parts[i] == u.at[u.keys[i]]
    ensures forall p :: p in Merged(u) ==> exists i: nat, a: nat :: LastReport(parts, i, a, p)
    ensures forall x, y :: 0 <= x < y < |Merged(u)| ==> ReportedFirst(parts, Merged(u)[x].id, Merged(u)[y].id)
  {
    hide Flatten, ById, IsLast, LastReport, FirstReport, Merged;
    assert parts == InOrder(u);
    MergeKeepsIds(u);
    forall p | p in Merged(u) ensures exists i: nat, a: nat :: LastReport(parts, i, a, p) {
      var i, a := LastInOrder(parts, p);
    }
    forall x, y | 0 <= x < y < |Merged(u)|
      ensures ReportedFirst(parts, Merged(u)[x].id, Merged(u)[y].id) {
      var i, a := MergedInOrder(u, x, y);
    }
  }

  datatype MergeResult = Particles(particles: seq<Particle>) | UnknownWorker

  /** The grid knows bounds for the workers 0 to n - 1 only. */
  predicate KnownWorkers(u: WorkerUpdates, n: nat) { forall k :: k in u.keys ==> 0 <= k < n }

  method MergeWithBoundsCheck(u: WorkerUpdates, n: nat) returns (r: MergeResult)
    requires u.Valid()
    ensures r == if KnownWorkers(u, n) then Particles(Merged(u)) else UnknownWorker
  {
    hide Flatten, ById;
    var merged: Dict<string, Particle> := Dict([], map[]);
    var i := 0;
    assert ById(Flatten(InOrder(u)[..0])) == merged by { NothingMerged(); }
    while i < |u.keys|
      invariant 0 <= i <= |u.keys| && forall k :: 0 <= k < i ==> 0 <= u.keys[k] < n
      invariant merged == ById(Flatten(InOrder(u)[..i]))
    {
      assert u.keys[i] in u.keys;
      if !(0 <= u.keys[i] < n) {
        return UnknownWorker;
      }
      ghost var before := Flatten(InOrder(u)[..i]);
      var ps := u.at[u.keys[i]];
      assert InOrder(u)[..i + 1] == InOrder(u)[..i] + [ps];
      FlattenSnoc(InOrder(u)[..i], ps);
      var j := 0;
      assert before + ps[..0] == before;
      while j < |ps|
        invariant 0 <= j <= |ps| && merged == ById(before + ps[..j])
      {
        ByIdNext(before + ps[..j], ps[j]);
        assert before + ps[..j + 1] == before + ps[..j] + [ps[j]];
        merged := merged.Put(ps[j].id, ps[j]);
        j := j + 1;
      }
      assert ps[..j] == ps;
      i := i + 1;
    }
    assert InOrder(u)[..i] == InOrder(u);
    ByIdHasIds(AllParticles(u));
    r := Particles(Values(merged));
  }

  lemma NothingMerged()
    ensures ById(Flatten([])) == Dict([], map[])
  {
  }

  lemma ByIdNext(ps: seq<Particle>, p: Particle)
    ensures ById(ps + [p]) == ById(ps).Put(p.id, p)
  {
    assert (ps + [p])[..|ps|] == ps;
  }

  // ---------- the loop ----------

  datatype Frame = Frame(step: nat, particles: seq<Particle>)

  /** What distributing and collecting came to in one turn of the loop. */
  datatype Outcome = Answered(updates: WorkerUpdates) | Raised

  /** The variables of the loop, the frames queued, the step of each turn, and whether the loop was left. */
  datatype Loop = Loop(step: nat, retries: nat, particles: seq<Particle>, frames: seq<Frame>, turns: seq<nat>,
                       left: bool)

  function Begin(particles: seq<Particle>): Loop { Loop(0, 0, particles, [], [], false) }

  ghost function Turn(n: nat, l: Loop, o: Outcome): Loop
    requires o.Answered? ==> o.updates.Valid()
  {
    var l := l.(turns := l.turns + [l.step]);
    match o
    case Raised => l.(left := true)
    case Answered(u) =>
      if |u.keys| < n then (if l.retries < MAX_RETRIES then l.(retries := l.retries + 1) else l.(left := true))
      else if !KnownWorkers(u, n) then l.(retries := 0, left := true)
      else l.(retries := 0, step := l.step + 1, particles := Merged(u), frames := l.frames + [Frame(l.step, Merged(u))])
  }

  ghost predicate AllValid(outcomes: seq<Outcome>) {
    forall o :: o in outcomes && o.Answered? ==> o.updates.Valid()
  }

  ghost function Simulated(n: nat, l: Loop, outcomes: seq<Outcome>): Loop
    requires AllValid(outcomes)
    decreases |outcomes|
  {
    if l.left || outcomes == [] then l
    else
      assert outcomes[0] in outcomes;
      Simulated(n, Turn(n, l, outcomes[0]), outcomes[1..])
  }

  class Orchestrator {
    const numWorkers: nat
    var running: bool
    var particles: seq<Particle>
    var queue: seq<Frame>

    constructor (numWorkers: nat, particles: seq<Particle>)
      ensures this.numWorkers == numWorkers && this.particles == particles && queue == []
    {
      this.numWorkers, this.particles, running, queue := numWorkers, particles, false, [];
    }

    /** The outcomes end when the orchestrator is shut down. */
    method RunSimulation(outcomes: seq<Outcome>) returns (ghost end: Loop)
      requires AllValid(outcomes)
      modifies this
      ensures end == Simulated(numWorkers, Begin(old(particles)), outcomes)
      ensures queue == end.frames && particles == end.particles
    {
      hide Turn, Simulated, Merged, KnownWorkers;
      running, queue := true, [];
      var currentStep, retryCount, i := 0, 0, 0;
      end := Begin(particles);
      ghost var target := Simulated(numWorkers, end, outcomes);
      assert outcomes[0..] == outcomes;
      while running && i < |outcomes|
        invariant 0 <= i <= |outcomes| && running && AllValid(outcomes[i..])
        invariant end.step == currentStep && end.retries == retryCount && end.particles == particles
        invariant end.frames == queue && !end.left
        invariant Simulated(numWorkers, end, outcomes[i..]) == target
      {
        var o := outcomes[i];
        SimulatedNext(numWorkers, end, outcomes[i..]);
        assert outcomes[i..][1..] == outcomes[i + 1..];
        TurnCases(numWorkers, end, o);
        end := Turn(numWorkers, end, o);
        i := i + 1;
        SimulatedLeft(numWorkers, end, outcomes[i..]);
        if o.Raised? {
          return;
        }
        if |o.updates.keys| < numWorkers {
          if retryCount < MAX_RETRIES {
            retryCount := retryCount + 1;
            continue;
          } else {
            return;
          }
        }
        retryCount := 0;
        var merged := MergeWithBoundsCheck(o.updates, numWorkers);
        if merged.UnknownWorker? {
          return;
        }
        queue := queue + [Frame(currentStep, merged.particles)];
        particles := merged.particles;
        currentStep := currentStep + 1;
      }
      SimulatedLeft(numWorkers, end, outcomes[i..]);
    }
  }

  lemma SimulatedNext(n: nat, l: Loop, outcomes: seq<Outcome>)
    requires AllValid(outcomes) && !l.left && outcomes != []
    ensures AllValid(outcomes[1..]) && outcomes[0] in outcomes
    ensures Simulated(n, l, outcomes) == Simulated(n, Turn(n, l, outcomes[0]), outcomes[1..])
  {
  }

  lemma SimulatedLeft(n: nat, l: Loop, outcomes: seq<Outcome>)
    requires AllValid(outcomes)
    ensures l.left || outcomes == [] ==> Simulated(n, l, outcomes) == l
  {
  }

  lemma TurnCases(n: nat, l: Loop, o: Outcome)
    requires (o.Answered? ==> o.updates.Valid()) && !l.left
    ensures var t := Turn(n, l, o);
            if o.Raised? then t.left && t.frames == l.frames && t.particles == l.particles
            else if |o.updates.keys| < n then
              && t.left == (l.retries >= MAX_RETRIES) && t.frames == l.frames && t.particles == l.particles
              && (!t.left ==> t.step == l.step && t.retries == l.retries + 1)
            else if !KnownWorkers(o.updates, n) then t.left && t.frames == l.frames && t.particles == l.particles
            else
              && !t.left && t.step == l.step + 1 && t.retries == 0 && t.particles == Merged(o.updates)
              && t.frames == l.frames + [Frame(l.step, Merged(o.updates))]
  {
    hide Merged, KnownWorkers;
  }

  // ---------- what every run keeps ----------

  function Count(turns: seq<nat>, step: nat): nat {
    if turns == [] then 0 else Count(turns[..|turns| - 1], step) + if turns[|turns| - 1] == step then 1 else 0
  }

  /** An answer of exactly the workers there are. */
  predicate Complete(u: WorkerUpdates, n: nat) { u.at.Keys == Range(n) }

  lemma PrefixIsValid(outcomes: seq<Outcome>, t: nat)
    requires AllValid(outcomes) && t <= |outcomes|
    ensures AllValid(outcomes[..t])
  {
    assert forall o :: o in outcomes[..t] ==> o in outcomes;
  }

  /** The loop before turn t. */
  ghost function LoopAt(n: nat, l: Loop, outcomes: seq<Outcome>, t: nat): Loop
    requires AllValid(outcomes) && t <= |outcomes|
  {
    PrefixIsValid(outcomes, t);
    Simulated(n, l, outcomes[..t])
  }

  /** The frame is what the workers answered in turn t, which was a turn of the step of the frame. */
  ghost predicate CollectedIn(n: nat, l: Loop, outcomes: seq<Outcome>, f: Frame, t: nat)
    requires AllValid(outcomes)
  {
    && t < |outcomes| && !LoopAt(n, l, outcomes, t).left && LoopAt(n, l, outcomes, t).step == f.step
    && outcomes[t].Answered? && outcomes[t].updates.Valid() && Complete(outcomes[t].updates, n)
    && f.particles == Merged(outcomes[t].updates)
  }

  lemma StillCollected(n: nat, l: Loop, outcomes: seq<Outcome>, o: Outcome, f: Frame, t: nat)
    requires AllValid(outcomes) && AllValid(outcomes + [o]) && CollectedIn(n, l, outcomes, f, t)
    ensures CollectedIn(n, l, outcomes + [o], f, t)
  {
    hide Simulated, Merged;
    assert (outcomes + [o])[..t] == outcomes[..t];
  }

  /** One frame for each step, collected in later and later turns. */
  ghost predicate LoopInv(n: nat, begin: Loop, outcomes: seq<Outcome>, l: Loop, answers: seq<nat>)
    requires AllValid(outcomes)
  {
    && |l.frames| == |answers| == l.step && l.retries <= MAX_RETRIES
    && (forall i :: 0 <= i < |l.frames| ==> l.frames[i].step == i)
    && (forall i :: 0 <= i < |l.frames| ==> CollectedIn(n, begin, outcomes, l.frames[i], answers[i]))
    && (forall i, j :: 0 <= i < j < |answers| ==> answers[i] < answers[j])
    && (forall i :: 0 <= i < |l.frames| ==> DistinctIds(l.frames[i].particles))
    && (l.step > 0 ==> l.particles == l.frames[l.step - 1].particles)
  }

  /** Turns spent on the current step, and bounds for the others. */
  ghost predicate TurnsInv(l: Loop) {
    && (forall s: nat :: Count(l.turns, s) <= MAX_RETRIES + 1)
    && (forall s: nat :: s > l.step ==> Count(l.turns, s) == 0)
    && (!l.left ==> Count(l.turns, l.step) == l.retries)
  }

  lemma EnoughKnownWorkersAreAll(u: WorkerUpdates, n: nat)
    requires u.Valid() && KnownWorkers(u, n) && |u.keys| >= n
    ensures Complete(u, n)
  {
    DistinctKeys(u.keys);
    var s := set k | k in u.keys;
    SubsetSize(s, Range(n));
    Pigeonhole(s, n);
  }

  lemma {:induction false} DistinctKeys(keys: seq<int>)
    requires forall i, j :: 0 <= i < j < |keys| ==> keys[i] != keys[j]
    ensures |set k | k in keys| == |keys|
    decreases |keys|
  {
    if keys != [] {
      var init, last := keys[..|keys| - 1], keys[|keys| - 1];
      DistinctKeys(init);
      assert keys == init + [last];
      assert (set k | k in keys) == (set k | k in init) + {last};
      assert last !in init;
    }
  }

  lemma {:induction false} SimulatedSnoc(n: nat, l: Loop, outcomes: seq<Outcome>, o: Outcome)
    requires AllValid(outcomes) && AllValid(outcomes + [o]) && (o.Answered? ==> o.updates.Valid())
    ensures Simulated(n, l, outcomes + [o]) ==
            var m := Simulated(n, l, outcomes); if m.left then m else Turn(n, m, o)
    decreases |outcomes|
  {
    hide Turn, Simulated;
    SimulatedLeft(n, l, outcomes);
    SimulatedLeft(n, l, outcomes + [o]);
    if !l.left {
      SimulatedNext(n, l, outcomes + [o]);
      if outcomes == [] {
        assert (outcomes + [o])[1..] == [] && (outcomes + [o])[0] == o;
        SimulatedLeft(n, Turn(n, l, o), []);
      } else {
        SimulatedNext(n, l, outcomes);
        assert (outcomes + [o])[1..] == outcomes[1..] + [o] && (outcomes + [o])[0] == outcomes[0];
        SimulatedSnoc(n, Turn(n, l, outcomes[0]), outcomes[1..], o);
      }
    }
  }

  /** A turn that makes no frame. */
  lemma NoFrame(n: nat, begin: Loop, outcomes: seq<Outcome>, l: Loop, m: Loop, answers: seq<nat>, o: Outcome)
    requires AllValid(outcomes) && AllValid(outcomes + [o]) && LoopInv(n, begin, outcomes, l, answers)
    requires m.frames == l.frames && m.step == l.step && m.particles == l.particles && m.retries <= MAX_RETRIES
    ensures LoopInv(n, begin, outcomes + [o], m, answers)
  {
    hide CollectedIn, DistinctIds;
    forall i | 0 <= i < |l.frames| ensures CollectedIn(n, begin, outcomes + [o], l.frames[i], answers[i]) {
      StillCollected(n, begin, outcomes, o, l.frames[i], answers[i]);
    }
  }

  /** A turn that makes a frame. */
  lemma NewFrame(n: nat, begin: Loop, outcomes: seq<Outcome>, l: Loop, answers: seq<nat>, o: Outcome)
    requires AllValid(outcomes) && AllValid(outcomes + [o]) && LoopInv(n, begin, outcomes, l, answers)
    requires l == Simulated(n, begin, outcomes) && !l.left
    requires o.Answered? && o.updates.Valid() && |o.updates.keys| >= n && KnownWorkers(o.updates, n)
    ensures LoopInv(n, begin, outcomes + [o], Turn(n, l, o), answers + [|outcomes|])
  {
    hide Simulated, Merged, KnownWorkers, Complete, DistinctIds, CollectedIn;
    var m, all := Turn(n, l, o), outcomes + [o];
    var f := Frame(l.step, Merged(o.updates));
    EnoughKnownWorkersAreAll(o.updates, n);
    MergeKeepsIds(o.updates);
    assert CollectedIn(n, begin, all, f, |outcomes|) by {
      assert all[..|outcomes|] == outcomes;
      NowCollected(n, begin, outcomes, o, f);
    }
    forall i | 0 <= i < |l.frames| ensures CollectedIn(n, begin, all, l.frames[i], answers[i]) {
      StillCollected(n, begin, outcomes, o, l.frames[i], answers[i]);
    }
    forall i | 0 <= i < |answers| ensures answers[i] < |outcomes| {
      IsEarlier(n, begin, outcomes, l.frames[i], answers[i]);
    }
  }

  lemma NowCollected(n: nat, l: Loop, outcomes: seq<Outcome>, o: Outcome, f: Frame)
    requires AllValid(outcomes) && AllValid(outcomes + [o]) && (outcomes + [o])[..|outcomes|] == outcomes
    requires !Simulated(n, l, outcomes).left && Simulated(n, l, outcomes).step == f.step
    requires o.Answered? && o.updates.Valid() && Complete(o.updates, n) && f.particles == Merged(o.updates)
    ensures CollectedIn(n, l, outcomes + [o], f, |outcomes|)
  {
    hide Simulated, Merged, Complete;
  }

  lemma IsEarlier(n: nat, l: Loop, outcomes: seq<Outcome>, f: Frame, t: nat)
    requires AllValid(outcomes) && CollectedIn(n, l, outcomes, f, t)
    ensures t < |outcomes|
  {
  }

  lemma CountNext(turns: seq<nat>, t: nat, s: nat)
    ensures Count(turns + [t], s) == Count(turns, s) + if t == s then 1 else 0
  {
    assert (turns + [t])[..|turns|] == turns;
  }

  lemma TurnKeepsTurnsInv(n: nat, l: Loop, o: Outcome)
    requires TurnsInv(l) && !l.left && l.retries <= MAX_RETRIES && (o.Answered? ==> o.updates.Valid())
    ensures TurnsInv(Turn(n, l, o))
  {
    hide Merged, KnownWorkers, Count;
    forall s: nat ensures Count(l.turns + [l.step], s) == Count(l.turns, s) + if l.step == s then 1 else 0 {
      CountNext(l.turns, l.step, s);
    }
  }

  lemma {:induction false} RunKeepsInv(n: nat, particles: seq<Particle>, outcomes: seq<Outcome>)
    returns (answers: seq<nat>)
    requires AllValid(outcomes)
    ensures LoopInv(n, Begin(particles), outcomes, Simulated(n, Begin(particles), outcomes), answers)
    ensures TurnsInv(Simulated(n, Begin(particles), outcomes))
    decreases |outcomes|
  {
    var begin := Begin(particles);
    if outcomes == [] {
      answers := [];
      NoTurns();
      return;
    }
    hide LoopInv, TurnsInv, Turn, Merged, KnownWorkers;
    var init, o := outcomes[..|outcomes| - 1], outcomes[|outcomes| - 1];
    assert outcomes == init + [o] && o in outcomes;
    PrefixIsValid(outcomes, |outcomes| - 1);
    answers := RunKeepsInv(n, particles, init);
    var l := Simulated(n, begin, init);
    SimulatedSnoc(n, begin, init, o);
    Retries(n, begin, init, l, answers);
    if l.left {
      NoFrame(n, begin, init, l, l, answers, o);
    } else {
      TurnKeepsTurnsInv(n, l, o);
      TurnCases(n, l, o);
      if o.Answered? && |o.updates.keys| >= n && KnownWorkers(o.updates, n) {
        NewFrame(n, begin, init, l, answers, o);
        answers := answers + [|init|];
      } else {
        NoFrame(n, begin, init, l, Turn(n, l, o), answers, o);
      }
    }
  }

  lemma Retries(n: nat, begin: Loop, outcomes: seq<Outcome>, l: Loop, answers: seq<nat>)
    requires AllValid(outcomes) && LoopInv(n, begin, outcomes, l, answers)
    ensures l.retries <= MAX_RETRIES
  {
  }

  /**
   In every run the frames queued are those of the steps 0, 1, 2 and so on. The frame of a step is
   the merged answer of exactly the workers there are, with every particle once, collected in a turn of
   that step, and the turns come in the order of the steps; no step is attempted more than eleven times.
   */
  lemma StepProtocol(n: nat, particles: seq<Particle>, outcomes: seq<Outcome>) returns (answers: seq<nat>)
    requires AllValid(outcomes)
    ensures var l := Simulated(n, Begin(particles), outcomes);
            && |l.frames| == |answers| == l.step
            && (forall i :: 0 <= i < |l.frames| ==>
                  && l.frames[i].step == i && DistinctIds(l.frames[i].particles)
                  && CollectedIn(n, Begin(particles), outcomes, l.frames[i], answers[i]))
            && (forall i, j :: 0 <= i < j < |answers| ==> answers[i] < answers[j])
            && (forall s: nat :: Count(l.turns, s) <= 11)
            && (l.step > 0 ==> l.particles == l.frames[l.step - 1].particles)
  {
    hide Simulated, CollectedIn, DistinctIds, Count;
    answers := RunKeepsInv(n, particles, outcomes);
  }

  lemma NoTurns()
    ensures forall s: nat :: Count([], s) == 0
  {
  }

  // ---------- when a run ends ----------

  /** Too few workers have answered. */
  predicate Thin(n: nat, o: Outcome) { o.Answered? && |o.updates.keys| < n }

  /** Something was raised, or a worker is unknown to the grid. */
  predicate Fatal(n: nat, o: Outcome) {
    o.Raised? || (|o.updates.keys| >= n && exists k :: k in o.updates.keys && !(0 <= k < n))
  }

  /** Turn t ends the run: it is fatal, or too few workers have answered eleven times in a row. */
  predicate EndsAt(n: nat, outcomes: seq<Outcome>, t: nat) {
    t < |outcomes| && (Fatal(n, outcomes[t]) || (t >= 10 && forall i :: t - 10 <= i <= t ==> Thin(n, outcomes[i])))
  }

  /** The number of turns in which enough workers answered, all of them known. */
  function Successes(n: nat, outcomes: seq<Outcome>): nat
    decreases |outcomes|
  {
    if outcomes == [] then 0
    else
      var o := outcomes[|outcomes| - 1];
      Successes(n, outcomes[..|outcomes| - 1]) + if Thin(n, o) || Fatal(n, o) then 0 else 1
  }

  /** While the run goes on, the retries are the turns since the last success. */
  ghost predicate GoesOn(n: nat, outcomes: seq<Outcome>, l: Loop) {
    var m := |outcomes|;
    && l.retries <= 10 && l.retries <= m && (forall i :: m - l.retries <= i < m ==> Thin(n, outcomes[i]))
    && (l.retries < m ==> !Thin(n, outcomes[m - l.retries - 1]))
    && l.step == Successes(n, outcomes)
  }

  lemma EndsNext(n: nat, outcomes: seq<Outcome>, o: Outcome, t: nat)
    ensures t < |outcomes| ==> (EndsAt(n, outcomes + [o], t) <==> EndsAt(n, outcomes, t))
  {
    hide Thin, Fatal;
    if t < |outcomes| {
      var all := outcomes + [o];
      assert all[t] == outcomes[t] && forall i :: 0 <= i <= t ==> all[i] == outcomes[i];
      if EndsAt(n, outcomes, t) && !Fatal(n, outcomes[t]) {
        assert forall i :: t - 10 <= i <= t ==> Thin(n, outcomes[i]) && all[i] == outcomes[i];
      }
      if EndsAt(n, all, t) && !Fatal(n, all[t]) {
        assert forall i :: t - 10 <= i <= t ==> Thin(n, all[i]) && all[i] == outcomes[i];
      }
    }
  }

  lemma SuccessesNext(n: nat, outcomes: seq<Outcome>, o: Outcome)
    ensures Successes(n, outcomes + [o]) == Successes(n, outcomes) + if Thin(n, o) || Fatal(n, o) then 0 else 1
  {
    assert (outcomes + [o])[..|outcomes|] == outcomes;
  }

  lemma TurnGoesOn(n: nat, outcomes: seq<Outcome>, o: Outcome, l: Loop)
    requires !l.left && GoesOn(n, outcomes, l) && (o.Answered? ==> o.updates.Valid())
    ensures Turn(n, l, o).left <==> EndsAt(n, outcomes + [o], |outcomes|)
    ensures !Turn(n, l, o).left ==> GoesOn(n, outcomes + [o], Turn(n, l, o))
  {
    hide Successes, Merged;
    SuccessesNext(n, outcomes, o);
    var all := outcomes + [o];
    assert all[|outcomes|] == o && forall i :: 0 <= i < |outcomes| ==> all[i] == outcomes[i];
  }

  /**
   A run ends exactly at the first turn that is fatal or the eleventh in a row with too few answers.
   Until then each success makes one frame.
   */
  lemma {:induction false} RunEndsExactly(n: nat, particles: seq<Particle>, outcomes: seq<Outcome>)
    requires AllValid(outcomes)
    ensures var l := Simulated(n, Begin(particles), outcomes);
            && (l.left <==> exists t: nat :: EndsAt(n, outcomes, t))
            && (!l.left ==> GoesOn(n, outcomes, l))
    decreases |outcomes|
  {
    hide Simulated, Turn, EndsAt, GoesOn;
    SimulatedLeft(n, Begin(particles), outcomes);
    if outcomes == [] {
      assert forall t: nat :: !EndsAt(n, outcomes, t) by { NothingEnds(n); }
      assert GoesOn(n, [], Begin(particles)) by { BeginGoesOn(n, particles); }
    } else {
      var init, o := outcomes[..|outcomes| - 1], outcomes[|outcomes| - 1];
      assert outcomes == init + [o] && o in outcomes;
      PrefixIsValid(outcomes, |init|);
      RunEndsExactly(n, particles, init);
      SimulatedSnoc(n, Begin(particles), init, o);
      var l := Simulated(n, Begin(particles), init);
      forall t: nat ensures t < |init| ==> (EndsAt(n, outcomes, t) <==> EndsAt(n, init, t))
                    ensures t >= |outcomes| ==> !EndsAt(n, outcomes, t)
                    ensures t >= |init| ==> !EndsAt(n, init, t) {
        EndsNext(n, init, o, t);
        OnlyTurnsEnd(n, init, t);
        OnlyTurnsEnd(n, outcomes, t);
      }
      if !l.left { TurnGoesOn(n, init, o, l); }
    }
  }

  lemma OnlyTurnsEnd(n: nat, outcomes: seq<Outcome>, t: nat)
    ensures EndsAt(n, outcomes, t) ==> t < |outcomes|
  {
  }

  lemma NothingEnds(n: nat)
    ensures forall t: nat :: !EndsAt(n, [], t)
  {
  }

  lemma BeginGoesOn(n: nat, particles: seq<Particle>)
    ensures GoesOn(n, [], Begin(particles))
  {
  }

  /** If turn t is a complete answer, it reports the particles distributed in that turn. */
  ghost predicate GivesBack(n: nat, l: Loop, outcomes: seq<Outcome>, t: nat)
    requires AllValid(outcomes) && t < |outcomes|
  {
    outcomes[t].Answered? && outcomes[t].updates.Valid() && Complete(outcomes[t].updates, n) ==>
      Ids(AllParticles(outcomes[t].updates)) == Ids(LoopAt(n, l, outcomes, t).particles)
  }

  /**
   If in every turn the workers together answer with the particles they were given in that turn, none
   is ever lost or added.
   */
  lemma {:induction false} IdsAreConserved(n: nat, l: Loop, outcomes: seq<Outcome>)
    requires AllValid(outcomes) && forall t :: 0 <= t < |outcomes| ==> GivesBack(n, l, outcomes, t)
    ensures Ids(Simulated(n, l, outcomes).particles) == Ids(l.particles)
    decreases |outcomes|
  {
    hide Ids, Merged, KnownWorkers, AllParticles, Complete, Simulated, Turn;
    SimulatedLeft(n, l, outcomes);
    if outcomes != [] {
      var init, o := outcomes[..|outcomes| - 1], outcomes[|outcomes| - 1];
      assert outcomes == init + [o] && o in outcomes;
      PrefixIsValid(outcomes, |init|);
      forall t | 0 <= t < |init| ensures GivesBack(n, l, init, t) {
        assert GivesBack(n, l, outcomes, t);
        assert init[..t] == outcomes[..t];
      }
      IdsAreConserved(n, l, init);
      var m := Simulated(n, l, init);
      SimulatedSnoc(n, l, init, o);
      if !m.left {
        TurnCases(n, m, o);
        if o.Answered? && |o.updates.keys| >= n && KnownWorkers(o.updates, n) {
          EnoughKnownWorkersAreAll(o.updates, n);
          MergeKeepsIds(o.updates);
          assert GivesBack(n, l, outcomes, |init|);
        }
      }
    }
  }

  // ---------- from messages to a step ----------

  function ReportedIds(lists: map<int, seq<Particle>>): set<string> {
    set w, p | w in lists && p in lists[w] :: p.id
  }

  lemma {:induction false} InFlatten(parts: seq<seq<Particle>>, p: Particle)
    ensures p in Flatten(parts) <==> exists i :: 0 <= i < |parts| && p in parts[i]
    decreases |parts|
  {
    if parts != [] {
      InFlatten(parts[1..], p);
      assert forall i :: 0 < i < |parts| ==> parts[i] == parts[1..][i - 1];
      assert forall i :: 0 <= i < |parts| - 1 ==> parts[1..][i] == parts[i + 1];
    }
  }

  lemma IdsOfAll(u: WorkerUpdates)
    requires u.Valid()
    ensures Ids(AllParticles(u)) == ReportedIds(u.at)
  {
    hide Flatten;
    var parts := InOrder(u);
    forall p: Particle ensures p in Flatten(parts) <==> exists w :: w in u.at && p in u.at[w] {
      InFlatten(parts, p);
      if w :| w in u.at && p in u.at[w] {
        assert w in u.at.Keys && w in u.keys;
        var i :| 0 <= i < |u.keys| && u.keys[i] == w;
        assert p in parts[i];
      }
      if i :| 0 <= i < |parts| && p in parts[i] {
        var w := u.keys[i];
        assert w in u.at.Keys && p in u.at[w];
      }
    }
    assert Ids(Flatten(parts)) == ReportedIds(u.at);
  }

  /**
   When each of n workers sends its list in chunks over the bus, the collection counts n workers
   exactly if no list is empty and all chunks have arrived; then the step is complete, every list has
   arrived as it was sent, and the particles of the next step are those reported, each once.
   */
  lemma CollectedStep(n: nat, target: int, ms: seq<BusMessage>, lists: map<int, seq<Particle>>, size: nat)
    requires size > 0 && lists.Keys == Range(n)
    requires Consistent(target, ms, InChunks(lists, size))
    ensures AllReceived(target, ms).Some?
    ensures var u := AllReceived(target, ms).value.updates;
            && (|u.keys| >= n <==> forall w :: w in lists ==> Arrived(target, ms, w, lists[w], size))
            && (|u.keys| >= n ==>
                  && u.Valid() && u.at == lists && KnownWorkers(u, n)
                  && DistinctIds(Merged(u)) && Ids(Merged(u)) == ReportedIds(lists))
  {
    hide AllReceived, Seen, Consistent, Merged, DistinctIds, Chunks, Ids, ReportedIds, AllParticles, Range, Flatten,
      Arrived;
    ChunkedRoundTrip(target, ms, lists, size);
    var u := AllReceived(target, ms).value.updates;
    forall k | k in u.keys ensures 0 <= k < n { assert k in u.at.Keys && k in Range(n); }
    if |u.keys| >= n {
      EnoughKnownWorkersAreAll(u, n);
      forall w | w in lists ensures Arrived(target, ms, w, lists[w], size) { assert w in u.at.Keys; }
      assert u.at == lists;
      MergeKeepsIds(u);
      IdsOfAll(u);
    }
    if forall w :: w in lists ==> Arrived(target, ms, w, lists[w], size) {
      DistinctKeys(u.keys);
      assert u.at.Keys == lists.Keys;
    }
  }
}
