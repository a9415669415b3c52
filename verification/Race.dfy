/**
 Sending and closing with the locks the code takes. A send looks at the state under one lock and
 pushes its message under another; the closing handshake leaves the open state first and pushes its
 close frame later, and may send another close frame after that. Between these steps anything can happen.
 */
module Race {
  datatype Item = FromThread(thread: nat) | CloseItem

  /** Whether the connection is open, whether a close frame is to be pushed, and who may push a message. */
  datatype State = State(open: bool, closeWaits: bool, cleared: set<nat>, queue: seq<Item>)

  datatype Event = Check(thread: nat) | Push(thread: nat) | BeginClose | PushClose

  const INIT: State := State(true, false, {}, [])

  predicate Enabled(s: State, e: Event) {
    match e
    case Check(t) => t !in s.cleared
    case Push(t) => t in s.cleared
    case BeginClose => !s.closeWaits
    case PushClose => s.closeWaits
  }

  function Apply(s: State, e: Event): State
    requires Enabled(s, e)
  {
    match e
    case Check(t) => if s.open then s.(cleared := s.cleared + {t}) else s
    case Push(t) => s.(cleared := s.cleared - {t}, queue := s.queue + [FromThread(t)])
    case BeginClose => s.(open := false, closeWaits := true)
    case PushClose => s.(closeWaits := false, queue := s.queue + [CloseItem])
  }

  ghost predicate Run(es: seq<Event>)
    decreases |es|, 0
  {
    es == [] || (Run(es[..|es| - 1]) && Enabled(After(es[..|es| - 1]), es[|es| - 1]))
  }

  ghost function After(es: seq<Event>): State
    requires Run(es)
    decreases |es|, 1
  {
    if es == [] then INIT else Apply(After(es[..|es| - 1]), es[|es| - 1])
  }

  lemma {:induction false} PrefixRuns(es: seq<Event>, i: nat)
    requires Run(es) && i <= |es|
    ensures Run(es[..i])
    decreases |es|
  {
    if i < |es| {
      PrefixRuns(es[..|es| - 1], i);
      assert es[..|es| - 1][..i] == es[..i];
    } else {
      assert es[..i] == es;
    }
  }

  /** The connection before event i. */
  ghost function At(es: seq<Event>, i: nat): State
    requires Run(es) && i <= |es|
  {
    PrefixRuns(es, i);
    After(es[..i])
  }

  lemma NextAt(es: seq<Event>, i: nat)
    requires Run(es) && i < |es|
    ensures Enabled(At(es, i), es[i]) && At(es, i + 1) == Apply(At(es, i), es[i])
  {
    hide Enabled, Apply;
    PrefixRuns(es, i + 1);
    assert es[..i + 1][..i] == es[..i] && es[..i + 1][i] == es[i];
  }

  lemma FirstAt(es: seq<Event>)
    requires Run(es)
    ensures At(es, 0) == INIT
  {
    assert es[..0] == [];
  }

  /** A message of the application comes after a close frame. */
  predicate Broken(q: seq<Item>) {
    exists i, j :: 0 <= i < j < |q| && q[i].CloseItem? && q[j].FromThread?
  }

  lemma BrokenNext(q: seq<Item>, x: Item)
    ensures Broken(q + [x]) <==> Broken(q) || (x.FromThread? && CloseItem in q)
  {
    if Broken(q) {
      var i, j :| 0 <= i < j < |q| && q[i].CloseItem? && q[j].FromThread?;
      assert (q + [x])[i] == q[i] && (q + [x])[j] == q[j];
    }
    if x.FromThread? && CloseItem in q {
      var i :| 0 <= i < |q| && q[i] == CloseItem;
      assert (q + [x])[i] == q[i] && (q + [x])[|q|] == x;
    }
  }

  lemma {:induction false} ClosePushed(es: seq<Event>, n: nat)
    requires Run(es) && n <= |es|
    ensures CloseItem in At(es, n).queue <==> exists b :: 0 <= b < n && es[b] == PushClose
    decreases n
  {
    hide Run, At, Enabled;
    FirstAt(es);
    if n > 0 {
      ClosePushed(es, n - 1);
      NextAt(es, n - 1);
    }
  }

  /** The order is broken exactly if a thread pushes after a close frame has been pushed. */
  lemma {:induction false} BrokenAt(es: seq<Event>, n: nat)
    requires Run(es) && n <= |es|
    ensures Broken(At(es, n).queue) <==> exists b, c :: 0 <= b < c < n && es[b] == PushClose && es[c].Push?
    decreases n
  {
    hide Run, At, Enabled, Broken;
    FirstAt(es);
    if n == 0 {
      assert !Broken([]) by { NothingBroken(); }
    } else {
      BrokenAt(es, n - 1);
      NextAt(es, n - 1);
      ClosePushed(es, n - 1);
      var q := At(es, n - 1).queue;
      match es[n - 1] {
        case Push(t) => BrokenNext(q, FromThread(t));
        case PushClose => BrokenNext(q, CloseItem);
        case _ =>
      }
    }
  }

  lemma NothingBroken()
    ensures !Broken([])
  {
  }

  /** Who may push has been cleared while the connection was open, and has not pushed since. */
  lemma {:induction false} ClearedBy(es: seq<Event>, n: nat, t: nat) returns (a: nat)
    requires Run(es) && n <= |es| && t in At(es, n).cleared
    ensures a < n && es[a] == Check(t) && At(es, a).open && forall k :: a < k < n ==> es[k] != Push(t)
    decreases n
  {
    hide Run, At, Enabled;
    FirstAt(es);
    NextAt(es, n - 1);
    if es[n - 1] == Check(t) && t !in At(es, n - 1).cleared {
      a := n - 1;
    } else {
      a := ClearedBy(es, n - 1, t);
    }
  }

  /** A close frame is pushed, or waits for that, only when the connection is open no more. */
  lemma {:induction false} ClosedAt(es: seq<Event>, n: nat)
    requires Run(es) && n <= |es|
    ensures At(es, n).closeWaits || (exists b :: 0 <= b < n && es[b] == PushClose) ==> !At(es, n).open
    decreases n
  {
    hide Run, At;
    FirstAt(es);
    if n > 0 {
      ClosedAt(es, n - 1);
      NextAt(es, n - 1);
    }
  }

  /** A thread was cleared while the connection was open, then a close frame was pushed, then the thread pushed. */
  ghost predicate Overtaken(es: seq<Event>, a: nat, b: nat, c: nat)
    requires Run(es)
  {
    && a < b < c < |es| && es[a].Check? && At(es, a).open && es[b] == PushClose && es[c] == Push(es[a].thread)
    && forall k :: a < k < c ==> es[k] != es[c]
  }

  /** Exactly the interleavings that put a message of the application after a close frame. */
  lemma RaceIsExact(es: seq<Event>)
    requires Run(es)
    ensures Broken(After(es).queue) <==> exists a: nat, b: nat, c: nat :: Overtaken(es, a, b, c)
  {
    hide Run, Enabled, Broken, Apply;
    assert es[..|es|] == es;
    BrokenAt(es, |es|);
    assert After(es) == At(es, |es|);
    hide After, At;
    if exists b, c :: 0 <= b < c < |es| && es[b] == PushClose && es[c].Push? {
      var b, c :| 0 <= b < c < |es| && es[b] == PushClose && es[c].Push?;
      NextAt(es, c);
      assert es[c].thread in At(es, c).cleared by { MayPush(At(es, c), es[c].thread); }
      var a := ClearedBy(es, c, es[c].thread);
      ClosedAt(es, a);
      assert Overtaken(es, a, b, c);
    }
    if a: nat, b: nat, c: nat :| Overtaken(es, a, b, c) {
      assert 0 <= b < c < |es| && es[b] == PushClose && es[c].Push?;
    }
  }

  lemma MayPush(s: State, t: nat)
    requires Enabled(s, Push(t))
    ensures t in s.cleared
  {
  }

  lemma NotOvertaken(es: seq<Event>, a: nat, b: nat, c: nat)
    requires Run(es) && a < |es|
    requires es[a].Check? && At(es, a).open ==> a + 1 < |es| && es[a + 1] == Push(es[a].thread)
    ensures !Overtaken(es, a, b, c)
  {
    hide Run, At;
  }

  /** If every thread that is cleared pushes at once, as when a send is one step, the order is kept. */
  lemma AtomicSendsKeepTheOrder(es: seq<Event>)
    requires Run(es)
    requires forall a :: 0 <= a < |es| && es[a].Check? && At(es, a).open ==>
               a + 1 < |es| && es[a + 1] == Push(es[a].thread)
    ensures !Broken(After(es).queue)
  {
    hide Run, Enabled, Broken, Apply, After, At;
    RaceIsExact(es);
    forall a: nat, b: nat, c: nat ensures !Overtaken(es, a, b, c) {
      if a < |es| { NotOvertaken(es, a, b, c); }
    }
  }

  lemma RunSnoc(es: seq<Event>, e: Event)
    requires Run(es) && Enabled(After(es), e)
    ensures Run(es + [e]) && After(es + [e]) == Apply(After(es), e)
  {
    hide Apply, Enabled;
    assert (es + [e])[..|es|] == es;
  }

  /** The race happens: a thread is cleared, the connection closes, and the message follows the close frame. */
  lemma RaceHappens()
    ensures var es := [Check(0), BeginClose, PushClose, Push(0)];
            Run(es) && After(es).queue == [CloseItem, FromThread(0)]
  {
    assert Run([]) && After([]) == INIT;
    hide Run, After;
    RunSnoc([], Check(0));
    var a := [] + [Check(0)];
    assert After(a) == State(true, false, {0}, []);
    RunSnoc(a, BeginClose);
    var b := a + [BeginClose];
    assert After(b) == State(false, true, {0}, []);
    RunSnoc(b, PushClose);
    var c := b + [PushClose];
    assert After(c) == State(false, false, {0}, [CloseItem]);
    RunSnoc(c, Push(0));
    assert c + [Push(0)] == [Check(0), BeginClose, PushClose, Push(0)];
  }
}
