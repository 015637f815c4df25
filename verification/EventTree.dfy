/** The event tree of `AEventAbstract` and its re-entrant shutdown.

    Events are objects that link to their children and are called back by them.  A `World` is what
    all events ever created hold at one moment, with the log of finish callbacks invoked so far, in
    order.  The methods are specified by the worlds before and after. */
module EventTree {

  datatype Signal = Normal | Abort | CloseConnection

  datatype Kind = Acceptor | SysSig | SmtpSession | DnsClient | HdfsRead

  /** The exit signal an event of a kind has once its `_ev_stop` hook has run. */
  function StopSignal(k: Kind): Signal {
    match k
    case SysSig => Abort
    case SmtpSession => CloseConnection
    case _ => Normal
  }

  /** Whether the child callback hook of a kind stops the event itself. */
  predicate StopsOn(k: Kind, s: Signal) {
    k == Acceptor && s == Abort
  }

  datatype EvState = EvState(stopInited: bool, children: set<AEvent>, myPtr: AEvent?, exitSignal: Signal)

  ghost predicate Tree(events: set<AEvent>) {
    forall e :: e in events && e.parent != null ==> e.parent in events && e.parent.depth < e.depth
  }

  /** `a` is `x` or one of its ancestors. */
  ghost predicate Under(a: AEvent, x: AEvent)
    decreases x.depth
  {
    x == a || (x.parent != null && x.parent.depth < x.depth && Under(a, x.parent))
  }

  /** The event that stopping `e` goes up to, when `live` are the events not yet stopping: the
      parent if it reacts to the exit signal, and so on. */
  ghost function Top(live: set<AEvent>, e: AEvent): AEvent
    decreases e.depth
  {
    var p := e.parent;
    if p != null && p.depth < e.depth && p in live && StopsOn(p.kind, StopSignal(e.kind)) then Top(live, p) else e
  }

  ghost function Live(w: World): set<AEvent> {
    set x | x in w.ev && !w.ev[x].stopInited
  }

  datatype World = World(ev: map<AEvent, EvState>, log: seq<AEvent>)

  /** One event: its children are exactly the created ones that have not finished (but for
      `pending`, which has finished and not yet been erased); a finished event is emptied. */
  ghost predicate EventOk(e: AEvent, w: World, pending: AEvent?)
    requires e in w.ev
  {
    && (forall c :: c in w.ev[e].children ==> c in w.ev && c.parent == e && (c !in w.log || c == pending))
    && (forall c :: c in w.ev && c.parent == e && (c !in w.log || c == pending) ==> c in w.ev[e].children)
    && (e in w.log ==> w.ev[e].stopInited && w.ev[e].myPtr == null && w.ev[e].children == {})
    && (e !in w.log ==> w.ev[e].myPtr == e)
    && (w.ev[e].exitSignal == Normal || w.ev[e].exitSignal == StopSignal(e.kind))
  }

  /** Each finish callback at most once, children before parents. */
  ghost predicate LogOk(w: World) {
    && (forall i :: 0 <= i < |w.log| ==> w.log[i] in w.ev)
    && (forall i, j :: 0 <= i < j < |w.log| ==> w.log[i] != w.log[j])
    && (forall i, j :: 0 <= i < |w.log| && 0 <= j < |w.log| && w.log[i].parent == w.log[j] ==> i < j)
  }

  ghost predicate InvBut(w: World, pending: AEvent?) {
    Tree(w.ev.Keys) && LogOk(w) && forall e :: e in w.ev ==> EventOk(e, w, pending)
  }

  /** The invariant between steps. */
  ghost predicate Inv(w: World) {
    InvBut(w, null)
  }

  /** Every event that has begun to stop and not finished is `e` or above it. */
  ghost predicate OthersAbove(w: World, e: AEvent) {
    forall x :: x in w.ev && w.ev[x].stopInited && x !in w.log ==> Under(x, e)
  }

  /** No stop is under way. */
  ghost predicate Quiet(w: World) {
    forall x :: x in w.ev && w.ev[x].stopInited ==> x in w.log
  }

  /** When `e` may be told to stop: it has been before, or only strict ancestors are under way. */
  ghost predicate MayStop(w: World, e: AEvent) {
    e in w.ev && Inv(w) && (w.ev[e].stopInited || OthersAbove(w, e))
  }

  /** What a stop that goes up to `top` makes of a world: all that is below `top` has finished,
      everything else is as it was except that `top` has left its parent's children. */
  ghost predicate Stopped(w: World, w': World, top: AEvent) {
    && w'.ev.Keys == w.ev.Keys && w.log <= w'.log
    && (forall x :: x in w.ev ==> (x in w'.log <==> x in w.log || Under(top, x)))
    && (forall x :: x in w.ev && !Under(top, x) ==> w'.ev[x] == w.ev[x].(children := w.ev[x].children - {top}))
    && (forall x :: x in w.ev && x in w.log ==> w'.ev[x] == w.ev[x])
  }

  /** In the middle of stopping `e`: nothing but descendants of `e` has finished since, and what
      has not finished is as it was. */
  ghost predicate StoppedSoFar(w: World, w': World, e: AEvent) {
    && w'.ev.Keys == w.ev.Keys && w.log <= w'.log && e !in w'.log
    && (forall x :: x in w.ev && x in w'.log ==> x in w.log || Under(e, x))
    && (forall x :: x in w.ev && x != e && x !in w'.log ==> w'.ev[x] == w.ev[x])
    && (forall x :: x in w.ev && x in w.log ==> w'.ev[x] == w.ev[x])
  }

  // ---------------------------------------------------------------- ancestry

  lemma {:induction false} UnderIsDeeper(a: AEvent, x: AEvent)
    requires Under(a, x)
    ensures x == a || a.depth < x.depth
    decreases x.depth
  {
    if x != a {
      UnderIsDeeper(a, x.parent);
    }
  }

  lemma {:induction false} UnderTransitive(a: AEvent, b: AEvent, x: AEvent)
    requires Under(a, b) && Under(b, x)
    ensures Under(a, x)
    decreases x.depth
  {
    if x != b {
      UnderTransitive(a, b, x.parent);
    }
  }

  lemma {:induction false} TopIsAbove(live: set<AEvent>, events: set<AEvent>, e: AEvent)
    requires Tree(events) && e in events
    ensures Under(Top(live, e), e) && Top(live, e) in events
    decreases e.depth
  {
    if Top(live, e) != e {
      TopIsAbove(live, events, e.parent);
    }
  }

  /** Only the strict ancestors matter for how far a stop goes up. */
  lemma {:induction false} TopSame(events: set<AEvent>, live: set<AEvent>, live': set<AEvent>, e: AEvent)
    requires Tree(events) && e in events
    requires forall x :: x in events && Under(x, e) && x != e ==> (x in live <==> x in live')
    ensures Top(live, e) == Top(live', e)
    decreases e.depth
  {
    var p := e.parent;
    if p != null {
      assert Under(p, e);
      forall x | x in events && Under(x, p) && x != p ensures x in live <==> x in live' {
        UnderIsDeeper(x, p);
        assert Under(x, e);
      }
      TopSame(events, live, live', p);
    }
  }

  /** With the program's hooks a stop goes up at most one step: from the signal listener to an acceptor
      that is not yet stopping. */
  lemma ExtentOfStop(live: set<AEvent>, e: AEvent)
    ensures var p := e.parent;
            Top(live, e) == if p != null && p.depth < e.depth && p in live && p.kind == Acceptor && e.kind == SysSig
                            then p else e
  {
  }

  /** An event without children has only finished descendants. */
  lemma {:induction false} DescendantsFinished(w: World, e: AEvent, x: AEvent)
    requires Inv(w) && e in w.ev && x in w.ev
    requires w.ev[e].children == {} && Under(e, x) && x != e
    ensures x in w.log
    decreases x.depth
  {
    var p := x.parent;
    assert EventOk(p, w, null);
    if p == e {
      assert x !in w.ev[e].children;
    } else {
      DescendantsFinished(w, e, p);
      assert x !in w.ev[p].children;
    }
  }

  // ---------------------------------------------------------------- steps of a stop

  ghost function Marked(w: World, e: AEvent): World
    requires e in w.ev
  {
    w.(ev := w.ev[e := w.ev[e].(stopInited := true)])
  }

  lemma MarkedKeeps(w: World, e: AEvent)
    requires MayStop(w, e) && !w.ev[e].stopInited
    ensures Inv(Marked(w, e)) && OthersAbove(Marked(w, e), e) && StoppedSoFar(w, Marked(w, e), e)
    ensures e !in w.log && Live(Marked(w, e)) < Live(w)
  {
    var w' := Marked(w, e);
    assert EventOk(e, w, null);
    assert e in Live(w) && e !in Live(w');
    forall x | x in w'.ev ensures EventOk(x, w', null) {
      assert EventOk(x, w, null);
    }
  }

  /** A child of an event under way has not begun to stop, and its own stop goes no further up. */
  lemma ChildIsFresh(w: World, e: AEvent, child: AEvent)
    requires e in w.ev && Inv(w) && child in w.ev[e].children
    requires w.ev[e].stopInited && e !in w.log && OthersAbove(w, e)
    ensures child in w.ev && child.parent == e && !w.ev[child].stopInited && MayStop(w, child)
    ensures Top(Live(w), child) == child
  {
    assert EventOk(e, w, null);
    forall x | x in w.ev && w.ev[x].stopInited && x !in w.log ensures Under(x, child) && x != child {
      UnderIsDeeper(x, e);
    }
  }

  lemma NotListed(w: World, x: AEvent, c: AEvent)
    requires Inv(w) && x in w.ev && c.parent != x
    ensures w.ev[x].children - {c} == w.ev[x].children
  {
    assert EventOk(x, w, null);
  }

  lemma FinishedHasStopped(w: World, x: AEvent)
    requires Inv(w) && x in w.ev && x in w.log
    ensures w.ev[x].stopInited
  {
    assert EventOk(x, w, null);
  }

  lemma NotFinished(w0: World, w: World, e: AEvent)
    requires StoppedSoFar(w0, w, e)
    ensures e !in w.log
  {
  }

  /** One child more. */
  lemma ChildStopped(w0: World, w: World, w': World, e: AEvent, child: AEvent)
    requires e in w.ev && Inv(w) && child in w.ev && child.parent == e && child in w.ev[e].children
    requires StoppedSoFar(w0, w, e) && Stopped(w, w', child)
    ensures StoppedSoFar(w0, w', e)
    ensures w'.ev[e] == w.ev[e].(children := w.ev[e].children - {child})
  {
    hide EventOk, LogOk, Under;
    BelowChild(w, e, child);
    forall x | x in w.ev && x != e && x !in w'.log ensures w'.ev[x] == w.ev[x] {
      NotListed(w, x, child);
    }
  }

  lemma BelowChild(w: World, e: AEvent, child: AEvent)
    requires Inv(w) && child in w.ev && child.parent == e
    ensures !Under(child, e)
    ensures forall x :: x in w.ev && Under(child, x) ==> Under(e, x)
  {
    if Under(child, e) {
      UnderIsDeeper(child, e);
    }
    forall x | x in w.ev && Under(child, x) ensures Under(e, x) {
      UnderTransitive(e, child, x);
    }
  }

  lemma StillUnderWay(w: World, w': World, e: AEvent, child: AEvent)
    requires Inv(w) && Inv(w') && Stopped(w, w', child) && OthersAbove(w, e)
    ensures OthersAbove(w', e) && Live(w') <= Live(w)
  {
    hide EventOk, LogOk, Under;
    forall x | x in w.ev && x in w'.log ensures w'.ev[x].stopInited {
      FinishedHasStopped(w', x);
    }
  }

  ghost function WithExit(w: World, e: AEvent): World
    requires e in w.ev
  {
    w.(ev := w.ev[e := w.ev[e].(exitSignal := StopSignal(e.kind))])
  }

  lemma WithExitKeeps(w0: World, w: World, e: AEvent)
    requires e in w.ev && Inv(w) && OthersAbove(w, e) && StoppedSoFar(w0, w, e)
    ensures Inv(WithExit(w, e)) && OthersAbove(WithExit(w, e), e) && StoppedSoFar(w0, WithExit(w, e), e)
    ensures Live(WithExit(w, e)) == Live(w)
  {
    hide InvBut, Under;
    WithExitInv(w, e);
    WithExitLive(w, e);
  }

  lemma WithExitLive(w: World, e: AEvent)
    requires e in w.ev
    ensures Live(WithExit(w, e)) == Live(w)
  {
  }

  lemma WithExitInv(w: World, e: AEvent)
    requires e in w.ev && Inv(w)
    ensures Inv(WithExit(w, e))
  {
    var w' := WithExit(w, e);
    forall x | x in w'.ev ensures EventOk(x, w', null) {
      assert EventOk(x, w, null);
    }
  }

  ghost function Recorded(w: World, e: AEvent): World
    requires e in w.ev
  {
    World(w.ev[e := w.ev[e].(myPtr := null)], w.log + [e])
  }

  /** Invoking the finish callback of an event that has no children left. */
  lemma RecordedKeeps(w: World, e: AEvent)
    requires e in w.ev && Inv(w) && w.ev[e].stopInited && e !in w.log && w.ev[e].children == {}
    ensures InvBut(Recorded(w, e), e)
    ensures e.parent == null ==> Inv(Recorded(w, e))
    ensures Live(Recorded(w, e)) == Live(w)
  {
    var w' := Recorded(w, e);
    assert EventOk(e, w, null);
    RecordedLog(w, e);
    forall x | x in w'.ev ensures EventOk(x, w', e) {
      assert EventOk(x, w, null);
    }
    if e.parent == null {
      forall x | x in w'.ev ensures EventOk(x, w', null) {
        assert EventOk(x, w', e);
      }
    }
  }

  lemma RecordedLog(w: World, e: AEvent)
    requires e in w.ev && Inv(w) && e !in w.log && w.ev[e].children == {}
    ensures LogOk(Recorded(w, e))
    ensures e.parent != null ==> e.parent !in w.log && e in w.ev[e.parent].children
  {
    if e.parent != null {
      assert EventOk(e.parent, w, null);
    }
  }

  ghost function Erased(w: World, p: AEvent, child: AEvent): World
    requires p in w.ev
  {
    w.(ev := w.ev[p := w.ev[p].(children := w.ev[p].children - {child})])
  }

  lemma ErasedKeeps(w: World, p: AEvent, child: AEvent)
    requires p in w.ev && InvBut(w, child) && child in w.ev && child.parent == p && child in w.log
    ensures Inv(Erased(w, p, child)) && Live(Erased(w, p, child)) == Live(w)
  {
    var w' := Erased(w, p, child);
    forall x | x in w'.ev ensures EventOk(x, w', null) {
      assert EventOk(x, w, child);
    }
  }

  /** An event about to finish: its descendants have, and the parent may be told to stop next. */
  ghost predicate AboutToFinish(w: World, e: AEvent) {
    && e in w.ev && Inv(w) && OthersAbove(w, e)
    && w.ev[e].stopInited && e !in w.log && w.ev[e].children == {} && w.ev[e].exitSignal == StopSignal(e.kind)
  }

  ghost function Called(w: World, e: AEvent): World
    requires e in w.ev && (e.parent != null ==> e.parent in w.ev)
  {
    if e.parent == null then Recorded(w, e) else Erased(Recorded(w, e), e.parent, e)
  }

  lemma FinishedAlone(w: World, e: AEvent)
    requires AboutToFinish(w, e)
    ensures e.parent != null ==> e.parent in w.ev && e.parent.depth < e.depth && e.parent !in w.log
    ensures Inv(Called(w, e)) && Stopped(w, Called(w, e), e) && Live(Called(w, e)) == Live(w)
    ensures e.parent != null ==> MayStop(Called(w, e), e.parent)
    ensures w.ev[e].myPtr == e
  {
    hide Stopped, StoppedSoFar;
    var w' := Called(w, e);
    RecordedKeeps(w, e);
    RecordedLog(w, e);
    if e.parent != null {
      ErasedKeeps(Recorded(w, e), e.parent, e);
      forall x | x in w'.ev && w'.ev[x].stopInited && x !in w'.log ensures Under(x, e.parent) {
        assert Under(x, e) && x != e;
      }
    }
    AloneIsStopped(w, e);
  }

  lemma AloneIsStopped(w: World, e: AEvent)
    requires AboutToFinish(w, e)
    ensures Stopped(w, Called(w, e), e)
  {
    var w' := Called(w, e);
    RecordedLog(w, e);
    forall x | x in w.ev && Under(e, x) && x != e ensures x in w.log {
      DescendantsFinished(w, e, x);
    }
    forall x | x in w.ev && !Under(e, x) ensures w'.ev[x] == w.ev[x].(children := w.ev[x].children - {e}) {
      assert EventOk(x, w, null);
      if x != e.parent {
        assert w.ev[x].children - {e} == w.ev[x].children;
      }
    }
  }

  lemma UnderParent(a: AEvent, x: AEvent)
    requires x.parent != null && x.parent.depth < x.depth && Under(a, x.parent)
    ensures Under(a, x)
  {
  }

  /** The callback went on to stop the parent. */
  lemma StoppedThrough(w: World, w1: World, w2: World, e: AEvent, top: AEvent)
    requires Inv(w) && e in w.ev && e.parent != null && Under(top, e.parent) && e.parent.depth < e.depth
    requires Stopped(w, w1, e) && Stopped(w1, w2, top)
    ensures Stopped(w, w2, top)
  {
    hide Inv, InvBut, Under;
    UnderParent(top, e);
    forall x | x in w.ev && Under(e, x) ensures Under(top, x) {
      UnderTransitive(top, e, x);
    }
    forall x | x in w.ev && !Under(top, x) ensures w2.ev[x] == w.ev[x].(children := w.ev[x].children - {top}) {
      NotListed(w, x, e);
    }
  }

  lemma ExitIsOk(w: World, e: AEvent)
    requires Inv(w) && e in w.ev
    ensures w.ev[e].exitSignal == Normal || w.ev[e].exitSignal == StopSignal(e.kind)
  {
    assert EventOk(e, w, null);
  }

  /** How a finishing event decides whether its parent stops. */
  lemma GoesUp(w: World, e: AEvent)
    requires e.parent != null && e.parent.depth < e.depth && e in w.ev && Inv(w)
    ensures var p := e.parent;
            && p in w.ev && (p in Live(w) <==> !w.ev[p].stopInited)
            && Under(Top(Live(w), p), p)
            && Top(Live(w), e) == if p in Live(w) && StopsOn(p.kind, StopSignal(e.kind)) then Top(Live(w), p) else e
  {
    TopIsAbove(Live(w), w.ev.Keys, e.parent);
  }

  /** The whole stop: first the descendants, then the event itself and what its callback stops. */
  lemma StoppedInAll(w: World, w1: World, w2: World, e: AEvent, top: AEvent)
    requires e in w.ev && StoppedSoFar(w, w1, e) && Stopped(w1, w2, top)
    requires forall x :: x in w.ev && Under(e, x) ==> Under(top, x)
    ensures Stopped(w, w2, top)
  {
    assert Under(e, e);
    hide Under;
  }

  /** Between the two halves of `stop`: the event still goes up as far as it would have at the
      start, and fewer events are live. */
  lemma StillGoesUp(w: World, w1: World, e: AEvent)
    requires e in w.ev && Inv(w) && Inv(w1) && StoppedSoFar(w, w1, e) && !w.ev[e].stopInited && w1.ev[e].stopInited
    ensures Top(Live(w1), e) == Top(Live(w), e)
    ensures Live(w1) < Live(w)
    ensures forall x :: x in w.ev && Under(e, x) ==> Under(Top(Live(w), e), x)
  {
    var live, live1 := Live(w), Live(w1);
    forall x | x in live1 ensures x in live {
      if x in w1.log {
        FinishedHasStopped(w1, x);
      }
    }
    assert e in live && e !in live1;
    forall x | x in w.ev && Under(x, e) && x != e ensures x in live <==> x in live1 {
      UnderIsDeeper(x, e);
      if Under(e, x) {
        UnderIsDeeper(e, x);
      }
      if x in w1.log {
        FinishedHasStopped(w, x);
        FinishedHasStopped(w1, x);
      }
    }
    TopSame(w.ev.Keys, live, live1, e);
    TopIsAbove(live, w.ev.Keys, e);
    forall x | x in w.ev && Under(e, x) ensures Under(Top(live, e), x) {
      UnderTransitive(Top(live, e), e, x);
    }
  }

  // ---------------------------------------------------------------- what a stop amounts to

  /** With no stop under way any event may be told to stop ... */
  lemma QuietMayStop(w: World, e: AEvent)
    requires Inv(w) && Quiet(w) && e in w.ev
    ensures MayStop(w, e)
  {
    hide InvBut, Under;
  }

  /** ... and afterwards none is under way. */
  lemma QuietAfter(w: World, w': World, top: AEvent)
    requires Quiet(w) && Stopped(w, w', top)
    ensures Quiet(w')
  {
    hide Under;
  }

  /** After a stop, the event and all its descendants have finished, each with its callback invoked
      exactly once and after those of its own children, with no children and no pointer left. */
  lemma StopOutcome(w: World, w': World, e: AEvent, x: AEvent)
    requires Inv(w) && Inv(w') && e in w.ev && Stopped(w, w', Top(Live(w), e))
    requires x in w.ev && Under(e, x)
    ensures x in w'.ev && w'.ev[x].stopInited && w'.ev[x].children == {} && w'.ev[x].myPtr == null
    ensures exists i :: 0 <= i < |w'.log| && w'.log[i] == x &&
              forall j :: 0 <= j < |w'.log| && j != i ==> w'.log[j] != x && (w'.log[j].parent == x ==> j < i)
  {
    hide EventOk, Tree;
    TopIsAbove(Live(w), w.ev.Keys, e);
    UnderTransitive(Top(Live(w), e), e, x);
    assert x in w'.log;
    var i :| 0 <= i < |w'.log| && w'.log[i] == x;
    EmptiedWhenFinished(w', x);
  }

  lemma EmptiedWhenFinished(w: World, x: AEvent)
    requires Inv(w) && x in w.ev && x in w.log
    ensures w.ev[x].stopInited && w.ev[x].children == {} && w.ev[x].myPtr == null
  {
    assert EventOk(x, w, null);
  }

  /** Stopping the signal listener of an acceptor that is not yet stopping finishes everything
      below the acceptor, and nothing outside it. */
  lemma SignalStopsAcceptor(w: World, w': World, listener: AEvent, acceptor: AEvent, x: AEvent)
    requires Inv(w) && listener in w.ev && x in w.ev
    requires listener.kind == SysSig && listener.parent == acceptor && acceptor.kind == Acceptor
    requires !w.ev[acceptor].stopInited && Stopped(w, w', Top(Live(w), listener))
    ensures x in w'.log <==> x in w.log || Under(acceptor, x)
  {
    ExtentOfStop(Live(w), listener);
  }

  /** Any other stop reaches its own subtree only; of the rest, one entry in one set changes. */
  lemma StopIsLocal(w: World, w': World, e: AEvent, x: AEvent)
    requires Inv(w) && e in w.ev && x in w.ev && !Under(e, x)
    requires e.kind != SysSig || e.parent == null || e.parent.kind != Acceptor || w.ev[e.parent].stopInited
    requires Stopped(w, w', Top(Live(w), e))
    ensures x in w'.log <==> x in w.log
    ensures w'.ev[x] == if e.parent == x then w.ev[x].(children := w.ev[x].children - {e}) else w.ev[x]
  {
    ExtentOfStop(Live(w), e);
    if e.parent != x {
      NotListed(w, x, e);
    }
  }

  ghost function Created(w: World, parent: AEvent, child: AEvent): World
    requires parent in w.ev
  {
    w.(ev := w.ev[parent := w.ev[parent].(children := w.ev[parent].children + {child})]
                 [child := EvState(false, {}, child, Normal)])
  }

  /** Creating a child keeps the invariant if and only if its parent has not stopped: a finished
      event should have no children. */
  lemma CreatedKeeps(w: World, parent: AEvent, child: AEvent)
    requires Inv(w) && Quiet(w) && parent in w.ev
    requires child !in w.ev && child.parent == parent && child.depth == parent.depth + 1
    requires forall x :: x in w.ev ==> x.parent != child
    ensures Inv(Created(w, parent, child)) <==> !w.ev[parent].stopInited
    ensures Quiet(Created(w, parent, child))
  {
    var w' := Created(w, parent, child);
    if w.ev[parent].stopInited {
      assert child in w'.ev[parent].children;
      assert !EventOk(parent, w', null);
    } else {
      UnstoppedKeeps(w, parent, child);
    }
  }

  lemma UnstoppedKeeps(w: World, parent: AEvent, child: AEvent)
    requires Inv(w) && parent in w.ev && !w.ev[parent].stopInited
    requires child !in w.ev && child.parent == parent && child.depth == parent.depth + 1
    requires forall x :: x in w.ev ==> x.parent != child
    ensures Inv(Created(w, parent, child))
  {
    var w' := Created(w, parent, child);
    assert EventOk(parent, w, null) && parent !in w.log;
    assert child !in w.log;
    assert Tree(w'.ev.Keys);
    assert LogOk(w');
    forall x | x in w'.ev ensures EventOk(x, w', null) {
      if x != child {
        assert EventOk(x, w, null);
      }
    }
  }

  // ---------------------------------------------------------------- the objects

  /** Where the run of the program is kept: the finish callbacks invoked so far. */
  class Trace {
    ghost var log: seq<AEvent>

    constructor ()
      ensures log == []
    {
      log := [];
    }
  }

  ghost function Now(events: set<AEvent>, trace: Trace): (w: World)
    reads events, trace
    ensures w.ev.Keys == events && w.log == trace.log
  {
    World(map e | e in events :: e.State(), trace.log)
  }

  /** The present world, given what changed. */
  lemma NowIs(events: set<AEvent>, trace: Trace, e: AEvent, w: World)
    requires e in events && w.ev.Keys == events && w.log == trace.log
    requires w.ev[e] == e.State()
    requires forall x :: x in events && x != e ==> w.ev[x] == x.State()
    ensures Now(events, trace) == w
  {
  }

  class AEvent {
    const kind: Kind
    /** Whose `_child_callback` the finish callback is bound to; a root's does nothing here. */
    const parent: AEvent?
    ghost const depth: nat
    var stopInited: bool
    var children: set<AEvent>
    var myPtr: AEvent?
    var exitSignal: Signal

    constructor (kind: Kind, parent: AEvent?)
      ensures this.kind == kind && this.parent == parent
      ensures depth == if parent == null then 0 else parent.depth + 1
      ensures !stopInited && children == {} && myPtr == null && exitSignal == Normal
    {
      this.kind, this.parent := kind, parent;
      depth := if parent == null then 0 else parent.depth + 1;
      stopInited, children, myPtr, exitSignal := false, {}, null, Normal;
    }

    ghost function State(): EvState
      reads this
    {
      EvState(stopInited, children, myPtr, exitSignal)
    }

    /** `stop`.  Called again while it is under way, it does nothing; that is what ends the
        re-entry through the callbacks.  Otherwise everything below the event it goes up to has
        finished, and everything else is as it was but for one entry in a set of children. */
    method Stop(ghost events: set<AEvent>, trace: Trace)
      requires this in events && MayStop(Now(events, trace), this)
      modifies events, trace
      ensures Inv(Now(events, trace))
      ensures old(stopInited) ==> Now(events, trace) == old(Now(events, trace))
      ensures !old(stopInited) ==>
        Stopped(old(Now(events, trace)), Now(events, trace), Top(old(Live(Now(events, trace))), this))
      decreases Live(Now(events, trace)), 1
    {
      hide InvBut, EventOk, OthersAbove, StoppedSoFar, Stopped, Live, Under, Top;
      if stopInited {
        return;
      }
      ghost var w := Now(events, trace);
      MarkedKeeps(w, this);
      stopInited := true;
      NowIs(events, trace, this, Marked(w, this));
      StopChildren(events, trace, w);
      EvStop(events, trace, w);
      ghost var w1 := Now(events, trace);
      NotFinished(w, w1, this);
      StillGoesUp(w, w1, this);
      Finish(events, trace);
      StoppedInAll(w, w1, Now(events, trace), this, Top(Live(w), this));
    }

    /** The loop over a copy of the child set; `w0` is the world when the stop began. */
    method StopChildren(ghost events: set<AEvent>, trace: Trace, ghost w0: World)
      requires this in events && Inv(Now(events, trace)) && OthersAbove(Now(events, trace), this)
      requires stopInited && StoppedSoFar(w0, Now(events, trace), this)
      modifies events, trace
      ensures Inv(Now(events, trace)) && OthersAbove(Now(events, trace), this)
      ensures State() == old(State()).(children := {}) && StoppedSoFar(w0, Now(events, trace), this)
      decreases Live(Now(events, trace)), 3
    {
      hide InvBut, OthersAbove, StoppedSoFar, Stopped, MayStop, Live;
      var copy := children;
      while copy != {}
        invariant Inv(Now(events, trace)) && OthersAbove(Now(events, trace), this)
        invariant State() == old(State()).(children := copy) && StoppedSoFar(w0, Now(events, trace), this)
        invariant Live(Now(events, trace)) <= old(Live(Now(events, trace)))
        decreases copy
      {
        var child :| child in copy;
        ghost var w := Now(events, trace);
        assert w.ev[this] == State();
        NotFinished(w0, w, this);
        ChildIsFresh(w, this, child);
        child.Stop(events, trace);
        ChildStopped(w0, w, Now(events, trace), this, child);
        StillUnderWay(w, Now(events, trace), this, child);
        assert Now(events, trace).ev[this] == State();
        copy := copy - {child};
      }
    }

    /** The `_ev_stop` hooks. */
    method EvStop(ghost events: set<AEvent>, trace: Trace, ghost w0: World)
      requires this in events && Inv(Now(events, trace)) && OthersAbove(Now(events, trace), this)
      requires StoppedSoFar(w0, Now(events, trace), this)
      modifies this`exitSignal
      ensures exitSignal == StopSignal(kind)
      ensures Inv(Now(events, trace)) && OthersAbove(Now(events, trace), this)
      ensures StoppedSoFar(w0, Now(events, trace), this)
    {
      hide InvBut, EventOk, OthersAbove, StoppedSoFar, Live, Under;
      ghost var w := Now(events, trace);
      WithExitKeeps(w0, w, this);
      ExitIsOk(w, this);
      match kind {
        case SysSig => exitSignal := Abort;
        case SmtpSession => exitSignal := CloseConnection;
        case _ =>
      }
      NowIs(events, trace, this, WithExit(w, this));
    }

    /** `finish`: the pointer is moved out and the finish callback invoked with it. */
    method Finish(ghost events: set<AEvent>, trace: Trace)
      requires this in events && AboutToFinish(Now(events, trace), this)
      modifies events, trace
      ensures Inv(Now(events, trace))
      ensures Stopped(old(Now(events, trace)), Now(events, trace), Top(old(Live(Now(events, trace))), this))
      decreases Live(Now(events, trace)), 4
    {
      hide InvBut, EventOk, OthersAbove, StoppedSoFar, Stopped, Live, Under;
      ghost var w := Now(events, trace);
      FinishedAlone(w, this);
      assert w.ev[this] == State();
      var ptr := myPtr;
      myPtr := null;
      trace.log := trace.log + [this];
      NowIs(events, trace, this, Recorded(w, this));
      if parent != null {
        GoesUp(w, this);
        parent.ChildCallback(ptr, exitSignal, events, trace);
        if parent in Live(w) && StopsOn(parent.kind, StopSignal(kind)) {
          StoppedThrough(w, Called(w, this), Now(events, trace), this, Top(Live(w), parent));
        }
      }
    }

    /** `_child_callback`: erase the child, then run the hook. */
    method ChildCallback(child: AEvent?, sig: Signal, ghost events: set<AEvent>, trace: Trace)
      requires this in events && child != null
      requires MayStop(Erased(Now(events, trace), this, child), this)
      modifies events, trace
      ensures var w := old(Erased(Now(events, trace), this, child));
              if !w.ev[this].stopInited && StopsOn(kind, sig)
              then Inv(Now(events, trace)) && Stopped(w, Now(events, trace), Top(Live(w), this))
              else Now(events, trace) == w
      decreases Live(Erased(Now(events, trace), this, child)), 3
    {
      hide InvBut, EventOk, OthersAbove, Stopped, Live, Top;
      ghost var w := Erased(Now(events, trace), this, child);
      if child != null {
        children := children - {child};
      }
      NowIs(events, trace, this, w);
      EvChildCallback(child, sig, events, trace);
    }

    /** The child callback hooks: only the acceptor's does something. */
    method EvChildCallback(child: AEvent?, sig: Signal, ghost events: set<AEvent>, trace: Trace)
      requires this in events && MayStop(Now(events, trace), this)
      modifies events, trace
      ensures if old(!stopInited) && StopsOn(kind, sig)
              then && Inv(Now(events, trace))
                   && Stopped(old(Now(events, trace)), Now(events, trace), Top(old(Live(Now(events, trace))), this))
              else Now(events, trace) == old(Now(events, trace))
      decreases Live(Now(events, trace)), 2
    {
      hide InvBut, EventOk, OthersAbove, Stopped, Live, Top;
      match kind {
        case Acceptor =>
          if sig == Abort {
            Stop(events, trace);
          }
        case _ =>
      }
    }

    /** A stop from outside: a time-out, an error in a handler, a signal. */
    method StopFromOutside(ghost events: set<AEvent>, trace: Trace)
      requires this in events && Inv(Now(events, trace)) && Quiet(Now(events, trace))
      modifies events, trace
      ensures Inv(Now(events, trace)) && Quiet(Now(events, trace))
      ensures old(stopInited) ==> Now(events, trace) == old(Now(events, trace))
      ensures !old(stopInited) ==>
        Stopped(old(Now(events, trace)), Now(events, trace), Top(old(Live(Now(events, trace))), this))
    {
      hide InvBut, EventOk, Stopped, Live, Top, MayStop, Quiet;
      ghost var w := Now(events, trace);
      QuietMayStop(w, this);
      ghost var stopped := stopInited;
      Stop(events, trace);
      if !stopped {
        QuietAfter(w, Now(events, trace), Top(Live(w), this));
      }
    }

    /** `create_child` and `begin`: the child is in the set before its begin hook runs, so a child
        that stops itself there leaves the set like any other. */
    method CreateChild(kind: Kind, stopsInBegin: bool, ghost events: set<AEvent>, trace: Trace)
      returns (child: AEvent, ghost events': set<AEvent>)
      requires this in events && Inv(Now(events, trace)) && Quiet(Now(events, trace))
      requires !stopInited
      modifies events, trace
      ensures fresh(child) && child.kind == kind && child.parent == this && events' == events + {child}
      ensures Inv(Now(events', trace)) && Quiet(Now(events', trace))
      ensures var w := Created(old(Now(events, trace)), this, child);
              if stopsInBegin then Stopped(w, Now(events', trace), Top(Live(w), child)) else Now(events', trace) == w
    {
      hide InvBut, EventOk, Stopped, Live, Top, MayStop, Quiet;
      ghost var w := Now(events, trace);
      child := new AEvent(kind, this);
      events' := events + {child};
      CreatedKeeps(w, this, child);
      children := children + {child};
      child.Begin(stopsInBegin, events', trace, Created(w, this, child));
    }

    /** `begin`; `w` is the world once the event knows itself. */
    method Begin(stopsInBegin: bool, ghost events: set<AEvent>, trace: Trace, ghost w: World)
      requires this in events && Inv(w) && Quiet(w) && w.ev.Keys == events && w.log == trace.log
      requires w.ev[this] == State().(myPtr := this) && !stopInited
      requires forall x :: x in events && x != this ==> w.ev[x] == x.State()
      modifies events, trace
      ensures Inv(Now(events, trace)) && Quiet(Now(events, trace))
      ensures if stopsInBegin then Stopped(w, Now(events, trace), Top(Live(w), this)) else Now(events, trace) == w
    {
      hide InvBut, EventOk, Stopped, Live, Top, MayStop, Quiet;
      myPtr := this;
      NowIs(events, trace, this, w);
      if stopsInBegin {
        StopFromOutside(events, trace);
      }
    }
  }

  /** A root event on its own. */
  method CreateRoot(kind: Kind, stopsInBegin: bool, trace: Trace) returns (root: AEvent)
    requires trace.log == []
    modifies trace
    ensures fresh(root) && root.parent == null
    ensures Inv(Now({root}, trace)) && Quiet(Now({root}, trace))
    ensures root.stopInited == stopsInBegin
  {
    root := new AEvent(kind, null);
    ghost var w := World(map[root := EvState(false, {}, root, Normal)], []);
    RootIsFine(root, w);
    root.Begin(stopsInBegin, {root}, trace, w);
    if stopsInBegin {
      StopOutcome(w, Now({root}, trace), root, root);
      assert Now({root}, trace).ev[root] == root.State();
    } else {
      assert Now({root}, trace).ev[root] == root.State();
    }
  }

  lemma RootIsFine(root: AEvent, w: World)
    requires root.parent == null && w == World(map[root := EvState(false, {}, root, Normal)], [])
    ensures Inv(w) && Quiet(w)
  {
    assert EventOk(root, w, null);
  }
}
