/**
  What a woven body does: the steps of the original, the same outcome, and one report of it.
 */
module WovenMeaning {
  import opened IlMachine
  import opened Weaver
  import opened WovenLayout

  // ---------------------------------------------------------------- regions

  /** Woven position `p` belongs to original instruction `k`. */
  ghost predicate Within(b: Body, shape: Shape, k: nat, p: nat) {
    k < |b.instrs| && Moved(b, shape, k) <= p < Moved(b, shape, k + 1)
  }

  lemma Between(b: Body, shape: Shape, k: nat, p: nat, i: nat)
    requires Within(b, shape, k, p) && i <= |b.instrs|
    ensures Moved(b, shape, i) <= p <==> i <= k
  {
    if i <= k {
      MovedMonotone(b, shape, i, k);
    } else {
      MovedMonotone(b, shape, k + 1, i);
    }
  }

  /** Where a boundary of a region is in the woven body. */
  lemma BoundaryMoves(b: Body, shape: Shape, next: Ref, k: nat, p: nat, ref: Ref)
    requires WellFormed(b, next) && Within(b, shape, k, p) && Has(b, ref)
    ensures IndexOf(Woven(b, shape, next).instrs, ref) <= p <==> IndexOf(b.instrs, ref) <= k
  {
    hide Moved, WovenInstrs, IndexOf, Distinct;
    ReferencesMove(b, shape, next, ref);
    Between(b, shape, k, p, IndexOf(b.instrs, ref));
  }

  /** An original region covers what became of the instructions it covered, with or without an end. */
  lemma RegionsMove(b: Body, shape: Shape, next: Ref, h: nat, k: nat, p: nat)
    requires WellFormed(b, next) && h < |b.handlers| && Within(b, shape, k, p)
    ensures InTry(Woven(b, shape, next), h, p) <==> InTry(b, h, k)
    ensures InHandler(Woven(b, shape, next), h, p) <==> InHandler(b, h, k)
  {
    var x := b.handlers[h];
    assert Resolves(b, x);
    assert b.instrs != [] && Woven(b, shape, next).handlers[h] == x;
    hide Moved, Woven, IndexOf, WellFormed;
    WovenAt(b, shape, next, k);
    BoundaryMoves(b, shape, next, k, p, x.tryStart);
    BoundaryMoves(b, shape, next, k, p, x.start);
    if x.tryEnd.Some? {
      BoundaryMoves(b, shape, next, k, p, x.tryEnd.value);
    }
    if x.end.Some? {
      BoundaryMoves(b, shape, next, k, p, x.end.value);
    }
  }

  lemma BoundaryBefore(b: Body, shape: Shape, next: Ref, ref: Ref)
    requires WellFormed(b, next) && Has(b, ref)
    ensures IndexOf(Woven(b, shape, next).instrs, ref) <= Moved(b, shape, |b.instrs|)
  {
    hide Moved, WovenInstrs, IndexOf, Distinct;
    ReferencesMove(b, shape, next, ref);
    MovedMonotone(b, shape, IndexOf(b.instrs, ref), |b.instrs|);
  }

  /** An original region reaches the appended code exactly when it has no end. */
  lemma RegionsEnd(b: Body, shape: Shape, next: Ref, h: nat, p: nat)
    requires WellFormed(b, next) && h < |b.handlers|
    requires Moved(b, shape, |b.instrs|) <= p < |Woven(b, shape, next).instrs|
    ensures InTry(Woven(b, shape, next), h, p) <==> b.handlers[h].tryEnd.None?
    ensures InHandler(Woven(b, shape, next), h, p) <==> b.handlers[h].end.None?
  {
    var x := b.handlers[h];
    assert Resolves(b, x);
    assert Woven(b, shape, next).handlers[h] == x;
    hide Moved, Woven, IndexOf, WellFormed;
    BoundaryBefore(b, shape, next, x.tryStart);
    BoundaryBefore(b, shape, next, x.start);
    if x.tryEnd.Some? {
      BoundaryBefore(b, shape, next, x.tryEnd.value);
    }
    if x.end.Some? {
      BoundaryBefore(b, shape, next, x.end.value);
    }
  }

  /** The added handler protects exactly the original code. */
  lemma AddedRegion(b: Body, shape: Shape, next: Ref, p: nat)
    requires WellFormed(b, next)
    ensures InTry(Woven(b, shape, next), |b.handlers|, p) <==> |Prologue(shape)| <= p < Moved(b, shape, |b.instrs|)
    ensures InHandler(Woven(b, shape, next), |b.handlers|, p) <==>
              Moved(b, shape, |b.instrs|) <= p < Moved(b, shape, |b.instrs|) + |HANDLER|
  {
    FirstIsFirst(b.instrs);
    assert Moved(b, shape, 0) == |Prologue(shape)|;
    hide Moved, WovenInstrs, IndexOf, Distinct, Prologue, HandlerRef, EpilogueRef;
    ReferencesMove(b, shape, next, b.instrs[0].ref);
    AppendedReferences(b, shape, next);
  }

  // ---------------------------------------------------------------- states

  function MovePending(b: Body, shape: Shape, p: Pending): Pending {
    match p
    case Throwing(exn, at, next) => if at <= |b.instrs| then Throwing(exn, Moved(b, shape, at), next) else p
    case Leaving(target, at, next) => if at <= |b.instrs| then Leaving(target, Moved(b, shape, at), next) else p
    case Handling(_) => p
  }

  function MoveFrames(b: Body, shape: Shape, frames: seq<Frame>): (moved: seq<Frame>)
    ensures |moved| == |frames|
    ensures forall i | 0 <= i < |frames| :: moved[i] == Frame(frames[i].h, MovePending(b, shape, frames[i].pending))
  {
    seq(|frames|, i requires 0 <= i < |frames| => Frame(frames[i].h, MovePending(b, shape, frames[i].pending)))
  }

  ghost predicate Sound(b: Body, f: Frame) {
    f.h < |b.handlers| &&
    match f.pending
    case Throwing(_, at, next) => at < |b.instrs| && next <= |b.handlers|
    case Leaving(target, at, next) => Has(b, target) && at < |b.instrs| && next <= |b.handlers|
    case Handling(_) => true
  }

  /** What a run of an original body keeps. */
  ghost predicate Original<D(!new)>(b: Body, m: Machine<D>) {
    m.Running? ==> m.pc < |b.instrs| && (forall f <- m.frames :: Sound(b, f)) && forall a <- m.log :: a.Did?
  }

  /** The woven counterpart of an original state. */
  function Image<D>(b: Body, shape: Shape, m: Machine<D>, vars: Vars): Machine<D>
    requires m.Running? && m.pc < |b.instrs|
  {
    Running(Moved(b, shape, m.pc), m.data, MoveFrames(b, shape, m.frames), vars, [Entered, Inputs] + m.log)
  }

  // ---------------------------------------------------------------- the searches

  lemma {:induction false} PruneMoves(b: Body, shape: Shape, next: Ref, frames: seq<Frame>, k: nat)
    requires WellFormed(b, next) && k < |b.instrs|
    requires forall f <- frames :: Sound(b, f)
    ensures Prune(Woven(b, shape, next), MoveFrames(b, shape, frames), Moved(b, shape, k))
            == MoveFrames(b, shape, Prune(b, frames, k))
    ensures forall f <- Prune(b, frames, k) :: Sound(b, f)
  {
    hide Moved, WovenInstrs, IndexOf, Distinct, WellFormed, InHandler, MovePending, WovenHandler;
    if frames != [] {
      var init, top := frames[..|frames| - 1], frames[|frames| - 1];
      assert Sound(b, top);
      MovedNext(b, shape, k);
      RegionsMove(b, shape, next, top.h, k, Moved(b, shape, k));
      assert MoveFrames(b, shape, frames)[..|frames| - 1] == MoveFrames(b, shape, init);
      PruneMoves(b, shape, next, init, k);
    }
  }

  /** A search that agrees on the shared handlers, and whose last handler takes everything. */
  lemma {:induction false} SameHandler<D>(code: Code<D>, b: Body, w: Body, at: nat, to: nat, exn: int, h: nat)
    requires |w.handlers| == |b.handlers| + 1 && h <= |b.handlers|
    requires forall i | 0 <= i < |b.handlers| :: Takes(code, w, i, to, exn) == Takes(code, b, i, at, exn)
    requires Takes(code, w, |b.handlers|, to, exn)
    ensures FindHandler(code, w, to, exn, h) == FindHandler(code, b, at, exn, h) <= |b.handlers|
    decreases |b.handlers| - h
  {
    hide Takes;
    if h < |b.handlers| {
      SameHandler(code, b, w, at, to, exn, h + 1);
    }
  }

  lemma FindHandlerMoves<D>(code: Code<D>, b: Body, shape: Shape, next: Ref, at: nat, exn: int, h: nat)
    requires WellFormed(b, next) && at < |b.instrs| && h <= |b.handlers|
    ensures FindHandler(code, Woven(b, shape, next), Moved(b, shape, at), exn, h)
            == FindHandler(code, b, at, exn, h) <= |b.handlers|
  {
    hide WovenInstrs, IndexOf, Distinct, WellFormed, InTry, InHandler, CountRets, Prologue, FindHandler;
    var w, to := Woven(b, shape, next), Moved(b, shape, at);
    MovedNext(b, shape, at);
    MovedMonotone(b, shape, at + 1, |b.instrs|);
    assert b.instrs != [] by { assert |b.instrs| > at; }
    forall i | 0 <= i < |b.handlers|
      ensures Takes(code, w, i, to, exn) == Takes(code, b, i, at, exn)
    {
      RegionsMove(b, shape, next, i, at, to);
    }
    AddedRegion(b, shape, next, to);
    SameHandler(code, b, w, at, to, exn, h);
  }

  /** A search for a finally block that agrees on the shared handlers, and whose last handler is none. */
  lemma {:induction false} SameFinally(b: Body, w: Body, at: nat, to: nat, goal: nat, end: nat, h: nat)
    requires |w.handlers| == |b.handlers| + 1 && h <= |b.handlers| && !w.handlers[|b.handlers|].kind.Finally?
    requires forall i | 0 <= i < |b.handlers| :: w.handlers[i] == b.handlers[i]
    requires forall i | 0 <= i < |b.handlers| ::
               InTry(w, i, to) == InTry(b, i, at) && InTry(w, i, end) == InTry(b, i, goal)
    ensures var f := FindFinally(b, at, goal, h);
            FindFinally(w, to, end, h) == if f < |b.handlers| then f else |b.handlers| + 1
    decreases |b.handlers| - h
  {
    hide InTry;
    if h < |b.handlers| {
      SameFinally(b, w, at, to, goal, end, h + 1);
    }
  }

  lemma FindFinallyMoves(b: Body, shape: Shape, next: Ref, at: nat, goal: nat, h: nat)
    requires WellFormed(b, next) && at < |b.instrs| && goal < |b.instrs| && h <= |b.handlers|
    ensures var f := FindFinally(b, at, goal, h);
            FindFinally(Woven(b, shape, next), Moved(b, shape, at), Moved(b, shape, goal), h)
              == if f < |b.handlers| then f else |b.handlers| + 1
  {
    hide Moved, WovenInstrs, IndexOf, Distinct, WellFormed, InTry, InHandler, FindFinally;
    MovedNext(b, shape, at);
    MovedNext(b, shape, goal);
    var w := Woven(b, shape, next);
    forall i | 0 <= i < |b.handlers|
      ensures && InTry(w, i, Moved(b, shape, at)) == InTry(b, i, at)
              && InTry(w, i, Moved(b, shape, goal)) == InTry(b, i, goal)
    {
      RegionsMove(b, shape, next, i, at, Moved(b, shape, at));
      RegionsMove(b, shape, next, i, goal, Moved(b, shape, goal));
    }
    SameFinally(b, w, at, Moved(b, shape, at), goal, Moved(b, shape, goal), h);
  }
}
