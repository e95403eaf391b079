/**
  Where the instructions, the references and the regions of a body are once it has been woven.
 */
module WovenLayout {
  import opened IlMachine
  import opened Weaver

  // ---------------------------------------------------------------- the bodies that are woven

  predicate SourceOp(op: Op) {
    op.Plain? || op.Branch? || op.Leave? || op.EndFinally? || op.Rethrow? || op.Ret?
  }

  ghost predicate Has(b: Body, ref: Ref) {
    IndexOf(b.instrs, ref) < |b.instrs|
  }

  /** The handlers refer to instructions of the body, except that an end may be absent. */
  ghost predicate Resolves(b: Body, h: Handler) {
    && Has(b, h.tryStart) && Has(b, h.start)
    && (h.tryEnd.Some? ==> Has(b, h.tryEnd.value))
    && (h.end.Some? ==> Has(b, h.end.value))
  }

  ghost predicate WellFormed(b: Body, next: Ref) {
    && b.instrs != []
    && Distinct(b.instrs, next)
    && (forall i <- b.instrs :: SourceOp(i.op) && (i.op.Leave? ==> Has(b, i.op.target)))
    && (forall h <- b.handlers :: Resolves(b, h))
  }

  /** Every region ends at an instruction of the body. */
  ghost predicate Closed(b: Body) {
    forall h <- b.handlers :: h.tryEnd.Some? && h.end.Some?
  }

  // ---------------------------------------------------------------- positions

  /** The position of original instruction `k` in the woven body. */
  function Moved(b: Body, shape: Shape, k: nat): nat
    requires k <= |b.instrs|
  {
    |Prologue(shape)| + k + if b.returnsValue then CountRets(b.instrs[..k]) else 0
  }

  lemma {:induction false} ExpandLength(s: seq<Instr>, goal: Ref, first: Ref, returnsValue: bool)
    ensures |Expand(s, goal, first, returnsValue)| == |s| + if returnsValue then CountRets(s) else 0
  {
    if s != [] {
      ExpandLength(s[..|s| - 1], goal, first, returnsValue);
    }
  }

  lemma MovedNext(b: Body, shape: Shape, k: nat)
    requires k < |b.instrs|
    ensures Moved(b, shape, k + 1) == Moved(b, shape, k) + if b.returnsValue && b.instrs[k].op.Ret? then 2 else 1
  {
    assert b.instrs[..k + 1][..k] == b.instrs[..k];
  }

  lemma {:induction false} MovedMonotone(b: Body, shape: Shape, i: nat, j: nat)
    requires i <= j <= |b.instrs|
    ensures Moved(b, shape, i) + (j - i) <= Moved(b, shape, j)
    decreases j - i
  {
    hide CountRets, Prologue;
    if i < j {
      MovedMonotone(b, shape, i, j - 1);
      MovedNext(b, shape, j - 1);
    }
  }

  ghost function Code(b: Body, shape: Shape, next: Ref): seq<Instr> {
    Expand(b.instrs, EpilogueRef(shape, next), FirstLeaf(b, shape, next), b.returnsValue)
  }

  /** What became of the first `k` instructions. */
  ghost function CodeBefore(b: Body, shape: Shape, next: Ref, k: nat): seq<Instr>
    requires k <= |b.instrs|
  {
    Expand(b.instrs[..k], EpilogueRef(shape, next), FirstLeaf(b, shape, next), b.returnsValue)
  }

  lemma Parts(b: Body, shape: Shape, next: Ref)
    requires b.instrs != []
    ensures Moved(b, shape, |b.instrs|) == |Prologue(shape)| + |Code(b, shape, next)|
    ensures |Woven(b, shape, next).instrs|
            == Moved(b, shape, |b.instrs|) + |HANDLER| + |Epilogue(shape, b.returnsValue)|
  {
    assert b.instrs[..|b.instrs|] == b.instrs;
    ExpandLength(b.instrs, EpilogueRef(shape, next), FirstLeaf(b, shape, next), b.returnsValue);
  }

  lemma Regrouped<T>(p: seq<T>, x: seq<T>, y: seq<T>, z: seq<T>, h: seq<T>, e: seq<T>)
    ensures p + (x + y + z) + h + e == (p + x) + y + (z + h + e)
  {
  }

  /** Everything before an original instruction, what it became, and the rest. */
  lemma Around(b: Body, shape: Shape, next: Ref, k: nat)
    returns (before: seq<Instr>, became: seq<Instr>, after: seq<Instr>)
    requires k < |b.instrs|
    ensures Woven(b, shape, next).instrs == before + became + after
    ensures before == Numbered(Prologue(shape), next) + CodeBefore(b, shape, next, k)
    ensures var leaf := FirstLeaf(b, shape, next) + CountRets(b.instrs[..k]);
            became == Redirected(b.instrs[k], EpilogueRef(shape, next), leaf, b.returnsValue)
    ensures |before| == Moved(b, shape, k)
  {
    hide Expand, CountRets, Prologue, Epilogue, Redirected, EpilogueRef, FirstLeaf, HandlerRef;
    var goal, first := EpilogueRef(shape, next), FirstLeaf(b, shape, next);
    var prologue, done := Numbered(Prologue(shape), next), Expand(b.instrs[..k], goal, first, b.returnsValue);
    var rest := Expand(b.instrs[k + 1..], goal, first + CountRets(b.instrs[..k + 1]), b.returnsValue);
    var handler, epilogue := Numbered(HANDLER, HandlerRef(b, shape, next)),
      Numbered(Epilogue(shape, b.returnsValue), goal);
    before := prologue + done;
    became := Redirected(b.instrs[k], goal, first + CountRets(b.instrs[..k]), b.returnsValue);
    after := rest + handler + epilogue;
    assert |before| == Moved(b, shape, k) by {
      ExpandLength(b.instrs[..k], goal, first, b.returnsValue);
    }
    assert Woven(b, shape, next).instrs == before + became + after by {
      ExpandAround(b.instrs, k, goal, first, b.returnsValue);
      Regrouped(prologue, done, became, rest, handler, epilogue);
    }
  }

  /** What an original instruction became. */
  lemma WovenAt(b: Body, shape: Shape, next: Ref, k: nat)
    requires k < |b.instrs|
    ensures Moved(b, shape, k) < Moved(b, shape, k + 1) <= |Woven(b, shape, next).instrs|
    ensures var w, i, at := Woven(b, shape, next).instrs, b.instrs[k], Moved(b, shape, k);
            w[at].ref == i.ref && (!i.op.Ret? ==> w[at].op == i.op)
    ensures var w, i, at := Woven(b, shape, next).instrs, b.instrs[k], Moved(b, shape, k);
            i.op.Ret? && !b.returnsValue ==> w[at].op == Leave(EpilogueRef(shape, next))
    ensures var w, i, at := Woven(b, shape, next).instrs, b.instrs[k], Moved(b, shape, k);
            i.op.Ret? && b.returnsValue ==>
              at + 1 < |w| && w[at].op == StoreResult && w[at + 1].op == Leave(EpilogueRef(shape, next))
  {
    var before, became, after := Around(b, shape, next, k);
    MovedNext(b, shape, k);
  }

  /** The appended code. */
  lemma AppendedAt(b: Body, shape: Shape, next: Ref, j: nat)
    requires b.instrs != [] && j < |HANDLER| + |Epilogue(shape, b.returnsValue)|
    ensures Moved(b, shape, |b.instrs|) + j < |Woven(b, shape, next).instrs|
    ensures j < |HANDLER| ==>
              Woven(b, shape, next).instrs[Moved(b, shape, |b.instrs|) + j]
                == Instr(HandlerRef(b, shape, next) + j, HANDLER[j])
    ensures |HANDLER| <= j ==>
              Woven(b, shape, next).instrs[Moved(b, shape, |b.instrs|) + j]
                == Instr(EpilogueRef(shape, next) + (j - |HANDLER|), Epilogue(shape, b.returnsValue)[j - |HANDLER|])
  {
    Parts(b, shape, next);
    hide Expand, CountRets, Prologue, Epilogue, Moved;
    assert WovenInstrs(b, shape, next)
           == Numbered(Prologue(shape), next) + Code(b, shape, next) + Numbered(HANDLER, HandlerRef(b, shape, next))
             + Numbered(Epilogue(shape, b.returnsValue), EpilogueRef(shape, next));
  }

  /** Before the original code there is only the prologue. */
  lemma PrologueAt(b: Body, shape: Shape, next: Ref, j: nat)
    requires b.instrs != [] && j < |Prologue(shape)|
    ensures j < |Woven(b, shape, next).instrs| && Woven(b, shape, next).instrs[j] == Instr(next + j, Prologue(shape)[j])
  {
    hide Expand, CountRets, Prologue, Epilogue;
    assert Numbered(Prologue(shape), next)[j] == Instr(next + j, Prologue(shape)[j]);
  }

  // ---------------------------------------------------------------- references

  lemma LacksBefore(b: Body, shape: Shape, next: Ref, k: nat)
    requires Distinct(b.instrs, next) && k < |b.instrs|
    ensures Lacks(Numbered(Prologue(shape), next) + CodeBefore(b, shape, next, k), b.instrs[k].ref)
  {
    ExpandLacks(b.instrs[..k], EpilogueRef(shape, next), FirstLeaf(b, shape, next), b.returnsValue, b.instrs[k].ref);
  }

  /** A reference to an original instruction names the same instruction. */
  lemma ReferencesMove(b: Body, shape: Shape, next: Ref, ref: Ref)
    requires WellFormed(b, next) && Has(b, ref)
    ensures IndexOf(Woven(b, shape, next).instrs, ref) == Moved(b, shape, IndexOf(b.instrs, ref))
  {
    var k := IndexOf(b.instrs, ref);
    hide Expand, CountRets, Prologue, Epilogue, Moved, WovenInstrs, FirstLeaf, EpilogueRef;
    var before, became, after := Around(b, shape, next, k);
    LacksBefore(b, shape, next, k);
    assert before + became + after == before + (became + after);
    IndexOfConcat(before, became + after, ref);
  }

  lemma {:induction false} IndexInNumbered(ops: seq<Op>, first: Ref, rest: seq<Instr>)
    requires ops != []
    ensures IndexOf(Numbered(ops, first) + rest, first) == 0
  {
  }

  /** The appended handler and the epilogue follow the original code. */
  lemma AppendedReferences(b: Body, shape: Shape, next: Ref)
    requires WellFormed(b, next)
    ensures IndexOf(Woven(b, shape, next).instrs, HandlerRef(b, shape, next)) == Moved(b, shape, |b.instrs|)
    ensures IndexOf(Woven(b, shape, next).instrs, EpilogueRef(shape, next)) == Moved(b, shape, |b.instrs|) + |HANDLER|
  {
    hide Expand, CountRets, Prologue, Epilogue, Moved, IndexOf, Distinct, HandlerRef, EpilogueRef, FirstLeaf;
    var handler, goal := HandlerRef(b, shape, next), EpilogueRef(shape, next);
    Parts(b, shape, next);
    AppendedAreNew(b, shape, next);
    EpilogueShape(shape, b.returnsValue);
    var front := Numbered(Prologue(shape), next) + Code(b, shape, next);
    var middle, end := Numbered(HANDLER, handler), Numbered(Epilogue(shape, b.returnsValue), goal);
    assert WovenInstrs(b, shape, next) == front + (middle + end);
    IndexOfConcat(front, middle + end, handler);
    IndexInNumbered(HANDLER, handler, end);
    IndexOfConcat(front, middle + end, goal);
    IndexOfConcat(middle, end, goal);
    IndexInNumbered(Epilogue(shape, b.returnsValue), goal, []);
    assert end + [] == end;
  }

  lemma AppendedAreNew(b: Body, shape: Shape, next: Ref)
    requires Distinct(b.instrs, next)
    ensures var front := Numbered(Prologue(shape), next) + Code(b, shape, next);
            Lacks(front, HandlerRef(b, shape, next)) && Lacks(front, EpilogueRef(shape, next))
    ensures Lacks(Numbered(HANDLER, HandlerRef(b, shape, next)), EpilogueRef(shape, next))
  {
    hide Expand, CountRets, Prologue;
    EpilogueShape(shape, b.returnsValue);
    var goal, first := EpilogueRef(shape, next), FirstLeaf(b, shape, next);
    ExpandLacks(b.instrs, goal, first, b.returnsValue, HandlerRef(b, shape, next));
    ExpandLacks(b.instrs, goal, first, b.returnsValue, goal);
  }
}
