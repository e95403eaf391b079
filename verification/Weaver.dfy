/**
  The method weaver: it inserts a prologue, turns every return into a jump to an epilogue,
  and wraps the original body in one catch handler.
 */
module Weaver {
  import opened Wrappers
  import opened IlMachine

  // ---------------------------------------------------------------- what is woven

  /** How many staging instructions each recording call needs, which depends only on the declaration. */
  datatype Shape = Shape(argumentStages: nat, resultStages: nat)

  function Numbered(ops: seq<Op>, first: Ref): (instrs: seq<Instr>)
    ensures |instrs| == |ops|
    ensures forall i | 0 <= i < |ops| :: instrs[i] == Instr(first + i, ops[i])
  {
    seq(|ops|, i requires 0 <= i < |ops| => Instr(first + i, ops[i]))
  }

  function Stages(n: nat): (ops: seq<Op>)
    ensures |ops| == n && forall i | 0 <= i < n :: ops[i] == Stage
  {
    seq(n, _ => Stage)
  }

  /** ldtoken, ldstr, ldstr, call EnterOperation, stloc; ldloc, the argument array, call RecordInputs. */
  function Prologue(shape: Shape): seq<Op> {
    [Stage, Stage, Stage, EnterOperation, Stage, Stage] + Stages(shape.argumentStages) + [RecordInputs]
  }

  /** ldloc scope; then ExitVoid, or ldloc result, box, ExitOk, ldloc result; ret. */
  function Epilogue(shape: Shape, returnsValue: bool): seq<Op> {
    if returnsValue then [Stage] + Stages(shape.resultStages) + [ExitOk, LoadResult, Ret]
    else [Stage, ExitVoid, Ret]
  }

  const HANDLER: seq<Op> := [StoreError, Stage, Stage, ExitError, Rethrow]

  function CountRets(s: seq<Instr>): nat {
    if s == [] then 0 else CountRets(s[..|s| - 1]) + if s[|s| - 1].op.Ret? then 1 else 0
  }

  /** A return becomes, in place, a store followed by a jump, or just the jump when nothing is returned. */
  function Redirected(i: Instr, goal: Ref, leaf: Ref, returnsValue: bool): seq<Instr> {
    if !i.op.Ret? then [i]
    else if returnsValue then [Instr(i.ref, StoreResult), Instr(leaf, Leave(goal))]
    else [Instr(i.ref, Leave(goal))]
  }

  function Expand(s: seq<Instr>, goal: Ref, first: Ref, returnsValue: bool): seq<Instr> {
    if s == [] then [] else
      var init, last := s[..|s| - 1], s[|s| - 1];
      Expand(init, goal, first, returnsValue) + Redirected(last, goal, first + CountRets(init), returnsValue)
  }

  // The order in which the weaver creates its instructions fixes their references.
  function EpilogueRef(shape: Shape, next: Ref): Ref { next + |Prologue(shape)| }
  function FirstLeaf(b: Body, shape: Shape, next: Ref): Ref {
    EpilogueRef(shape, next) + |Epilogue(shape, b.returnsValue)|
  }
  function HandlerRef(b: Body, shape: Shape, next: Ref): Ref {
    FirstLeaf(b, shape, next) + if b.returnsValue then CountRets(b.instrs) else 0
  }

  function WovenInstrs(b: Body, shape: Shape, next: Ref): seq<Instr> {
    Numbered(Prologue(shape), next)
    + Expand(b.instrs, EpilogueRef(shape, next), FirstLeaf(b, shape, next), b.returnsValue)
    + Numbered(HANDLER, HandlerRef(b, shape, next))
    + Numbered(Epilogue(shape, b.returnsValue), EpilogueRef(shape, next))
  }

  function WovenHandler(b: Body, shape: Shape, next: Ref): Handler
    requires b.instrs != []
  {
    var handler, epilogue := HandlerRef(b, shape, next), EpilogueRef(shape, next);
    Handler(CatchAny, b.instrs[0].ref, Some(handler), handler, Some(epilogue))
  }

  function Woven(b: Body, shape: Shape, next: Ref): Body
    requires b.instrs != []
  {
    Body(WovenInstrs(b, shape, next), b.handlers + [WovenHandler(b, shape, next)], b.returnsValue)
  }

  // ---------------------------------------------------------------- the weaver

  /** References are identities: no two instructions share one, and new ones are taken from `next`. */
  ghost predicate Distinct(instrs: seq<Instr>, next: Ref) {
    && (forall i | 0 <= i < |instrs| :: instrs[i].ref < next)
    && (forall i, j | 0 <= i < j < |instrs| :: instrs[i].ref != instrs[j].ref)
  }

  lemma {:induction false} IndexOfDistinct(instrs: seq<Instr>, next: Ref, i: nat)
    requires Distinct(instrs, next) && i < |instrs|
    ensures IndexOf(instrs, instrs[i].ref) == i
  {
    if i > 0 {
      assert instrs[1..][i - 1] == instrs[i];
      IndexOfDistinct(instrs[1..], next, i - 1);
    }
  }

  lemma CountRetsConcat(a: seq<Instr>, b: seq<Instr>)
    ensures CountRets(a + b) == CountRets(a) + CountRets(b)
  {
    if b == [] {
      assert a + b == a;
    } else {
      assert (a + b)[..|a + b| - 1] == a + b[..|b| - 1];
      CountRetsConcat(a, b[..|b| - 1]);
    }
  }

  /** Rewriting goes piece by piece. */
  lemma {:induction false} ExpandConcat(a: seq<Instr>, b: seq<Instr>, goal: Ref, first: Ref, returnsValue: bool)
    ensures Expand(a + b, goal, first, returnsValue)
            == Expand(a, goal, first, returnsValue) + Expand(b, goal, first + CountRets(a), returnsValue)
  {
    if b == [] {
      assert a + b == a;
    } else {
      var init, last := b[..|b| - 1], b[|b| - 1];
      assert (a + b)[..|a + b| - 1] == a + init && (a + b)[|a + b| - 1] == last;
      ExpandConcat(a, init, goal, first, returnsValue);
      CountRetsConcat(a, init);
      hide CountRets, Redirected;
    }
  }

  /** Instructions without a return are not changed. */
  lemma {:induction false} ExpandPlain(a: seq<Instr>, goal: Ref, first: Ref, returnsValue: bool)
    requires forall i | 0 <= i < |a| :: !a[i].op.Ret?
    ensures Expand(a, goal, first, returnsValue) == a && CountRets(a) == 0
  {
    if a != [] {
      ExpandPlain(a[..|a| - 1], goal, first, returnsValue);
      assert a == a[..|a| - 1] + [a[|a| - 1]];
    }
  }

  class MethodBody {
    var instructions: seq<Instr>
    var handlers: seq<Handler>
    var nextRef: Ref
    const returnsValue: bool

    ghost predicate Valid()
      reads this
    {
      Distinct(instructions, nextRef)
    }

    function Value(): Body
      reads this
    {
      Body(instructions, handlers, returnsValue)
    }

    constructor (body: Body, nextRef: Ref)
      requires Distinct(body.instrs, nextRef)
      ensures Valid() && Value() == body && this.nextRef == nextRef
    {
      instructions, handlers, returnsValue := body.instrs, body.handlers, body.returnsValue;
      this.nextRef := nextRef;
    }

    /** `il.Create`: new instruction objects, not yet in the body. */
    method Create(ops: seq<Op>) returns (created: seq<Instr>)
      modifies this`nextRef
      ensures created == Numbered(ops, old(nextRef)) && nextRef == old(nextRef) + |ops|
    {
      created := [];
      for i := 0 to |ops|
        invariant nextRef == old(nextRef) + i && created == Numbered(ops[..i], old(nextRef))
      {
        created := created + [Instr(nextRef, ops[i])];
        nextRef := nextRef + 1;
      }
      assert ops[..|ops|] == ops;
    }

    /** Repeated `il.InsertBefore` of the same instruction keeps the inserted ones in order. */
    method InsertAllBefore(target: Ref, inserted: seq<Instr>)
      modifies this`instructions
      ensures var at := IndexOf(old(instructions), target);
              instructions == old(instructions)[..at] + inserted + old(instructions)[at..]
    {
      var at := IndexOf(instructions, target);
      ghost var before := instructions;
      for i := 0 to |inserted|
        invariant instructions == before[..at] + inserted[..i] + before[at..]
      {
        var grown := instructions[..at + i] + [inserted[i]] + instructions[at + i..];
        assert grown == before[..at] + inserted[..i + 1] + before[at..];
        instructions := grown;
      }
      assert inserted[..|inserted|] == inserted;
    }

    /** The returns, in order, as references. */
    method FindReturns() returns (found: seq<Ref>)
      ensures |found| == CountRets(instructions)
      ensures forall k | 0 <= k < |found| :: IsReturnRef(instructions, found[k], k)
    {
      found := [];
      for i := 0 to |instructions|
        invariant |found| == CountRets(instructions[..i])
        invariant forall k | 0 <= k < |found| :: IsReturnRef(instructions, found[k], k)
      {
        assert instructions[..i + 1][..i] == instructions[..i];
        if instructions[i].op.Ret? {
          assert IsReturn(instructions, i, |found|);
          found := found + [instructions[i].ref];
        }
      }
      assert instructions[..|instructions|] == instructions;
    }

    /** One return becomes a jump; with a value to keep, it becomes the store and the jump is inserted after it. */
    method Redirect(ref: Ref, goal: Ref)
      requires IndexOf(instructions, ref) < |instructions| && instructions[IndexOf(instructions, ref)].op.Ret?
      modifies this`instructions, this`nextRef
      ensures var at := IndexOf(old(instructions), ref);
              instructions
                == old(instructions)[..at] + Redirected(old(instructions)[at], goal, old(nextRef), returnsValue)
                  + old(instructions)[at + 1..]
      ensures nextRef == old(nextRef) + if returnsValue then 1 else 0
    {
      var at := IndexOf(instructions, ref);
      if returnsValue {
        var leaf := Instr(nextRef, Leave(goal));
        nextRef := nextRef + 1;
        instructions := instructions[..at] + [Instr(ref, StoreResult), leaf] + instructions[at + 1..];
      } else {
        instructions := instructions[at := Instr(ref, Leave(goal))];
      }
    }

    /** Collects the returns, then mutates each in place. */
    method RedirectReturns(goal: Ref)
      requires Valid()
      modifies this`instructions, this`nextRef
      ensures instructions == Expand(old(instructions), goal, old(nextRef), returnsValue)
      ensures nextRef == old(nextRef) + if returnsValue then CountRets(old(instructions)) else 0
    {
      hide CountRets, Expand, IndexOf, Redirected, Distinct, IsReturn, IsReturnRef, Progress;
      ghost var s, first := instructions, nextRef;
      var found := FindReturns();
      NothingExpanded(s, goal, first, returnsValue);
      ghost var cut: nat := 0;
      for k := 0 to |found|
        invariant cut <= |s| && CountRets(s[..cut]) == k
        invariant instructions == Progress(s, cut, goal, first, returnsValue)
        invariant nextRef == first + if returnsValue then k else 0
      {
        ghost var q := ReturnPosition(s, found[k], k);
        OneMore(s, cut, q, k, goal, first, nextRef, returnsValue);
        Redirect(found[k], goal);
        cut := q + 1;
      }
      NoneLeft(s, cut, goal, first, returnsValue);
    }

    /** The whole rewrite of one method. */
    method Weave(shape: Shape)
      requires Valid() && instructions != []
      modifies this
      ensures Value() == Woven(old(Value()), shape, old(nextRef))
    {
      hide Expand, CountRets, IndexOf, Distinct, Epilogue, Prologue;
      ghost var before, next := instructions, nextRef;
      FirstIsFirst(before);
      EpilogueShape(shape, returnsValue);
      var firstOriginal := instructions[0].ref;
      var prologue := Create(Prologue(shape));
      InsertAllBefore(firstOriginal, prologue);
      assert instructions == prologue + before;
      var epilogue := Create(Epilogue(shape, returnsValue));
      var goal := epilogue[0].ref;
      PrologueStays(before, shape, next, goal, nextRef, returnsValue);
      RedirectReturns(goal);
      var handler := Create(HANDLER);
      instructions := instructions + handler + epilogue;
      handlers := handlers + [Handler(CatchAny, firstOriginal, Some(handler[0].ref), handler[0].ref, Some(goal))];
    }
  }

  /** The prologue holds no return, and its references are new. */
  lemma PrologueStays(s: seq<Instr>, shape: Shape, next: Ref, goal: Ref, first: Ref, returnsValue: bool)
    requires Distinct(s, next) && next + |Prologue(shape)| <= first
    ensures var prologue := Numbered(Prologue(shape), next);
            && Distinct(prologue + s, first)
            && CountRets(prologue + s) == CountRets(s)
            && Expand(prologue + s, goal, first, returnsValue) == prologue + Expand(s, goal, first, returnsValue)
  {
    hide Expand, CountRets;
    var prologue := Numbered(Prologue(shape), next);
    ExpandConcat(prologue, s, goal, first, returnsValue);
    ExpandPlain(prologue, goal, first, returnsValue);
    CountRetsConcat(prologue, s);
  }

  /** Position `q` holds the return that `k` returns precede. */
  ghost predicate IsReturn(s: seq<Instr>, q: nat, k: nat) {
    q < |s| && s[q].op.Ret? && CountRets(s[..q]) == k
  }

  /** The reference of the return that `k` returns precede. */
  ghost predicate IsReturnRef(s: seq<Instr>, ref: Ref, k: nat) {
    exists q: nat :: IsReturn(s, q, k) && s[q].ref == ref
  }

  lemma ReturnPosition(s: seq<Instr>, ref: Ref, k: nat) returns (q: nat)
    requires IsReturnRef(s, ref, k)
    ensures q < |s| && IsReturn(s, q, k) && s[q].ref == ref
  {
    q :| IsReturn(s, q, k) && s[q].ref == ref;
  }

  /** The list with the part before the cut rewritten. */
  ghost function Progress(s: seq<Instr>, cut: nat, goal: Ref, first: Ref, returnsValue: bool): seq<Instr>
    requires cut <= |s|
  {
    Expand(s[..cut], goal, first, returnsValue) + s[cut..]
  }

  lemma NothingExpanded(s: seq<Instr>, goal: Ref, first: Ref, returnsValue: bool)
    ensures CountRets(s[..0]) == 0 && Progress(s, 0, goal, first, returnsValue) == s
  {
  }

  lemma FirstIsFirst(s: seq<Instr>)
    requires s != []
    ensures IndexOf(s, s[0].ref) == 0
  {
  }

  lemma EpilogueShape(shape: Shape, returnsValue: bool)
    ensures Epilogue(shape, returnsValue) != []
  {
  }

  lemma {:induction false} NoRets(s: seq<Instr>)
    requires CountRets(s) == 0
    ensures forall i | 0 <= i < |s| :: !s[i].op.Ret?
  {
    if s != [] {
      NoRets(s[..|s| - 1]);
    }
  }

  lemma RetsMonotone(s: seq<Instr>, cut: nat, q: nat)
    requires q < cut <= |s| && s[q].op.Ret?
    ensures CountRets(s[..q]) < CountRets(s[..cut])
  {
    assert s[..cut] == s[..q] + s[q..cut] && s[q..cut] == [s[q]] + s[q + 1..cut];
    CountRetsConcat(s[..q], s[q..cut]);
    CountRetsConcat([s[q]], s[q + 1..cut]);
  }

  /** Between two cuts with the same number of returns before them there is nothing to change. */
  lemma PassOver(s: seq<Instr>, cut: nat, q: nat, goal: Ref, first: Ref, returnsValue: bool)
    requires cut <= |s| && q < |s| && s[q].op.Ret? && CountRets(s[..cut]) == CountRets(s[..q])
    ensures cut <= q
    ensures Expand(s[..q], goal, first, returnsValue) + s[q..] == Expand(s[..cut], goal, first, returnsValue) + s[cut..]
  {
    hide CountRets, Expand;
    if q < cut {
      RetsMonotone(s, cut, q);
      assert false;
    }
    assert s[..q][..cut] == s[..cut] && s[cut..] == s[..q][cut..] + s[q..];
    NoneLeft(s[..q], cut, goal, first, returnsValue);
  }

  lemma NoneLeft(s: seq<Instr>, cut: nat, goal: Ref, first: Ref, returnsValue: bool)
    requires cut <= |s| && CountRets(s[..cut]) == CountRets(s)
    ensures Expand(s, goal, first, returnsValue) == Progress(s, cut, goal, first, returnsValue)
  {
    hide Expand;
    var rest := s[cut..];
    assert s == s[..cut] + rest;
    CountRetsConcat(s[..cut], rest);
    NoRets(rest);
    ExpandConcat(s[..cut], rest, goal, first, returnsValue);
    ExpandPlain(rest, goal, first + CountRets(s[..cut]), returnsValue);
  }

  // ---------------------------------------------------------------- where references end up

  ghost predicate Lacks(s: seq<Instr>, ref: Ref) {
    forall i | 0 <= i < |s| :: s[i].ref != ref
  }

  lemma {:induction false} IndexOfConcat(a: seq<Instr>, b: seq<Instr>, ref: Ref)
    requires Lacks(a, ref)
    ensures IndexOf(a + b, ref) == |a| + IndexOf(b, ref)
  {
    if a == [] {
      assert a + b == b;
    } else {
      assert (a + b)[1..] == a[1..] + b;
      IndexOfConcat(a[1..], b, ref);
    }
  }

  lemma {:induction false} ExpandLacks(s: seq<Instr>, goal: Ref, first: Ref, returnsValue: bool, ref: Ref)
    requires Lacks(s, ref) && (ref < first || !returnsValue || first + CountRets(s) <= ref)
    ensures Lacks(Expand(s, goal, first, returnsValue), ref)
  {
    if s != [] {
      ExpandLacks(s[..|s| - 1], goal, first, returnsValue, ref);
    }
  }

  /** The rewritten list, cut around one instruction. */
  lemma ExpandAround(s: seq<Instr>, q: nat, goal: Ref, first: Ref, returnsValue: bool)
    requires q < |s|
    ensures CountRets(s[..q + 1]) == CountRets(s[..q]) + if s[q].op.Ret? then 1 else 0
    ensures Expand(s[..q + 1], goal, first, returnsValue)
            == Expand(s[..q], goal, first, returnsValue)
              + Redirected(s[q], goal, first + CountRets(s[..q]), returnsValue)
    ensures Expand(s, goal, first, returnsValue)
            == Expand(s[..q + 1], goal, first, returnsValue)
              + Expand(s[q + 1..], goal, first + CountRets(s[..q + 1]), returnsValue)
  {
    assert s[..q + 1][..q] == s[..q];
    assert s == s[..q + 1] + s[q + 1..];
    ExpandConcat(s[..q + 1], s[q + 1..], goal, first, returnsValue);
  }

  lemma ReturnIndex(s: seq<Instr>, q: nat, goal: Ref, first: Ref, returnsValue: bool)
    requires Distinct(s, first) && q < |s|
    ensures IndexOf(Expand(s[..q], goal, first, returnsValue) + s[q..], s[q].ref)
            == |Expand(s[..q], goal, first, returnsValue)|
  {
    hide Expand;
    ExpandLacks(s[..q], goal, first, returnsValue, s[q].ref);
    IndexOfConcat(Expand(s[..q], goal, first, returnsValue), s[q..], s[q].ref);
  }

  /** In a list rewritten up to its return number `k`, rewriting that return. */
  lemma OneMore(s: seq<Instr>, cut: nat, q: nat, k: nat, goal: Ref, first: Ref, leaf: Ref, returnsValue: bool)
    requires Distinct(s, first) && IsReturn(s, q, k) && cut <= |s| && CountRets(s[..cut]) == k
    requires leaf == first + if returnsValue then k else 0
    ensures CountRets(s[..q + 1]) == k + 1
    ensures var t := Progress(s, cut, goal, first, returnsValue);
            var at := IndexOf(t, s[q].ref);
            && at < |t|
            && t[at].op.Ret?
            && t[..at] + Redirected(t[at], goal, leaf, returnsValue) + t[at + 1..]
               == Progress(s, q + 1, goal, first, returnsValue)
  {
    hide Expand, CountRets, IndexOf, Distinct;
    PassOver(s, cut, q, goal, first, returnsValue);
    ReturnIndex(s, q, goal, first, returnsValue);
    ExpandAround(s, q, goal, first, returnsValue);
    var done := Expand(s[..q], goal, first, returnsValue);
    var t := done + s[q..];
    assert t[..|done|] == done && t[|done|] == s[q] && t[|done| + 1..] == s[q + 1..];
  }
}
