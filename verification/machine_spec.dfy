/** What the pattern machine's state means. A register file satisfies the
    first `p` instructions of a program when each of them holds of it: a
    `Bind` found a matching node in its source register's class whose children
    fill its output block, a `Check` found its leaf in the class, and a
    `Compare` found both registers in one class. The machine keeps, at every
    step, a register file that satisfies every instruction before `pc`, and
    one binder per `Bind` before `pc`, whose remaining candidates all lie in
    the class the `Bind` searched. */
module MachineSpec {
  import opened Lang
  import opened EGraphs
  import opened Searchers
  import opened Instructions

  /** A choice point: the output block of its `Bind`, the address after it,
      and the candidate nodes not tried yet. */
  datatype Binder = Binder(out: Reg, next: Addr, searcher: EClassSearcher)

  /** The register file the machine handed to the yield callback, and the
      registers the `Yield` names. */
  datatype YieldEvent = YieldEvent(reg: seq<Id>, regs: seq<Reg>)

  /** `Vec::resize(n, fill)`: truncate to `n`, or pad with `fill` up to `n`. */
  function Resize(s: seq<Id>, n: nat, fill: Id): (r: seq<Id>)
    ensures |r| == n
    ensures forall k :: 0 <= k < n ==> r[k] == if k < |s| then s[k] else fill
  {
    if n <= |s| then s[..n] else s + seq(n - |s|, _ => fill)
  }

  predicate ValidIds(g: EGraph, reg: seq<Id>) {
    forall k :: 0 <= k < |reg| ==> reg[k] < |g.canon|
  }

  /** The instruction holds of the register file `reg`. */
  predicate InstrHolds(g: EGraph, instr: Instruction, reg: seq<Id>)
    requires g.Valid()
  {
    match instr
    case Bind(src, node, out) =>
      src < |reg| && reg[src] < |g.canon| && out + |node.children| <= |reg| &&
      exists n :: n in g.Nodes(reg[src]) && Matches(node, n) && reg[out..out + |node.children|] == n.children
    case Check(r, leaf) =>
      r < |reg| && reg[r] < |g.canon| && leaf in g.Nodes(reg[r])
    case Compare(a, b) =>
      a < |reg| && b < |reg| && reg[a] < |g.canon| && reg[b] < |g.canon| && g.Find(reg[a]) == g.Find(reg[b])
    case Yield(_) => true
  }

  /** Every instruction before `p` holds of `reg`. */
  predicate Satisfied(g: EGraph, prog: seq<Instruction>, p: nat, reg: seq<Id>)
    requires g.Valid() && p <= |prog|
  {
    forall q {:trigger InstrHolds(g, prog[q], reg)} :: 0 <= q < p ==> InstrHolds(g, prog[q], reg)
  }

  /** What a yielded register file promises: every instruction of the
      program holds of it, and the `Yield`'s registers are in range. */
  predicate YieldOk(g: EGraph, prog: seq<Instruction>, ev: YieldEvent) {
    g.Valid() && WellFormed(prog) && ValidIds(g, ev.reg) &&
    |ev.reg| == NextReg(prog, |prog| - 1) && ev.regs == prog[|prog| - 1].regs &&
    (forall k :: 0 <= k < |ev.regs| ==> ev.regs[k] < |ev.reg|) &&
    Satisfied(g, prog, |prog| - 1, ev.reg)
  }

  /** The `j`-th binder on the stack belongs to the `j`-th `Bind` of the
      program and enumerates matching nodes of the class its source register
      holds. */
  predicate BinderOk(g: EGraph, prog: seq<Instruction>, j: nat, b: Binder, reg: seq<Id>)
    requires g.Valid()
  {
    1 <= b.next <= |prog| &&
    var at := b.next - 1;
    prog[at].Bind? && NumBinds(prog, at) == j &&
    b.out == prog[at].out && b.searcher.node == prog[at].node &&
    b.searcher.Valid() && |b.searcher.nodes| <= g.MaxClassSize() &&
    prog[at].src < |reg| && reg[prog[at].src] < |g.canon| &&
    forall n :: n in b.searcher.nodes ==> n in g.Nodes(reg[prog[at].src])
  }

  /** The state at the head of the machine's loop, about to execute `pc`. */
  predicate MachineInv(g: EGraph, prog: seq<Instruction>, pc: nat, reg: seq<Id>, stack: seq<Binder>) {
    g.Valid() && WellFormed(prog) && pc < |prog| &&
    |stack| == NumBinds(prog, pc) && |reg| == NextReg(prog, pc) && ValidIds(g, reg) &&
    (forall j {:trigger BinderOk(g, prog, j, stack[j], reg)} :: 0 <= j < |stack| ==> BinderOk(g, prog, j, stack[j], reg)) &&
    Satisfied(g, prog, pc, reg)
  }

  /** The state when the machine backtracks after executing `p - 1`: the
      instruction's binder (if any) is pushed, and its own effect is not. */
  predicate PreInv(g: EGraph, prog: seq<Instruction>, p: nat, reg: seq<Id>, stack: seq<Binder>) {
    g.Valid() && WellFormed(prog) && 1 <= p <= |prog| &&
    |stack| == NumBinds(prog, p) && |reg| == NextReg(prog, p - 1) && ValidIds(g, reg) &&
    (forall j {:trigger BinderOk(g, prog, j, stack[j], reg)} :: 0 <= j < |stack| ==> BinderOk(g, prog, j, stack[j], reg)) &&
    Satisfied(g, prog, p - 1, reg)
  }

  /** No binder has a candidate left. */
  predicate Exhausted(stack: seq<Binder>) {
    forall j :: 0 <= j < |stack| ==> stack[j].searcher.nodes == []
  }

  /** One successful `backtrack`: the exhausted binders above the topmost one
      with a candidate are popped, that binder takes its next candidate, whose
      children fill its output block (registers above it are cut off, those
      below are kept), and control resumes after its `Bind`. */
  predicate Backtracked(stack0: seq<Binder>, reg0: seq<Id>, stack1: seq<Binder>, reg1: seq<Id>, pc1: nat) {
    0 < |stack1| <= |stack0| &&
    var t := |stack1| - 1;
    var b := stack0[t];
    stack1[..t] == stack0[..t] &&
    b.searcher.nodes != [] &&
    stack1[t] == b.(searcher := b.searcher.(nodes := b.searcher.nodes[1..])) &&
    Exhausted(stack0[t + 1..]) &&
    reg1 == Resize(reg0, b.out, 0) + b.searcher.nodes[0].children &&
    pc1 == b.next
  }

  /** The state `run` updates: program counter, registers and stack. */
  datatype State = State(pc: nat, reg: seq<Id>, stack: seq<Binder>)

  /** `backtrack!` from the registers `reg0` and the stack `stack0`: on
      success one `Backtracked` step, on failure every binder was exhausted,
      the stack is emptied and the registers are kept. */
  predicate Resumed(stack0: seq<Binder>, reg0: seq<Id>, found: bool, s1: State) {
    (found ==> Backtracked(stack0, reg0, s1.stack, s1.reg, s1.pc)) &&
    (!found ==> s1.stack == [] && Exhausted(stack0) && s1.reg == reg0)
  }

  /** One turn of `run`'s loop from `s0`, executing `prog[s0.pc]`, to `s1`:
      `found` says whether the run goes on and `out` is what the turn yields.
      `Bind` pushes a binder over its source register's class and backtracks
      into it; `Check` and `Compare` go on to the next instruction when their
      test passes and backtrack otherwise; `Yield` hands out the register
      file and backtracks. */
  predicate Step(g: EGraph, prog: seq<Instruction>, s0: State, found: bool, s1: State, out: seq<YieldEvent>) {
    g.Valid() && s0.pc < |prog| && ValidIds(g, s0.reg) &&
    var next := s0.pc + 1;
    match prog[s0.pc]
    case Bind(i, node, o) =>
      i < |s0.reg| && out == [] &&
      var nodes := g.Nodes(s0.reg[i]);
      MapChildren(node, IdMax) !in nodes &&
      Resumed(s0.stack + [Binder(o, next, NewSearcher(node, nodes))], s0.reg, found, s1)
    case Check(i, t) =>
      i < |s0.reg| && out == [] &&
      if t in g.Nodes(s0.reg[i]) then found && s1 == State(next, s0.reg, s0.stack)
      else Resumed(s0.stack, s0.reg, found, s1)
    case Compare(i, j) =>
      i < |s0.reg| && j < |s0.reg| && out == [] &&
      if g.Find(s0.reg[i]) == g.Find(s0.reg[j]) then found && s1 == State(next, s0.reg, s0.stack)
      else Resumed(s0.stack, s0.reg, found, s1)
    case Yield(regs) =>
      out == [YieldEvent(s0.reg, regs)] && Resumed(s0.stack, s0.reg, found, s1)
  }

  /** The `Bind` arm as a `Step`: the binder over the source register's
      class is pushed, then the machine backtracks. */
  lemma BindIsStep(g: EGraph, prog: seq<Instruction>, s0: State, found: bool, s1: State,
                   i: Reg, node: ENode, o: Reg)
    requires g.Valid() && s0.pc < |prog| && ValidIds(g, s0.reg) && prog[s0.pc] == Bind(i, node, o)
    requires i < |s0.reg| && MapChildren(node, IdMax) !in g.Nodes(s0.reg[i])
    requires Resumed(s0.stack + [Binder(o, s0.pc + 1, NewSearcher(node, g.Nodes(s0.reg[i])))], s0.reg, found, s1)
    ensures Step(g, prog, s0, found, s1, [])
  {
  }

  /** The `Check` arm as a `Step`: on to the next instruction when the class
      holds the leaf, otherwise backtracking. */
  lemma CheckIsStep(g: EGraph, prog: seq<Instruction>, s0: State, found: bool, s1: State, i: Reg, t: ENode)
    requires g.Valid() && s0.pc < |prog| && ValidIds(g, s0.reg) && prog[s0.pc] == Check(i, t) && i < |s0.reg|
    requires t in g.Nodes(s0.reg[i]) ==> found && s1 == State(s0.pc + 1, s0.reg, s0.stack)
    requires t !in g.Nodes(s0.reg[i]) ==> Resumed(s0.stack, s0.reg, found, s1)
    ensures Step(g, prog, s0, found, s1, [])
  {
  }

  /** The `Compare` arm as a `Step`: on to the next instruction when both
      registers are in one class, otherwise backtracking. */
  lemma CompareIsStep(g: EGraph, prog: seq<Instruction>, s0: State, found: bool, s1: State, i: Reg, j: Reg)
    requires g.Valid() && s0.pc < |prog| && ValidIds(g, s0.reg) && prog[s0.pc] == Compare(i, j)
    requires i < |s0.reg| && j < |s0.reg|
    requires g.Find(s0.reg[i]) == g.Find(s0.reg[j]) ==> found && s1 == State(s0.pc + 1, s0.reg, s0.stack)
    requires g.Find(s0.reg[i]) != g.Find(s0.reg[j]) ==> Resumed(s0.stack, s0.reg, found, s1)
    ensures Step(g, prog, s0, found, s1, [])
  {
  }

  /** The `Yield` arm as a `Step`: the file is handed out, then the machine
      backtracks. */
  lemma YieldIsStep(g: EGraph, prog: seq<Instruction>, s0: State, found: bool, s1: State, regs: seq<Reg>)
    requires g.Valid() && s0.pc < |prog| && ValidIds(g, s0.reg) && prog[s0.pc] == Yield(regs)
    requires Resumed(s0.stack, s0.reg, found, s1)
    ensures Step(g, prog, s0, found, s1, [YieldEvent(s0.reg, regs)])
  {
  }

  /** The outputs of successive turns, in order. */
  function Concat<T>(xs: seq<seq<T>>): seq<T> {
    if |xs| == 0 then [] else Concat(xs[..|xs| - 1]) + xs[|xs| - 1]
  }

  /** A run so far: `trace` lists the states, each turn is a `Step` with the
      output in `outs`, and every turn but the last went on (the last one
      too when `live`). */
  predicate Ran(g: EGraph, prog: seq<Instruction>, trace: seq<State>, outs: seq<seq<YieldEvent>>, live: bool) {
    |trace| == |outs| + 1 &&
    forall k :: 0 <= k < |outs| ==> Step(g, prog, trace[k], live || k < |outs| - 1, trace[k + 1], outs[k])
  }

  /** A live run extended by one more turn. */
  lemma RanStep(g: EGraph, prog: seq<Instruction>, trace: seq<State>, outs: seq<seq<YieldEvent>>,
                found: bool, s1: State, out: seq<YieldEvent>)
    requires Ran(g, prog, trace, outs, true) && Step(g, prog, trace[|outs|], found, s1, out)
    ensures Ran(g, prog, trace + [s1], outs + [out], found)
    ensures Concat(outs + [out]) == Concat(outs) + out
  {
    assert (outs + [out])[..|outs|] == outs;
    var t2, o2 := trace + [s1], outs + [out];
    forall k | 0 <= k < |o2|
      ensures Step(g, prog, t2[k], found || k < |o2| - 1, t2[k + 1], o2[k])
    {
      if k < |outs| {
        assert t2[k] == trace[k] && t2[k + 1] == trace[k + 1] && o2[k] == outs[k];
      }
    }
  }

  /** The registers an instruction reads lie below the register counter after it. */
  lemma HoldsFrame(g: EGraph, prog: seq<Instruction>, q: nat, reg: seq<Id>, reg2: seq<Id>)
    requires g.Valid() && WellFormed(prog) && q < |prog|
    requires NextReg(prog, q + 1) <= |reg| && NextReg(prog, q + 1) <= |reg2|
    requires reg[..NextReg(prog, q + 1)] == reg2[..NextReg(prog, q + 1)]
    requires InstrHolds(g, prog[q], reg)
    ensures InstrHolds(g, prog[q], reg2)
  {
    var n := NextReg(prog, q + 1);
    assert InstrWellFormed(prog, q);
    match prog[q]
    case Bind(src, node, out) =>
      var m :| m in g.Nodes(reg[src]) && Matches(node, m) && reg[out..out + |node.children|] == m.children;
      assert reg[src] == reg[..n][src] == reg2[src];
      assert reg[out..out + |node.children|] == reg[..n][out..] == reg2[..n][out..] == reg2[out..out + |node.children|];
    case Check(r, _) =>
      assert reg[r] == reg[..n][r] == reg2[r];
    case Compare(a, b) =>
      assert reg[a] == reg[..n][a] == reg2[a];
      assert reg[b] == reg[..n][b] == reg2[b];
    case Yield(_) =>
  }

  /** Satisfaction of the first `p` instructions depends only on the registers
      allocated before `p`. */
  lemma SatisfiedFrame(g: EGraph, prog: seq<Instruction>, p: nat, reg: seq<Id>, reg2: seq<Id>)
    requires g.Valid() && WellFormed(prog) && p <= |prog|
    requires NextReg(prog, p) <= |reg| && NextReg(prog, p) <= |reg2|
    requires reg[..NextReg(prog, p)] == reg2[..NextReg(prog, p)]
    requires Satisfied(g, prog, p, reg)
    ensures Satisfied(g, prog, p, reg2)
  {
    forall q | 0 <= q < p ensures InstrHolds(g, prog[q], reg2) {
      var n := NextReg(prog, q + 1);
      NextRegMonotone(prog, q + 1, p);
      assert reg[..n] == reg[..NextReg(prog, p)][..n] == reg2[..NextReg(prog, p)][..n] == reg2[..n];
      HoldsFrame(g, prog, q, reg, reg2);
    }
  }

  /** A `Bind` counted before `p` lies before `p`. */
  lemma BindBefore(prog: seq<Instruction>, at: nat, p: nat)
    requires at <= |prog| && p <= |prog| && NumBinds(prog, at) < NumBinds(prog, p)
    ensures at < p && NextReg(prog, at) <= NextReg(prog, p)
  {
    if p <= at {
      NextRegMonotone(prog, p, at);
    } else {
      NextRegMonotone(prog, at, p);
    }
  }

  /** Resuming binder `b` with its next candidate: the registers below its
      output block are kept, the block holds the candidate's children, and
      every register holds a valid id. */
  lemma ResumeRegisters(g: EGraph, prog: seq<Instruction>, t: nat, b: Binder, reg0: seq<Id>, reg1: seq<Id>)
    requires g.Valid() && WellFormed(prog)
    requires BinderOk(g, prog, t, b, reg0) && b.searcher.nodes != []
    requires NextReg(prog, b.next - 1) <= |reg0| && ValidIds(g, reg0)
    requires reg1 == Resize(reg0, b.out, 0) + b.searcher.nodes[0].children
    ensures |reg1| == NextReg(prog, b.next) && b.out == NextReg(prog, b.next - 1)
    ensures reg1[..b.out] == reg0[..b.out]
    ensures ValidIds(g, reg1)
  {
    var at := b.next - 1;
    var out := b.out;
    var bind := prog[at];
    var m := b.searcher.nodes[0];
    assert InstrWellFormed(prog, at);
    assert Matches(bind.node, m) && m in g.Nodes(reg0[bind.src]);
    assert reg1[..out] == reg0[..out];
    assert forall k :: 0 <= k < |m.children| ==> m.children[k] < |g.canon| by {
      assert ChildrenBelow(g.Nodes(reg0[bind.src]), |g.canon|);
      assert forall k :: 0 <= k < |m.children| ==> m.children[k] in m.children;
    }
    FillValid(|g.canon|, reg0, out, m.children, reg1);
  }

  /** ... and the resumed file satisfies every instruction up to and
      including the binder's `Bind`. */
  lemma ResumeSatisfies(g: EGraph, prog: seq<Instruction>, t: nat, b: Binder, reg0: seq<Id>, reg1: seq<Id>)
    requires g.Valid() && WellFormed(prog)
    requires BinderOk(g, prog, t, b, reg0) && b.searcher.nodes != []
    requires NextReg(prog, b.next - 1) <= |reg0| && Satisfied(g, prog, b.next - 1, reg0)
    requires reg1 == Resize(reg0, b.out, 0) + b.searcher.nodes[0].children
    ensures Satisfied(g, prog, b.next, reg1)
  {
    var at := b.next - 1;
    var bind := prog[at];
    assert InstrWellFormed(prog, at);
    assert reg1[..b.out] == reg0[..b.out];
    SatisfiedFrame(g, prog, at, reg0, reg1);
    BindHolds(g, bind.src, bind.node, b.out, b.searcher.nodes[0], reg0, reg1);
    SatisfiedExtend(g, prog, at, reg1);
  }

  /** The `Bind` whose binder produced `m` holds of the file that takes `m`'s
      children into its output block. */
  lemma BindHolds(g: EGraph, src: Reg, node: ENode, out: Reg, m: ENode, reg0: seq<Id>, reg1: seq<Id>)
    requires g.Valid() && src < out <= |reg0| && reg0[src] < |g.canon|
    requires m in g.Nodes(reg0[src]) && Matches(node, m)
    requires reg1 == Resize(reg0, out, 0) + m.children
    ensures InstrHolds(g, Bind(src, node, out), reg1)
  {
    assert reg1[src] == reg0[src];
    assert reg1[out..out + |node.children|] == m.children;
  }

  lemma SatisfiedExtend(g: EGraph, prog: seq<Instruction>, p: nat, reg: seq<Id>)
    requires g.Valid() && p < |prog|
    requires Satisfied(g, prog, p, reg) && InstrHolds(g, prog[p], reg)
    ensures Satisfied(g, prog, p + 1, reg)
  {
  }

  /** Writing valid ids over a prefix of a file of valid ids keeps it valid. */
  lemma FillValid(ids: nat, reg0: seq<Id>, out: nat, children: seq<Id>, reg1: seq<Id>)
    requires out <= |reg0| && forall k :: 0 <= k < |reg0| ==> reg0[k] < ids
    requires forall k :: 0 <= k < |children| ==> children[k] < ids
    requires reg1 == Resize(reg0, out, 0) + children
    ensures forall k :: 0 <= k < |reg1| ==> reg1[k] < ids
  {
  }

  /** A binder whose `Bind` reads only registers below `bound` stays sound
      when those registers are kept and its candidates shrink. */
  lemma BinderKept(g: EGraph, prog: seq<Instruction>, j: nat, b: Binder, b1: Binder,
                   reg0: seq<Id>, reg1: seq<Id>, bound: nat)
    requires g.Valid() && WellFormed(prog)
    requires BinderOk(g, prog, j, b, reg0)
    requires NextReg(prog, b.next - 1) <= bound <= |reg0| && bound <= |reg1| && reg1[..bound] == reg0[..bound]
    requires b1.out == b.out && b1.next == b.next && b1.searcher.node == b.searcher.node
    requires b1.searcher.Valid() && |b1.searcher.nodes| <= |b.searcher.nodes|
    requires forall n :: n in b1.searcher.nodes ==> n in b.searcher.nodes
    ensures BinderOk(g, prog, j, b1, reg1)
  {
    var src := prog[b.next - 1].src;
    assert InstrWellFormed(prog, b.next - 1);
    assert reg1[src] == reg1[..bound][src] == reg0[..bound][src];
  }

  /** A binder below the resumed one reads only registers below the resumed
      block, so it stays sound. */
  lemma BinderBelowKept(g: EGraph, prog: seq<Instruction>, j: nat, bj: Binder, t: nat, b: Binder,
                        reg0: seq<Id>, reg1: seq<Id>)
    requires g.Valid() && WellFormed(prog) && j < t
    requires BinderOk(g, prog, j, bj, reg0) && BinderOk(g, prog, t, b, reg0)
    requires b.out == NextReg(prog, b.next - 1) <= |reg0| && b.out <= |reg1| && reg1[..b.out] == reg0[..b.out]
    ensures BinderOk(g, prog, j, bj, reg1)
  {
    BindBefore(prog, bj.next - 1, b.next - 1);
    BinderKept(g, prog, j, bj, bj, reg0, reg1, b.out);
  }

  /** After a successful `backtrack` every binder left on the stack is still
      sound: the registers its `Bind` reads lie below the resumed block. */
  lemma BacktrackKeepsBinders(g: EGraph, prog: seq<Instruction>, p: nat, reg0: seq<Id>, stack0: seq<Binder>,
                              reg1: seq<Id>, stack1: seq<Binder>, pc1: nat)
    requires PreInv(g, prog, p, reg0, stack0)
    requires Backtracked(stack0, reg0, stack1, reg1, pc1)
    requires var b := stack0[|stack1| - 1];
             1 <= b.next <= |prog| &&
             b.out == NextReg(prog, b.next - 1) <= |reg0| && b.out <= |reg1| && reg1[..b.out] == reg0[..b.out]
    ensures forall j :: 0 <= j < |stack1| ==> BinderOk(g, prog, j, stack1[j], reg1)
  {
    var t := |stack1| - 1;
    var b := stack0[t];
    forall j | 0 <= j < |stack1| ensures BinderOk(g, prog, j, stack1[j], reg1) {
      if j < t {
        assert stack1[j] == stack1[..t][j] == stack0[..t][j];
        BinderBelowKept(g, prog, j, stack0[j], t, b, reg0, reg1);
      } else {
        assert BinderOk(g, prog, t, b, reg0);
        BinderKept(g, prog, j, b, stack1[j], reg0, reg1, b.out);
      }
    }
  }

  /** A successful `backtrack` from a state the machine can backtrack in
      resumes in a state satisfying the loop invariant. */
  lemma BacktrackPreserves(g: EGraph, prog: seq<Instruction>, p: nat, reg0: seq<Id>, stack0: seq<Binder>,
                           reg1: seq<Id>, stack1: seq<Binder>, pc1: nat)
    requires PreInv(g, prog, p, reg0, stack0)
    requires Backtracked(stack0, reg0, stack1, reg1, pc1)
    ensures MachineInv(g, prog, pc1, reg1, stack1)
  {
    var t := |stack1| - 1;
    var b := stack0[t];
    var at := b.next - 1;
    assert BinderOk(g, prog, t, b, reg0);
    BindBefore(prog, at, p);
    NextRegMonotone(prog, at, p - 1);
    assert Satisfied(g, prog, at, reg0);
    ResumeRegisters(g, prog, t, b, reg0, reg1);
    ResumeSatisfies(g, prog, t, b, reg0, reg1);
    BacktrackKeepsBinders(g, prog, p, reg0, stack0, reg1, stack1, pc1);
    assert InstrWellFormed(prog, at);
    assert at < |prog| - 1;
  }

  /** A successful `backtrack` keeps register 0, which holds the class the
      search started from: every output block lies above it. */
  lemma BacktrackKeepsRoot(g: EGraph, prog: seq<Instruction>, p: nat, reg0: seq<Id>, stack0: seq<Binder>,
                           reg1: seq<Id>, stack1: seq<Binder>, pc1: nat)
    requires PreInv(g, prog, p, reg0, stack0)
    requires Backtracked(stack0, reg0, stack1, reg1, pc1)
    ensures |reg0| > 0 && |reg1| > 0 && reg1[0] == reg0[0]
  {
    var t := |stack1| - 1;
    var b := stack0[t];
    assert BinderOk(g, prog, t, b, reg0);
    assert InstrWellFormed(prog, b.next - 1);
    var front := Resize(reg0, b.out, 0);
    assert front[0] == reg0[0];
    assert reg1 == front + b.searcher.nodes[0].children;
  }

  /** The upper sentinel of a `Bind`'s node is in no class: the node has a
      child, and no valid id is `IdMax`. */
  lemma BindSentinelAbsent(g: EGraph, prog: seq<Instruction>, pc: nat, reg: seq<Id>, stack: seq<Binder>)
    requires MachineInv(g, prog, pc, reg, stack) && prog[pc].Bind?
    ensures prog[pc].src < |reg| && reg[prog[pc].src] < |g.canon|
    ensures MapChildren(prog[pc].node, IdMax) !in g.Nodes(reg[prog[pc].src])
  {
    assert InstrWellFormed(prog, pc);
    var node, nodes := prog[pc].node, g.Nodes(reg[prog[pc].src]);
    assert MapChildren(node, IdMax) !in nodes by {
      var big := MapChildren(node, IdMax);
      assert ChildrenBelow(nodes, |g.canon|);
      assert big.children[0] == IdMax && big.children[0] in big.children;
    }
  }

  /** A `Bind` at `pc` pushes a binder over the class its source register
      holds; the state is then ready to backtrack. */
  lemma PushPreserves(g: EGraph, prog: seq<Instruction>, pc: nat, reg: seq<Id>, stack: seq<Binder>, b: Binder)
    requires MachineInv(g, prog, pc, reg, stack) && prog[pc].Bind?
    requires prog[pc].src < |reg| && reg[prog[pc].src] < |g.canon|
    requires MapChildren(prog[pc].node, IdMax) !in g.Nodes(reg[prog[pc].src])
    requires b == Binder(prog[pc].out, pc + 1, NewSearcher(prog[pc].node, g.Nodes(reg[prog[pc].src])))
    ensures PreInv(g, prog, pc + 1, reg, stack + [b])
  {
    var stack2 := stack + [b];
    forall j | 0 <= j < |stack2| ensures BinderOk(g, prog, j, stack2[j], reg) {
      if j < |stack| {
        assert stack2[j] == stack[j];
      } else {
        NewBinderOk(g, prog, pc, reg, b);
      }
    }
  }

  /** The binder a `Bind` pushes is sound: its candidates are the matching
      nodes of the class its source register holds. */
  lemma NewBinderOk(g: EGraph, prog: seq<Instruction>, pc: nat, reg: seq<Id>, b: Binder)
    requires g.Valid() && pc < |prog| && prog[pc].Bind?
    requires prog[pc].src < |reg| && reg[prog[pc].src] < |g.canon|
    requires MapChildren(prog[pc].node, IdMax) !in g.Nodes(reg[prog[pc].src])
    requires b == Binder(prog[pc].out, pc + 1, NewSearcher(prog[pc].node, g.Nodes(reg[prog[pc].src])))
    ensures BinderOk(g, prog, NumBinds(prog, pc), b, reg)
  {
  }

  /** Pushing the binder of a `Bind` leaves a state ready to backtrack with
      fewer candidates left than before the push. */
  lemma PushStep(g: EGraph, prog: seq<Instruction>, pc: nat, reg: seq<Id>, stack: seq<Binder>, b: Binder)
    requires MachineInv(g, prog, pc, reg, stack) && prog[pc].Bind?
    requires prog[pc].src < |reg| && reg[prog[pc].src] < |g.canon|
    requires MapChildren(prog[pc].node, IdMax) !in g.Nodes(reg[prog[pc].src])
    requires b == Binder(prog[pc].out, pc + 1, NewSearcher(prog[pc].node, g.Nodes(reg[prog[pc].src])))
    ensures PreInv(g, prog, pc + 1, reg, stack + [b])
    ensures Measure(g, prog, stack + [b]) < Measure(g, prog, stack)
  {
    PushPreserves(g, prog, pc, reg, stack, b);
    StackBounded(g, prog, pc + 1, reg, stack + [b]);
    assert (stack + [b])[|stack|] == b;
    forall j | 0 <= j < |stack| ensures |stack[j].searcher.nodes| <= g.MaxClassSize() {
      assert (stack + [b])[j] == stack[j];
    }
    PushShrinks(g, prog, stack, b);
  }

  /** An instruction other than `Bind` that fails leaves a state ready to
      backtrack. */
  lemma FailPreserves(g: EGraph, prog: seq<Instruction>, pc: nat, reg: seq<Id>, stack: seq<Binder>)
    requires MachineInv(g, prog, pc, reg, stack) && !prog[pc].Bind?
    ensures PreInv(g, prog, pc + 1, reg, stack)
  {
  }

  /** A `Check` or `Compare` that holds moves on to the next instruction. */
  lemma PassPreserves(g: EGraph, prog: seq<Instruction>, pc: nat, reg: seq<Id>, stack: seq<Binder>)
    requires MachineInv(g, prog, pc, reg, stack) && (prog[pc].Check? || prog[pc].Compare?)
    requires InstrHolds(g, prog[pc], reg)
    ensures MachineInv(g, prog, pc + 1, reg, stack)
  {
  }

  // ---- Termination: the candidates left on the stack, read as a number ----

  function Pow(base: nat, e: nat): (r: nat)
    ensures base > 0 ==> r > 0
  {
    if e == 0 then 1 else base * Pow(base, e - 1)
  }

  /** `cs` read as a numeral in base `base`, most significant digit first. */
  function Rank(cs: seq<nat>, base: nat): nat {
    if |cs| == 0 then 0 else cs[0] * Pow(base, |cs| - 1) + Rank(cs[1..], base)
  }

  /** A digit below `d1`, followed by a lower part below `p`, stays below `d1 * p`. */
  lemma DigitBelow(d: nat, rest: nat, p: nat, d1: nat)
    requires d < d1 && rest < p
    ensures d * p + rest < d1 * p
  {
    assert (d + 1) * p <= d1 * p;
  }

  lemma {:induction false} RankBound(cs: seq<nat>, base: nat)
    requires forall k :: 0 <= k < |cs| ==> cs[k] < base
    ensures Rank(cs, base) < Pow(base, |cs|)
    decreases |cs|
  {
    if |cs| > 0 {
      RankBound(cs[1..], base);
      DigitBelow(cs[0], Rank(cs[1..], base), Pow(base, |cs| - 1), base);
    }
  }

  /** A smaller digit at `t`, with the digits before `t` equal, is a smaller numeral. */
  lemma {:induction false} RankLexDecrease(a: seq<nat>, b: seq<nat>, t: nat, base: nat)
    requires |a| == |b| && t < |a| && b[t] < a[t]
    requires forall k :: 0 <= k < t ==> a[k] == b[k]
    requires forall k :: 0 <= k < |b| ==> b[k] < base
    ensures Rank(b, base) < Rank(a, base)
    decreases t
  {
    if t == 0 {
      RankBound(b[1..], base);
      DigitBelow(b[0], Rank(b[1..], base), Pow(base, |a| - 1), a[0]);
      assert Rank(a, base) >= a[0] * Pow(base, |a| - 1);
    } else {
      RankLexDecrease(a[1..], b[1..], t - 1, base);
    }
  }

  /** One digit per `Bind` of the program: the candidates its binder has
      left, or `cap` when it has no binder on the stack. */
  function Counts(stack: seq<Binder>, slots: nat, cap: nat): (r: seq<nat>)
    ensures |r| == slots
    ensures forall j :: 0 <= j < slots ==> r[j] == if j < |stack| then |stack[j].searcher.nodes| else cap
  {
    seq(slots, j requires 0 <= j < slots => if j < |stack| then |stack[j].searcher.nodes| else cap)
  }

  /** The termination measure of the machine: it drops with every push of a
      binder and every successful backtrack. */
  function Measure(g: EGraph, prog: seq<Instruction>, stack: seq<Binder>): nat {
    Rank(Counts(stack, NumBinds(prog, |prog|), g.MaxClassSize() + 1), g.MaxClassSize() + 2)
  }

  /** The digits of two stacks agree below `t` and the later stack has fewer
      candidates left at `t` (a missing binder counts as `cap`). */
  lemma CountsShrink(stack0: seq<Binder>, stack1: seq<Binder>, t: nat, nb: nat, cap: nat)
    requires t <= |stack0| <= nb && t < |stack1| <= nb
    requires forall j :: 0 <= j < t ==> |stack1[j].searcher.nodes| == |stack0[j].searcher.nodes|
    requires |stack1[t].searcher.nodes| < if t < |stack0| then |stack0[t].searcher.nodes| else cap
    requires forall j :: 0 <= j < |stack1| ==> |stack1[j].searcher.nodes| < cap
    ensures Rank(Counts(stack1, nb, cap), cap + 1) < Rank(Counts(stack0, nb, cap), cap + 1)
  {
    var a, c := Counts(stack0, nb, cap), Counts(stack1, nb, cap);
    RankLexDecrease(a, c, t, cap + 1);
  }

  lemma PushShrinks(g: EGraph, prog: seq<Instruction>, stack: seq<Binder>, b: Binder)
    requires |stack| < NumBinds(prog, |prog|)
    requires forall j :: 0 <= j < |stack| ==> |stack[j].searcher.nodes| <= g.MaxClassSize()
    requires |b.searcher.nodes| <= g.MaxClassSize()
    ensures Measure(g, prog, stack + [b]) < Measure(g, prog, stack)
  {
    var stack1 := stack + [b];
    assert forall j :: 0 <= j < |stack1| ==> |stack1[j].searcher.nodes| < g.MaxClassSize() + 1;
    CountsShrink(stack, stack1, |stack|, NumBinds(prog, |prog|), g.MaxClassSize() + 1);
  }

  /** Every binder of a state ready to backtrack has a valid searcher with at
      most as many candidates as the largest class, and there are no more
      binders than `Bind`s. */
  lemma StackBounded(g: EGraph, prog: seq<Instruction>, p: nat, reg: seq<Id>, stack: seq<Binder>)
    requires PreInv(g, prog, p, reg, stack)
    ensures |stack| <= NumBinds(prog, |prog|)
    ensures forall j :: 0 <= j < |stack| ==> |stack[j].searcher.nodes| <= g.MaxClassSize()
    ensures forall j :: 0 <= j < |stack| ==> stack[j].searcher.Valid()
  {
    NextRegMonotone(prog, p, |prog|);
    forall j | 0 <= j < |stack|
      ensures |stack[j].searcher.nodes| <= g.MaxClassSize() && stack[j].searcher.Valid()
    {
      assert BinderOk(g, prog, j, stack[j], reg);
    }
  }

  lemma BacktrackedShrinks(stack0: seq<Binder>, reg0: seq<Id>, stack1: seq<Binder>, reg1: seq<Id>, pc1: nat,
                           nb: nat, cap: nat)
    requires Backtracked(stack0, reg0, stack1, reg1, pc1)
    requires |stack0| <= nb && forall j :: 0 <= j < |stack0| ==> |stack0[j].searcher.nodes| < cap
    ensures Rank(Counts(stack1, nb, cap), cap + 1) < Rank(Counts(stack0, nb, cap), cap + 1)
  {
    var t := |stack1| - 1;
    forall j | 0 <= j < t ensures stack1[j] == stack0[j] {
      assert stack1[j] == stack1[..t][j] == stack0[..t][j];
    }
    CountsShrink(stack0, stack1, t, nb, cap);
  }

  lemma BacktrackShrinks(g: EGraph, prog: seq<Instruction>, p: nat, reg0: seq<Id>, stack0: seq<Binder>,
                         reg1: seq<Id>, stack1: seq<Binder>, pc1: nat)
    requires PreInv(g, prog, p, reg0, stack0)
    requires Backtracked(stack0, reg0, stack1, reg1, pc1)
    ensures Measure(g, prog, stack1) < Measure(g, prog, stack0)
  {
    StackBounded(g, prog, p, reg0, stack0);
    BacktrackedShrinks(stack0, reg0, stack1, reg1, pc1, NumBinds(prog, |prog|), g.MaxClassSize() + 1);
  }
}
