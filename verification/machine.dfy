/** The pattern machine (`Machine`): a program counter, a register file and
    a stack of choice points, run over a read-only e-graph and program. */
module Machines {
  import opened Lang
  import opened EGraphs
  import opened Searchers
  import opened Instructions
  import opened MachineSpec

  class Machine {
    const egraph: EGraph
    const program: seq<Instruction>
    var pc: nat
    var reg: seq<Id>
    var stack: seq<Binder>

    /** `Machine::new`: at the first instruction, with no registers and no
        choice points. */
    constructor(egraph: EGraph, program: seq<Instruction>)
      ensures this.egraph == egraph && this.program == program
      ensures pc == 0 && reg == [] && stack == []
    {
      this.egraph := egraph;
      this.program := program;
      pc := 0;
      reg := [];
      stack := [];
    }

    /** `find_reg`: the canonical id of the class that register `r` holds. */
    function FindReg(r: Reg): (id: Id)
      reads this
      requires egraph.Valid() && r < |reg| && reg[r] < |egraph.canon|
      ensures id < |egraph.canon| && egraph.canon[id] == id
      ensures egraph.Nodes(id) == egraph.Nodes(reg[r])
    {
      egraph.Find(reg[r])
    }

    /** `backtrack`: pops exhausted binders until the top one has a candidate
        left, which it takes: the register file is cut (or padded) to the
        binder's output block, the candidate's children are written into it,
        and execution resumes after the binder's `Bind`. With every binder
        exhausted it fails, leaving the stack empty and nothing else changed. */
    method Backtrack() returns (found: bool)
      requires forall j :: 0 <= j < |stack| ==> stack[j].searcher.Valid()
      modifies this
      ensures found ==> Backtracked(old(stack), old(reg), stack, reg, pc)
      ensures !found ==> stack == [] && Exhausted(old(stack)) && reg == old(reg) && pc == old(pc)
    {
      while |stack| > 0
        invariant |stack| <= |old(stack)| && stack == old(stack)[..|stack|]
        invariant Exhausted(old(stack)[|stack|..])
        invariant reg == old(reg) && pc == old(pc)
        decreases |stack|
      {
        var top := stack[|stack| - 1];
        var (matched, searcher) := top.searcher.Next();
        match matched
        case Some(n) =>
          var t := |stack| - 1;
          assert top == old(stack)[t] && stack[..t] == old(stack)[..t];
          stack := stack[..t] + [top.(searcher := searcher)];
          var newLen := top.out + |n.children|;
          var file := Resize(reg, newLen, 0);
          var i := top.out;
          while i < newLen
            invariant top.out <= i <= newLen && |file| == newLen
            invariant file[..top.out] == Resize(reg, top.out, 0)
            invariant file[top.out..i] == n.children[..i - top.out]
          {
            ghost var prev := file;
            file := file[i := n.children[i - top.out]];
            assert file[top.out..i] == prev[top.out..i];
            assert file[top.out..i + 1] == file[top.out..i] + [file[i]];
            assert n.children[..i + 1 - top.out] == n.children[..i - top.out] + [n.children[i - top.out]];
            i := i + 1;
          }
          assert file == file[..top.out] + file[top.out..i];
          reg := file;
          assert old(stack)[t + 1..] == old(stack)[|stack|..];
          pc := top.next;
          found := true;
          return;
        case None =>
          assert old(stack)[|stack| - 1..] == [top] + old(stack)[|stack|..];
          stack := stack[..|stack| - 1];
      }
      found := false;
    }

    /** The `backtrack!` step of `run` from a state ready to backtrack: on
        success the loop invariant holds again and fewer candidates are left
        on the stack; on failure the stack is empty. */
    method BacktrackStep(ghost p: nat) returns (found: bool)
      requires PreInv(egraph, program, p, reg, stack)
      modifies this
      ensures found ==> MachineInv(egraph, program, pc, reg, stack)
      ensures found ==> Measure(egraph, program, stack) < Measure(egraph, program, old(stack))
      ensures found ==> reg[0] == old(reg)[0]
      ensures found ==> Backtracked(old(stack), old(reg), stack, reg, pc)
      ensures !found ==> stack == [] && Exhausted(old(stack)) && reg == old(reg)
    {
      StackBounded(egraph, program, p, reg, stack);
      ghost var reg0, stack0 := reg, stack;
      found := Backtrack();
      if found {
        BacktrackPreserves(egraph, program, p, reg0, stack0, reg, stack, pc);
        BacktrackShrinks(egraph, program, p, reg0, stack0, reg, stack, pc);
        BacktrackKeepsRoot(egraph, program, p, reg0, stack0, reg, stack, pc);
      }
    }

    /** The `Bind` arm of `run`: pushes a binder searching the class of
        register `i` for nodes shaped like `node`, then backtracks into it. */
    method ExecBind(i: Reg, node: ENode, out: Reg) returns (found: bool)
      requires 1 <= pc && MachineInv(egraph, program, pc - 1, reg, stack)
      requires program[pc - 1] == Bind(i, node, out)
      modifies this
      ensures found ==> MachineInv(egraph, program, pc, reg, stack) && reg[0] == old(reg)[0]
      ensures found ==> Measure(egraph, program, stack) < Measure(egraph, program, old(stack))
      ensures i < |old(reg)| && MapChildren(node, IdMax) !in egraph.Nodes(old(reg)[i])
      ensures var b := Binder(out, old(pc), NewSearcher(node, egraph.Nodes(old(reg)[i])));
              (found ==> Backtracked(old(stack) + [b], old(reg), stack, reg, pc)) &&
              (!found ==> stack == [] && Exhausted(old(stack) + [b]))
      ensures Step(egraph, program, State(old(pc) - 1, old(reg), old(stack)), found, State(pc, reg, stack), [])
    {
      BindSentinelAbsent(egraph, program, pc - 1, reg, stack);
      var b := Binder(out, pc, NewSearcher(node, egraph.Nodes(reg[i])));
      PushStep(egraph, program, pc - 1, reg, stack, b);
      stack := stack + [b];
      found := BacktrackStep(pc);
      BindIsStep(egraph, program, State(old(pc) - 1, old(reg), old(stack)), found, State(pc, reg, stack), i, node, out);
    }

    /** The `Check` arm of `run`: the class of register `i` must contain the
        leaf `t`, or the machine backtracks. */
    method ExecCheck(i: Reg, t: ENode) returns (found: bool)
      requires 1 <= pc && MachineInv(egraph, program, pc - 1, reg, stack)
      requires program[pc - 1] == Check(i, t)
      modifies this
      ensures found ==> MachineInv(egraph, program, pc, reg, stack) && reg[0] == old(reg)[0]
      ensures found ==> Measure(egraph, program, stack) < Measure(egraph, program, old(stack)) ||
                        (stack == old(stack) && pc == old(pc))
      ensures i < |old(reg)|
      ensures t in egraph.Nodes(old(reg)[i]) ==>
                found && stack == old(stack) && reg == old(reg) && pc == old(pc)
      ensures t !in egraph.Nodes(old(reg)[i]) ==>
                (found ==> Backtracked(old(stack), old(reg), stack, reg, pc)) &&
                (!found ==> stack == [] && Exhausted(old(stack)) && reg == old(reg))
      ensures Step(egraph, program, State(old(pc) - 1, old(reg), old(stack)), found, State(pc, reg, stack), [])
    {
      assert InstrWellFormed(program, pc - 1);
      assert IsLeaf(t);
      var id := reg[i];
      if t !in egraph.Nodes(id) {
        FailPreserves(egraph, program, pc - 1, reg, stack);
        found := BacktrackStep(pc);
      } else {
        PassPreserves(egraph, program, pc - 1, reg, stack);
        found := true;
      }
      CheckIsStep(egraph, program, State(old(pc) - 1, old(reg), old(stack)), found, State(pc, reg, stack), i, t);
    }

    /** The `Compare` arm of `run`: registers `i` and `j` must hold ids of
        one class, or the machine backtracks. */
    method ExecCompare(i: Reg, j: Reg) returns (found: bool)
      requires 1 <= pc && MachineInv(egraph, program, pc - 1, reg, stack)
      requires program[pc - 1] == Compare(i, j)
      modifies this
      ensures found ==> MachineInv(egraph, program, pc, reg, stack) && reg[0] == old(reg)[0]
      ensures found ==> Measure(egraph, program, stack) < Measure(egraph, program, old(stack)) ||
                        (stack == old(stack) && pc == old(pc))
      ensures i < |old(reg)| && j < |old(reg)|
      ensures egraph.Find(old(reg)[i]) == egraph.Find(old(reg)[j]) ==>
                found && stack == old(stack) && reg == old(reg) && pc == old(pc)
      ensures egraph.Find(old(reg)[i]) != egraph.Find(old(reg)[j]) ==>
                (found ==> Backtracked(old(stack), old(reg), stack, reg, pc)) &&
                (!found ==> stack == [] && Exhausted(old(stack)) && reg == old(reg))
      ensures Step(egraph, program, State(old(pc) - 1, old(reg), old(stack)), found, State(pc, reg, stack), [])
    {
      assert InstrWellFormed(program, pc - 1);
      if FindReg(i) != FindReg(j) {
        FailPreserves(egraph, program, pc - 1, reg, stack);
        found := BacktrackStep(pc);
      } else {
        PassPreserves(egraph, program, pc - 1, reg, stack);
        found := true;
      }
      CompareIsStep(egraph, program, State(old(pc) - 1, old(reg), old(stack)), found, State(pc, reg, stack), i, j);
    }

    /** The `Yield` arm of `run`: the current register file is handed out,
        then the machine backtracks to look for the next match. */
    method ExecYield(regs: seq<Reg>) returns (found: bool, ev: YieldEvent)
      requires 1 <= pc && MachineInv(egraph, program, pc - 1, reg, stack)
      requires program[pc - 1] == Yield(regs)
      modifies this
      ensures ev == YieldEvent(old(reg), regs) && YieldOk(egraph, program, ev)
      ensures found ==> MachineInv(egraph, program, pc, reg, stack) && reg[0] == old(reg)[0]
      ensures found ==> Measure(egraph, program, stack) < Measure(egraph, program, old(stack))
      ensures found ==> Backtracked(old(stack), old(reg), stack, reg, pc)
      ensures !found ==> stack == [] && Exhausted(old(stack)) && reg == old(reg)
      ensures Step(egraph, program, State(old(pc) - 1, old(reg), old(stack)), found, State(pc, reg, stack), [ev])
    {
      assert InstrWellFormed(program, pc - 1);
      assert pc - 1 == |program| - 1;
      ev := YieldEvent(reg, regs);
      FailPreserves(egraph, program, pc - 1, reg, stack);
      found := BacktrackStep(pc);
      YieldIsStep(egraph, program, State(old(pc) - 1, old(reg), old(stack)), found, State(pc, reg, stack), regs);
    }

    /** One turn of `run`'s loop: fetches the instruction at `pc`, steps
        past it and executes its arm. */
    method Turn() returns (found: bool, out: seq<YieldEvent>)
      requires MachineInv(egraph, program, pc, reg, stack)
      modifies this
      ensures Step(egraph, program, State(old(pc), old(reg), old(stack)), found, State(pc, reg, stack), out)
      ensures found ==> MachineInv(egraph, program, pc, reg, stack) && reg[0] == old(reg)[0]
      ensures found ==> Measure(egraph, program, stack) < Measure(egraph, program, old(stack)) ||
                        (stack == old(stack) && pc == old(pc) + 1)
      ensures !found ==> stack == []
      ensures forall k :: 0 <= k < |out| ==>
                YieldOk(egraph, program, out[k]) && |out[k].reg| > 0 && out[k].reg[0] == old(reg)[0]
    {
      var instr := program[pc];
      pc := pc + 1;
      out := [];
      match instr {
        case Bind(i, node, o) =>
          found := ExecBind(i, node, o);
        case Check(i, t) =>
          found := ExecCheck(i, t);
        case Compare(i, j) =>
          found := ExecCompare(i, j);
        case Yield(regs) =>
          var ev;
          found, ev := ExecYield(regs);
          out := [ev];
      }
    }

    /** `run`: executes the program from `pc` until backtracking finds no
        choice point left. Every register file reaching the `Yield` is handed
        to the caller, here returned in order as an event; each satisfies
        every instruction of the program. The ghost `trace` lists the states
        the loop passes through, each turn a `Step` whose yielded events,
        `outs`, make up `events`; only the last turn ends the run. */
    method Run() returns (events: seq<YieldEvent>, ghost trace: seq<State>, ghost outs: seq<seq<YieldEvent>>)
      requires MachineInv(egraph, program, pc, reg, stack)
      modifies this
      ensures stack == []
      ensures forall k :: 0 <= k < |events| ==> YieldOk(egraph, program, events[k])
      ensures forall k :: 0 <= k < |events| ==> |events[k].reg| > 0 && events[k].reg[0] == old(reg)[0]
      ensures |outs| > 0 && Ran(egraph, program, trace, outs, false)
      ensures trace[0] == State(old(pc), old(reg), old(stack)) && trace[|outs|] == State(pc, reg, stack)
      ensures events == Concat(outs)
    {
      events := [];
      trace := [State(pc, reg, stack)];
      outs := [];
      while true
        invariant MachineInv(egraph, program, pc, reg, stack) && reg[0] == old(reg)[0]
        invariant forall k :: 0 <= k < |events| ==> YieldOk(egraph, program, events[k])
        invariant forall k :: 0 <= k < |events| ==> |events[k].reg| > 0 && events[k].reg[0] == old(reg)[0]
        invariant Ran(egraph, program, trace, outs, true)
        invariant trace[0] == State(old(pc), old(reg), old(stack)) && trace[|outs|] == State(pc, reg, stack)
        invariant events == Concat(outs)
        decreases Measure(egraph, program, stack), |program| - pc
      {
        var found, out := Turn();
        RanStep(egraph, program, trace, outs, found, State(pc, reg, stack), out);
        events := events + out;
        trace := trace + [State(pc, reg, stack)];
        outs := outs + [out];
        if !found {
          return;
        }
      }
    }
  }
}
