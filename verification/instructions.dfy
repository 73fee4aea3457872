/** The instruction set of the pattern machine and the shape every compiled
    program has: registers are numbered in order of allocation, a `Bind`
    allocates the next block of registers for its node's children, and an
    instruction only reads registers allocated before it. */
module Instructions {
  import opened Lang

  type Reg = nat
  type Addr = nat

  datatype Instruction =
    | Bind(src: Reg, node: ENode, out: Reg)
    | Check(reg: Reg, leaf: ENode)
    | Compare(a: Reg, b: Reg)
    | Yield(regs: seq<Reg>)

  /** The register counter after the first `p` instructions: register 0 holds
      the start class and each `Bind` allocates one register per child. */
  function NextReg(prog: seq<Instruction>, p: nat): (r: nat)
    requires p <= |prog|
    ensures r >= 1
  {
    if p == 0 then 1
    else NextReg(prog, p - 1) + (if prog[p - 1].Bind? then |prog[p - 1].node.children| else 0)
  }

  /** How many of the first `p` instructions are `Bind`s. */
  function NumBinds(prog: seq<Instruction>, p: nat): nat
    requires p <= |prog|
  {
    if p == 0 then 0
    else NumBinds(prog, p - 1) + (if prog[p - 1].Bind? then 1 else 0)
  }

  /** Every register the instruction reads is below `n`. */
  predicate ReadsBelow(instr: Instruction, n: nat) {
    match instr
    case Bind(src, _, _) => src < n
    case Check(reg, _) => reg < n
    case Compare(a, b) => a < n && b < n
    case Yield(regs) => forall k :: 0 <= k < |regs| ==> regs[k] < n
  }

  /** The instruction at `p` reads only allocated registers, a `Bind` writes
      the next free block and has children, and a `Check` tests a leaf. */
  predicate InstrWellFormed(prog: seq<Instruction>, p: nat)
    requires p < |prog|
  {
    ReadsBelow(prog[p], NextReg(prog, p)) &&
    (prog[p].Bind? ==> prog[p].out == NextReg(prog, p) && !IsLeaf(prog[p].node)) &&
    (prog[p].Check? ==> IsLeaf(prog[p].leaf))
  }

  /** The shape of a compiled program: well-formed instructions, ending in
      its only `Yield`. */
  predicate WellFormed(prog: seq<Instruction>) {
    |prog| > 0 && prog[|prog| - 1].Yield? &&
    (forall p :: 0 <= p < |prog| - 1 ==> !prog[p].Yield?) &&
    (forall p :: 0 <= p < |prog| ==> InstrWellFormed(prog, p))
  }

  lemma {:induction false} NextRegMonotone(prog: seq<Instruction>, p: nat, q: nat)
    requires p <= q <= |prog|
    ensures NextReg(prog, p) <= NextReg(prog, q)
    ensures NumBinds(prog, p) <= NumBinds(prog, q)
    decreases q - p
  {
    if p < q {
      NextRegMonotone(prog, p, q - 1);
    }
  }

  /** Extending a program leaves the counters of its existing prefix alone. */
  lemma {:induction false} NextRegPrefix(prog: seq<Instruction>, longer: seq<Instruction>, p: nat)
    requires prog <= longer && p <= |prog|
    ensures NextReg(longer, p) == NextReg(prog, p)
    ensures NumBinds(longer, p) == NumBinds(prog, p)
  {
    if p > 0 {
      NextRegPrefix(prog, longer, p - 1);
      assert longer[p - 1] == prog[p - 1];
    }
  }

  /** The register blocks of two `Bind`s of a compiled program are disjoint,
      later ones lie above earlier ones, and none contains register 0. */
  lemma BindRangesDisjoint(prog: seq<Instruction>, p: nat, q: nat)
    requires WellFormed(prog) && p < q < |prog| && prog[p].Bind? && prog[q].Bind?
    ensures 1 <= prog[p].out < prog[p].out + |prog[p].node.children| <= prog[q].out
  {
    assert InstrWellFormed(prog, p) && InstrWellFormed(prog, q);
    NextRegMonotone(prog, p + 1, q);
  }
}
