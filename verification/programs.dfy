/** A compiled pattern (`Program`): the instructions and the registers of the
    pattern's variables, in first-seen order. `compile_from_pat` builds one
    from a flat pattern; `run` executes it on the pattern machine from one
    e-class and turns every yielded register file into a substitution.

    What a substitution means is stated by `MatchesAt`: the pattern's root
    matches the start class when its variables are bound as the substitution
    says. `YieldedMatches` proves that every substitution `run` returns is
    such a match. */
module Programs {
  import opened Lang
  import opened EGraphs
  import opened Instructions
  import opened Compiler
  import opened MachineSpec
  import opened Machines

  /** `Subst`: the id each variable is bound to. */
  type Subst = map<Var, Id>

  /** Pattern slot `i` matches the class of `id` under `s`: a variable is
      bound to an id of that class, and a node slot has a node in the class
      with the same operator and arity whose children match its children. */
  ghost predicate MatchesAt(g: EGraph, pattern: seq<ENodeOrVar>, i: nat, id: Id, s: Subst)
    requires g.Valid() && PatternOk(pattern) && i < |pattern| && id < |g.canon|
    decreases i
  {
    match pattern[i]
    case VarSlot(v) => v in s && s[v] < |g.canon| && g.Find(s[v]) == g.Find(id)
    case ENodeSlot(e) =>
      exists n :: n in g.Nodes(id) && Matches(e, n) &&
        forall k :: 0 <= k < |e.children| ==>
          n.children[k] < |g.canon| && MatchesAt(g, pattern, e.children[k], n.children[k], s)
  }

  /** The set of keys of an `IndexMap`. */
  function Keys(v2r: seq<(Var, Reg)>): (r: set<Var>)
    ensures forall k :: 0 <= k < |v2r| ==> v2r[k].0 in r
  {
    if |v2r| == 0 then {} else Keys(v2r[..|v2r| - 1]) + {v2r[|v2r| - 1].0}
  }

  /** `Keys` holds nothing but the keys of the pairs. */
  lemma {:induction false} KeysOnly(v2r: seq<(Var, Reg)>, x: Var)
    requires x in Keys(v2r)
    ensures exists k :: 0 <= k < |v2r| && v2r[k].0 == x
  {
    var n := |v2r| - 1;
    if x != v2r[n].0 {
      KeysOnly(v2r[..n], x);
      var k :| 0 <= k < n && v2r[..n][k].0 == x;
      assert v2r[k].0 == x;
    }
  }

  /** `s` binds exactly the variables of `v2r`, each to the id its register
      holds in `reg`. */
  predicate SubstFrom(v2r: seq<(Var, Reg)>, reg: seq<Id>, s: Subst) {
    s.Keys == Keys(v2r) &&
    forall k :: 0 <= k < |v2r| ==> v2r[k].1 < |reg| && v2r[k].0 in s && s[v2r[k].0] == reg[v2r[k].1]
  }

  /** `prog` is what `compile` makes of `pattern` from its root: some
      assignment `slots` of pattern slots to registers, with the root in
      register 0, is kept by every instruction, every register is tested or
      recorded, and the instructions plus variables number the slot
      occurrences of the pattern's tree. */
  ghost predicate CompiledFrom(pattern: seq<ENodeOrVar>, prog: Program) {
    PatternOk(pattern) && |prog.instrs| > 0 && prog.instrs[|prog.instrs| - 1] == Yield(Values(prog.v2r)) &&
    |prog.instrs| - 1 + |prog.v2r| == Size(pattern, |pattern| - 1) &&
    exists slots: seq<nat> :: |slots| > 0 && slots[0] == |pattern| - 1 &&
      CompileState(pattern, [], [], prog.v2r, |slots|, slots, prog.instrs[..|prog.instrs| - 1])
  }

  datatype Program = Program(v2r: seq<(Var, Reg)>, instrs: seq<Instruction>) {

    /** The shape `compile` gives every program: well-formed instructions
        ending in the `Yield` of the recorded registers, one per variable. */
    predicate Valid() {
      WellFormed(instrs) && instrs[|instrs| - 1] == Yield(Values(v2r)) && DistinctKeys(v2r)
    }

    /** `Program::compile_from_pat`: compiles the pattern from its root (its
        last slot), which register 0 will hold. */
    static method CompileFromPat(pattern: seq<ENodeOrVar>) returns (prog: Program)
      requires PatternOk(pattern)
      ensures prog.Valid() && CompiledFrom(pattern, prog)
    {
      var root := |pattern| - 1;
      var r2p := [(0, pattern[root])];
      ghost var slots0 := [root];
      assert r2p[0] in r2p;
      assert [root][..0] == [];
      var v2r, instrs, slots := Compile(pattern, r2p, [], 1, [], slots0, [root]);
      prog := Program(v2r, instrs);
      assert slots[0] == root;
    }

    /** `Program::run`: starts a machine with the class `eclass` in register
        0 and turns each register file it yields into a substitution of the
        variables, in order. Every substitution comes from one yielded file,
        which satisfies every instruction and still holds `eclass` in
        register 0. The ghost `trace` and `outs` are the machine's run from
        `eclass`: a sequence of `Step`s whose outputs are `events`, so there
        is one substitution per executed `Yield`, in order. */
    method Run(g: EGraph, eclass: Id)
      returns (substs: seq<Subst>, ghost events: seq<YieldEvent>,
               ghost trace: seq<State>, ghost outs: seq<seq<YieldEvent>>)
      requires g.Valid() && Valid() && eclass < |g.canon|
      ensures |outs| > 0 && Ran(g, instrs, trace, outs, false) && trace[0] == State(0, [eclass], [])
      ensures events == Concat(outs)
      ensures |substs| == |events|
      ensures forall k :: 0 <= k < |events| ==>
                YieldOk(g, instrs, events[k]) && events[k].reg[0] == eclass &&
                SubstFrom(v2r, events[k].reg, substs[k])
    {
      var machine := new Machine(g, instrs);
      machine.reg := machine.reg + [eclass];
      assert MachineInv(g, instrs, 0, [eclass], []);
      var yielded;
      yielded, trace, outs := machine.Run();
      events := yielded;
      substs := [];
      for k := 0 to |yielded|
        invariant |substs| == k
        invariant forall j :: 0 <= j < k ==> SubstFrom(v2r, yielded[j].reg, substs[j])
      {
        var ev := yielded[k];
        assert YieldOk(g, instrs, ev);
        var s := MakeSubst(ev.reg, ev.regs);
        assert v2r[..|ev.regs|] == v2r;
        substs := substs + [s];
      }
    }

    /** The callback `run` hands to the machine: binds the `i`-th variable of
        `v2r` to the id in the `i`-th register the `Yield` names. */
    method MakeSubst(file: seq<Id>, regs: seq<Reg>) returns (s: Subst)
      requires DistinctKeys(v2r) && |regs| <= |v2r|
      requires forall k :: 0 <= k < |regs| ==> regs[k] < |file|
      ensures s.Keys == Keys(v2r[..|regs|])
      ensures forall k :: 0 <= k < |regs| ==> v2r[k].0 in s && s[v2r[k].0] == file[regs[k]]
    {
      s := map[];
      for i := 0 to |regs|
        invariant s.Keys == Keys(v2r[..i])
        invariant forall k :: 0 <= k < i ==> v2r[k].0 in s && s[v2r[k].0] == file[regs[k]]
      {
        assert v2r[..i + 1][..i] == v2r[..i];
        assert Keys(v2r[..i + 1]) == Keys(v2r[..i]) + {v2r[i].0};
        ghost var prev := s;
        s := s[v2r[i].0 := file[regs[i]]];
        forall k | 0 <= k < i ensures s[v2r[k].0] == prev[v2r[k].0] {
          assert v2r[k].0 != v2r[i].0;
        }
      }
    }
  }

  /** An instruction testing register `r`, when some instruction does. */
  lemma {:induction false} SubjectAt(buf: seq<Instruction>, r: Reg) returns (p: nat)
    requires r in Subjects(buf)
    ensures p < |buf| && r in Subject(buf[p])
  {
    if r in Subject(buf[|buf| - 1]) {
      p := |buf| - 1;
    } else {
      p := SubjectAt(buf[..|buf| - 1], r);
    }
  }

  /** The facts a compiled program's instruction at `p` gives about a
      register file that satisfies it. */
  lemma Emitted(g: EGraph, pattern: seq<ENodeOrVar>, v2r: seq<(Var, Reg)>,
                slots: seq<nat>, body: seq<Instruction>, reg: seq<Id>, p: nat)
    requires g.Valid() && CompileState(pattern, [], [], v2r, |slots|, slots, body)
    requires Satisfied(g, body + [Yield(Values(v2r))], |body|, reg)
    requires p < |body|
    ensures EmittedOk(pattern, slots, v2r, body, p) && InstrHolds(g, body[p], reg)
  {
    assert (body + [Yield(Values(v2r))])[p] == body[p];
  }

  /** A variable's first register matches its slot. */
  lemma RecordedMatches(g: EGraph, pattern: seq<ENodeOrVar>, v2r: seq<(Var, Reg)>,
                        slots: seq<nat>, reg: seq<Id>, s: Subst, r: Reg)
    requires g.Valid() && PatternOk(pattern) && ValidIds(g, reg) && SubstFrom(v2r, reg, s)
    requires forall k :: 0 <= k < |v2r| ==> v2r[k].1 < |slots| && slots[v2r[k].1] < |pattern| &&
                                             pattern[slots[v2r[k].1]] == VarSlot(v2r[k].0)
    requires r in Recorded(v2r) && r < |slots| && r < |reg| && slots[r] < |pattern|
    ensures MatchesAt(g, pattern, slots[r], reg[r], s)
  {
    var entry :| entry in v2r && entry.1 == r;
    var k :| 0 <= k < |v2r| && v2r[k] == entry;
    assert pattern[slots[r]] == VarSlot(entry.0);
  }

  /** A node slot matches a class holding a node of its shape whose children
      match its children. */
  lemma NodeMatches(g: EGraph, pattern: seq<ENodeOrVar>, slot: nat, e: ENode, id: Id, n: ENode, s: Subst)
    requires g.Valid() && PatternOk(pattern) && slot < |pattern| && pattern[slot] == ENodeSlot(e)
    requires id < |g.canon| && n in g.Nodes(id) && Matches(e, n)
    requires forall k :: 0 <= k < |e.children| ==>
               n.children[k] < |g.canon| && MatchesAt(g, pattern, e.children[k], n.children[k], s)
    ensures MatchesAt(g, pattern, slot, id, s)
  {
  }

  /** In a register file that satisfies a compiled program, every register
      matches the pattern slot it stands for, under the substitution read
      off the variables' registers. */
  lemma {:induction false} RegisterMatches(g: EGraph, pattern: seq<ENodeOrVar>, v2r: seq<(Var, Reg)>,
                                           slots: seq<nat>, body: seq<Instruction>, reg: seq<Id>, s: Subst, r: Reg)
    requires g.Valid() && CompileState(pattern, [], [], v2r, |slots|, slots, body)
    requires |reg| == |slots| && ValidIds(g, reg)
    requires Satisfied(g, body + [Yield(Values(v2r))], |body|, reg)
    requires SubstFrom(v2r, reg, s)
    requires r < |slots|
    ensures MatchesAt(g, pattern, slots[r], reg[r], s)
    decreases slots[r], 1
  {
    assert r !in Pending([]);
    if r in Recorded(v2r) {
      RecordedMatches(g, pattern, v2r, slots, reg, s, r);
    } else {
      var p := SubjectAt(body, r);
      Emitted(g, pattern, v2r, slots, body, reg, p);
      match body[p]
      case Bind(_, _, _) =>
        BindRegisterMatches(g, pattern, v2r, slots, body, reg, s, p);
      case Check(_, e) =>
        NodeMatches(g, pattern, slots[r], e, reg[r], e, s);
      case Compare(a, _) =>
        CompareMatches(g, pattern, v2r, slots, reg, s, a, r);
      case Yield(_) =>
    }
  }

  /** The register a `Bind` reads matches its node slot: the node it found
      has children that match the slot's children, by induction. */
  lemma {:induction false} BindRegisterMatches(g: EGraph, pattern: seq<ENodeOrVar>, v2r: seq<(Var, Reg)>,
                                               slots: seq<nat>, body: seq<Instruction>, reg: seq<Id>, s: Subst, p: nat)
    requires g.Valid() && CompileState(pattern, [], [], v2r, |slots|, slots, body)
    requires |reg| == |slots| && ValidIds(g, reg)
    requires Satisfied(g, body + [Yield(Values(v2r))], |body|, reg)
    requires SubstFrom(v2r, reg, s)
    requires p < |body| && body[p].Bind?
    requires EmittedOk(pattern, slots, v2r, body, p) && InstrHolds(g, body[p], reg)
    ensures MatchesAt(g, pattern, slots[body[p].src], reg[body[p].src], s)
    decreases slots[body[p].src], 0
  {
    var Bind(src, e, out) := body[p];
    var n :| n in g.Nodes(reg[src]) && Matches(e, n) && reg[out..out + |e.children|] == n.children;
    forall k | 0 <= k < |e.children|
      ensures n.children[k] < |g.canon| && MatchesAt(g, pattern, e.children[k], n.children[k], s)
    {
      assert reg[out + k] == n.children[k];
      assert slots[out + k] == e.children[k] < slots[src];
      RegisterMatches(g, pattern, v2r, slots, body, reg, s, out + k);
    }
    NodeMatches(g, pattern, slots[src], e, reg[src], n, s);
  }

  /** A repeated variable's register matches its slot when it holds an id of
      the class of the variable's first register. */
  lemma CompareMatches(g: EGraph, pattern: seq<ENodeOrVar>, v2r: seq<(Var, Reg)>,
                       slots: seq<nat>, reg: seq<Id>, s: Subst, a: Reg, r: Reg)
    requires g.Valid() && PatternOk(pattern) && ValidIds(g, reg) && SubstFrom(v2r, reg, s)
    requires a < |slots| && r < |slots| && a < |reg| && r < |reg| && slots[a] < |pattern| && slots[r] < |pattern|
    requires pattern[slots[a]].VarSlot? && (pattern[slots[a]].v, a) in v2r && pattern[slots[r]] == pattern[slots[a]]
    requires g.Find(reg[a]) == g.Find(reg[r])
    ensures MatchesAt(g, pattern, slots[r], reg[r], s)
  {
    var v := pattern[slots[a]].v;
    var k :| 0 <= k < |v2r| && v2r[k] == (v, a);
    assert s[v] == reg[a];
  }

  /** Soundness of `run`: the pattern's root matches the start class under
      every substitution the machine yields. */
  lemma YieldedMatches(g: EGraph, pattern: seq<ENodeOrVar>, prog: Program, eclass: Id, ev: YieldEvent, s: Subst)
    requires CompiledFrom(pattern, prog) && eclass < |g.canon|
    requires YieldOk(g, prog.instrs, ev) && |ev.reg| > 0 && ev.reg[0] == eclass
    requires SubstFrom(prog.v2r, ev.reg, s)
    ensures g.Valid() && MatchesAt(g, pattern, |pattern| - 1, eclass, s)
  {
    var slots :| |slots| > 0 && slots[0] == |pattern| - 1 &&
      CompileState(pattern, [], [], prog.v2r, |slots|, slots, prog.instrs[..|prog.instrs| - 1]);
    YieldedFile(g, pattern, prog, ev, s, slots);
  }

  /** Register 0 of a yielded file matches the slot the compiler assigned
      to it, for any slot assignment that satisfies the compiler's invariant. */
  lemma YieldedFile(g: EGraph, pattern: seq<ENodeOrVar>, prog: Program, ev: YieldEvent, s: Subst, slots: seq<nat>)
    requires |prog.instrs| > 0 && prog.instrs[|prog.instrs| - 1] == Yield(Values(prog.v2r))
    requires |slots| > 0 && CompileState(pattern, [], [], prog.v2r, |slots|, slots, prog.instrs[..|prog.instrs| - 1])
    requires YieldOk(g, prog.instrs, ev) && |ev.reg| > 0
    requires SubstFrom(prog.v2r, ev.reg, s)
    ensures slots[0] < |pattern| && ev.reg[0] < |g.canon| && MatchesAt(g, pattern, slots[0], ev.reg[0], s)
  {
    var body := prog.instrs[..|prog.instrs| - 1];
    assert prog.instrs == body + [Yield(Values(prog.v2r))];
    assert |ev.reg| == |slots| by {
      NextRegPrefix(body, prog.instrs, |body|);
    }
    RegisterMatches(g, pattern, prog.v2r, slots, body, ev.reg, s, 0);
  }

  /** A pattern that is a bare variable compiles to a lone `Yield` of
      register 0, the variable's only register. */
  lemma BareVariable(v: Var, prog: Program)
    requires CompiledFrom([VarSlot(v)], prog)
    ensures prog.instrs == [Yield([0])] && prog.v2r == [(v, 0)]
  {
    var pattern := [VarSlot(v)];
    var slots :| |slots| > 0 && slots[0] == 0 &&
      CompileState(pattern, [], [], prog.v2r, |slots|, slots, prog.instrs[..|prog.instrs| - 1]);
    var body := prog.instrs[..|prog.instrs| - 1];
    assert Size(pattern, 0) == 1;
    assert |body| > 0 ==> EmittedOk(pattern, slots, prog.v2r, body, 0);
    assert |prog.v2r| == 0 ==> 0 !in Pending([]) + Recorded(prog.v2r);
    assert |body| == 0 && |prog.v2r| == 1;
    assert pattern[slots[prog.v2r[0].1]] == VarSlot(prog.v2r[0].0);
    assert prog.v2r == [(v, 0)];
    assert Values(prog.v2r) == [0];
    assert prog.instrs == body + [prog.instrs[0]];
  }
}
