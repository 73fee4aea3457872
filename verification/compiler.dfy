/** The pattern compiler (`compile`): turns a flat pattern into a linear list
    of instructions over registers, driven by a worklist `r2p` from registers to
    the pattern slots they must satisfy, and recording in `v2r` the register of
    each variable's first occurrence.

    The contract is stated through a ghost map `slots` from every allocated
    register to the pattern slot it stands for: each instruction tests what
    its registers' slots demand, and every register is tested. */
module Compiler {
  import opened Lang
  import opened Instructions

  type Var = string

  /** A pattern slot: an e-node whose children are indices of earlier slots,
      or a variable. */
  datatype ENodeOrVar = ENodeSlot(e: ENode) | VarSlot(v: Var)

  /** A flat pattern: non-empty, root last, children refer to earlier slots. */
  predicate PatternOk(pattern: seq<ENodeOrVar>) {
    |pattern| > 0 &&
    forall i, k :: 0 <= i < |pattern| && pattern[i].ENodeSlot? && 0 <= k < |pattern[i].e.children| ==>
      pattern[i].e.children[k] < i
  }

  /** The number of slot occurrences in the tree below slot `i` (shared
      sub-patterns counted once per occurrence). */
  ghost function Size(pattern: seq<ENodeOrVar>, i: nat): (s: nat)
    requires PatternOk(pattern) && i < |pattern|
    ensures s >= 1
    decreases i, 1, 0
  {
    match pattern[i]
    case VarSlot(_) => 1
    case ENodeSlot(e) => 1 + TotalSize(pattern, e.children, i)
  }

  ghost function TotalSize(pattern: seq<ENodeOrVar>, idxs: seq<nat>, bound: nat): nat
    requires PatternOk(pattern) && bound <= |pattern|
    requires forall k :: 0 <= k < |idxs| ==> idxs[k] < bound
    decreases bound, 0, |idxs|
  {
    if |idxs| == 0 then 0
    else TotalSize(pattern, idxs[..|idxs| - 1], bound) + Size(pattern, idxs[|idxs| - 1])
  }

  lemma {:induction false} TotalSizeAnyBound(pattern: seq<ENodeOrVar>, idxs: seq<nat>, b1: nat, b2: nat)
    requires PatternOk(pattern) && b1 <= |pattern| && b2 <= |pattern|
    requires forall k :: 0 <= k < |idxs| ==> idxs[k] < b1 && idxs[k] < b2
    ensures TotalSize(pattern, idxs, b1) == TotalSize(pattern, idxs, b2)
    decreases |idxs|
  {
    if |idxs| > 0 {
      TotalSizeAnyBound(pattern, idxs[..|idxs| - 1], b1, b2);
    }
  }

  /** Replacing a pending node by its children uses up that node's own slot. */
  lemma BindSize(pattern: seq<ENodeOrVar>, pend: seq<nat>, idx: nat, e: ENode)
    requires PatternOk(pattern) && idx < |pattern| && pattern[idx] == ENodeSlot(e)
    requires forall k :: 0 <= k < |pend| ==> pend[k] < |pattern|
    ensures forall k :: 0 <= k < |e.children| ==> e.children[k] < |pattern|
    ensures TotalSize(pattern, pend + e.children, |pattern|) + 1 == TotalSize(pattern, pend, |pattern|) + Size(pattern, idx)
  {
    TotalSizeAnyBound(pattern, e.children, idx, |pattern|);
    TotalSizeConcat(pattern, pend, e.children, |pattern|);
  }

  predicate DistinctKeys<K(==), V>(m: seq<(K, V)>) {
    forall i, j :: 0 <= i < j < |m| ==> m[i].0 != m[j].0
  }

  /** `IndexMap::get`: the value stored under `key`. */
  function Get<K(==), V>(m: seq<(K, V)>, key: K): (r: Option<V>)
    ensures r.None? <==> forall i :: 0 <= i < |m| ==> m[i].0 != key
    ensures r.Some? ==> (key, r.value) in m
  {
    if |m| == 0 then None
    else if m[0].0 == key then Some(m[0].1)
    else Get(m[1..], key)
  }

  /** `IndexMap::insert`: replaces the value of a present key in place and
      appends an absent one. */
  function Insert<K(==), V>(m: seq<(K, V)>, key: K, value: V): (r: seq<(K, V)>)
    ensures (forall i :: 0 <= i < |m| ==> m[i].0 != key) ==> r == m + [(key, value)]
    ensures (exists i :: 0 <= i < |m| && m[i].0 == key) ==> |r| == |m| && (key, value) in r
  {
    if |m| == 0 then [(key, value)]
    else if m[0].0 == key then [(key, value)] + m[1..]
    else [m[0]] + Insert(m[1..], key, value)
  }

  /** Inserting a present key overwrites the value at its first position,
      and every other entry stays where it was. */
  lemma {:induction false} InsertReplaces<K, V>(m: seq<(K, V)>, key: K, value: V, i: nat)
    requires i < |m| && m[i].0 == key && forall j :: 0 <= j < i ==> m[j].0 != key
    ensures Insert(m, key, value) == m[i := (key, value)]
  {
    if i > 0 {
      assert m[0].0 != key;
      InsertReplaces(m[1..], key, value, i - 1);
      assert [m[0]] + m[1..][i - 1 := (key, value)] == m[i := (key, value)];
    }
  }

  /** `v2r.values()`: the registers, in insertion order. */
  function Values(v2r: seq<(Var, Reg)>): (r: seq<Reg>)
    ensures |r| == |v2r| && forall k :: 0 <= k < |v2r| ==> r[k] == v2r[k].1
  {
    seq(|v2r|, k requires 0 <= k < |v2r| => v2r[k].1)
  }

  /** The register an emitted instruction tests. */
  function Subject(instr: Instruction): set<Reg> {
    match instr
    case Bind(src, _, _) => {src}
    case Check(reg, _) => {reg}
    case Compare(_, b) => {b}
    case Yield(_) => {}
  }

  function Subjects(buf: seq<Instruction>): set<Reg> {
    if |buf| == 0 then {} else Subjects(buf[..|buf| - 1]) + Subject(buf[|buf| - 1])
  }

  function Pending(r2p: seq<(Reg, ENodeOrVar)>): set<Reg> {
    set entry | entry in r2p :: entry.0
  }

  function Recorded(v2r: seq<(Var, Reg)>): set<Reg> {
    set entry | entry in v2r :: entry.1
  }

  /** What the instruction at `p` of `buf` promises about the pattern. */
  ghost predicate EmittedOk(pattern: seq<ENodeOrVar>, slots: seq<nat>, v2r: seq<(Var, Reg)>, buf: seq<Instruction>, p: nat)
    requires PatternOk(pattern) && p < |buf|
    requires forall r :: 0 <= r < |slots| ==> slots[r] < |pattern|
  {
    var n := NextReg(buf, p);
    match buf[p]
    case Bind(src, e, out) =>
      src < n && src < |slots| && out == n && !IsLeaf(e) && out + |e.children| <= |slots| &&
      pattern[slots[src]] == ENodeSlot(e) &&
      forall i :: 0 <= i < |e.children| ==> slots[out + i] == e.children[i]
    case Check(reg, e) =>
      reg < n && reg < |slots| && IsLeaf(e) && pattern[slots[reg]] == ENodeSlot(e)
    case Compare(a, b) =>
      a < n && b < n && a < |slots| && b < |slots| &&
      pattern[slots[a]].VarSlot? && (pattern[slots[a]].v, a) in v2r &&
      pattern[slots[b]] == pattern[slots[a]]
    case Yield(_) => false
  }

  /** The compiler's state between two iterations: registers below `nextReg`
      are allocated and stand for the slots `slots` names; each worklist entry
      holds its register's slot; `v2r` maps distinct variables to registers
      standing for them; each emitted instruction keeps its promise; and every
      allocated register is pending, tested, or a variable's first register. */
  ghost predicate CompileState(pattern: seq<ENodeOrVar>, r2p: seq<(Reg, ENodeOrVar)>, pend: seq<nat>,
                               v2r: seq<(Var, Reg)>, nextReg: Reg, slots: seq<nat>, buf: seq<Instruction>)
  {
    PatternOk(pattern) &&
    |slots| == nextReg && nextReg == NextReg(buf, |buf|) &&
    (forall r :: 0 <= r < |slots| ==> slots[r] < |pattern|) &&
    |pend| == |r2p| &&
    (forall k :: 0 <= k < |r2p| ==> r2p[k].0 < nextReg && pend[k] == slots[r2p[k].0] && r2p[k].1 == pattern[pend[k]]) &&
    DistinctKeys(v2r) &&
    (forall k :: 0 <= k < |v2r| ==> v2r[k].1 < nextReg && pattern[slots[v2r[k].1]] == VarSlot(v2r[k].0)) &&
    (forall p :: 0 <= p < |buf| ==> EmittedOk(pattern, slots, v2r, buf, p)) &&
    (forall r :: 0 <= r < nextReg ==> r in Pending(r2p) || r in Subjects(buf) || r in Recorded(v2r))
  }

  /** The worklist entries `compile` adds for the children of a node whose
      first child goes into register `base`. */
  function ChildEntries(pattern: seq<ENodeOrVar>, children: seq<nat>, base: Reg): (r: seq<(Reg, ENodeOrVar)>)
    requires forall k :: 0 <= k < |children| ==> children[k] < |pattern|
    ensures |r| == |children|
    ensures forall k :: 0 <= k < |children| ==> r[k] == (base + k, pattern[children[k]])
  {
    seq(|children|, k requires 0 <= k < |children| => (base + k, pattern[children[k]]))
  }

  lemma {:induction false} TotalSizeConcat(pattern: seq<ENodeOrVar>, a: seq<nat>, b: seq<nat>, bound: nat)
    requires PatternOk(pattern) && bound <= |pattern|
    requires forall k :: 0 <= k < |a| ==> a[k] < bound
    requires forall k :: 0 <= k < |b| ==> b[k] < bound
    ensures TotalSize(pattern, a + b, bound) == TotalSize(pattern, a, bound) + TotalSize(pattern, b, bound)
    decreases |b|
  {
    if |b| > 0 {
      assert (a + b)[..|a + b| - 1] == a + b[..|b| - 1];
      TotalSizeConcat(pattern, a, b[..|b| - 1], bound);
    } else {
      assert a + b == a;
    }
  }

  lemma SubjectsAppend(buf: seq<Instruction>, instr: Instruction)
    ensures Subjects(buf + [instr]) == Subjects(buf) + Subject(instr)
  {
    assert (buf + [instr])[..|buf|] == buf;
  }

  /** An emitted instruction keeps its promise when an instruction is appended
      after it, more registers are allocated and more variables recorded. */
  lemma EmittedGrow(pattern: seq<ENodeOrVar>, slots: seq<nat>, slots2: seq<nat>, v2r: seq<(Var, Reg)>,
                    v2r2: seq<(Var, Reg)>, buf: seq<Instruction>, buf2: seq<Instruction>, p: nat)
    requires PatternOk(pattern) && p < |buf|
    requires forall r :: 0 <= r < |slots2| ==> slots2[r] < |pattern|
    requires slots <= slots2 && v2r <= v2r2 && buf <= buf2
    requires EmittedOk(pattern, slots, v2r, buf, p)
    ensures EmittedOk(pattern, slots2, v2r2, buf2, p)
  {
    NextRegPrefix(buf, buf2, p);
    assert buf2[p] == buf[p];
    if buf[p].Compare? {
      var a := buf[p].a;
      assert (pattern[slots[a]].v, a) in v2r2 by {
        var k :| 0 <= k < |v2r| && v2r[k] == (pattern[slots[a]].v, a);
        assert v2r2[k] == v2r[k];
      }
    }
  }

  /** The state before popping the last worklist entry `(reg, pat)`. */
  ghost predicate BeforePop(pattern: seq<ENodeOrVar>, r2p: seq<(Reg, ENodeOrVar)>, pend: seq<nat>,
                            v2r: seq<(Var, Reg)>, nextReg: Reg, slots: seq<nat>, buf: seq<Instruction>,
                            reg: Reg, idx: nat, pat: ENodeOrVar)
  {
    CompileState(pattern, r2p + [(reg, pat)], pend + [idx], v2r, nextReg, slots, buf)
  }

  lemma PopFacts(pattern: seq<ENodeOrVar>, r2p: seq<(Reg, ENodeOrVar)>, pend: seq<nat>,
                 v2r: seq<(Var, Reg)>, nextReg: Reg, slots: seq<nat>, buf: seq<Instruction>,
                 reg: Reg, idx: nat, pat: ENodeOrVar)
    requires BeforePop(pattern, r2p, pend, v2r, nextReg, slots, buf, reg, idx, pat)
    ensures reg < nextReg && idx < |pattern| && slots[reg] == idx && pattern[idx] == pat
    ensures |pend| == |r2p|
    ensures forall k :: 0 <= k < |r2p| ==> r2p[k].0 < nextReg && pend[k] == slots[r2p[k].0] && r2p[k].1 == pattern[pend[k]]
    ensures forall r :: 0 <= r < nextReg ==> r in Pending(r2p) || r == reg || r in Subjects(buf) || r in Recorded(v2r)
  {
    var r2p1, pend1 := r2p + [(reg, pat)], pend + [idx];
    assert r2p1[|r2p|] == (reg, pat) && pend1[|r2p|] == idx;
    forall k | 0 <= k < |r2p|
      ensures r2p[k].0 < nextReg && pend[k] == slots[r2p[k].0] && r2p[k].1 == pattern[pend[k]]
    {
      assert r2p1[k] == r2p[k] && pend1[k] == pend[k];
    }
    forall r | r in Pending(r2p1) ensures r in Pending(r2p) || r == reg {
      var entry :| entry in r2p1 && entry.0 == r;
      if entry != (reg, pat) {
        assert entry in r2p;
      }
    }
  }

  /** A popped leaf becomes a `Check`. */
  lemma StepCheck(pattern: seq<ENodeOrVar>, r2p: seq<(Reg, ENodeOrVar)>, pend: seq<nat>,
                  v2r: seq<(Var, Reg)>, nextReg: Reg, slots: seq<nat>, buf: seq<Instruction>,
                  reg: Reg, idx: nat, e: ENode)
    requires BeforePop(pattern, r2p, pend, v2r, nextReg, slots, buf, reg, idx, ENodeSlot(e))
    requires IsLeaf(e)
    ensures CompileState(pattern, r2p, pend, v2r, nextReg, slots, buf + [Check(reg, e)])
  {
    PopFacts(pattern, r2p, pend, v2r, nextReg, slots, buf, reg, idx, ENodeSlot(e));
    var buf2 := buf + [Check(reg, e)];
    NextRegPrefix(buf, buf2, |buf|);
    forall p | 0 <= p < |buf| ensures EmittedOk(pattern, slots, v2r, buf2, p) {
      EmittedGrow(pattern, slots, slots, v2r, v2r, buf, buf2, p);
    }
    SubjectsAppend(buf, Check(reg, e));
  }

  /** A popped variable seen before becomes a `Compare` with its first register. */
  lemma StepCompare(pattern: seq<ENodeOrVar>, r2p: seq<(Reg, ENodeOrVar)>, pend: seq<nat>,
                    v2r: seq<(Var, Reg)>, nextReg: Reg, slots: seq<nat>, buf: seq<Instruction>,
                    reg: Reg, idx: nat, v: Var, first: Reg)
    requires BeforePop(pattern, r2p, pend, v2r, nextReg, slots, buf, reg, idx, VarSlot(v))
    requires (v, first) in v2r
    ensures CompileState(pattern, r2p, pend, v2r, nextReg, slots, buf + [Compare(first, reg)])
  {
    PopFacts(pattern, r2p, pend, v2r, nextReg, slots, buf, reg, idx, VarSlot(v));
    var buf2 := buf + [Compare(first, reg)];
    NextRegPrefix(buf, buf2, |buf|);
    forall p | 0 <= p < |buf| ensures EmittedOk(pattern, slots, v2r, buf2, p) {
      EmittedGrow(pattern, slots, slots, v2r, v2r, buf, buf2, p);
    }
    SubjectsAppend(buf, Compare(first, reg));
  }

  /** A popped variable seen for the first time is recorded in `v2r`. */
  lemma StepRecord(pattern: seq<ENodeOrVar>, r2p: seq<(Reg, ENodeOrVar)>, pend: seq<nat>,
                   v2r: seq<(Var, Reg)>, nextReg: Reg, slots: seq<nat>, buf: seq<Instruction>,
                   reg: Reg, idx: nat, v: Var)
    requires BeforePop(pattern, r2p, pend, v2r, nextReg, slots, buf, reg, idx, VarSlot(v))
    requires forall k :: 0 <= k < |v2r| ==> v2r[k].0 != v
    ensures CompileState(pattern, r2p, pend, v2r + [(v, reg)], nextReg, slots, buf)
  {
    PopFacts(pattern, r2p, pend, v2r, nextReg, slots, buf, reg, idx, VarSlot(v));
    var v2r2 := v2r + [(v, reg)];
    forall p | 0 <= p < |buf| ensures EmittedOk(pattern, slots, v2r2, buf, p) {
      EmittedGrow(pattern, slots, slots, v2r, v2r2, buf, buf, p);
    }
    assert (v, reg) in v2r2;
    assert forall entry :: entry in v2r ==> entry in v2r2;
  }

  /** A popped node with children becomes a `Bind` into the next free block
      of registers, and its children join the worklist in that block. */
  lemma StepBind(pattern: seq<ENodeOrVar>, r2p: seq<(Reg, ENodeOrVar)>, pend: seq<nat>,
                 v2r: seq<(Var, Reg)>, nextReg: Reg, slots: seq<nat>, buf: seq<Instruction>,
                 reg: Reg, idx: nat, e: ENode)
    requires BeforePop(pattern, r2p, pend, v2r, nextReg, slots, buf, reg, idx, ENodeSlot(e))
    requires forall k :: 0 <= k < |e.children| ==> e.children[k] < |pattern|
    requires !IsLeaf(e)
    ensures CompileState(pattern, r2p + ChildEntries(pattern, e.children, nextReg), pend + e.children, v2r,
                         nextReg + |e.children|, slots + e.children, buf + [Bind(reg, e, nextReg)])
  {
    PopFacts(pattern, r2p, pend, v2r, nextReg, slots, buf, reg, idx, ENodeSlot(e));
    var ch := e.children;
    var r2p2, pend2, slots2 := r2p + ChildEntries(pattern, ch, nextReg), pend + ch, slots + ch;
    var buf2, next2 := buf + [Bind(reg, e, nextReg)], nextReg + |ch|;
    NextRegPrefix(buf, buf2, |buf|);
    assert NextReg(buf2, |buf2|) == next2;
    forall k | 0 <= k < |r2p2|
      ensures r2p2[k].0 < next2 && pend2[k] == slots2[r2p2[k].0] && r2p2[k].1 == pattern[pend2[k]]
    {
      if k < |r2p| {
        assert r2p2[k] == r2p[k] && pend2[k] == pend[k];
      } else {
        var j := k - |r2p|;
        assert r2p2[k] == (nextReg + j, pattern[ch[j]]) && pend2[k] == ch[j];
        assert slots2[nextReg + j] == ch[j];
      }
    }
    forall p | 0 <= p < |buf| ensures EmittedOk(pattern, slots2, v2r, buf2, p) {
      EmittedGrow(pattern, slots, slots2, v2r, v2r, buf, buf2, p);
    }
    assert EmittedOk(pattern, slots2, v2r, buf2, |buf|);
    SubjectsAppend(buf, Bind(reg, e, nextReg));
    forall r | 0 <= r < next2 ensures r in Pending(r2p2) || r in Subjects(buf2) || r in Recorded(v2r) {
      if r >= nextReg {
        assert r2p2[|r2p| + (r - nextReg)].0 == r;
        assert r2p2[|r2p| + (r - nextReg)] in r2p2;
      } else if r != reg && r in Pending(r2p) {
        var entry :| entry in r2p && entry.0 == r;
        assert entry in r2p2;
      }
    }
  }

  /** The instructions emitted before the final `Yield`, followed by it, form
      a well-formed program. */
  lemma CompiledWellFormed(pattern: seq<ENodeOrVar>, v2r: seq<(Var, Reg)>, slots: seq<nat>, body: seq<Instruction>)
    requires CompileState(pattern, [], [], v2r, |slots|, slots, body)
    ensures WellFormed(body + [Yield(Values(v2r))])
  {
    var prog := body + [Yield(Values(v2r))];
    forall p | 0 <= p < |prog| ensures InstrWellFormed(prog, p) && (p < |body| ==> !prog[p].Yield?) {
      NextRegPrefix(body, prog, p);
      if p < |body| {
        assert prog[p] == body[p] && EmittedOk(pattern, slots, v2r, body, p);
      }
    }
  }

  /** The `for_each_i` loop of `compile`: inserts the slot of child `i` under
      register `base + i`; the keys are fresh, so each insertion appends. */
  method QueueChildren(pattern: seq<ENodeOrVar>, r2p0: seq<(Reg, ENodeOrVar)>, base: Reg, children: seq<nat>)
    returns (r2p: seq<(Reg, ENodeOrVar)>)
    requires forall k :: 0 <= k < |r2p0| ==> r2p0[k].0 < base
    requires forall k :: 0 <= k < |children| ==> children[k] < |pattern|
    ensures r2p == r2p0 + ChildEntries(pattern, children, base)
  {
    r2p := r2p0;
    var i := 0;
    while i < |children|
      invariant 0 <= i <= |children|
      invariant r2p == r2p0 + ChildEntries(pattern, children[..i], base)
    {
      r2p := Insert(r2p, base + i, pattern[children[i]]);
      assert children[..i + 1] == children[..i] + [children[i]];
      i := i + 1;
    }
    assert children[..i] == children;
  }

  /** One turn of `compile`'s loop: pops the last worklist entry and emits
      its instruction (or records its variable), using up exactly one slot
      occurrence of the pending sub-patterns. */
  method CompileStep(pattern: seq<ENodeOrVar>, r2p0: seq<(Reg, ENodeOrVar)>, v2r0: seq<(Var, Reg)>,
                     nextReg0: Reg, buf0: seq<Instruction>, ghost slots0: seq<nat>, ghost pend0: seq<nat>)
    returns (r2p: seq<(Reg, ENodeOrVar)>, v2r: seq<(Var, Reg)>, nextReg: Reg, buf: seq<Instruction>,
             ghost slots: seq<nat>, ghost pend: seq<nat>)
    requires CompileState(pattern, r2p0, pend0, v2r0, nextReg0, slots0, buf0) && |r2p0| > 0
    ensures CompileState(pattern, r2p, pend, v2r, nextReg, slots, buf)
    ensures buf0 <= buf && v2r0 <= v2r && slots0 <= slots
    ensures |buf| + |v2r| == |buf0| + |v2r0| + 1
    ensures TotalSize(pattern, pend, |pattern|) + 1 == TotalSize(pattern, pend0, |pattern|)
  {
    var (reg, pat) := r2p0[|r2p0| - 1];
    ghost var idx := pend0[|pend0| - 1];
    assert r2p0 == r2p0[..|r2p0| - 1] + [(reg, pat)] && pend0 == pend0[..|pend0| - 1] + [idx];
    r2p, pend := r2p0[..|r2p0| - 1], pend0[..|pend0| - 1];
    v2r, nextReg, buf, slots := v2r0, nextReg0, buf0, slots0;
    PopFacts(pattern, r2p, pend, v2r, nextReg, slots, buf, reg, idx, pat);
    assert TotalSize(pattern, pend0, |pattern|) == TotalSize(pattern, pend, |pattern|) + Size(pattern, idx);
    match pat
    case ENodeSlot(e) =>
      if IsLeaf(e) {
        StepCheck(pattern, r2p, pend, v2r, nextReg, slots, buf, reg, idx, e);
        buf := buf + [Check(reg, e)];
      } else {
        var children := e.children;
        StepBind(pattern, r2p, pend, v2r, nextReg, slots, buf, reg, idx, e);
        buf := buf + [Bind(reg, e, nextReg)];
        r2p := QueueChildren(pattern, r2p, nextReg, children);
        BindSize(pattern, pend, idx, e);
        pend, slots := pend + children, slots + children;
        nextReg := nextReg + |children|;
      }
    case VarSlot(v) =>
      match Get(v2r, v)
      case Some(r) =>
        StepCompare(pattern, r2p, pend, v2r, nextReg, slots, buf, reg, idx, v, r);
        buf := buf + [Compare(r, reg)];
      case None =>
        StepRecord(pattern, r2p, pend, v2r, nextReg, slots, buf, reg, idx, v);
        v2r := Insert(v2r, v, reg);
  }

  /** `compile`: drains the worklist `r2p` from its end, emitting a `Check`
      for a leaf, a `Compare` for a variable seen before, recording a new
      variable in `v2r`, and a `Bind` for any other node, whose children are
      queued in the next free block of registers; it then appends the `Yield`
      of the recorded registers. Each instruction emitted, and each variable
      recorded, uses up one slot occurrence of the pending sub-patterns. */
  method Compile(pattern: seq<ENodeOrVar>, r2p0: seq<(Reg, ENodeOrVar)>, v2r0: seq<(Var, Reg)>,
                 nextReg0: Reg, buf0: seq<Instruction>, ghost slots0: seq<nat>, ghost pend0: seq<nat>)
    returns (v2r: seq<(Var, Reg)>, buf: seq<Instruction>, ghost slots: seq<nat>)
    requires CompileState(pattern, r2p0, pend0, v2r0, nextReg0, slots0, buf0)
    ensures |buf| > |buf0| && buf[|buf| - 1] == Yield(Values(v2r))
    ensures CompileState(pattern, [], [], v2r, |slots|, slots, buf[..|buf| - 1])
    ensures WellFormed(buf)
    ensures buf0 <= buf && v2r0 <= v2r && slots0 <= slots
    ensures |buf| - 1 - |buf0| + |v2r| - |v2r0| == TotalSize(pattern, pend0, |pattern|)
  {
    var r2p, nextReg := r2p0, nextReg0;
    v2r, buf, slots := v2r0, buf0, slots0;
    ghost var pend := pend0;
    while |r2p| > 0
      invariant CompileState(pattern, r2p, pend, v2r, nextReg, slots, buf)
      invariant buf0 <= buf && v2r0 <= v2r && slots0 <= slots
      invariant |buf| - |buf0| + |v2r| - |v2r0| + TotalSize(pattern, pend, |pattern|) == TotalSize(pattern, pend0, |pattern|)
      decreases TotalSize(pattern, pend, |pattern|)
    {
      r2p, v2r, nextReg, buf, slots, pend := CompileStep(pattern, r2p, v2r, nextReg, buf, slots, pend);
    }
    ghost var body := buf;
    buf := buf + [Yield(Values(v2r))];
    assert buf[..|buf| - 1] == body;
    CompiledWellFormed(pattern, v2r, slots, body);
  }
}
