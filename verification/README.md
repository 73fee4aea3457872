# egg's pattern-matching machine, in Dafny

This project models `src/machine.rs` of egg. That file holds the virtual machine
that finds matches of a pattern in an e-graph. It has three parts:

- **The compiler.** `compile` and `Program::compile_from_pat` turn a flat
  pattern into a short program of instructions over registers:
  - `Bind` enumerates the nodes of a class that have a given operator and
    arity, and writes their children into a fresh block of registers;
  - `Check` tests that a class contains a leaf;
  - `Compare` tests that two registers hold ids of one class;
  - `Yield` hands out the registers of the pattern's variables.
- **The machine.** `Machine::run` executes a program by depth-first search.
  Each `Bind` leaves a choice point (`Binder`) on a stack. `backtrack` resumes
  the topmost binder that still has a candidate node.
- **The searcher.** `EClassSearcher` picks the candidates out of an e-class's
  sorted node list. Short lists are scanned linearly. Long lists are
  binary-searched for two sentinel nodes.

What is proved:

- **Searcher.** Under the modelled node order (operator, then arity, then
  children), both strategies return exactly the matching nodes of a sorted
  node list, in order, so they agree.
- **Compiler.** It terminates and emits a well-formed program.
  - Every instruction reads only registers allocated before it.
  - `Bind` output blocks follow the register counter and are disjoint.
  - A ghost assignment of pattern slots to registers is kept by every
    instruction, and every register is tested or recorded.
  - The number of instructions before the `Yield` plus the number of variables
    equals the number of slot occurrences in the pattern tree.
  - A bare variable compiles to `[Yield([0])]`.
- **Machine.** It terminates, and every register read is in range.
  - A loop invariant ties the register file and the stack to the program.
  - Every yielded register file satisfies every instruction of the program.
  - Each arm of the loop is specified exactly. A ghost trace shows that `run` is the sequence of those steps and that it yields exactly their outputs.
- **End to end.** Every substitution `Program::run` returns is a genuine match
  of the pattern at the start class.

Modules, one per file:

| file | module | contents |
|---|---|---|
| `lang.dfy` | `Lang` | e-nodes, `matches`, `map_children`, the node order and the sentinels |
| `egraph.dfy` | `EGraphs` | the read-only view of the e-graph the machine uses: `find` and per-class sorted node lists |
| `searcher.dfy` | `Searchers` | `EClassSearcher`, `slice::binary_search`, `Iterator::position` |
| `instructions.dfy` | `Instructions` | the instruction set and the shape of compiled programs |
| `compiler.dfy` | `Compiler` | `compile`, with the `IndexMap`s as sequences of pairs |
| `machine_spec.dfy` | `MachineSpec` | what the machine's state means, and the lemmas about each step and the termination measure |
| `machine.dfy` | `Machines` | the `Machine` class: `new`, `find_reg`, `backtrack`, `run` |
| `programs.dfy` | `Programs` | `Program`: `compile_from_pat`, `run`, and the meaning of a substitution |

## Model

| member | source | states |
|---|---|---|
| Lang.MapChildren | src/machine.rs:50-52 | the node keeps its operator and arity, and every child becomes the given id |
| Lang.SentinelsBracket | src/machine.rs:50-56 | a node with real children lies between the all-zero sentinel (inclusive) and the all-`Id::MAX` sentinel (exclusive) if and only if it matches the template |
| EGraphs.EGraph.Find | src/machine.rs:88-90 | `find` returns a canonical id of the graph |
| EGraphs.EGraph.Nodes | src/machine.rs:138 | `egraph[id].nodes` is sorted by the node order, with every child a valid id below `Id::MAX`, and no longer than the longest class |
| Searchers.EClassSearcher.Next | src/machine.rs:65-71 | returns the first remaining node, which matches the template (the debug assertion), and advances past it; returns `None` exactly when nothing is left |
| Searchers.SearchIn | src/machine.rs:51 | binary search on a range: `Ok` points at an equal element; `Err` is an insertion point that splits a sorted slice into the elements below the key and those above it |
| Searchers.BinarySearch | src/machine.rs:51-55 | `slice::binary_search`: `Ok(i)` finds the key at `i`; an absent key gives `Err`; on a sorted slice, `Err(i)` splits it at the key |
| Searchers.Position | src/machine.rs:42-44 | `Iterator::position`: the first index whose node matches (or fails to match) the template, with no earlier one; `None` when there is none |
| Searchers.LinearRange | src/machine.rs:40-48 | the scan's range: every node in it matches, it is empty exactly when no node matches, no node before it matches, and the node just after it does not |
| Searchers.SortedRange | src/machine.rs:49-57 | on a sorted list, the range starts at the insertion point of the all-zero sentinel and ends at the insertion point of the all-`Id::MAX` sentinel; the second search must fail (`expect_err`) |
| Searchers.InsertionPoint | src/machine.rs:51 | `unwrap_or_else`: whether the search gives `Ok` or `Err`, its index splits a sorted list at the key |
| Searchers.SuffixInsertionPoint | src/machine.rs:53-56 | a failed search in `nodes[start..]` gives an offset that splits the whole sorted list at `start + offset` |
| Searchers.LinearRangeExact | src/machine.rs:40-48 | on a sorted list, the linearly scanned run is exactly the matching nodes, in order |
| Searchers.SortedRangeExact | src/machine.rs:49-57 | on a sorted list of real nodes, the binary-searched run is exactly the matching nodes, in order |
| Searchers.StrategiesAgree | src/machine.rs:40-57 | the linear and the binary-search strategies return the same nodes |
| Searchers.NewSearcher | src/machine.rs:38-63 | `EClassSearcher::new` keeps the template and hands out only nodes of the list; on a short list they all match; on a sorted list they are exactly the matching nodes |
| Instructions.BindRangesDisjoint | src/machine.rs:227-241 | in a compiled program, two `Bind`s have disjoint output blocks, later blocks lie above earlier ones, and none contains register 0 |
| Compiler.Get | src/machine.rs:220 | `IndexMap::get` is `None` exactly when the key is absent, and otherwise returns a value stored under the key |
| Compiler.Insert | src/machine.rs:223 | `IndexMap::insert` appends an absent key at the end, and keeps the length when the key is present |
| Compiler.InsertReplaces | src/machine.rs:223 | `IndexMap::insert` of a present key overwrites the value at the key's first position and leaves every other entry where it was |
| Compiler.QueueChildren | src/machine.rs:233-235 | `for_each_i` queues child `i`'s slot under register `next_reg + i`, in child order, after the existing entries |
| Compiler.StepCheck | src/machine.rs:215-218 | popping a leaf and emitting `Check` keeps the compiler invariant |
| Compiler.StepCompare | src/machine.rs:219-221 | popping a variable seen before and emitting `Compare(first, reg)` keeps the compiler invariant |
| Compiler.StepRecord | src/machine.rs:219-223 | popping a new variable and recording it in `v2r` keeps the compiler invariant |
| Compiler.StepBind | src/machine.rs:226-241 | popping a non-leaf, emitting `Bind(reg, e, next_reg)` and queueing its children in the next block keeps the compiler invariant |
| Compiler.BindSize | src/machine.rs:226-241 | replacing a pending node by its children uses up exactly that node's slot occurrence |
| Compiler.CompiledWellFormed | src/machine.rs:244-248 | once the worklist is drained, appending the `Yield` of the recorded registers gives a well-formed program |
| Compiler.CompileStep | src/machine.rs:214-243 | one turn of the loop keeps the invariant, only extends the emitted code, `v2r` and the register map, and uses up one slot occurrence for one instruction or one recorded variable |
| Compiler.Compile | src/machine.rs:207-249 | `compile` terminates and ends with `Yield(v2r.values())`; the output is well-formed, every register is tested or recorded, and the instructions before the `Yield` plus the variables number the pending slot occurrences |
| MachineSpec.Resize | src/machine.rs:106 | `Vec::resize` truncates or pads with the fill value, element by element |
| MachineSpec.BindSentinelAbsent | src/machine.rs:53-55 | the upper sentinel of a `Bind`'s node is in no class, so `expect_err` never panics |
| MachineSpec.NewBinderOk | src/machine.rs:138-143 | the binder a `Bind` pushes enumerates matching nodes of the class in its source register |
| MachineSpec.PushPreserves | src/machine.rs:137-144 | after the push, the state is one the machine can backtrack from |
| MachineSpec.PushStep | src/machine.rs:137-144 | the push leaves a state ready to backtrack, and lowers the termination measure |
| MachineSpec.FailPreserves | src/machine.rs:150-151 | a failing `Check`/`Compare`, or a `Yield`, backtracks from a state that satisfies the instructions before it |
| MachineSpec.PassPreserves | src/machine.rs:146-171 | a passing `Check` or `Compare` extends the satisfied prefix by one instruction |
| MachineSpec.ResumeRegisters | src/machine.rs:105-111 | resuming a binder keeps the registers below its block, writes the candidate's children into the block, and leaves only valid ids |
| MachineSpec.ResumeSatisfies | src/machine.rs:103-113 | the resumed file satisfies every instruction up to and including the binder's `Bind` |
| MachineSpec.BacktrackKeepsBinders | src/machine.rs:93-119 | every binder left on the stack after a successful backtrack is still sound |
| MachineSpec.BacktrackKeepsRoot | src/machine.rs:105-106 | a successful backtrack never touches register 0, which holds the start class |
| MachineSpec.BacktrackPreserves | src/machine.rs:93-119 | a successful backtrack resumes in a state satisfying the loop invariant at the binder's `next` |
| MachineSpec.StackBounded | src/machine.rs:93-119 | the stack holds at most one binder per `Bind` of the program, each valid and no longer than the longest class |
| MachineSpec.PushShrinks | src/machine.rs:139-144 | pushing a binder lowers the termination measure |
| MachineSpec.BacktrackShrinks | src/machine.rs:93-119 | a successful backtrack lowers the termination measure |
| Machines.Machine.constructor | src/machine.rs:77-85 | `Machine::new` starts at instruction 0 with no registers and an empty stack |
| Machines.Machine.FindReg | src/machine.rs:87-90 | `find_reg` returns the canonical id of the register's class, with the same node list |
| Machines.Machine.Backtrack | src/machine.rs:92-119 | `backtrack` pops the exhausted binders, takes the next candidate of the topmost live one, cuts or pads the registers to its block, writes the candidate's children and jumps to its `next`; with every binder exhausted it fails, leaving the stack empty and nothing else changed |
| Machines.Machine.BacktrackStep | src/machine.rs:122-128 | `backtrack!` either makes one `Backtracked` step (topmost live binder advanced, registers refilled, `pc` at its `next`), restoring the loop invariant and lowering the measure, or finds every binder exhausted and ends the run with an empty stack and the registers kept |
| Machines.Machine.ExecBind | src/machine.rs:137-145 | the `Bind` arm pushes `Binder(out, pc, EClassSearcher::new(node, class of reg[i]))` and backtracks into the stack with that binder on top: one `Backtracked` step, or every binder exhausted and an empty stack |
| Machines.Machine.ExecCheck | src/machine.rs:146-166 | the `Check` arm goes on to the next instruction with nothing else changed exactly when the class of `reg[i]` holds the leaf; otherwise it backtracks (one `Backtracked` step, or an empty stack with every binder exhausted) |
| Machines.Machine.ExecCompare | src/machine.rs:167-171 | the `Compare` arm goes on to the next instruction with nothing else changed exactly when `find(reg[i]) == find(reg[j])`; otherwise it backtracks (one `Backtracked` step, or an empty stack with every binder exhausted) |
| Machines.Machine.ExecYield | src/machine.rs:172-178 | the `Yield` arm hands out the current file, which satisfies every instruction, and then backtracks (one `Backtracked` step, or an empty stack with every binder exhausted) |
| Machines.Machine.Turn | src/machine.rs:129-180 | one turn of `run`'s loop is a `Step` from the state before it: the arm of the instruction at `pc`, its yielded file, and whether the run goes on |
| Machines.Machine.Run | src/machine.rs:121-181 | `run` terminates with an empty stack; its ghost trace starts at the initial state and ends at the final one, every turn is a `Step` and only the last one stops, and the yielded files are exactly the turns' outputs in order; every yielded file satisfies the whole program and keeps the start class in register 0 |
| MachineSpec.RanStep | src/machine.rs:121-181 | a run that is still going, extended by one more `Step`, is a run whose outputs are the old ones followed by the new turn's |
| Programs.Program.CompileFromPat | src/machine.rs:268-279 | `compile_from_pat` compiles from the root (the last slot) into register 0, and yields a valid program compiled from the pattern |
| Programs.KeysOnly | src/machine.rs:291-298 | the variables a substitution binds are only the keys of `v2r`, the converse of `Keys`' own contract |
| Programs.Program.MakeSubst | src/machine.rs:291-298 | the callback binds the `i`-th variable of `v2r` to the id in the `i`-th yielded register, and binds nothing else |
| Programs.Program.Run | src/machine.rs:281-303 | `run` starts the machine at instruction 0 with `eclass` in register 0 and an empty stack; its ghost trace is that run's sequence of `Step`s, only the last one stopping, and it returns one substitution per yielded file, in order, each read from a file that satisfies every instruction and holds `eclass` in register 0 |
| Programs.RegisterMatches | src/machine.rs:207-249 | in a file satisfying a compiled program, every register matches the pattern slot the compiler assigned to it |
| Programs.YieldedFile | src/machine.rs:281-303 | register 0 of a yielded file matches the pattern slot the compiler assigned to it |
| Programs.YieldedMatches | src/machine.rs:281-303 | soundness: the pattern's root matches the start class under every substitution `run` returns |
| Programs.BareVariable | src/machine.rs:268-279 | a pattern that is a single variable compiles to `[Yield([0])]`, with the variable in register 0 |

## Left out

- Logging (`log::trace!`, `log::debug!`) and the `Debug` implementation of `Program`: they have no effect on the result.
- The commented-out code (`size`, `n_free`, `rank`, the worklist sorting and the `get_leaf` check): none of it runs.
- The e-graph: its union-find and hash-consing are not part of this model. The machine only reads it, so it is a value with `find` and sorted per-class node lists.
- The node order and `Language::matches`: they come from the `Language` implementation. Here an e-node is an operator code with a child list, ordered by operator, then arity, then children lexicographically. Languages whose derived order differs are not covered. Under such an order the matching nodes need not be contiguous: with a derived order that compares child lists lexicographically, a shorter list first, `f[0,5] < f[1] < f[1,0]`. The model cannot show what the searcher then returns, nor rule out the debug assertion in `next` failing.
- `Id` width: ids are unbounded naturals. `Id::MAX` is the constant `IdMax`, and a valid e-graph has fewer ids than that.
- `IndexMap` hashing: both maps are sequences of pairs in insertion order. Keys are compared by equality.
- Debug-only checks (`#[cfg(debug_assertions)]`, `debug_assert!`): they are not run. What they assert is proved instead. `EClassSearcher::Valid` is the `next` assertion; `Check` leaves and the final register count come from the well-formedness of the program.
- The `yield_fn` callback: `Machines.Machine.Run` returns the yielded register files in order. `Programs.Program.Run` turns them into substitutions afterwards. The callback only reads the machine, so the order and contents of the substitutions are the same.
- Machines.Machine.Run: its match arms are separate methods (`ExecBind`, `ExecCheck`, `ExecCompare`, `ExecYield`). Each keeps the arm's code as written; the split keeps each proof small.
- Machines.Machine.Run: the yielded register files are tied to the step rules only, through the ghost trace. The contract does not relate them to the matches in the e-graph: it does not say that every match is reached, or how many files are yielded.
- Programs.Program.Run: completeness is not stated. The model does not prove that every match of the pattern in the e-graph is yielded, only that every yielded substitution is a match.
- Compiler.Compile: the order of `v2r` is not stated as "first occurrence in traversal order". The model proves that each variable is recorded once, at a register standing for one of its occurrences.
- Programs.Program.CompileFromPat: requires a non-empty pattern whose children point to earlier slots. This is the invariant of egg's `RecExpr`. The source panics on an empty pattern (`last().unwrap()`).
- Searchers.SortedRange: requires that the upper sentinel is not in the list. The source panics otherwise (`expect_err`). The machine only reaches it with valid ids, which `MachineSpec.BindSentinelAbsent` proves.
