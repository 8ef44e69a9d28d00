# Time-travel interpreter and sandpile, modelled in Dafny

The repository's main program is a small machine whose instructions can
send a write back in time. An instruction list (`read`, `write`, `add`,
`sub`, `pos`, `time`, `out`) is run by `Compiler` over two stores keyed by
`(time, step)`. The committed store `memory` is rebuilt from the inputs on
every run. The speculative store `temp` holds the previous run's writes. A
read takes whichever of the two stores has the later entry before the read's
key. After a run, `get_visible_pointers` re-reads every recorded read from the
final committed store. The steps whose reads changed become split points, and
a run with no changes is `done`. The editor's own store `Program` keeps the
same kind of per-address timeline. Its register column (`update_registers`)
shows the slice of addresses that is on screen.

A second, unrelated page simulates wind-blown sand on a toroidal height grid.
Grains slide down steep drops, and wind moves grains downwind unless higher
sand upwind shelters them.

The model is split into these modules:

- `Wrappers` (wrappers.dfy): the `Option` type for arguments that may be left `undefined`.
- `Order` (order.dfy): timeline keys over integers extended with ±Infinity, and the `precedes` order on them.
- `Timeline` (timeline.dfy): the sorted per-address list and its scan.
- `Mem` (timeline.dfy): the engine's store, which keeps duplicates.
- `Program` (program.dfy): the editor's store, which overwrites.
- `Compiler` (compiler.dfy): the interpreter state, threaded through `New`, `SetUp`, `Advance`, `Solve` and `GetVisiblePointers`.
- `Registers` (registers.dfy): the register window.
- `Sand` (sand.dfy): the sandpile.

Every store and state is an immutable value, and each operation returns the
new one.

Values of the JavaScript code that are not ordinary numbers are modelled as follows:

- An absent `step` or `t` is `Option.None`.
- `-Infinity` and `Infinity` are the `NegInf` and `PosInf` cases of `XInt`.
- JavaScript `%` (the sign of the dividend) is written out as `Sand.JsRem`.

## Model

| member | source | states |
|---|---|---|
| Order.PrecedesTransitive | time/compiler.js:1-9 | `precedes` is transitive: earlier time first, then, at equal times, the larger step first |
| Order.PrecedesTrichotomy | time/compiler.js:1-9 | two keys are equal exactly when neither precedes the other, and never both precede each other |
| Order.NotPrecedesTransitive | time/compiler.js:1-9 | "not before" is transitive as well, so a scan's cut point is well defined |
| Order.ImmediateSuccessor | time/compiler.js:4-5 | `(t, s)` comes right before `(t, s - 1)`: any key before `(t, s - 1)` is `(t, s)` or comes before it |
| Order.StepOmittedSeesOnlyEarlierTimes | time/code.js:1160-1163 | a query with the step omitted (+Infinity) sees exactly the entries at earlier times |
| Timeline.Scan | time/compiler.js:53-56 | the scan index has only preceding entries before it and stops at the first entry that does not precede |
| Timeline.ScanSeparates | time/compiler.js:53-56 | on a sorted list, an entry precedes the key if and only if it lies before the scan index |
| Timeline.ScanMonotone | time/compiler.js:53-56 | a later key never scans to an earlier position |
| Timeline.InsertAtScanSorted | time/compiler.js:53-57 | splicing the entry in at the scan index keeps the list sorted |
| Timeline.InsertAtScanPlaced | time/compiler.js:53-57 | the spliced entry sits after every entry that precedes it and before every other entry, and all old entries keep their order |
| Timeline.Put | time/code.js:1188-1197 | an entry whose key is present replaces that entry in place; otherwise it is placed as a splice would place it; the list stays strictly sorted |
| Timeline.PutTwice | time/code.js:1188-1197 | putting two entries with one key leaves the same list as putting the second alone |
| Mem.SeedKey | time/compiler.js:17-28 | a seed without time is filed before every entry with a finite time; a seed with neither time nor step is filed at the inputs' key `(-Infinity, -1)`; a seed with a time comes after every entry at an earlier time |
| Mem.Get | time/compiler.js:32-47 | the hit is the value and key of the last entry that precedes the query, or `{0, -Infinity, -1}` when none does |
| Mem.Set | time/compiler.js:49-59 | only the written address changes; the new entry is placed after every preceding entry and before the others, and the list stays sorted |
| Mem.SetDuplicatesAhead | time/compiler.js:53-57 | setting an already present key adds a second entry ahead of the old one instead of replacing it |
| Mem.GetAfterSet | time/compiler.js:32-59 | when no entry of the address has key `(t, s)` yet, a value set at `(t, s)` is what a query at `(t, s - 1)` returns, with its key |
| Mem.GetIgnoresLaterSet | time/compiler.js:32-59 | a set at a key that does not precede the query leaves every query's answer unchanged |
| Mem.Build | time/compiler.js:13-30 | the constructor yields a store whose lists are sorted |
| Mem.BuildHoldsSeeds | time/compiler.js:13-30 | each address's list holds exactly the seeds for that address, as a multiset |
| Program.KeyOf | time/code.js:1160-1163 | a query with the step omitted sees exactly the entries at earlier times; a set with the step omitted is seen by every query at the same time that gives a step; with a step given, an entry at the same time is seen exactly when its step is larger |
| Program.Get | time/code.js:1160-1177 | the value of the last entry before the query, or the address's input (or 0) when none precedes |
| Program.Set | time/code.js:1179-1199 | without a time only the input changes; with a time the address's list gets the entry put in place; other addresses are untouched; lists stay strictly sorted |
| Program.GetAfterSet | time/code.js:1160-1199 | a value set at `(time, s)` is read back by a query at `(time, s - 1)` |
| Program.SetOverwrites | time/code.js:1193-1194 | setting twice at one key equals setting once with the second value |
| Program.Reset | time/code.js:1201-1203 | the timeline is emptied and the inputs are kept |
| Program.ResetTotal | time/code.js:1205-1208 | timeline and inputs are both emptied |
| Program.GetAfterResetTotal | time/code.js:1205-1208 | after `reset_total` every query of every address answers 0 |
| Program.GetAfterReset | time/code.js:1201-1203 | after `reset` every query answers the address's input, or 0 |
| Compiler.New | time/compiler.js:65-97 | registers start at 0; `memory` holds exactly the inputs; `temp` is empty; the logs are empty and the run is not done |
| Compiler.SetUp | time/compiler.js:99-121 | registers are reset; `memory` is rebuilt from the inputs; `temp` holds exactly the last run's writes; the logs are cleared; the timeline moves to `prev_timeline`; `done` is cleared |
| Compiler.Closer | time/compiler.js:127-131 | the answer is one of the two hits' values; equal keys (two misses included) and a `temp` hit before the `memory` hit give `memory`'s value; `temp`'s value wins only when `memory`'s hit precedes it |
| Compiler.Get | time/compiler.js:123-135 | the read picks the closer of the two stores' hits and appends one read record at the current address, time and step; nothing else changes |
| Compiler.FetchWithoutTemp | time/compiler.js:123-131 | with nothing in `temp` for the address and no committed entry before the inputs' key `(-Infinity, -1)`, a read returns the committed store's value |
| Compiler.AddToTimeline | time/compiler.js:137-143 | the point is appended to its time's list and no other time's list changes |
| Compiler.Exec | time/compiler.js:261-292 | only `write` touches the store and the write log; every opcode leaves step, reads, timelines and `temp` alone, and only `time` moves the clock |
| Compiler.Dispatch | time/compiler.js:149-155 | a literal is used when given; otherwise opcodes in `PARAMS` read memory (one read record) and the others take no operand; a `write` sets memory at the current key |
| Compiler.Advance | time/compiler.js:145-159 | past the end nothing changes; otherwise the step advances by one, the current `(t, addr, val, step)` joins the timeline and `times`, exactly one read (for reading opcodes) or write (for `write`) is logged, and outside `time` the clock ticks by one |
| Compiler.AdvanceRegisters | time/compiler.js:261-292 | `read` loads the operand, `add`/`sub` apply it, `pos` moves the address, `time p` puts the clock at exactly `p`, `out` records a value or a delayed marker, and every other command ticks the clock by one |
| Compiler.OutNeverReads | time/compiler.js:66-74 | `out` is not in `PARAMS`, so without a literal it reads nothing and records a delayed result at the current address and time |
| Compiler.Solve | time/compiler.js:161-165 | runs to the end of the program, logging one read per reading command and one write per `write`, and one time per step |
| Compiler.AdvanceCounts | time/compiler.js:145-159 | one step logs one read exactly when its command reads memory and one write exactly when it is a `write` |
| Compiler.SolveKeepsReadsOrdered | time/compiler.js:161-165 | a run that starts with no reads logs its reads in strictly increasing step order |
| Compiler.Flagged | time/compiler.js:168-174 | the split list is empty exactly when no read is flagged, contains every flagged read's step, and contains nothing else |
| Compiler.FlaggedAscending | time/compiler.js:168-174 | reads logged in increasing step order give a strictly increasing split list |
| Compiler.Divergences | time/compiler.js:168-174 | the split steps are exactly the steps of reads whose value differs on re-reading the final store, in increasing order |
| Compiler.PhasesFrom | time/compiler.js:214-218 | one phase index per step |
| Compiler.PhasesFromFollowSplits | time/compiler.js:214-218 | every step's phase is the first split at or after the step |
| Compiler.GetVisiblePointers | time/compiler.js:167-178 | `done` is set exactly when every recorded read re-reads the same value (or it was already set); the split list ends with the program length; nothing else in the state changes |
| Compiler.SplitsAreDivergences | time/compiler.js:167-178 | the splits are the divergent steps followed by the program length, and `done` means no divergence |
| Compiler.SplitsAscend | time/compiler.js:167-178 | with reads in step order, splits strictly increase and the first split is at or before every divergent read |
| Compiler.VisibleFollowSplits | time/compiler.js:167-218 | for reads logged in step order, the splits strictly increase, end at the program length, and every step's phase is the first split at or after it |
| Compiler.RunSplits | time/compiler.js:167-218 | after `set_up` and `solve`, the splits strictly increase, end at the program length, start at or before the first divergent read, and every step's phase is the first split at or after it |
| Compiler.FirstRun | time/code.js:2761-2762 | the first run ends with every command executed |
| Compiler.Rerun | time/code.js:2679-2681 | a later run ends with every command executed |
| Compiler.LaterSetKeepsSettled | time/compiler.js:265-266 | a write at a key after every recorded read does not change what those reads re-read |
| Compiler.SetKeepsNotBeforeInputs | time/compiler.js:265-266 | a write never lands before the inputs' key, so the inputs stay the earliest entries |
| Compiler.NewIsConsistent | time/code.js:2761 | a compiler built from the inputs of an editor `Program` starts in a self-consistent state |
| Compiler.AdvanceKeepsConsistent | time/compiler.js:145-159 | on a program without `time` commands, each step keeps every logged read in agreement with the committed store |
| Compiler.WriteKeepsConsistent | time/compiler.js:265-268 | a `write` at the current step cannot change what an earlier read sees |
| Compiler.ReadKeepsConsistent | time/compiler.js:123-135 | a read logs the committed store's value at its own key |
| Compiler.SolveKeepsConsistent | time/compiler.js:161-165 | a whole run of a program without `time` commands keeps the state self-consistent |
| Compiler.ConsistentRunIsDone | time/compiler.js:167-178 | a self-consistent run is `done` with the single split at the program length |
| Compiler.ForwardProgramSettlesAtOnce | time/compiler.js:145-178 | a program without `time` commands is `done` after its first run, for any listing of the editor's inputs |
| Compiler.BackwardWriteChecked | time/compiler.js:168-174 | in the program `read, read 7, time 0, write`, the first read diverges exactly when it did not already see 7 |
| Compiler.BackwardWriteSettlesOnSecondRun | time/compiler.js:99-178 | that program's first run is not done and splits at step 0; after `set_up` and `solve` the write seeded into `temp` is seen, and the second run is done |
| Registers.DropFront | time/code.js:1904-1906 | only registers below `first`, all taken from the front, are removed |
| Registers.InsertFront | time/code.js:1907-1913 | fresh registers for `first..to_add_end` go in front of the rest, in address order |
| Registers.DropBack | time/code.js:1915-1917 | only registers above `last`, all taken from the back, are removed |
| Registers.AppendBack | time/code.js:1918-1924 | fresh registers for `to_add_start..last` go after the rest, in address order |
| Registers.UpdateRegisters | time/code.js:1900-1925 | every register shown is either an old one or a fresh read of the store; a contiguous window becomes exactly `first..last`, keeping old registers in view and reading the others fresh; an ascending window stays ascending, within bounds, and keeps every in-view register |
| Registers.ExpectedIdempotent | time/code.js:1900-1925 | updating the window a second time with the same bounds and values changes nothing |
| Registers.ExpectedFromEmpty | time/code.js:1907-1913 | an empty window is filled with fresh registers for `first..last` |
| Sand.Wrap | sand/sand.js:31-46 | a wrapped coordinate lies in `[0, size)` and equals the mathematical modulus of the raw one |
| Sand.Raise | sand/sand.js:55 | one cell changes by the given amount, every other cell keeps its height, and the total changes by the same amount |
| Sand.Avalanche | sand/sand.js:26-52 | the grid keeps its shape and its grain count; with avalanching off, at depth 10 or more, or below the threshold, nothing changes; at depth 9 a steep pair moves exactly one grain from the wrapped top cell to the wrapped bottom cell |
| Sand.Slide | sand/sand.js:48-51 | the steep case keeps the shape and the grain count; on the last level it moves exactly one grain from the top cell to the bottom cell |
| Sand.LowerThenRaise | sand/sand.js:49-50 | lowering one cell by one and raising another by one moves exactly one grain and changes no other cell |
| Sand.AddGrain | sand/sand.js:54-61 | the grid gains exactly one grain; without cascading (avalanching off or depth 10 or more) only the one cell rises |
| Sand.RemoveGrain | sand/sand.js:63-70 | the grid loses exactly one grain; without cascading only the one cell drops |
| Sand.IsSheltered | sand/sand.js:73-91 | true exactly when sheltering is on and some offset from 1 to `width - 1` has a wrapped upwind height difference times the angle of at least the offset |
| Sand.Downwind | sand/sand.js:103 | the landing column is `(x + wind) mod width`, on the grid |
| Sand.Blow | sand/sand.js:102-104 | taking a grain up and setting it down downwind keeps the grain count; without avalanching exactly one grain moves from the cell to its downwind cell |

## Left out

- Pointer assembly in `get_visible_pointers` (time/compiler.js:180-256) is left out. This covers the `preparations` walk, the per-step pointer lists, and their sort and reverse. They build display data for the editor. Line 244 indexes `prev_timeline` with `i` where the loop runs over `j`. The sort at lines 205-211 compares the `t` field, but the records carry `time`. Neither affects the splits or `done`.
- `get_input` (time/code.js:1152-1158) is stated as the predicate `Program.ListsInputs`. The `for … in` order over an object's keys is not modelled, and the keys' conversion to strings is not modelled either.
- Registers.UpdateRegisters takes `first` and `last` as parameters. The source computes them from the scroll offset and block height with `Math.floor` (time/code.js:1901-1902). That is floating-point screen geometry.
- Registers.UpdateRegisters keeps only address and value per register. The drawing sizes (75, 19) and the `Register` object's drawing state are left out.
- Commands whose name has no opcode method (time/compiler.js:150-154) are not modelled, because the command names form a closed datatype here.
- The editor's UI is left out: drawing, drag-and-drop, animation, sliders, buttons and the run loop. Only the two call sequences `FirstRun` and `Rerun` are modelled.
- The sandpile's `setup_desert`, `draw`, and the random choice of a cell in `blow_grain` (sand/sand.js:95-100) are left out, because they use randomness and the canvas. `Blow` takes the chosen cell as a parameter.
- The slider setters `set_wind`, `set_shelter`, `set_avalanche` and the toggles (sand/sand.js:139-183) are left out. Their values are the `Config` fields.
- Sand.IsSheltered models `shelter_angle` as an integer. The slider passes it through `parseFloat`.
- Sand.Blow models `wind_strength` as a natural number. A negative wind would make `(x + wind) % width` negative and index outside the row in sand/sand.js.
- The petri-dish simulation is not part of this model.
- JavaScript numbers are doubles. Values, times, steps, addresses and grain counts are modelled as unbounded `int`, so rounding and overflow of large doubles are not modelled.
- Sand.Avalanche returns the grid only. The `false` that `avalanche` returns when it does nothing (sand/sand.js:26-28) is dropped, because no caller uses it.
- Compiler.FetchWithoutTemp requires that no committed entry precedes the inputs' key `(-Infinity, -1)`. A committed entry with no time but a step of 0 or more, such as `(-Infinity, 5)`, does precede it. Then `get()` takes `temp`'s miss and returns 0 instead of the committed value (time/compiler.js:127-131). The editor never seeds such an entry, because `get_input` gives neither time nor step.
