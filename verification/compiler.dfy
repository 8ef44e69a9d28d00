/**
 * The interpreter `Compiler` (time/compiler.js:64-293): registers
 * `step/addr/val/t`, a committed store `memory` rebuilt from the inputs at
 * every run, and a speculative store `temp` seeded with the previous run's
 * writes. One state value is threaded through `SetUp`, `Advance`, `Solve`
 * and `GetVisiblePointers`.
 */
module Compiler {
  import opened Order
  import opened Wrappers
  import opened Timeline
  import Mem
  import Program

  datatype Op = Read | Write | Add | Sub | Pos | Time | Out

  /** One instruction `{name, val}`; `val` is the literal, when one was given. */
  datatype Command = Command(name: Op, val: Option<int>)

  /**
   * The `PARAMS` table: which opcodes read their operand from memory when no
   * literal is given. `out` is not in the table.
   */
  const PARAMS: map<Op, bool> :=
    map[Read := true, Write := false, Add := true, Sub := true, Time := true, Pos := true]

  /** `this.PARAMS[name]` is truthy. */
  predicate TakesParam(op: Op) {
    op in PARAMS && PARAMS[op]
  }

  /** A recorded read `{val, addr, time, step}`. */
  datatype ReadRec = ReadRec(val: int, addr: int, time: int, step: int)

  /** A recorded write `{val, addr, t, step}`. */
  datatype WriteRec = WriteRec(val: int, addr: int, t: int, step: int)

  /** An entry of the per-time timeline `{addr, val, step}`. */
  datatype Point = Point(addr: int, val: int, step: int)

  /** `this.result`: unset, a delayed `{addr, t}` marker, or a value. */
  datatype Outcome = Unset | Delayed(addr: int, t: int) | Value(val: int)

  datatype Compiler = Compiler(
    commands: seq<Command>,
    input: seq<Mem.Seed>,
    memory: Mem.Mem,
    temp: Mem.Mem,
    readLog: seq<ReadRec>,
    writeLog: seq<WriteRec>,
    step: nat,
    addr: int,
    val: int,
    t: int,
    prevTimeline: map<int, seq<Point>>,
    timeline: map<int, seq<Point>>,
    times: seq<int>,
    result: Outcome,
    done: bool)

  /** Both stores keep their lists sorted. */
  predicate Valid(c: Compiler) {
    Mem.Valid(c.memory) && Mem.Valid(c.temp)
  }

  /** A write replayed into the next run's `temp` at its own key. */
  function Replay(w: WriteRec): Mem.Seed {
    Mem.Seed(w.val, w.addr, Some(w.t), Some(w.step))
  }

  function ReplayAll(writes: seq<WriteRec>): (r: seq<Mem.Seed>)
    ensures |r| == |writes|
    ensures forall i :: 0 <= i < |writes| ==> r[i] == Replay(writes[i])
  {
    seq(|writes|, i requires 0 <= i < |writes| => Replay(writes[i]))
  }

  /** The constructor `new Compiler(commands, input)`. */
  function New(commands: seq<Command>, input: seq<Mem.Seed>): (c: Compiler)
    ensures Valid(c)
    ensures c.step == 0 && c.addr == 0 && c.val == 0 && c.t == 0
    ensures forall a :: multiset(Mem.LineOf(c.memory, a)) == multiset(Mem.SeedsAt(input, a))
    ensures forall a :: Mem.LineOf(c.temp, a) == []
    ensures c.readLog == [] && c.writeLog == [] && c.times == [] && !c.done
  {
    Mem.BuildHoldsSeeds(input);
    Compiler(commands, input, Mem.Build(input), Mem.Build([]), [], [], 0, 0, 0, 0,
             map[], map[], [], Unset, false)
  }

  /**
   * `set_up()`: registers back to 0, `memory` rebuilt from the inputs, `temp`
   * holding exactly the previous run's writes at their own keys, logs
   * cleared, the finished timeline kept as `prevTimeline`, `done` cleared.
   */
  function SetUp(c: Compiler): (c': Compiler)
    ensures Valid(c')
    ensures c'.commands == c.commands && c'.input == c.input
    ensures c'.step == 0 && c'.addr == 0 && c'.val == 0 && c'.t == 0
    ensures forall a :: multiset(Mem.LineOf(c'.memory, a)) == multiset(Mem.SeedsAt(c.input, a))
    ensures forall a :: multiset(Mem.LineOf(c'.temp, a)) == multiset(Mem.SeedsAt(ReplayAll(c.writeLog), a))
    ensures c'.readLog == [] && c'.writeLog == [] && c'.times == []
    ensures c'.prevTimeline == c.timeline && c'.timeline == map[]
    ensures c'.result == Unset && !c'.done
  {
    Mem.BuildHoldsSeeds(c.input);
    Mem.BuildHoldsSeeds(ReplayAll(c.writeLog));
    c.(step := 0, addr := 0, val := 0, t := 0,
       memory := Mem.Build(c.input),
       temp := Mem.Build(ReplayAll(c.writeLog)),
       readLog := [], writeLog := [],
       prevTimeline := c.timeline, timeline := map[], times := [],
       result := Unset, done := false)
  }

  /** The key of the current registers, `(t, step)`. */
  function Now(c: Compiler): Key {
    Key(Fin(c.t), Fin(c.step))
  }

  /**
   * The shared tie-break of `get()`: the speculative value wins only when the
   * committed candidate's key strictly precedes the speculative one's; equal
   * keys, including two misses, give the committed value.
   */
  function Closer(mem: Mem.Hit, temp: Mem.Hit): (v: int)
    ensures v == mem.val || v == temp.val
    ensures mem.key == temp.key ==> v == mem.val
    ensures Precedes(temp.key, mem.key) ==> v == mem.val
    ensures v != mem.val ==> Precedes(mem.key, temp.key)
  {
    PrecedesTrichotomy(mem.key, temp.key);
    if Precedes(mem.key, temp.key) then temp.val else mem.val
  }

  /** The value `get()` returns: the closer of the two stores' candidates at the current key. */
  function Fetch(c: Compiler): int
    requires Valid(c)
  {
    Closer(Mem.Get(c.memory, c.addr, Now(c)), Mem.Get(c.temp, c.addr, Now(c)))
  }

  /** `get()`: returns the fetched value and records exactly one read. */
  function Get(c: Compiler): (r: (int, Compiler))
    requires Valid(c)
    ensures r.1 == c.(readLog := c.readLog + [ReadRec(r.0, c.addr, c.t, c.step)])
    ensures Precedes(Mem.Get(c.memory, c.addr, Now(c)).key, Mem.Get(c.temp, c.addr, Now(c)).key)
            ==> r.0 == Mem.Get(c.temp, c.addr, Now(c)).val
    ensures !Precedes(Mem.Get(c.memory, c.addr, Now(c)).key, Mem.Get(c.temp, c.addr, Now(c)).key)
            ==> r.0 == Mem.Get(c.memory, c.addr, Now(c)).val
  {
    var v := Fetch(c);
    (v, c.(readLog := c.readLog + [ReadRec(v, c.addr, c.t, c.step)]))
  }

  /** The entries recorded at one time, `this.timeline[time]` or nothing. */
  function PointsAt(tl: map<int, seq<Point>>, time: int): seq<Point> {
    if time in tl then tl[time] else []
  }

  /** `add_to_timeline`: appends one point at `time`; every other time is untouched. */
  function AddToTimeline(tl: map<int, seq<Point>>, time: int, addr: int, val: int, step: int)
    : (tl': map<int, seq<Point>>)
    ensures PointsAt(tl', time) == PointsAt(tl, time) + [Point(addr, val, step)]
    ensures forall u :: u != time ==> PointsAt(tl', u) == PointsAt(tl, u)
  {
    if time !in tl then tl[time := [Point(addr, val, step)]]
    else tl[time := tl[time] + [Point(addr, val, step)]]
  }

  /**
   * The opcode methods `read/write/add/sub/pos/time/out`. `param` is None
   * only for the no-argument call, which the `PARAMS` table reserves for
   * `write` and `out`.
   */
  function Exec(c: Compiler, op: Op, param: Option<int>): (c': Compiler)
    requires Valid(c)
    requires TakesParam(op) ==> param.Some?
    ensures Valid(c')
    ensures c'.commands == c.commands && c'.input == c.input && c'.temp == c.temp
    ensures c'.step == c.step && c'.readLog == c.readLog && c'.timeline == c.timeline && c'.times == c.times
    ensures c'.done == c.done && c'.prevTimeline == c.prevTimeline
    ensures op == Write ==> c'.writeLog == c.writeLog + [WriteRec(c.val, c.addr, c.t, c.step)]
    ensures op != Write ==> c'.writeLog == c.writeLog && c'.memory == c.memory
    ensures op != Time ==> c'.t == c.t
  {
    match op
    case Read => c.(val := param.value)
    case Write =>
      c.(memory := Mem.Set(c.memory, c.val, c.addr, Now(c)),
         writeLog := c.writeLog + [WriteRec(c.val, c.addr, c.t, c.step)])
    case Add => c.(val := c.val + param.value)
    case Sub => c.(val := c.val - param.value)
    case Pos => c.(addr := param.value)
    case Time => c.(t := param.value - 1)
    case Out =>
      if param.None? then c.(result := Delayed(c.addr, c.t))
      else c.(result := Value(param.value))
  }

  /** The command at the current step reads memory: no literal and a `PARAMS` entry of true. */
  predicate ReadsMemory(cmd: Command) {
    cmd.val.None? && TakesParam(cmd.name)
  }

  /** The operand the current command receives: its literal, else a memory read, else nothing. */
  function Operand(c: Compiler): Option<int>
    requires Valid(c)
    requires c.step < |c.commands|
  {
    var cmd := c.commands[c.step];
    if cmd.val.Some? then cmd.val
    else if TakesParam(cmd.name) then Some(Fetch(c))
    else None
  }

  /** Runs the current command on its operand: the literal, else a logged memory read, else nothing. */
  function Dispatch(c: Compiler): (c': Compiler)
    requires Valid(c)
    requires c.step < |c.commands|
    ensures Valid(c')
    ensures c'.commands == c.commands && c'.input == c.input && c'.temp == c.temp
    ensures c'.step == c.step && c'.timeline == c.timeline && c'.times == c.times
    ensures c'.done == c.done && c'.prevTimeline == c.prevTimeline
    ensures c.commands[c.step].name != Time ==> c'.t == c.t
    ensures c'.readLog == c.readLog
              + if ReadsMemory(c.commands[c.step]) then [ReadRec(Fetch(c), c.addr, c.t, c.step)] else []
    ensures c'.writeLog == c.writeLog
              + if c.commands[c.step].name == Write then [WriteRec(c.val, c.addr, c.t, c.step)] else []
    ensures c'.memory == if c.commands[c.step].name == Write then Mem.Set(c.memory, c.val, c.addr, Now(c)) else c.memory
  {
    var cmd := c.commands[c.step];
    if cmd.val.Some? then Exec(c, cmd.name, cmd.val)
    else if TakesParam(cmd.name) then
      var (v, c1) := Get(c);
      Exec(c1, cmd.name, Some(v))
    else Exec(c, cmd.name, None)
  }

  /**
   * `advance()`: past the last command nothing happens. Otherwise the
   * registers are recorded on the timeline and `t` on `times`, the command
   * runs (a read of memory is logged, a write is logged), and `step` goes up
   * by one.
   */
  function Advance(c: Compiler): (c': Compiler)
    requires Valid(c)
    ensures Valid(c')
    ensures c'.commands == c.commands && c'.input == c.input && c'.temp == c.temp
    ensures c'.done == c.done && c'.prevTimeline == c.prevTimeline
    ensures c.step >= |c.commands| ==> c' == c
    ensures c.step < |c.commands| ==> c'.step == c.step + 1 && c'.times == c.times + [c.t]
    ensures c.step < |c.commands| && c.commands[c.step].name != Time ==> c'.t == c.t + 1
    ensures c.step < |c.commands| ==>
              && PointsAt(c'.timeline, c.t) == PointsAt(c.timeline, c.t) + [Point(c.addr, c.val, c.step)]
              && forall u :: u != c.t ==> PointsAt(c'.timeline, u) == PointsAt(c.timeline, u)
    ensures c.step < |c.commands| ==>
              c'.readLog == c.readLog
                + if ReadsMemory(c.commands[c.step]) then [ReadRec(Fetch(c), c.addr, c.t, c.step)] else []
    ensures c.step < |c.commands| ==>
              c'.writeLog == c.writeLog
                + if c.commands[c.step].name == Write then [WriteRec(c.val, c.addr, c.t, c.step)] else []
    ensures c.step < |c.commands| ==>
              c'.memory == if c.commands[c.step].name == Write then Mem.Set(c.memory, c.val, c.addr, Now(c)) else c.memory
  {
    if c.step < |c.commands| then
      var c1 := c.(timeline := AddToTimeline(c.timeline, c.t, c.addr, c.val, c.step),
                   times := c.times + [c.t]);
      var c2 := Dispatch(c1);
      c2.(t := c2.t + 1, step := c2.step + 1)
    else
      c
  }

  /**
   * The register effect of one `advance()` on a command with operand `p`:
   * `read` loads it, `add`/`sub` apply it, `pos` moves the address to it,
   * `time` makes the clock land exactly on it, `out` records the result
   * (delayed when there is no operand); every other clock tick is +1.
   */
  lemma AdvanceRegisters(c: Compiler)
    requires Valid(c)
    requires c.step < |c.commands|
    ensures var cmd := c.commands[c.step];
            var p := Operand(c);
            var c' := Advance(c);
            && (cmd.name == Read ==> c'.val == p.value)
            && (cmd.name == Add ==> c'.val == c.val + p.value)
            && (cmd.name == Sub ==> c'.val == c.val - p.value)
            && (cmd.name !in {Read, Add, Sub} ==> c'.val == c.val)
            && (cmd.name == Pos ==> c'.addr == p.value)
            && (cmd.name != Pos ==> c'.addr == c.addr)
            && (cmd.name == Time ==> c'.t == p.value)
            && (cmd.name != Time ==> c'.t == c.t + 1)
            && (cmd.name == Out ==> c'.result == if p.None? then Delayed(c.addr, c.t) else Value(p.value))
            && (cmd.name != Out ==> c'.result == c.result)
  {
    var c1 := c.(timeline := AddToTimeline(c.timeline, c.t, c.addr, c.val, c.step), times := c.times + [c.t]);
    assert Operand(c1) == Operand(c);
    DispatchEffect(c1);
  }

  /** What the opcode method does to the registers, before the clock tick of `advance()`. */
  predicate Effect(c: Compiler, c': Compiler, op: Op, p: Option<int>) {
    && (op == Read ==> p.Some? && c'.val == p.value)
    && (op == Add ==> p.Some? && c'.val == c.val + p.value)
    && (op == Sub ==> p.Some? && c'.val == c.val - p.value)
    && (op !in {Read, Add, Sub} ==> c'.val == c.val)
    && (op == Pos ==> p.Some? && c'.addr == p.value)
    && (op != Pos ==> c'.addr == c.addr)
    && (op == Time ==> p.Some? && c'.t == p.value - 1)
    && (op != Time ==> c'.t == c.t)
    && (op == Out ==> c'.result == if p.None? then Delayed(c.addr, c.t) else Value(p.value))
    && (op != Out ==> c'.result == c.result)
  }

  lemma ExecEffect(c: Compiler, op: Op, param: Option<int>)
    requires Valid(c)
    requires TakesParam(op) ==> param.Some?
    ensures Effect(c, Exec(c, op, param), op, param)
  {
  }

  lemma DispatchEffect(c: Compiler)
    requires Valid(c)
    requires c.step < |c.commands|
    ensures Effect(c, Dispatch(c), c.commands[c.step].name, Operand(c))
  {
    var cmd := c.commands[c.step];
    if cmd.val.Some? {
      ExecEffect(c, cmd.name, cmd.val);
    } else if TakesParam(cmd.name) {
      var (v, c1) := Get(c);
      ExecEffect(c1, cmd.name, Some(v));
    } else {
      ExecEffect(c, cmd.name, None);
    }
  }

  /** `out` is not in `PARAMS`: without a literal it never reads memory and always yields a delayed marker. */
  lemma OutNeverReads(c: Compiler)
    requires Valid(c)
    requires c.step < |c.commands| && c.commands[c.step] == Command(Out, None)
    ensures Advance(c).readLog == c.readLog
    ensures Advance(c).result == Delayed(c.addr, c.t)
  {
    AdvanceRegisters(c);
  }

  /** How many of `cmds` read memory. */
  function CountReads(cmds: seq<Command>): nat {
    if |cmds| == 0 then 0
    else CountReads(cmds[..|cmds| - 1]) + (if ReadsMemory(cmds[|cmds| - 1]) then 1 else 0)
  }

  /** How many of `cmds` are `write`. */
  function CountWrites(cmds: seq<Command>): nat {
    if |cmds| == 0 then 0
    else CountWrites(cmds[..|cmds| - 1]) + (if cmds[|cmds| - 1].name == Write then 1 else 0)
  }

  /**
   * `solve()`: advance until the last command has run. Each remaining
   * command that reads memory adds one read, each remaining `write` one write.
   */
  function Solve(c: Compiler): (c': Compiler)
    requires Valid(c)
    requires c.step <= |c.commands|
    ensures Valid(c')
    ensures c'.commands == c.commands && c'.input == c.input && c'.temp == c.temp
    ensures c'.done == c.done && c'.prevTimeline == c.prevTimeline
    ensures c'.step == |c.commands|
    ensures |c'.readLog| == |c.readLog| + CountReads(c.commands[..|c.commands|]) - CountReads(c.commands[..c.step])
    ensures |c'.writeLog| == |c.writeLog| + CountWrites(c.commands[..|c.commands|]) - CountWrites(c.commands[..c.step])
    ensures |c'.times| == |c.times| + |c.commands| - c.step
    decreases |c.commands| - c.step
  {
    if c.step < |c.commands| then
      AdvanceCounts(c);
      Solve(Advance(c))
    else
      c
  }

  /** One `advance()` logs as many reads and writes as its command adds to the counts. */
  lemma AdvanceCounts(c: Compiler)
    requires Valid(c)
    requires c.step < |c.commands|
    ensures var c' := Advance(c);
            && |c'.readLog| == |c.readLog| + CountReads(c.commands[..c.step + 1]) - CountReads(c.commands[..c.step])
            && |c'.writeLog| == |c.writeLog| + CountWrites(c.commands[..c.step + 1]) - CountWrites(c.commands[..c.step])
  {
    assert c.commands[..c.step + 1][..c.step] == c.commands[..c.step];
  }

  /** The committed value at a recorded read's key. */
  function Recheck(c: Compiler, r: ReadRec): int
    requires Valid(c)
  {
    Mem.Get(c.memory, r.addr, ReadKey(r)).val
  }

  /** The key a read was made at. */
  function ReadKey(r: ReadRec): Key {
    Key(Fin(r.time), Fin(r.step))
  }

  /** The reads were logged at strictly increasing steps. */
  predicate StepsAscending(log: seq<ReadRec>) {
    forall i, j :: 0 <= i < j < |log| ==> log[i].step < log[j].step
  }

  predicate Ascending(s: seq<int>) {
    forall i, j :: 0 <= i < j < |s| ==> s[i] < s[j]
  }

  /** A recorded read saw something other than what committed memory now holds at its key. */
  predicate Diverges(c: Compiler, r: ReadRec)
    requires Valid(c)
  {
    Recheck(c, r) != r.val
  }

  /** The steps of the reads flagged in `bad`, in log order. */
  function Flagged(log: seq<ReadRec>, bad: seq<bool>): (s: seq<int>)
    requires |bad| == |log|
    ensures |s| == 0 <==> forall i :: 0 <= i < |log| ==> !bad[i]
    ensures forall i :: 0 <= i < |log| && bad[i] ==> log[i].step in s
    ensures forall x :: x in s ==> exists i :: 0 <= i < |log| && log[i].step == x && bad[i]
  {
    if |log| == 0 then []
    else
      var n := |log| - 1;
      FlaggedStep(log, bad);
      if bad[n] then Flagged(log[..n], bad[..n]) + [log[n].step] else Flagged(log[..n], bad[..n])
  }

  lemma FlaggedStep(log: seq<ReadRec>, bad: seq<bool>)
    requires |bad| == |log| > 0
    ensures forall i :: 0 <= i < |log| - 1 ==> log[..|log| - 1][i] == log[i] && bad[..|log| - 1][i] == bad[i]
  {
  }

  lemma {:induction false} FlaggedAscending(log: seq<ReadRec>, bad: seq<bool>)
    requires |bad| == |log|
    requires StepsAscending(log)
    ensures Ascending(Flagged(log, bad))
  {
    if |log| > 0 {
      var n := |log| - 1;
      FlaggedStep(log, bad);
      FlaggedAscending(log[..n], bad[..n]);
      var s := Flagged(log[..n], bad[..n]);
      assert StepsAscending(log[..n]);
      if bad[n] {
        forall x | x in s
          ensures x < log[n].step
        {
          var i :| 0 <= i < n && log[..n][i].step == x && bad[..n][i];
        }
        assert Flagged(log, bad) == s + [log[n].step];
        AscendingAppend(s, log[n].step);
      }
    }
  }

  /** The steps of the reads whose value differs from the committed value at their key, in log order. */
  function Divergences(c: Compiler, log: seq<ReadRec>): (s: seq<int>)
    requires Valid(c)
    ensures |s| == 0 <==> forall i :: 0 <= i < |log| ==> !Diverges(c, log[i])
    ensures forall i :: 0 <= i < |log| && Diverges(c, log[i]) ==> log[i].step in s
    ensures forall x :: x in s ==> exists i :: 0 <= i < |log| && log[i].step == x && Diverges(c, log[i])
    ensures StepsAscending(log) ==> Ascending(s)
  {
    var bad := DivergentFlags(c, log);
    if StepsAscending(log) then FlaggedAscending(log, bad); Flagged(log, bad) else Flagged(log, bad)
  }

  /** One flag per read: whether it diverges. */
  function DivergentFlags(c: Compiler, log: seq<ReadRec>): (bad: seq<bool>)
    requires Valid(c)
    ensures |bad| == |log|
    ensures forall i :: 0 <= i < |log| ==> bad[i] == Diverges(c, log[i])
  {
    seq(|log|, i requires 0 <= i < |log| => Diverges(c, log[i]))
  }

  /**
   * The phase counter of `get_visible_pointers` (time/compiler.js:214-218):
   * before step `step` is handled, the phase moves on once if the step is past
   * the current split. A split index past the end reads as `undefined`,
   * which no step exceeds.
   */
  function PhasesFrom(splits: seq<int>, step: nat, n: nat, phase: nat): (r: seq<nat>)
    ensures |r| == if step <= n then n - step else 0
    decreases n - step
  {
    if step >= n then []
    else
      var phase' := if phase < |splits| && step > splits[phase] then phase + 1 else phase;
      [phase'] + PhasesFrom(splits, step + 1, n, phase')
  }

  /** The part of `get_visible_pointers` that is modelled: the split list, the `done` flag and each step's phase. */
  datatype Visible = Visible(splits: seq<int>, phases: seq<nat>)

  /**
   * `get_visible_pointers()`: `done` becomes true when no recorded read
   * differs from the committed value at its key; the split list is the
   * divergent steps followed by the number of commands; one phase per command.
   */
  function GetVisiblePointers(c: Compiler): (r: (Compiler, Visible))
    requires Valid(c)
    ensures r.0 == c.(done := r.0.done)
    ensures r.0.done <==> c.done || forall i :: 0 <= i < |c.readLog| ==> Recheck(c, c.readLog[i]) == c.readLog[i].val
    ensures |r.1.splits| >= 1 && r.1.splits[|r.1.splits| - 1] == |c.commands|
    ensures |r.1.phases| == |c.commands|
  {
    var div := Divergences(c, c.readLog);
    var splits := div + [|c.commands|];
    var done := if |div| == 0 then true else c.done;
    (c.(done := done), Visible(splits, PhasesFrom(splits, 0, |c.commands|, 0)))
  }

  /**
   * During a run every logged read belongs to an executed step, and the
   * reads were logged in step order.
   */
  predicate ReadsOrdered(c: Compiler) {
    && c.step <= |c.commands|
    && (forall i :: 0 <= i < |c.readLog| ==> 0 <= c.readLog[i].step < c.step)
    && StepsAscending(c.readLog)
  }

  lemma {:induction false} SolveKeepsReadsOrdered(c: Compiler)
    requires Valid(c)
    requires ReadsOrdered(c)
    ensures ReadsOrdered(Solve(c))
    decreases |c.commands| - c.step
  {
    if c.step < |c.commands| {
      AdvanceKeepsReadsOrdered(c);
      SolveKeepsReadsOrdered(Advance(c));
    }
  }

  /** One step logs at most one read, at the step just executed, after all earlier ones. */
  lemma AdvanceKeepsReadsOrdered(c: Compiler)
    requires Valid(c)
    requires ReadsOrdered(c)
    ensures ReadsOrdered(Advance(c))
  {
    if c.step < |c.commands| {
      var extra := if ReadsMemory(c.commands[c.step]) then [ReadRec(Fetch(c), c.addr, c.t, c.step)] else [];
      assert Advance(c).readLog == c.readLog + extra;
      LogAtStep(c.readLog, extra, c.step);
    }
  }

  /** Appending reads made at step `s` to a log of reads before `s` keeps the log ordered and below `s + 1`. */
  lemma LogAtStep(log: seq<ReadRec>, extra: seq<ReadRec>, s: int)
    requires StepsAscending(log) && forall i :: 0 <= i < |log| ==> 0 <= log[i].step < s
    requires 0 <= s && |extra| <= 1 && forall i :: 0 <= i < |extra| ==> extra[i].step == s
    ensures StepsAscending(log + extra)
    ensures forall i :: 0 <= i < |log + extra| ==> 0 <= (log + extra)[i].step < s + 1
  {
    forall i | 0 <= i < |log + extra|
      ensures 0 <= (log + extra)[i].step < s + 1
    {
      if i >= |log| {
        assert (log + extra)[i] == extra[i - |log|];
      } else {
        assert (log + extra)[i] == log[i];
      }
    }
  }

  /** Step `s` lies in phase `p`: `p` is the first split at or after `s`. */
  predicate InPhase(splits: seq<int>, s: int, p: int) {
    && 0 <= p < |splits|
    && s <= splits[p]
    && (p == 0 || splits[p - 1] < s)
  }

  lemma {:induction false} PhasesFromFollowSplits(splits: seq<int>, step: nat, n: nat, phase: nat)
    requires Ascending(splits)
    requires |splits| > 0 && splits[|splits| - 1] >= n
    requires step <= n
    requires step == 0 ==> phase == 0 && splits[0] >= -1
    requires step > 0 ==> InPhase(splits, step - 1, phase)
    ensures forall k :: 0 <= k < n - step ==> InPhase(splits, step + k, PhasesFrom(splits, step, n, phase)[k])
    decreases n - step
  {
    if step < n {
      var phase' := if phase < |splits| && step > splits[phase] then phase + 1 else phase;
      assert InPhase(splits, step, phase');
      PhasesFromFollowSplits(splits, step + 1, n, phase');
    }
  }

  /** The divergent steps of an ordered log, followed by the command count, ascend. */
  lemma SplitsAscend(c: Compiler)
    requires Valid(c)
    requires ReadsOrdered(c)
    ensures var splits := GetVisiblePointers(c).1.splits;
            && Ascending(splits)
            && -1 <= splits[0]
            && forall i :: 0 <= i < |c.readLog| && Diverges(c, c.readLog[i]) ==> splits[0] <= c.readLog[i].step
  {
    var div := Divergences(c, c.readLog);
    DivergencesAreSteps(c);
    AscendingAppend(div, |c.commands|);
    forall i | 0 <= i < |c.readLog| && Diverges(c, c.readLog[i])
      ensures (div + [|c.commands|])[0] <= c.readLog[i].step
    {
      AscendingHeadLeast(div, c.readLog[i].step);
    }
    if |div| > 0 {
      assert div[0] in div;
    }
  }

  /** Every divergent step of an ordered log is a step of the program. */
  lemma DivergencesAreSteps(c: Compiler)
    requires Valid(c)
    requires ReadsOrdered(c)
    ensures forall x :: x in Divergences(c, c.readLog) ==> 0 <= x < |c.commands|
  {
    forall x | x in Divergences(c, c.readLog)
      ensures 0 <= x < |c.commands|
    {
      var i :| 0 <= i < |c.readLog| && c.readLog[i].step == x && Diverges(c, c.readLog[i]);
    }
  }

  lemma AscendingAppend(s: seq<int>, n: int)
    requires Ascending(s)
    requires forall x :: x in s ==> x < n
    ensures Ascending(s + [n])
  {
    forall i, j | 0 <= i < j < |s| + 1
      ensures (s + [n])[i] < (s + [n])[j]
    {
      if j == |s| {
        assert s[i] in s;
      }
    }
  }

  lemma AscendingHeadLeast(s: seq<int>, x: int)
    requires Ascending(s)
    requires x in s
    ensures s[0] <= x
  {
    var k :| 0 <= k < |s| && s[k] == x;
    if k > 0 {
      assert s[0] < s[k];
    }
  }

  /**
   * After `set_up()` and `solve()`, the split list of `get_visible_pointers`
   * is strictly increasing and starts with the earliest divergent step; every
   * step's phase is the first split at or after it, so the phase index never
   * runs past the split list.
   */
  lemma RunSplits(c: Compiler)
    requires Valid(c)
    ensures var run := Solve(SetUp(c));
            var v := GetVisiblePointers(run).1;
            && Ascending(v.splits)
            && v.splits[|v.splits| - 1] == |c.commands|
            && (forall i :: 0 <= i < |run.readLog| && Diverges(run, run.readLog[i]) ==> v.splits[0] <= run.readLog[i].step)
            && forall s :: 0 <= s < |c.commands| ==> InPhase(v.splits, s, v.phases[s])
  {
    var c0 := SetUp(c);
    assert ReadsOrdered(c0);
    SolveKeepsReadsOrdered(c0);
    VisibleFollowSplits(Solve(c0));
  }

  /** For reads in step order: ascending splits ending at the command count, and every step in its phase. */
  lemma VisibleFollowSplits(c: Compiler)
    requires Valid(c)
    requires ReadsOrdered(c)
    ensures var v := GetVisiblePointers(c).1;
            && Ascending(v.splits)
            && v.splits[|v.splits| - 1] == |c.commands|
            && (forall i :: 0 <= i < |c.readLog| && Diverges(c, c.readLog[i]) ==> v.splits[0] <= c.readLog[i].step)
            && forall s :: 0 <= s < |c.commands| ==> InPhase(v.splits, s, v.phases[s])
  {
    SplitsAscend(c);
    var v := GetVisiblePointers(c).1;
    PhasesFromFollowSplits(v.splits, 0, |c.commands|, 0);
  }

  /** The first run of the editor (time/code.js:2761-2762, 2493): construct, solve, check. */
  function FirstRun(commands: seq<Command>, input: seq<Mem.Seed>): (r: (Compiler, Visible))
    ensures r.0.commands == commands && r.0.step == |commands|
  {
    GetVisiblePointers(Solve(New(commands, input)))
  }

  /** Every later run (time/code.js:2679-2681, 2493): set up, solve, check. */
  function Rerun(c: Compiler): (r: (Compiler, Visible))
    requires Valid(c)
    ensures r.0.commands == c.commands && r.0.step == |c.commands|
  {
    GetVisiblePointers(Solve(SetUp(c)))
  }

  /** No command moves the clock: time and step advance together. */
  predicate Forward(cmds: seq<Command>) {
    forall i :: 0 <= i < |cmds| ==> cmds[i].name != Time
  }

  /** No committed entry sits strictly before the key of an input without time and step. */
  ghost predicate NotBeforeInputs(m: Mem.Mem) {
    forall a, j :: 0 <= j < |Mem.LineOf(m, a)| ==> !Precedes(Mem.LineOf(m, a)[j].key, InputKey)
  }

  /**
   * With nothing speculative to offer at the address, `get()` answers the
   * committed value, provided no committed entry sits before the inputs' key.
   */
  lemma FetchWithoutTemp(c: Compiler)
    requires Valid(c)
    requires Mem.LineOf(c.temp, c.addr) == []
    requires NotBeforeInputs(c.memory)
    ensures Fetch(c) == Mem.Get(c.memory, c.addr, Now(c)).val
  {
    var line := Mem.LineOf(c.memory, c.addr);
    ScanSeparates(line, Now(c));
    var i := Scan(line, Now(c));
    PrecedesIrreflexive(InputKey);
    if i > 0 {
      assert LastBefore(line, Now(c), i - 1);
    }
  }

  /** Every logged read saw what `m` holds at the read's key. */
  ghost predicate Settled(m: Mem.Mem, log: seq<ReadRec>)
    requires Mem.Valid(m)
  {
    forall i :: 0 <= i < |log| ==> Mem.Get(m, log[i].addr, ReadKey(log[i])).val == log[i].val
  }

  /** A set at a key that no logged read's key precedes... is invisible to every logged read. */
  lemma LaterSetKeepsSettled(m: Mem.Mem, val: int, addr: int, k: Key, log: seq<ReadRec>)
    requires Mem.Valid(m) && Settled(m, log)
    requires forall i :: 0 <= i < |log| ==> !Precedes(k, ReadKey(log[i]))
    ensures Settled(Mem.Set(m, val, addr, k), log)
  {
    forall i | 0 <= i < |log|
      ensures Mem.Get(Mem.Set(m, val, addr, k), log[i].addr, ReadKey(log[i])).val == log[i].val
    {
      Mem.GetIgnoresLaterSet(m, val, addr, k, log[i].addr, ReadKey(log[i]));
    }
  }

  /** Storing at a finite time keeps every committed entry at or after the inputs' key. */
  lemma SetKeepsNotBeforeInputs(m: Mem.Mem, val: int, addr: int, k: Key)
    requires Mem.Valid(m) && NotBeforeInputs(m)
    requires !Precedes(k, InputKey)
    ensures NotBeforeInputs(Mem.Set(m, val, addr, k))
  {
    var m' := Mem.Set(m, val, addr, k);
    var line := Mem.LineOf(m, addr);
    var line' := Mem.LineOf(m', addr);
    var p :| 0 <= p <= |line| && line' == line[..p] + [Entry(k, val)] + line[p..];
    forall a, j | 0 <= j < |Mem.LineOf(m', a)|
      ensures !Precedes(Mem.LineOf(m', a)[j].key, InputKey)
    {
      if a == addr && j > p {
        assert line'[j] == line[j - 1];
      } else if a == addr && j < p {
        assert line'[j] == line[j];
      }
    }
  }

  /**
   * The state of a first run of a forward program: the clock equals the step,
   * `temp` is empty, no committed entry precedes the inputs' key, and every
   * logged read was made at an earlier step and saw the committed value at
   * its own key.
   */
  ghost predicate Consistent(c: Compiler) {
    && Valid(c)
    && c.step <= |c.commands|
    && c.t == c.step
    && (forall a :: Mem.LineOf(c.temp, a) == [])
    && NotBeforeInputs(c.memory)
    && (forall i :: 0 <= i < |c.readLog| ==> c.readLog[i].time == c.readLog[i].step < c.step)
    && Settled(c.memory, c.readLog)
  }

  lemma AdvanceKeepsConsistent(c: Compiler)
    requires Consistent(c) && Forward(c.commands)
    requires c.step < |c.commands|
    ensures Consistent(Advance(c))
  {
    var cmd := c.commands[c.step];
    if cmd.name == Write {
      WriteKeepsConsistent(c);
    } else if ReadsMemory(cmd) {
      ReadKeepsConsistent(c);
    }
  }

  lemma WriteKeepsConsistent(c: Compiler)
    requires Consistent(c) && Forward(c.commands)
    requires c.step < |c.commands| && c.commands[c.step].name == Write
    ensures Consistent(Advance(c))
  {
    WriteAdvance(c);
    assert Now(c) == Key(Fin(c.step), Fin(c.step));
    StoreAtStep(c.memory, c.readLog, c.val, c.addr, c.step);
    assert Advance(c).readLog == c.readLog + [];
    StepConsistent(c, Advance(c), []);
  }

  /** A `write` step stores the value at the present key, logs no read, and ticks the clock. */
  lemma WriteAdvance(c: Compiler)
    requires Valid(c)
    requires c.step < |c.commands| && c.commands[c.step].name == Write
    ensures Advance(c).memory == Mem.Set(c.memory, c.val, c.addr, Now(c))
    ensures Advance(c).readLog == c.readLog
    ensures Advance(c).t == c.t + 1
  {
  }

  /** Storing at `(s, s)` keeps the inputs first and is invisible to reads logged before step `s`. */
  lemma StoreAtStep(m: Mem.Mem, log: seq<ReadRec>, val: int, addr: int, s: int)
    requires Mem.Valid(m) && NotBeforeInputs(m) && Settled(m, log)
    requires forall i :: 0 <= i < |log| ==> log[i].time == log[i].step < s
    ensures NotBeforeInputs(Mem.Set(m, val, addr, Key(Fin(s), Fin(s))))
    ensures Settled(Mem.Set(m, val, addr, Key(Fin(s), Fin(s))), log)
  {
    var k := Key(Fin(s), Fin(s));
    SetKeepsNotBeforeInputs(m, val, addr, k);
    LaterSetKeepsSettled(m, val, addr, k, log);
  }

  /** The conditions of `Consistent` one step on, given the new store satisfies them. */
  lemma StepConsistent(c: Compiler, c': Compiler, extra: seq<ReadRec>)
    requires Consistent(c) && c.step < |c.commands|
    requires Valid(c') && c'.commands == c.commands && c'.temp == c.temp
    requires c'.step == c.step + 1 && c'.t == c.t + 1
    requires NotBeforeInputs(c'.memory) && Settled(c'.memory, c'.readLog)
    requires c'.readLog == c.readLog + extra
    requires forall i :: 0 <= i < |extra| ==> extra[i].time == extra[i].step == c.step
    ensures Consistent(c')
  {
  }

  lemma ReadKeepsConsistent(c: Compiler)
    requires Consistent(c) && Forward(c.commands)
    requires c.step < |c.commands| && ReadsMemory(c.commands[c.step])
    ensures Consistent(Advance(c))
  {
    ReadAdvance(c);
    FetchWithoutTemp(c);
    var r := ReadRec(Fetch(c), c.addr, c.t, c.step);
    assert ReadKey(r) == Now(c);
    SettledExtend(c.memory, c.readLog, r);
    StepConsistent(c, Advance(c), [r]);
  }

  /** A reading step other than `time` leaves the store alone, logs the fetched value, and ticks the clock. */
  lemma ReadAdvance(c: Compiler)
    requires Valid(c)
    requires c.step < |c.commands| && ReadsMemory(c.commands[c.step]) && c.commands[c.step].name != Time
    ensures Advance(c).memory == c.memory
    ensures Advance(c).readLog == c.readLog + [ReadRec(Fetch(c), c.addr, c.t, c.step)]
    ensures Advance(c).t == c.t + 1
  {
    assert c.commands[c.step].name != Write by {
      assert !TakesParam(Write);
    }
  }

  lemma SettledExtend(m: Mem.Mem, log: seq<ReadRec>, r: ReadRec)
    requires Mem.Valid(m) && Settled(m, log)
    requires Mem.Get(m, r.addr, ReadKey(r)).val == r.val
    ensures Settled(m, log + [r])
  {
    forall i | 0 <= i < |log| + 1
      ensures Mem.Get(m, (log + [r])[i].addr, ReadKey((log + [r])[i])).val == (log + [r])[i].val
    {
      if i < |log| {
        assert (log + [r])[i] == log[i];
      }
    }
  }

  lemma {:induction false} SolveKeepsConsistent(c: Compiler)
    requires Consistent(c) && Forward(c.commands)
    ensures Consistent(Solve(c))
    decreases |c.commands| - c.step
  {
    if c.step < |c.commands| {
      AdvanceKeepsConsistent(c);
      SolveKeepsConsistent(Advance(c));
    }
  }

  /** The constructor on the editor's inputs starts a consistent first run. */
  lemma NewIsConsistent(p: Program.Program, commands: seq<Command>, input: seq<Mem.Seed>)
    requires Program.ListsInputs(p, input)
    ensures Consistent(New(commands, input))
  {
    var c0 := New(commands, input);
    forall a, j | 0 <= j < |Mem.LineOf(c0.memory, a)|
      ensures !Precedes(Mem.LineOf(c0.memory, a)[j].key, InputKey)
    {
      var e := Mem.LineOf(c0.memory, a)[j];
      assert e in multiset(Mem.LineOf(c0.memory, a));
      assert e in Mem.SeedsAt(input, a);
      Mem.SeedsAtFromSeeds(input, a);
      var i :| 0 <= i < |input| && input[i].addr == a && e == Mem.SeedEntry(input[i]);
      assert input[i].t.None? && input[i].step.None?;
      assert e.key == InputKey;
      PrecedesIrreflexive(InputKey);
    }
  }

  /** A finished consistent run has no divergent read: the only split is the command count. */
  lemma ConsistentRunIsDone(c: Compiler)
    requires Consistent(c)
    ensures GetVisiblePointers(c).0.done
    ensures GetVisiblePointers(c).1.splits == [|c.commands|]
  {
    var div := Divergences(c, c.readLog);
    assert forall i :: 0 <= i < |c.readLog| ==> !Diverges(c, c.readLog[i]);
    assert |div| == 0;
  }

  /**
   * A program without `time` commands, run on the inputs the editor lists,
   * is finished after its first run: every read already saw the value memory
   * holds at its key, so no split is found and `done` is set.
   */
  lemma ForwardProgramSettlesAtOnce(p: Program.Program, commands: seq<Command>, input: seq<Mem.Seed>)
    requires Program.ListsInputs(p, input)
    requires Forward(commands)
    ensures FirstRun(commands, input).0.done
    ensures FirstRun(commands, input).1.splits == [|commands|]
  {
    var c0 := New(commands, input);
    NewIsConsistent(p, commands, input);
    SolveKeepsConsistent(c0);
    ConsistentRunIsDone(Solve(c0));
  }

  /**
   * A write sent back in time: read address 0, load 7, jump to time 0, write.
   * The first run reads 0 but the write lands before the read's key, so step 0
   * is a split; the second run reads the replayed 7 and finishes.
   */
  const BackwardWrite: seq<Command> :=
    [Command(Read, None), Command(Read, Some(7)), Command(Time, Some(0)), Command(Write, None)]

  /** Solving is advancing once, then solving the rest. */
  lemma SolveUnfolds(c: Compiler)
    requires Valid(c) && c.step < |c.commands|
    ensures Solve(c) == Solve(Advance(c))
  {
  }

  /** The registers, logs and committed list of address 0 that the backward-write run goes through. */
  predicate AtStep(c: Compiler, step: nat, t: int, val: int, readLog: seq<ReadRec>, writeLog: seq<WriteRec>, line: Line) {
    && Valid(c)
    && c.commands == BackwardWrite
    && c.step == step && c.t == t && c.addr == 0 && c.val == val
    && c.readLog == readLog && c.writeLog == writeLog && !c.done
    && Mem.LineOf(c.memory, 0) == line
  }

  lemma BackwardWriteStep0(c: Compiler, x: int)
    requires AtStep(c, 0, 0, 0, [], [], [])
    requires Fetch(c) == x
    ensures AtStep(Advance(c), 1, 1, x, [ReadRec(x, 0, 0, 0)], [], [])
  {
    AdvanceRegisters(c);
    assert ReadsMemory(c.commands[0]);
    assert Operand(c) == Some(x);
  }

  lemma BackwardWriteStep1(c: Compiler, readLog: seq<ReadRec>)
    requires AtStep(c, 1, 1, c.val, readLog, [], [])
    ensures AtStep(Advance(c), 2, 2, 7, readLog, [], [])
  {
    AdvanceRegisters(c);
  }

  lemma BackwardWriteStep2(c: Compiler, readLog: seq<ReadRec>)
    requires AtStep(c, 2, 2, 7, readLog, [], [])
    ensures AtStep(Advance(c), 3, 0, 7, readLog, [], [])
  {
    AdvanceRegisters(c);
  }

  lemma BackwardWriteStep3(c: Compiler, readLog: seq<ReadRec>)
    requires AtStep(c, 3, 0, 7, readLog, [], [])
    ensures AtStep(Advance(c), 4, 1, 7, readLog, [WriteRec(7, 0, 0, 3)], [Entry(Key(Fin(0), Fin(3)), 7)])
  {
    AdvanceRegisters(c);
    Mem.SetOnEmpty(c.memory, 7, 0, Key(Fin(0), Fin(3)));
  }

  /** Both runs make the same four advances; only the value read at step 0 differs. */
  lemma BackwardWriteRun(c: Compiler, x: int) returns (run: Compiler)
    requires AtStep(c, 0, 0, 0, [], [], [])
    requires Fetch(c) == x
    ensures run == Solve(c)
    ensures AtStep(run, 4, 1, 7, [ReadRec(x, 0, 0, 0)], [WriteRec(7, 0, 0, 3)], [Entry(Key(Fin(0), Fin(3)), 7)])
  {
    BackwardWriteStep0(c, x);
    var c1 := Advance(c);
    BackwardWriteStep1(c1, [ReadRec(x, 0, 0, 0)]);
    var c2 := Advance(c1);
    BackwardWriteStep2(c2, [ReadRec(x, 0, 0, 0)]);
    var c3 := Advance(c2);
    BackwardWriteStep3(c3, [ReadRec(x, 0, 0, 0)]);
    var c4 := Advance(c3);
    SolveUnfolds(c);
    SolveUnfolds(c1);
    SolveUnfolds(c2);
    SolveUnfolds(c3);
    run := c4;
  }

  /** At the end of either run the committed value at the read's key is the 7 written at (0, 3). */
  lemma BackwardWriteChecked(run: Compiler, x: int)
    requires AtStep(run, 4, 1, 7, [ReadRec(x, 0, 0, 0)], [WriteRec(7, 0, 0, 3)], [Entry(Key(Fin(0), Fin(3)), 7)])
    ensures Divergences(run, run.readLog) == if x == 7 then [] else [0]
  {
    assert LastBefore([Entry(Key(Fin(0), Fin(3)), 7)], Key(Fin(0), Fin(0)), 0);
    assert Recheck(run, run.readLog[0]) == 7;
  }

  /** The first run reads 0 at step 0. */
  lemma BackwardWriteFirstRun() returns (run1: Compiler)
    ensures run1 == Solve(New(BackwardWrite, []))
    ensures run1.input == []
    ensures AtStep(run1, 4, 1, 7, [ReadRec(0, 0, 0, 0)], [WriteRec(7, 0, 0, 3)], [Entry(Key(Fin(0), Fin(3)), 7)])
  {
    var a0 := New(BackwardWrite, []);
    assert Fetch(a0) == 0;
    run1 := BackwardWriteRun(a0, 0);
  }

  /** The second run starts with the replayed write in `temp` and reads 7 at step 0. */
  lemma BackwardWriteSecondRun(run1: Compiler) returns (run2: Compiler)
    requires AtStep(run1, 4, 1, 7, [ReadRec(0, 0, 0, 0)], [WriteRec(7, 0, 0, 3)], [Entry(Key(Fin(0), Fin(3)), 7)])
    requires run1.input == []
    ensures run2 == Solve(SetUp(run1))
    ensures AtStep(run2, 4, 1, 7, [ReadRec(7, 0, 0, 0)], [WriteRec(7, 0, 0, 3)], [Entry(Key(Fin(0), Fin(3)), 7)])
  {
    var e := Entry(Key(Fin(0), Fin(3)), 7);
    var b0 := SetUp(run1);
    assert Mem.LineOf(b0.temp, 0) == [e] by {
      assert ReplayAll(run1.writeLog) == [Mem.Seed(7, 0, Some(0), Some(3))];
      assert multiset(Mem.LineOf(b0.temp, 0)) == multiset{e};
    }
    assert Mem.LineOf(b0.memory, 0) == [];
    assert LastBefore([e], Key(Fin(0), Fin(0)), 0);
    assert Fetch(b0) == 7;
    run2 := BackwardWriteRun(b0, 7);
  }

  /**
   * A write sent back before a read is noticed at the end of the first run
   * (step 0 is a split and the run is not done) and settles on the second.
   */
  lemma BackwardWriteSettlesOnSecondRun()
    ensures var first := FirstRun(BackwardWrite, []);
            && !first.0.done
            && first.1.splits == [0, 4]
            && Rerun(first.0).0.done
            && Rerun(first.0).1.splits == [4]
  {
    var run1 := BackwardWriteFirstRun();
    BackwardWriteBothRuns(run1);
  }

  /** From the end of the first run: one split at step 0, then a clean second run. */
  lemma BackwardWriteBothRuns(run1: Compiler)
    requires AtStep(run1, 4, 1, 7, [ReadRec(0, 0, 0, 0)], [WriteRec(7, 0, 0, 3)], [Entry(Key(Fin(0), Fin(3)), 7)])
    requires run1.input == []
    ensures var first := GetVisiblePointers(run1);
            && !first.0.done
            && first.1.splits == [0, 4]
            && Rerun(first.0).0.done
            && Rerun(first.0).1.splits == [4]
  {
    BackwardWriteFirstCheck(run1);
    BackwardWriteSecondCheck(GetVisiblePointers(run1).0);
  }

  lemma BackwardWriteFirstCheck(run1: Compiler)
    requires AtStep(run1, 4, 1, 7, [ReadRec(0, 0, 0, 0)], [WriteRec(7, 0, 0, 3)], [Entry(Key(Fin(0), Fin(3)), 7)])
    requires run1.input == []
    ensures var first := GetVisiblePointers(run1);
            && first.1.splits == [0, 4]
            && first.0.input == []
            && AtStep(first.0, 4, 1, 7, [ReadRec(0, 0, 0, 0)], [WriteRec(7, 0, 0, 3)], [Entry(Key(Fin(0), Fin(3)), 7)])
  {
    BackwardWriteChecked(run1, 0);
    SplitsAreDivergences(run1);
  }

  lemma BackwardWriteSecondCheck(first: Compiler)
    requires AtStep(first, 4, 1, 7, [ReadRec(0, 0, 0, 0)], [WriteRec(7, 0, 0, 3)], [Entry(Key(Fin(0), Fin(3)), 7)])
    requires first.input == []
    ensures Rerun(first).0.done
    ensures Rerun(first).1.splits == [4]
  {
    var run2 := BackwardWriteSecondRun(first);
    BackwardWriteChecked(run2, 7);
    SplitsAreDivergences(run2);
  }

  /** The split list is the divergent steps and the command count; `done` is set exactly when there are none. */
  lemma SplitsAreDivergences(c: Compiler)
    requires Valid(c)
    ensures GetVisiblePointers(c).1.splits == Divergences(c, c.readLog) + [|c.commands|]
    ensures GetVisiblePointers(c).0.done == (c.done || Divergences(c, c.readLog) == [])
  {
  }
}
