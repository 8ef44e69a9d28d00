/**
 * The editor's store `Program` (time/code.js:1146-1209): a sorted timeline
 * per address plus a map of initial inputs. Unlike the engine's `Mem`, a set
 * at a key that is already present overwrites that entry, an omitted step is
 * +Infinity, and a query that nothing precedes falls back to the input.
 */
module Program {
  import opened Order
  import opened Wrappers
  import opened Timeline
  import Mem

  datatype Program = Program(memory: map<int, Line>, input: map<int, int>)

  /** Every address's list is strictly sorted: no key occurs twice. */
  predicate Valid(p: Program) {
    forall a :: a in p.memory ==> StrictlySorted(p.memory[a])
  }

  function LineOf(p: Program, addr: int): Line {
    if addr in p.memory then p.memory[addr] else []
  }

  /** The constructor: no timeline, no inputs. */
  /** The key of a query or a set: the time as given, an omitted step as +Infinity. */
  function KeyOf(time: int, step: Option<int>): (k: Key)
    ensures step.None? ==> forall e: Key :: Precedes(e, k) <==> Less(e.t, Fin(time))
    ensures step.Some? ==> Precedes(Key(Fin(time), PosInf), k)
    ensures step.Some? ==> forall e: Key :: e.t == Fin(time) ==> (Precedes(e, k) <==> Less(Fin(step.value), e.step))
  {
    Key(Fin(time), if step.None? then PosInf else Fin(step.value))
  }

  /** The value an address has when nothing on its timeline precedes the query. */
  function Fallback(p: Program, addr: int): int {
    if addr in p.input then p.input[addr] else 0
  }

  /**
   * `get(addr, time, step)`: the value of the last entry that precedes
   * `(time, step)`, or the address's input when none does, or 0.
   */
  function Get(p: Program, addr: int, time: int, step: Option<int>): (v: int)
    requires Valid(p)
    ensures forall j :: LastBefore(LineOf(p, addr), KeyOf(time, step), j) ==> v == LineOf(p, addr)[j].val
    ensures (forall j :: 0 <= j < |LineOf(p, addr)| ==> !Precedes(LineOf(p, addr)[j].key, KeyOf(time, step)))
            ==> v == Fallback(p, addr)
  {
    var line := LineOf(p, addr);
    var k := KeyOf(time, step);
    var i := Scan(line, k);
    assert Sorted(line) by {
      if addr in p.memory { StrictlySortedIsSorted(p.memory[addr]); }
    }
    ScanSeparates(line, k);
    var val := if i == 0 then 0 else line[i - 1].val;
    if i == 0 && addr in p.input then p.input[addr] else val
  }

  /**
   * `set(addr, val, time, step)`. Without a time only the input changes.
   * With one, an entry already at `(time, step)` gets the new value in
   * place; otherwise a new entry goes after every entry that precedes it and
   * before every other one. Nothing else changes.
   */
  function Set(p: Program, addr: int, val: int, time: Option<int>, step: Option<int>): (p': Program)
    requires Valid(p)
    ensures Valid(p')
    ensures time.None? ==> p'.memory == p.memory && p'.input == p.input[addr := val]
    ensures time.Some? ==> p'.input == p.input
    ensures time.Some? ==> LineOf(p', addr) == Put(LineOf(p, addr), Entry(KeyOf(time.value, step), val))
    ensures forall a :: a != addr ==> LineOf(p', a) == LineOf(p, a)
  {
    if time.None? then
      p.(input := p.input[addr := val])
    else
      var e := Entry(KeyOf(time.value, step), val);
      if addr !in p.memory then
        p.(memory := p.memory[addr := [e]])
      else
        p.(memory := p.memory[addr := Put(p.memory[addr], e)])
  }

  /** Round trip: a value set at `(time, s)` is what a query just after it, at `(time, s - 1)`, returns. */
  lemma GetAfterSet(p: Program, addr: int, val: int, time: int, s: int)
    requires Valid(p)
    ensures Get(Set(p, addr, val, Some(time), Some(s)), addr, time, Some(s - 1)) == val
  {
    var e := Entry(KeyOf(time, Some(s)), val);
    var line' := LineOf(Set(p, addr, val, Some(time), Some(s)), addr);
    assert line' == Put(LineOf(p, addr), e);
    var j := PutSeenJustAfter(LineOf(p, addr), e, Fin(time), s);
    assert LastBefore(line', KeyOf(time, Some(s - 1)), j);
  }

  /** Setting twice at the same key leaves the same store as setting once with the second value. */
  lemma SetOverwrites(p: Program, addr: int, v1: int, v2: int, time: int, step: Option<int>)
    requires Valid(p)
    ensures var p2 := Set(Set(p, addr, v1, Some(time), step), addr, v2, Some(time), step);
            var p3 := Set(p, addr, v2, Some(time), step);
            p2.input == p3.input && forall a :: LineOf(p2, a) == LineOf(p3, a)
  {
    var k := KeyOf(time, step);
    var p1 := Set(p, addr, v1, Some(time), step);
    var p2 := Set(p1, addr, v2, Some(time), step);
    var p3 := Set(p, addr, v2, Some(time), step);
    PutTwice(LineOf(p, addr), Entry(k, v1), Entry(k, v2));
    assert LineOf(p2, addr) == LineOf(p3, addr);
    forall a | a != addr
      ensures LineOf(p2, a) == LineOf(p3, a)
    {
      assert LineOf(p2, a) == LineOf(p1, a);
    }
  }

  /** `reset`: the timeline is dropped, the inputs stay. */
  function Reset(p: Program): (p': Program)
    ensures Valid(p')
    ensures p'.input == p.input
    ensures forall a :: LineOf(p', a) == []
  {
    p.(memory := map[])
  }

  /** `reset_total`: timeline and inputs are both dropped. */
  function ResetTotal(p: Program): (p': Program)
    ensures Valid(p')
    ensures p'.input == map[]
    ensures forall a :: LineOf(p', a) == []
  {
    Program(map[], map[])
  }

  /** After `reset_total`, every query of every address answers 0. */
  lemma GetAfterResetTotal(p: Program, addr: int, time: int, step: Option<int>)
    ensures Get(ResetTotal(p), addr, time, step) == 0
  {
  }

  /** After `reset`, every query of an address answers its input (or 0). */
  lemma GetAfterReset(p: Program, addr: int, time: int, step: Option<int>)
    ensures Get(Reset(p), addr, time, step) == Fallback(p, addr)
  {
  }

  /**
   * `r` is a result of `get_input()`: one `{addr, val}` record per input,
   * without time or step. The order of a `for … in` walk over the inputs is
   * left open.
   */
  predicate ListsInputs(p: Program, r: seq<Mem.Seed>) {
    && (forall i :: 0 <= i < |r| ==>
          r[i].addr in p.input && r[i].val == p.input[r[i].addr] && r[i].t.None? && r[i].step.None?)
    && (forall a :: a in p.input ==> exists i :: 0 <= i < |r| && r[i].addr == a)
    && (forall i, j :: 0 <= i < j < |r| ==> r[i].addr != r[j].addr)
  }
}
