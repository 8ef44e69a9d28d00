/**
 * The sorted per-address timeline list shared by the engine's store `Mem`
 * (time/compiler.js:12-60) and the editor's store `Program`
 * (time/code.js:1146-1209). Both locate a key with the same scan: walk
 * forward while the entry precedes the key.
 */
module Timeline {
  import opened Order

  /** One stored value `{t, val, step}`. */
  datatype Entry = Entry(key: Key, val: int)

  type Line = seq<Entry>

  /** No entry precedes an earlier one; equal keys may sit side by side. */
  predicate Sorted(line: Line) {
    forall i, j :: 0 <= i < j < |line| ==> !Precedes(line[j].key, line[i].key)
  }

  /** Sorted, and no two entries share a key. */
  predicate StrictlySorted(line: Line) {
    forall i, j :: 0 <= i < j < |line| ==> Precedes(line[i].key, line[j].key)
  }

  /**
   * The index where the `while (… precedes(…))` loops of get and set stop:
   * every entry before it precedes `k`, the entry at it (if any) does not.
   */
  function Scan(line: Line, k: Key): (i: nat)
    ensures i <= |line|
    ensures forall j :: 0 <= j < i ==> Precedes(line[j].key, k)
    ensures i < |line| ==> !Precedes(line[i].key, k)
  {
    if |line| == 0 || !Precedes(line[0].key, k) then 0 else 1 + Scan(line[1..], k)
  }

  /** In a sorted line the scan separates exactly the entries that precede `k`. */
  lemma ScanSeparates(line: Line, k: Key)
    requires Sorted(line)
    ensures forall j :: 0 <= j < |line| ==> (Precedes(line[j].key, k) <==> j < Scan(line, k))
  {
    var i := Scan(line, k);
    forall j | i < j < |line|
      ensures !Precedes(line[j].key, k)
    {
      PrecedesTrichotomy(line[i].key, line[j].key);
      if Precedes(line[i].key, line[j].key) && Precedes(line[j].key, k) {
        PrecedesTransitive(line[i].key, line[j].key, k);
      }
    }
  }

  /** A later query key never stops the scan earlier (compared over the same line). */
  lemma {:induction false} ScanMonotone(line: Line, k1: Key, k2: Key)
    requires k1 == k2 || Precedes(k1, k2)
    ensures Scan(line, k1) <= Scan(line, k2)
  {
    if |line| > 0 && Precedes(line[0].key, k1) {
      if k1 != k2 {
        PrecedesTransitive(line[0].key, k1, k2);
      }
      ScanMonotone(line[1..], k1, k2);
    }
  }

  /** Any index with the scan's two properties is the scan's result. */
  lemma {:induction false} ScanAt(line: Line, k: Key, i: nat)
    requires i <= |line|
    requires forall j :: 0 <= j < i ==> Precedes(line[j].key, k)
    requires i < |line| ==> !Precedes(line[i].key, k)
    ensures Scan(line, k) == i
  {
    if i > 0 {
      ScanAt(line[1..], k, i - 1);
    }
  }

  /**
   * Splicing in an entry that does not precede the query, at a point after
   * which nothing precedes the entry, leaves the query's scan where it was.
   */
  lemma ScanPastLaterInsert(line: Line, p: nat, e: Entry, q: Key)
    requires Sorted(line) && p <= |line|
    requires forall j :: p <= j < |line| ==> !Precedes(line[j].key, e.key)
    requires !Precedes(e.key, q)
    ensures Scan(line, q) <= p
    ensures Scan(line[..p] + [e] + line[p..], q) == Scan(line, q)
  {
    var r := line[..p] + [e] + line[p..];
    var i := Scan(line, q);
    ScanSeparates(line, q);
    if p < |line| {
      NotPrecedesTransitive(line[p].key, e.key, q);
    }
    assert i <= p;
    forall j | 0 <= j < i
      ensures Precedes(r[j].key, q)
    {
      assert r[j] == line[j];
    }
    if i < p {
      assert r[i] == line[i];
    }
    ScanAt(r, q, i);
  }

  /** `j` is the last entry of `line` that precedes `k`. */
  predicate LastBefore(line: Line, k: Key, j: int) {
    && 0 <= j < |line|
    && Precedes(line[j].key, k)
    && forall j' :: j < j' < |line| ==> !Precedes(line[j'].key, k)
  }

  /** JavaScript's `splice(i, 0, e)`: `e` inserted at index `i`. */
  function Insert(line: Line, i: nat, e: Entry): (r: Line)
    requires i <= |line|
    ensures |r| == |line| + 1
    ensures r[i] == e
    ensures forall j :: 0 <= j < i ==> r[j] == line[j]
    ensures forall j :: i <= j < |line| ==> r[j + 1] == line[j]
    ensures multiset(r) == multiset(line) + multiset{e}
  {
    assert line == line[..i] + line[i..];
    line[..i] + [e] + line[i..]
  }

  /** Inserting at the scan position keeps a sorted line sorted. */
  lemma InsertAtScanSorted(line: Line, e: Entry)
    requires Sorted(line)
    ensures Sorted(Insert(line, Scan(line, e.key), e))
  {
    var p := Scan(line, e.key);
    var r := Insert(line, p, e);
    forall i, j | 0 <= i < j < |r|
      ensures !Precedes(r[j].key, r[i].key)
    {
      if i < p && j == p {
        PrecedesTrichotomy(r[i].key, e.key);
      } else if i == p && j > p {
        PrecedesTrichotomy(line[j - 1].key, e.key);
      } else if i < p && j > p {
        assert !Precedes(line[j - 1].key, line[i].key);
      } else if i > p {
        assert !Precedes(line[j - 1].key, line[i - 1].key);
      }
    }
  }

  /** Inserting at the scan position a key not yet present keeps a strictly sorted line strictly sorted. */
  lemma InsertAtScanStrictlySorted(line: Line, e: Entry)
    requires StrictlySorted(line)
    requires Scan(line, e.key) < |line| ==> line[Scan(line, e.key)].key != e.key
    ensures StrictlySorted(Insert(line, Scan(line, e.key), e))
  {
    var p := Scan(line, e.key);
    var r := Insert(line, p, e);
    forall i, j | 0 <= i < j < |r|
      ensures Precedes(r[i].key, r[j].key)
    {
      if i < p && j == p {
      } else if i == p && j > p {
        PrecedesTrichotomy(line[p].key, e.key);
        if j - 1 > p {
          assert Precedes(line[p].key, line[j - 1].key);
          PrecedesTransitive(e.key, line[p].key, line[j - 1].key);
        }
      } else if i < p && j > p {
        assert Precedes(line[i].key, line[j - 1].key);
      } else if i > p {
        assert Precedes(line[i - 1].key, line[j - 1].key);
      }
    }
  }

  /**
   * `r` is `line` with `e` inserted after every entry that precedes `e`'s
   * key and before every entry that does not.
   */
  predicate Placed(line: Line, e: Entry, r: Line) {
    exists q :: 0 <= q <= |line|
      && r == line[..q] + [e] + line[q..]
      && (forall j :: 0 <= j < q ==> Precedes(line[j].key, e.key))
      && (forall j :: q <= j < |line| ==> !Precedes(line[j].key, e.key))
  }

  /** In a sorted line, inserting at the scan position places the entry. */
  lemma InsertAtScanPlaced(line: Line, e: Entry)
    requires Sorted(line)
    ensures Placed(line, e, Insert(line, Scan(line, e.key), e))
  {
    ScanSeparates(line, e.key);
    var q := Scan(line, e.key);
    assert Insert(line, q, e) == line[..q] + [e] + line[q..];
  }

  /**
   * The list update of the editor's `set` at a key: an entry already at the
   * key takes the new value in place, otherwise the entry is placed by order.
   */
  function Put(line: Line, e: Entry): (r: Line)
    requires StrictlySorted(line)
    ensures StrictlySorted(r)
    ensures forall j :: 0 <= j < |line| && line[j].key == e.key ==> r == line[j := e]
    ensures (forall j :: 0 <= j < |line| ==> line[j].key != e.key) ==> Placed(line, e, r)
  {
    var i := Scan(line, e.key);
    StrictlySortedIsSorted(line);
    ScanSeparates(line, e.key);
    if i < |line| && line[i].key == e.key then
      PrecedesIrreflexive(e.key);
      line[i := e]
    else
      InsertAtScanStrictlySorted(line, e);
      InsertAtScanPlaced(line, e);
      Insert(line, i, e)
  }

  /** A second put at the same key replaces the first one's value: put is idempotent up to the value. */
  lemma PutTwice(line: Line, e1: Entry, e2: Entry)
    requires StrictlySorted(line)
    requires e1.key == e2.key
    ensures Put(Put(line, e1), e2) == Put(line, e2)
  {
    var k := e1.key;
    var line1 := Put(line, e1);
    if j :| 0 <= j < |line| && line[j].key == k {
      PutPresent(line, e1, j);
      PutPresent(line, e2, j);
      PutPresent(line1, e2, j);
      assert line[j := e1][j := e2] == line[j := e2];
      assert Put(line1, e2) == Put(line, e2);
    } else {
      var i := PutAbsent(line, e1);
      var i' := PutAbsent(line, e2);
      assert line1[i] == e1;
      PutPresent(line1, e2, i);
      SpliceUpdate(line, i, e1, e2);
    }
  }

  lemma SpliceUpdate(line: Line, i: nat, x: Entry, y: Entry)
    requires i <= |line|
    ensures (line[..i] + [x] + line[i..])[i := y] == line[..i] + [y] + line[i..]
  {
  }

  lemma PutPresent(line: Line, e: Entry, j: int)
    requires StrictlySorted(line)
    requires 0 <= j < |line| && line[j].key == e.key
    ensures Put(line, e) == line[j := e]
  {
  }

  lemma PutAbsent(line: Line, e: Entry) returns (i: int)
    requires StrictlySorted(line)
    requires forall j :: 0 <= j < |line| ==> line[j].key != e.key
    ensures i == Scan(line, e.key)
    ensures 0 <= i <= |line|
    ensures Put(line, e) == line[..i] + [e] + line[i..]
  {
    i := Scan(line, e.key);
  }

  /**
   * After a put at `(t, s)`, the put entry is the last one that precedes
   * `(t, s - 1)`, whether it replaced an entry or was spliced in.
   */
  lemma PutSeenJustAfter(line: Line, e: Entry, t: XInt, s: int) returns (j: int)
    requires StrictlySorted(line) && e.key == Key(t, Fin(s))
    ensures 0 <= j < |Put(line, e)| && Put(line, e)[j] == e
    ensures LastBefore(Put(line, e), Key(t, Fin(s - 1)), j)
  {
    if j0 :| 0 <= j0 < |line| && line[j0].key == e.key {
      PutPresent(line, e, j0);
      ReplacedSeenJustAfter(line, e, j0, t, s);
      j := j0;
    } else {
      var i := PutAbsent(line, e);
      SplicedSeenJustAfter(line, e, i, t, s);
      j := i;
    }
  }

  lemma ReplacedSeenJustAfter(line: Line, e: Entry, j: int, t: XInt, s: int)
    requires StrictlySorted(line) && e.key == Key(t, Fin(s))
    requires 0 <= j < |line| && line[j].key == e.key
    ensures LastBefore(line[j := e], Key(t, Fin(s - 1)), j)
  {
    var q := Key(t, Fin(s - 1));
    var r := line[j := e];
    ImmediateSuccessor(e.key, t, s);
    forall j' | j < j' < |r|
      ensures !Precedes(r[j'].key, q)
    {
      assert Precedes(line[j].key, line[j'].key);
      PrecedesTrichotomy(line[j'].key, e.key);
      ImmediateSuccessor(line[j'].key, t, s);
    }
  }

  lemma SplicedSeenJustAfter(line: Line, e: Entry, i: int, t: XInt, s: int)
    requires e.key == Key(t, Fin(s)) && 0 <= i <= |line|
    requires forall j :: i <= j < |line| ==> !Precedes(line[j].key, e.key) && line[j].key != e.key
    ensures LastBefore(line[..i] + [e] + line[i..], Key(t, Fin(s - 1)), i)
  {
    var q := Key(t, Fin(s - 1));
    var r := line[..i] + [e] + line[i..];
    ImmediateSuccessor(e.key, t, s);
    forall j' | i < j' < |r|
      ensures !Precedes(r[j'].key, q)
    {
      assert r[j'] == line[j' - 1];
      ImmediateSuccessor(line[j' - 1].key, t, s);
    }
  }

  lemma StrictlySortedIsSorted(line: Line)
    requires StrictlySorted(line)
    ensures Sorted(line)
  {
    forall i, j | 0 <= i < j < |line|
      ensures !Precedes(line[j].key, line[i].key)
    {
      PrecedesTrichotomy(line[i].key, line[j].key);
    }
  }
}

/**
 * The engine's store `Mem` (time/compiler.js:12-60): per address a list of
 * `{t, val, step}` kept sorted by "precedes". Inserting never overwrites.
 */
module Mem {
  import opened Order
  import opened Wrappers
  import opened Timeline

  datatype Mem = Mem(memory: map<int, Line>)

  /** An input or a replayed write `{val, addr, t, step}`; `t` and `step` may be omitted. */
  datatype Seed = Seed(val: int, addr: int, t: Option<int>, step: Option<int>)

  /** The answer of `get`: `{val, time, step}`. */
  datatype Hit = Hit(val: int, key: Key)

  /** What `get` answers when no entry precedes the query: `{0, -Infinity, -1}`. */
  const Miss: Hit := Hit(0, InputKey)

  /** Every address's list is sorted. */
  predicate Valid(m: Mem) {
    forall a :: a in m.memory ==> Sorted(m.memory[a])
  }

  /** The list of `addr`, empty when the address was never written. */
  function LineOf(m: Mem, addr: int): Line {
    if addr in m.memory then m.memory[addr] else []
  }

  /** The key a seed is stored at: an omitted time is -Infinity, an omitted step is -1. */
  function SeedKey(s: Seed): (k: Key)
    ensures s.t.None? ==> forall e: Key :: e.t.Fin? ==> Precedes(k, e)
    ensures s.t.None? && s.step.None? ==> k == InputKey
    ensures s.t.Some? ==> forall e: Key :: Less(e.t, Fin(s.t.value)) ==> Precedes(e, k)
  {
    Key(if s.t.None? then NegInf else Fin(s.t.value), Fin(if s.step.None? then -1 else s.step.value))
  }

  function SeedEntry(s: Seed): Entry {
    Entry(SeedKey(s), s.val)
  }

  /**
   * `get(addr, time, step)`: the value and key of the last entry of the
   * address that precedes the query, or `Miss` when none does.
   */
  function Get(m: Mem, addr: int, k: Key): (h: Hit)
    requires Valid(m)
    ensures (forall j :: 0 <= j < |LineOf(m, addr)| ==> !Precedes(LineOf(m, addr)[j].key, k)) ==> h == Miss
    ensures forall j :: LastBefore(LineOf(m, addr), k, j) ==>
              h == Hit(LineOf(m, addr)[j].val, LineOf(m, addr)[j].key)
  {
    var line := LineOf(m, addr);
    var i := Scan(line, k);
    ScanSeparates(line, k);
    if i == 0 then Miss else Hit(line[i - 1].val, line[i - 1].key)
  }

  /**
   * `set(val, addr, time, step)`: the new entry goes after every entry that
   * precedes its key and before every other one, in particular ahead of any
   * entry that already has the same key. Other addresses are untouched.
   */
  function Set(m: Mem, val: int, addr: int, k: Key): (m': Mem)
    requires Valid(m)
    ensures Valid(m')
    ensures m'.memory.Keys == m.memory.Keys + {addr}
    ensures forall a :: a != addr ==> LineOf(m', a) == LineOf(m, a)
    ensures Placed(LineOf(m, addr), Entry(k, val), LineOf(m', addr))
  {
    var e := Entry(k, val);
    if addr !in m.memory then
      assert [e] == LineOf(m, addr)[..0] + [e] + LineOf(m, addr)[0..];
      ReplaceLine(m, addr, [e]);
      Mem(m.memory[addr := [e]])
    else
      var line := m.memory[addr];
      var i := Scan(line, k);
      InsertAtScanSorted(line, e);
      InsertAtScanPlaced(line, e);
      ReplaceLine(m, addr, Insert(line, i, e));
      Mem(m.memory[addr := Insert(line, i, e)])
  }

  /** The first set at an address leaves exactly its own entry there. */
  lemma SetOnEmpty(m: Mem, val: int, addr: int, k: Key)
    requires Valid(m) && LineOf(m, addr) == []
    ensures LineOf(Set(m, val, addr, k), addr) == [Entry(k, val)]
  {
    var line' := LineOf(Set(m, val, addr, k), addr);
    assert Placed([], Entry(k, val), line');
    assert line' == [] + [Entry(k, val)] + [];
  }

  /** Giving one address a new sorted list keeps the store valid and leaves the other addresses alone. */
  lemma ReplaceLine(m: Mem, addr: int, line: Line)
    requires Valid(m) && Sorted(line)
    ensures Valid(Mem(m.memory[addr := line]))
    ensures Mem(m.memory[addr := line]).memory.Keys == m.memory.Keys + {addr}
    ensures LineOf(Mem(m.memory[addr := line]), addr) == line
    ensures forall a :: a != addr ==> LineOf(Mem(m.memory[addr := line]), a) == LineOf(m, a)
  {
  }

  /** Re-inserting a key already present puts the new entry ahead of every old one with that key. */
  lemma SetDuplicatesAhead(m: Mem, val: int, addr: int, k: Key, j: nat)
    requires Valid(m)
    requires j < |LineOf(m, addr)| && LineOf(m, addr)[j].key == k
    ensures |LineOf(Set(m, val, addr, k), addr)| == |LineOf(m, addr)| + 1
    ensures exists p :: 0 <= p <= j && LineOf(Set(m, val, addr, k), addr)[p] == Entry(k, val)
                        && LineOf(Set(m, val, addr, k), addr)[j + 1] == LineOf(m, addr)[j]
  {
    var line := LineOf(m, addr);
    var line' := LineOf(Set(m, val, addr, k), addr);
    var p :| 0 <= p <= |line|
              && line' == line[..p] + [Entry(k, val)] + line[p..]
              && (forall j :: 0 <= j < p ==> Precedes(line[j].key, k))
              && (forall j :: p <= j < |line| ==> !Precedes(line[j].key, k));
    PrecedesIrreflexive(k);
    assert p <= j;
    SplicedAt(line, Entry(k, val), p, j);
  }

  /** Splicing `e` in at `p` puts it at `p` and moves every later entry up by one. */
  lemma SplicedAt(line: Line, e: Entry, p: nat, j: nat)
    requires p <= j < |line|
    ensures |line[..p] + [e] + line[p..]| == |line| + 1
    ensures (line[..p] + [e] + line[p..])[p] == e
    ensures (line[..p] + [e] + line[p..])[j + 1] == line[j]
  {
  }

  /**
   * Round trip: after storing `val` at `(t, s)`, with no entry at that key
   * before, a query just after it, `(t, s - 1)`, returns the stored value.
   */
  lemma GetAfterSet(m: Mem, val: int, addr: int, t: XInt, s: int)
    requires Valid(m)
    requires forall j :: 0 <= j < |LineOf(m, addr)| ==> LineOf(m, addr)[j].key != Key(t, Fin(s))
    ensures Get(Set(m, val, addr, Key(t, Fin(s))), addr, Key(t, Fin(s - 1))) == Hit(val, Key(t, Fin(s)))
  {
    var k := Key(t, Fin(s));
    var q := Key(t, Fin(s - 1));
    var line := LineOf(m, addr);
    var m' := Set(m, val, addr, k);
    var line' := LineOf(m', addr);
    var p :| 0 <= p <= |line|
              && line' == line[..p] + [Entry(k, val)] + line[p..]
              && (forall j :: 0 <= j < p ==> Precedes(line[j].key, k))
              && (forall j :: p <= j < |line| ==> !Precedes(line[j].key, k));
    ImmediateSuccessor(k, t, s);
    forall j' | p < j' < |line'|
      ensures !Precedes(line'[j'].key, q)
    {
      assert line'[j'] == line[j' - 1];
      ImmediateSuccessor(line[j' - 1].key, t, s);
    }
    assert LastBefore(line', q, p);
  }

  /**
   * A set at a key that does not precede the query leaves the query's answer
   * unchanged, at that address as at every other.
   */
  lemma GetIgnoresLaterSet(m: Mem, val: int, addr: int, k: Key, a: int, q: Key)
    requires Valid(m)
    requires !Precedes(k, q)
    ensures Get(Set(m, val, addr, k), a, q) == Get(m, a, q)
  {
    if a == addr {
      var m' := Set(m, val, addr, k);
      LaterInsertKeepsScan(LineOf(m, addr), Entry(k, val), LineOf(m', addr), q);
      SameScanSameHit(m, m', addr, q);
    }
  }

  /** A placed entry that does not precede the query changes neither its scan nor the entry before it. */
  lemma LaterInsertKeepsScan(line: Line, e: Entry, r: Line, q: Key)
    requires Sorted(line) && Placed(line, e, r)
    requires !Precedes(e.key, q)
    ensures Scan(r, q) == Scan(line, q)
    ensures Scan(line, q) > 0 ==> r[Scan(line, q) - 1] == line[Scan(line, q) - 1]
  {
    var p :| 0 <= p <= |line|
              && r == line[..p] + [e] + line[p..]
              && (forall j :: 0 <= j < p ==> Precedes(line[j].key, e.key))
              && (forall j :: p <= j < |line| ==> !Precedes(line[j].key, e.key));
    ScanPastLaterInsert(line, p, e, q);
  }

  /** Two stores whose lists scan alike for a query answer it alike. */
  lemma SameScanSameHit(m: Mem, m': Mem, addr: int, q: Key)
    requires Valid(m) && Valid(m')
    requires Scan(LineOf(m', addr), q) == Scan(LineOf(m, addr), q)
    requires Scan(LineOf(m, addr), q) > 0 ==>
               LineOf(m', addr)[Scan(LineOf(m, addr), q) - 1] == LineOf(m, addr)[Scan(LineOf(m, addr), q) - 1]
    ensures Get(m', addr, q) == Get(m, addr, q)
  {
  }

  /** The list of every seed with address `addr`, as entries, in seed order. */
  function SeedsAt(seeds: seq<Seed>, addr: int): seq<Entry> {
    if |seeds| == 0 then []
    else SeedsAt(seeds[..|seeds| - 1], addr)
         + (if seeds[|seeds| - 1].addr == addr then [SeedEntry(seeds[|seeds| - 1])] else [])
  }

  /** Every entry listed for an address comes from a seed with that address. */
  lemma {:induction false} SeedsAtFromSeeds(seeds: seq<Seed>, addr: int)
    ensures forall e :: e in SeedsAt(seeds, addr) ==>
              exists i :: 0 <= i < |seeds| && seeds[i].addr == addr && e == SeedEntry(seeds[i])
  {
    if |seeds| > 0 {
      var n := |seeds| - 1;
      SeedsAtFromSeeds(seeds[..n], addr);
      forall e | e in SeedsAt(seeds, addr)
        ensures exists i :: 0 <= i < |seeds| && seeds[i].addr == addr && e == SeedEntry(seeds[i])
      {
        if e in SeedsAt(seeds[..n], addr) {
          var i :| 0 <= i < n && seeds[..n][i].addr == addr && e == SeedEntry(seeds[..n][i]);
          assert seeds[i] == seeds[..n][i];
        } else {
          assert seeds[n].addr == addr && e == SeedEntry(seeds[n]);
        }
      }
    }
  }

  /** The constructor `new Mem(inputs)`: every seed stored in order. */
  function Build(seeds: seq<Seed>): (m: Mem)
    ensures Valid(m)
  {
    if |seeds| == 0 then Mem(map[])
    else
      var s := seeds[|seeds| - 1];
      Set(Build(seeds[..|seeds| - 1]), s.val, s.addr, SeedKey(s))
  }

  /** A store built from seeds holds exactly those seeds, each at its own key. */
  lemma BuildHoldsSeeds(seeds: seq<Seed>)
    ensures forall addr :: multiset(LineOf(Build(seeds), addr)) == multiset(SeedsAt(seeds, addr))
  {
    forall addr
      ensures multiset(LineOf(Build(seeds), addr)) == multiset(SeedsAt(seeds, addr))
    {
      BuildHoldsSeedsAt(seeds, addr);
    }
  }

  lemma {:induction false} BuildHoldsSeedsAt(seeds: seq<Seed>, addr: int)
    ensures multiset(LineOf(Build(seeds), addr)) == multiset(SeedsAt(seeds, addr))
  {
    if |seeds| > 0 {
      var init := seeds[..|seeds| - 1];
      var s := seeds[|seeds| - 1];
      BuildHoldsSeedsAt(init, addr);
      SetAddsOne(Build(init), s.val, s.addr, SeedKey(s), addr);
    }
  }

  /** A set adds its one entry to the contents of its own address and to no other. */
  lemma SetAddsOne(m: Mem, val: int, addr: int, k: Key, a: int)
    requires Valid(m)
    ensures multiset(LineOf(Set(m, val, addr, k), a))
            == multiset(LineOf(m, a)) + if a == addr then multiset{Entry(k, val)} else multiset{}
  {
    var after := LineOf(Set(m, val, addr, k), a);
    if a == addr {
      var before := LineOf(m, addr);
      var p :| 0 <= p <= |before| && after == before[..p] + [Entry(k, val)] + before[p..];
      SpliceMultiset(before, Entry(k, val), p);
    } else {
      assert after == LineOf(m, a);
    }
  }

  lemma SpliceMultiset(line: Line, e: Entry, p: nat)
    requires p <= |line|
    ensures multiset(line[..p] + [e] + line[p..]) == multiset(line) + multiset{e}
  {
    assert line == line[..p] + line[p..];
  }
}
