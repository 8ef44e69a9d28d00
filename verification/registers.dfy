/**
 * The register column of the editor's `Memory` (time/code.js:1900-1925):
 * `update_registers` keeps one register per visible address, from `first` to
 * `last`, reusing the registers still in view and creating the missing ones
 * from the program's value at the displayed time.
 */
module Registers {
  import Program
  import opened Wrappers

  /** A displayed register: its address and the value shown. */
  datatype Register = Register(address: int, value: int)

  /**
   * The value a new register shows: `program.get(addr, time)`, the step
   * omitted, at the time being displayed.
   */
  function Shown(p: Program.Program, time: int): (value: int -> int)
    requires Program.Valid(p)
    ensures forall addr :: value(addr) == Program.Get(p, addr, time, None)
  {
    addr => Program.Get(p, addr, time, None)
  }

  /** A register created for `addr`. */
  function Fresh(value: int -> int, addr: int): (r: Register)
    ensures r.address == addr
  {
    Register(addr, value(addr))
  }

  /** Fresh registers for the addresses `lo` up to but excluding `hi`. */
  function FreshRange(value: int -> int, lo: int, hi: int): (rs: seq<Register>)
    ensures |rs| == if lo <= hi then hi - lo else 0
    ensures forall k :: 0 <= k < |rs| ==> rs[k] == Fresh(value, lo + k)
  {
    if hi <= lo then [] else seq(hi - lo, k requires 0 <= k < hi - lo => Fresh(value, lo + k))
  }

  lemma FreshRangeGrows(value: int -> int, lo: int, hi: int)
    requires lo <= hi
    ensures FreshRange(value, lo, hi + 1) == FreshRange(value, lo, hi) + [Fresh(value, hi)]
  {
  }

  /** Addresses strictly increase along the list. */
  predicate Ascending(rs: seq<Register>) {
    forall i, j :: 0 <= i < j < |rs| ==> rs[i].address < rs[j].address
  }

  /** Consecutive addresses, as `update_registers` itself leaves the list. */
  predicate Contiguous(rs: seq<Register>) {
    forall k :: 0 <= k < |rs| ==> rs[k].address == rs[0].address + k
  }

  /** The register list holds a register for `addr`. */
  predicate Covers(rs: seq<Register>, addr: int) {
    |rs| > 0 && rs[0].address <= addr < rs[0].address + |rs|
  }

  /** `rs` has a register for `addr`, sitting where a contiguous list puts it. */
  predicate Keeps(rs: seq<Register>, addr: int) {
    Covers(rs, addr) && rs[addr - rs[0].address].address == addr
  }

  /**
   * The column for the window starting at `first` given the fresh registers
   * `fr` of the window: each address the list keeps takes the kept register.
   */
  function Merge(rs: seq<Register>, fr: seq<Register>, first: int): (out: seq<Register>)
    ensures |out| == |fr|
    ensures forall k :: 0 <= k < |out| ==> out[k] == if Keeps(rs, first + k) then rs[first + k - rs[0].address] else fr[k]
  {
    seq(|fr|, k requires 0 <= k < |fr| => if Keeps(rs, first + k) then rs[first + k - rs[0].address] else fr[k])
  }

  /**
   * The intended column for the window `first..last` from a contiguous list:
   * a register still in view is kept as it is, every other address gets a
   * fresh one.
   */
  function Expected(value: int -> int, rs: seq<Register>, first: int, last: int): (out: seq<Register>)
    ensures |out| == if first <= last then last - first + 1 else 0
    ensures forall k :: 0 <= k < |out| ==> out[k].address == first + k
    ensures forall k :: 0 <= k < |out| && Keeps(rs, first + k) ==> out[k] == rs[first + k - rs[0].address]
    ensures forall k :: 0 <= k < |out| && !Keeps(rs, first + k) ==> out[k] == Fresh(value, first + k)
  {
    Merge(rs, FreshRange(value, first, last + 1), first)
  }

  /** Registers of `a` and `b` with the same address are the same register. */
  predicate Agree(a: seq<Register>, b: seq<Register>) {
    forall i, j :: 0 <= i < |a| && 0 <= j < |b| && a[i].address == b[j].address ==> a[i] == b[j]
  }

  /** The first loop: drop registers below `first` from the front; `k` of them went. */
  method DropFront(regs: seq<Register>, first: int) returns (list: seq<Register>, k: nat)
    ensures k <= |regs| && list == regs[k..]
    ensures forall j :: 0 <= j < k ==> regs[j].address < first
    ensures k < |regs| ==> regs[k].address >= first
  {
    list := regs;
    k := 0;
    while |list| > 0 && list[0].address < first
      invariant k <= |regs| && list == regs[k..]
      invariant forall j :: 0 <= j < k ==> regs[j].address < first
    {
      list := list[1..];
      k := k + 1;
    }
  }

  /** The second loop: splice a fresh register for each of `first..toAddEnd` in at its position. */
  method InsertFront(value: int -> int, rest: seq<Register>, first: int, toAddEnd: int)
    returns (list: seq<Register>)
    ensures list == FreshRange(value, first, toAddEnd + 1) + rest
  {
    list := rest;
    var i := first;
    while i <= toAddEnd
      invariant first <= i && (i <= toAddEnd + 1 || i == first)
      invariant list == FreshRange(value, first, i) + rest
    {
      assert list[..i - first] == FreshRange(value, first, i);
      list := list[..i - first] + [Fresh(value, i)] + list[i - first..];
      i := i + 1;
    }
  }

  /** The third loop: pop registers above `last` from the back; `m` entries remain. */
  method DropBack(mid: seq<Register>, last: int) returns (list: seq<Register>, m: nat)
    ensures m <= |mid| && list == mid[..m]
    ensures forall j :: m <= j < |mid| ==> mid[j].address > last
    ensures m > 0 ==> mid[m - 1].address <= last
  {
    list := mid;
    m := |mid|;
    while |list| > 0 && list[|list| - 1].address > last
      invariant m <= |mid| && list == mid[..m]
      invariant forall j :: m <= j < |mid| ==> mid[j].address > last
    {
      list := list[..|list| - 1];
      m := m - 1;
    }
  }

  /** The fourth loop: push a fresh register for each of `toAddStart..last`. */
  method AppendBack(value: int -> int, pre: seq<Register>, toAddStart: int, last: int)
    returns (list: seq<Register>)
    ensures list == pre + FreshRange(value, toAddStart, last + 1)
  {
    list := pre;
    var i := toAddStart;
    while i <= last
      invariant toAddStart <= i && (i <= last + 1 || i == toAddStart)
      invariant list == pre + FreshRange(value, toAddStart, i)
    {
      FreshRangeGrows(value, toAddStart, i);
      list := list + [Fresh(value, i)];
      i := i + 1;
    }
  }

  /**
   * `update_registers(register_list, time)` for the window `first..last`,
   * new registers showing the program's value at `time`. On a contiguous
   * list the result is the intended column; on any ascending list it stays
   * ascending, inside the window, and keeps every register that was in view;
   * every other register it holds is new and shows the program's value.
   */
  method UpdateRegisters(p: Program.Program, regs: seq<Register>, time: int, first: int, last: int)
    returns (out: seq<Register>)
    requires Program.Valid(p)
    ensures forall r :: r in out ==> r in regs || r.value == Program.Get(p, r.address, time, None)
    ensures Contiguous(regs) ==> out == Expected(Shown(p, time), regs, first, last)
    ensures Ascending(regs) ==> Ascending(out)
    ensures Ascending(regs) ==> forall r :: r in out ==> first <= r.address <= last
    ensures Ascending(regs) ==> forall r :: r in regs && first <= r.address <= last ==> r in out
  {
    out := UpdateWith(Shown(p, time), regs, first, last);
  }

  /**
   * The body of `update_registers` with the value of a new register given
   * by `value`: drop the registers below the window from the front, splice
   * fresh ones in ahead of what remains, drop the registers above the window
   * from the back, append fresh ones up to `last`.
   */
  method UpdateWith(value: int -> int, regs: seq<Register>, first: int, last: int)
    returns (out: seq<Register>)
    ensures forall r :: r in out ==> r in regs || r == Fresh(value, r.address)
    ensures Contiguous(regs) ==> out == Expected(value, regs, first, last)
    ensures Ascending(regs) ==> Ascending(out)
    ensures Ascending(regs) ==> forall r :: r in out ==> first <= r.address <= last
    ensures Ascending(regs) ==> forall r :: r in regs && first <= r.address <= last ==> r in out
  {
    var rest, k := DropFront(regs, first);
    var toAddEnd := last;
    if |rest| > 0 {
      toAddEnd := rest[0].address - 1;
    }
    var mid := InsertFront(value, rest, first, toAddEnd);
    var pre, m := DropBack(mid, last);
    var toAddStart := first;
    if |pre| > 0 {
      toAddStart := pre[|pre| - 1].address + 1;
    }
    out := AppendBack(value, pre, toAddStart, last);
    Loops(value, regs, first, last, k, rest, toAddEnd, mid, pre, m, toAddStart, out);
  }

  /** The four loops' results, as their contracts state them, fit `Shape`, hence the contract of `UpdateWith`. */
  lemma Loops(value: int -> int, regs: seq<Register>, first: int, last: int, k: nat, rest: seq<Register>,
                   toAddEnd: int, mid: seq<Register>, pre: seq<Register>, m: nat, toAddStart: int,
                   out: seq<Register>)
    requires k <= |regs| && rest == regs[k..]
    requires forall j :: 0 <= j < k ==> regs[j].address < first
    requires k < |regs| ==> regs[k].address >= first
    requires toAddEnd == if |rest| > 0 then rest[0].address - 1 else last
    requires mid == FreshRange(value, first, toAddEnd + 1) + rest
    requires m <= |mid| && pre == mid[..m]
    requires forall j :: m <= j < |mid| ==> mid[j].address > last
    requires m > 0 ==> mid[m - 1].address <= last
    requires toAddStart == if |pre| > 0 then pre[|pre| - 1].address + 1 else first
    requires out == pre + FreshRange(value, toAddStart, last + 1)
    ensures forall r :: r in out ==> r in regs || r == Fresh(value, r.address)
    ensures Contiguous(regs) ==> out == Expected(value, regs, first, last)
    ensures Ascending(regs) ==> Ascending(out)
    ensures Ascending(regs) ==> forall r :: r in out ==> first <= r.address <= last
    ensures Ascending(regs) ==> forall r :: r in regs && first <= r.address <= last ==> r in out
  {
    var f1 := FreshRange(value, first, toAddEnd + 1);
    var f2 := FreshRange(value, toAddStart, last + 1);
    FreshRangeAllFresh(value, first, toAddEnd + 1);
    FreshRangeAllFresh(value, toAddStart, last + 1);
    FrontLoops(value, regs, first, last, k, rest, toAddEnd);
    BackLoops(value, mid, last, pre, m, toAddStart, first);
    Phases(value, regs, first, last, k, f1, mid, m, toAddStart, f2, out);
  }

  /** The first two loops: what was dropped, and how many fresh registers go in front. */
  lemma FrontLoops(value: int -> int, regs: seq<Register>, first: int, last: int, k: nat, rest: seq<Register>,
                   toAddEnd: int)
    requires k <= |regs| && rest == regs[k..]
    requires k < |regs| ==> regs[k].address >= first
    requires toAddEnd == if |rest| > 0 then rest[0].address - 1 else last
    ensures var f1 := FreshRange(value, first, toAddEnd + 1);
            && (k < |regs| ==> |f1| == regs[k].address - first)
            && (k == |regs| ==> |f1| == if first <= last then last + 1 - first else 0)
            && (forall j :: 0 <= j < |f1| ==> f1[j].address == first + j)
  {
    if k < |regs| {
      assert rest[0] == regs[k];
    }
  }

  /** The last two loops: where appending starts, and the addresses appended. */
  lemma BackLoops(value: int -> int, mid: seq<Register>, last: int, pre: seq<Register>, m: nat,
                  toAddStart: int, first: int)
    requires m <= |mid| && pre == mid[..m]
    requires toAddStart == if |pre| > 0 then pre[|pre| - 1].address + 1 else first
    ensures toAddStart == (if m > 0 then mid[m - 1].address + 1 else first)
    ensures var f2 := FreshRange(value, toAddStart, last + 1);
            && |f2| == (if toAddStart <= last then last + 1 - toAddStart else 0)
            && (forall j :: 0 <= j < |f2| ==> f2[j].address == toAddStart + j)
  {
    if m > 0 {
      assert pre[|pre| - 1] == mid[m - 1];
    }
  }

  /**
   * The four phases of `UpdateRegisters`, stated on their results: `k`
   * registers dropped from the front, the registers `f1` inserted ahead of
   * the rest giving `mid`, `mid` cut back to `m` entries, the registers `f2`
   * appended. Only the addresses of `f1` and `f2` matter here.
   */
  predicate Shape(regs: seq<Register>, first: int, last: int, k: nat, f1: seq<Register>,
                  mid: seq<Register>, m: nat, toAddStart: int, f2: seq<Register>, out: seq<Register>)
  {
    && k <= |regs|
    && (forall j :: 0 <= j < k ==> regs[j].address < first)
    && (k < |regs| ==> regs[k].address >= first)
    && (k < |regs| ==> |f1| == regs[k].address - first)
    && (k == |regs| ==> |f1| == if first <= last then last + 1 - first else 0)
    && (forall j :: 0 <= j < |f1| ==> f1[j].address == first + j)
    && mid == f1 + regs[k..]
    && m <= |mid|
    && (forall j :: m <= j < |mid| ==> mid[j].address > last)
    && (m > 0 ==> mid[m - 1].address <= last)
    && toAddStart == (if m > 0 then mid[m - 1].address + 1 else first)
    && |f2| == (if toAddStart <= last then last + 1 - toAddStart else 0)
    && (forall j :: 0 <= j < |f2| ==> f2[j].address == toAddStart + j)
    && out == mid[..m] + f2
  }

  /** Every register of `rs` is the fresh register of its address. */
  predicate AllFresh(value: int -> int, rs: seq<Register>)
  {
    forall r :: r in rs ==> r == Fresh(value, r.address)
  }

  lemma FreshRangeAllFresh(value: int -> int, lo: int, hi: int)
    ensures AllFresh(value, FreshRange(value, lo, hi))
  {
  }

  lemma FreshAgree(value: int -> int, a: seq<Register>, b: seq<Register>)
    requires AllFresh(value, a) && AllFresh(value, b)
    ensures Agree(a, b)
  {
    forall i, j | 0 <= i < |a| && 0 <= j < |b| && a[i].address == b[j].address
      ensures a[i] == b[j]
    {
      assert a[i] in a && b[j] in b;
    }
  }

  lemma Phases(value: int -> int, regs: seq<Register>, first: int, last: int, k: nat, f1: seq<Register>,
               mid: seq<Register>, m: nat, toAddStart: int, f2: seq<Register>, out: seq<Register>)
    requires Shape(regs, first, last, k, f1, mid, m, toAddStart, f2, out)
    requires AllFresh(value, f1) && AllFresh(value, f2)
    ensures forall r :: r in out ==> r in regs || r == Fresh(value, r.address)
    ensures Contiguous(regs) ==> out == Expected(value, regs, first, last)
    ensures Ascending(regs) ==> Ascending(out)
    ensures Ascending(regs) ==> forall r :: r in out ==> first <= r.address <= last
    ensures Ascending(regs) ==> forall r :: r in regs && first <= r.address <= last ==> r in out
  {
    ShapeOrigins(regs, first, last, k, f1, mid, m, toAddStart, f2, out);
    if Ascending(regs) {
      ShapeAscending(regs, first, last, k, f1, mid, m, toAddStart, f2, out);
    }
    if Contiguous(regs) {
      var fr := FreshRange(value, first, last + 1);
      FreshRangeAllFresh(value, first, last + 1);
      FreshAgree(value, f1, fr);
      FreshAgree(value, f2, fr);
      ShapeContiguous(regs, first, last, k, f1, mid, m, toAddStart, f2, out, fr);
    }
  }

  lemma ShapeOrigins(regs: seq<Register>, first: int, last: int, k: nat, f1: seq<Register>,
                     mid: seq<Register>, m: nat, toAddStart: int, f2: seq<Register>, out: seq<Register>)
    requires Shape(regs, first, last, k, f1, mid, m, toAddStart, f2, out)
    ensures forall r :: r in out ==> r in regs || r in f1 || r in f2
  {
    forall r | r in out
      ensures r in regs || r in f1 || r in f2
    {
      var j :| 0 <= j < |out| && out[j] == r;
      if j < m {
        if j >= |f1| {
          assert r == regs[k + j - |f1|];
        } else {
          assert r == f1[j];
        }
      } else {
        assert r == f2[j - m];
      }
    }
  }

  /** Inserting ahead of what was kept keeps the order: `mid` ascends from `first`. */
  lemma MidAscending(regs: seq<Register>, first: int, last: int, k: nat, f1: seq<Register>,
                     mid: seq<Register>, m: nat, toAddStart: int, f2: seq<Register>, out: seq<Register>)
    requires Shape(regs, first, last, k, f1, mid, m, toAddStart, f2, out)
    requires Ascending(regs)
    ensures Ascending(mid)
    ensures forall j :: 0 <= j < |mid| ==> first <= mid[j].address
  {
    forall i, j | 0 <= i < j < |mid|
      ensures mid[i].address < mid[j].address
    {
      if i >= |f1| {
        assert mid[i] == regs[k + i - |f1|] && mid[j] == regs[k + j - |f1|];
      } else if j >= |f1| {
        assert mid[j] == regs[k + j - |f1|];
        assert regs[k].address <= regs[k + j - |f1|].address;
      }
    }
    forall j | 0 <= j < |mid|
      ensures first <= mid[j].address
    {
      if j >= |f1| {
        assert mid[j] == regs[k + j - |f1|];
        assert regs[k].address <= regs[k + j - |f1|].address;
      }
    }
  }

  lemma ShapeAscending(regs: seq<Register>, first: int, last: int, k: nat, f1: seq<Register>,
                       mid: seq<Register>, m: nat, toAddStart: int, f2: seq<Register>, out: seq<Register>)
    requires Shape(regs, first, last, k, f1, mid, m, toAddStart, f2, out)
    requires Ascending(regs)
    ensures Ascending(out)
    ensures forall r :: r in out ==> first <= r.address <= last
    ensures forall r :: r in regs && first <= r.address <= last ==> r in out
  {
    MidAscending(regs, first, last, k, f1, mid, m, toAddStart, f2, out);
    OutAscending(mid, first, last, m, toAddStart, f2, out);
    KeepsInView(regs, first, last, k, f1, mid, m, toAddStart, f2, out);
  }

  lemma OutAscending(mid: seq<Register>, first: int, last: int, m: nat, toAddStart: int, f2: seq<Register>, out: seq<Register>)
    requires Ascending(mid) && forall j :: 0 <= j < |mid| ==> first <= mid[j].address
    requires m <= |mid|
    requires m > 0 ==> mid[m - 1].address <= last
    requires toAddStart == if m > 0 then mid[m - 1].address + 1 else first
    requires |f2| == if toAddStart <= last then last + 1 - toAddStart else 0
    requires forall j :: 0 <= j < |f2| ==> f2[j].address == toAddStart + j
    requires out == mid[..m] + f2
    ensures Ascending(out)
    ensures forall r :: r in out ==> first <= r.address <= last
  {
    forall i, j | 0 <= i < j < |out|
      ensures out[i].address < out[j].address
    {
      if j < m {
        assert out[i] == mid[i] && out[j] == mid[j];
      } else if i < m {
        assert out[i] == mid[i] && out[j] == f2[j - m];
        if i < m - 1 {
          assert mid[i].address < mid[m - 1].address;
        }
      } else {
        assert out[i] == f2[i - m] && out[j] == f2[j - m];
      }
    }
    forall r | r in out
      ensures first <= r.address <= last
    {
      var j :| 0 <= j < |out| && out[j] == r;
      if j < m {
        assert r == mid[j];
        if j < m - 1 {
          assert mid[j].address < mid[m - 1].address;
        }
      } else {
        assert r == f2[j - m];
        if m > 0 {
          assert first <= mid[m - 1].address;
        }
      }
    }
  }

  lemma KeepsInView(regs: seq<Register>, first: int, last: int, k: nat, f1: seq<Register>,
                    mid: seq<Register>, m: nat, toAddStart: int, f2: seq<Register>, out: seq<Register>)
    requires Shape(regs, first, last, k, f1, mid, m, toAddStart, f2, out)
    ensures forall r :: r in regs && first <= r.address <= last ==> r in out
  {
    forall r | r in regs && first <= r.address <= last
      ensures r in out
    {
      var j :| 0 <= j < |regs| && regs[j] == r;
      assert j >= k;
      assert mid[|f1| + j - k] == r;
      assert |f1| + j - k < m;
      assert out[|f1| + j - k] == r;
    }
  }

  /** On a contiguous list `mid` runs without gaps from `first`. */
  lemma MidContiguous(regs: seq<Register>, first: int, last: int, k: nat, f1: seq<Register>,
                      mid: seq<Register>, m: nat, toAddStart: int, f2: seq<Register>, out: seq<Register>)
    requires Shape(regs, first, last, k, f1, mid, m, toAddStart, f2, out)
    requires Contiguous(regs)
    ensures forall j :: 0 <= j < |mid| ==> mid[j].address == first + j
    ensures forall j :: |f1| <= j < |mid| ==> Keeps(regs, mid[j].address)
    ensures k < |regs| ==> regs[0].address + k == first + |f1|
    ensures 0 < k ==> regs[0].address + k <= first
  {
    if 0 < k {
      assert regs[k - 1].address < first;
    }
    forall j | 0 <= j < |mid|
      ensures mid[j].address == first + j
      ensures j >= |f1| ==> Keeps(regs, mid[j].address)
    {
      if j >= |f1| {
        assert mid[j] == regs[k + j - |f1|];
      }
    }
  }

  /** On a contiguous list the result is the window `first..last`, each address where the list had it. */
  lemma ShapeContiguous(regs: seq<Register>, first: int, last: int, k: nat, f1: seq<Register>,
                        mid: seq<Register>, m: nat, toAddStart: int, f2: seq<Register>, out: seq<Register>,
                        fr: seq<Register>)
    requires Shape(regs, first, last, k, f1, mid, m, toAddStart, f2, out)
    requires Contiguous(regs)
    requires |fr| == (if first <= last then last - first + 1 else 0)
    requires forall j :: 0 <= j < |fr| ==> fr[j].address == first + j
    requires Agree(f1, fr) && Agree(f2, fr)
    ensures out == Merge(regs, fr, first)
  {
    ContiguousWindow(regs, first, last, k, f1, mid, m, toAddStart, f2, out);
    var e := Merge(regs, fr, first);
    forall j | 0 <= j < |out|
      ensures out[j] == e[j]
    {
      if Keeps(regs, first + j) {
        KeptAt(regs, first, last, k, f1, mid, m, toAddStart, f2, out, j);
      } else {
        FreshAt(regs, first, last, k, f1, mid, m, toAddStart, f2, out, fr, j);
      }
    }
  }

  /** On a contiguous list the back loop starts right after the front part and the result spans `first..last`. */
  lemma ContiguousWindow(regs: seq<Register>, first: int, last: int, k: nat, f1: seq<Register>,
                         mid: seq<Register>, m: nat, toAddStart: int, f2: seq<Register>, out: seq<Register>)
    requires Shape(regs, first, last, k, f1, mid, m, toAddStart, f2, out)
    requires Contiguous(regs)
    ensures toAddStart == first + m
    ensures |out| == if first <= last then last - first + 1 else 0
  {
    MidContiguous(regs, first, last, k, f1, mid, m, toAddStart, f2, out);
  }

  /** An address the contiguous list keeps shows the kept register. */
  lemma KeptAt(regs: seq<Register>, first: int, last: int, k: nat, f1: seq<Register>,
               mid: seq<Register>, m: nat, toAddStart: int, f2: seq<Register>, out: seq<Register>, j: int)
    requires Shape(regs, first, last, k, f1, mid, m, toAddStart, f2, out)
    requires Contiguous(regs)
    requires toAddStart == first + m
    requires 0 <= j < |out| && Keeps(regs, first + j)
    ensures out[j] == regs[first + j - regs[0].address]
  {
    MidContiguous(regs, first, last, k, f1, mid, m, toAddStart, f2, out);
    var i := first + j - regs[0].address;
    assert i >= k;
    assert mid[|f1| + i - k] == regs[i];
    assert |f1| + i - k == j;
    assert j < m;
    assert out[j] == mid[j];
  }

  /** An address the contiguous list does not keep shows a fresh register. */
  lemma FreshAt(regs: seq<Register>, first: int, last: int, k: nat, f1: seq<Register>,
                mid: seq<Register>, m: nat, toAddStart: int, f2: seq<Register>, out: seq<Register>,
                fr: seq<Register>, j: int)
    requires Shape(regs, first, last, k, f1, mid, m, toAddStart, f2, out)
    requires Contiguous(regs)
    requires toAddStart == first + m
    requires |out| == |fr| && forall i :: 0 <= i < |fr| ==> fr[i].address == first + i
    requires Agree(f1, fr) && Agree(f2, fr)
    requires 0 <= j < |out| && !Keeps(regs, first + j)
    ensures out[j] == fr[j]
  {
    MidContiguous(regs, first, last, k, f1, mid, m, toAddStart, f2, out);
    if j < m {
      assert out[j] == mid[j];
      assert out[j] == f1[j];
    } else {
      assert out[j] == f2[j - m];
    }
  }

  /** Updating a column already showing the window changes nothing. */
  lemma ExpectedIdempotent(value: int -> int, rs: seq<Register>, first: int, last: int)
    ensures Expected(value, Expected(value, rs, first, last), first, last) == Expected(value, rs, first, last)
  {
    var e := Expected(value, rs, first, last);
    var e2 := Expected(value, e, first, last);
    forall k | 0 <= k < |e2|
      ensures e2[k] == e[k]
    {
      assert Keeps(e, first + k);
    }
  }

  /** From an empty column every register of the window is new. */
  lemma ExpectedFromEmpty(value: int -> int, first: int, last: int)
    ensures Expected(value, [], first, last) == FreshRange(value, first, last + 1)
  {
  }
}
