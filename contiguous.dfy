/**
 * Contiguous allocation with variable partitions. Processes, taken in
 * arrival order, are placed into free partitions by First-Fit, Best-Fit
 * or Worst-Fit; an over-sized partition is split in place into an
 * exact-size occupied block followed by a free remainder. Nothing is ever
 * released, so a process that finds no fitting partition stays waiting.
 */
module Contiguous {

  import opened Wrappers
  import opened Processes

  datatype Fit = FirstFit | BestFit | WorstFit

  /** The process held by an occupied partition and the size it asked for. */
  datatype Occupant = Occupant(pid: int, size: int)

  datatype Partition = Partition(size: int, free: bool, occupant: Option<Occupant>)

  /** A successful placement: the process and the size of its host before the split. */
  datatype Allocation = Allocation(proc: Process, hostSize: int)

  /** One line of the per-process table. */
  datatype ProcessRow = ProcessRow(proc: Process, isAllocated: bool)

  /**
   * The outcome of a run. The average waiting time is the ratio
   * totalWait / processCount (0 when there are no processes).
   */
  datatype AllocationResult = AllocationResult(
    memory: seq<Partition>,
    allocations: seq<Allocation>,
    waiting: seq<Process>,
    externalFrag: int,
    internalFrag: int,
    totalWait: nat,
    processCount: nat,
    processes: seq<ProcessRow>)

  datatype InputError = LengthMismatch | NotPositive

  // ---------------------------------------------------------------------
  // Input validation

  predicate AllPositive(xs: seq<int>) {
    forall i :: 0 <= i < |xs| ==> xs[i] > 0
  }

  predicate AllNonNegative(xs: seq<int>) {
    forall i :: 0 <= i < |xs| ==> xs[i] >= 0
  }

  predicate SameLength(sizes: seq<int>, arrivals: seq<int>, bursts: seq<int>) {
    |sizes| == |arrivals| && |sizes| == |bursts|
  }

  /** What must hold of the parsed input before a run may start. */
  predicate ValidAllocationInput(partitions: seq<int>, sizes: seq<int>, arrivals: seq<int>, bursts: seq<int>) {
    && SameLength(sizes, arrivals, bursts)
    && AllPositive(partitions) && AllPositive(sizes) && AllPositive(bursts)
    && AllNonNegative(arrivals)
  }

  // ---------------------------------------------------------------------
  // Memory layout and its measures

  function Sum(xs: seq<int>): int {
    if xs == [] then 0 else xs[0] + Sum(xs[1..])
  }

  /** The memory before any placement: one free partition per input size. */
  function FreeBlocks(sizes: seq<int>): (m: seq<Partition>)
    ensures |m| == |sizes|
  {
    if sizes == [] then [] else [Partition(sizes[0], true, None)] + FreeBlocks(sizes[1..])
  }

  /** Sum of all partition sizes. */
  function Total(m: seq<Partition>): int {
    if m == [] then 0 else m[0].size + Total(m[1..])
  }

  /** External fragmentation: the sum of sizes of the partitions still free. */
  function FreeTotal(m: seq<Partition>): int {
    if m == [] then 0 else (if m[0].free then m[0].size else 0) + FreeTotal(m[1..])
  }

  /** Internal fragmentation: unused space inside occupied partitions. */
  function InternalFragmentation(m: seq<Partition>): int {
    if m == [] then 0
    else
      (if !m[0].free && m[0].occupant.Some? then m[0].size - m[0].occupant.value.size else 0)
      + InternalFragmentation(m[1..])
  }

  /** The occupants of the occupied partitions, left to right. */
  function Occupants(m: seq<Partition>): seq<Occupant> {
    if m == [] then []
    else (if !m[0].free && m[0].occupant.Some? then [m[0].occupant.value] else []) + Occupants(m[1..])
  }

  /**
   * A partition has positive size, is free exactly when it has no
   * occupant, and an occupied one is exactly as large as its occupant asked.
   */
  predicate Consistent(p: Partition) {
    && p.size > 0
    && (p.free <==> p.occupant.None?)
    && (p.occupant.Some? ==> p.occupant.value.size == p.size)
  }

  predicate WellFormed(m: seq<Partition>) {
    forall i :: 0 <= i < |m| ==> Consistent(m[i])
  }

  lemma {:induction false} MeasuresOfConcat(a: seq<Partition>, b: seq<Partition>)
    ensures Total(a + b) == Total(a) + Total(b)
    ensures FreeTotal(a + b) == FreeTotal(a) + FreeTotal(b)
    ensures Occupants(a + b) == Occupants(a) + Occupants(b)
  {
    if a != [] {
      assert (a + b)[1..] == a[1..] + b;
      MeasuresOfConcat(a[1..], b);
    } else {
      assert a + b == b;
    }
  }

  lemma MeasuresOfThree(a: seq<Partition>, b: seq<Partition>, c: seq<Partition>)
    ensures Total(a + b + c) == Total(a) + Total(b) + Total(c)
    ensures FreeTotal(a + b + c) == FreeTotal(a) + FreeTotal(b) + FreeTotal(c)
    ensures Occupants(a + b + c) == Occupants(a) + Occupants(b) + Occupants(c)
  {
    MeasuresOfConcat(a + b, c);
    MeasuresOfConcat(a, b);
  }

  lemma SingleMeasures(p: Partition)
    ensures Total([p]) == p.size
    ensures FreeTotal([p]) == if p.free then p.size else 0
    ensures Occupants([p]) == if !p.free && p.occupant.Some? then [p.occupant.value] else []
  {
    assert [p][1..] == [];
  }

  /** The initial memory holds the input sizes, all free. */
  lemma {:induction false} FreeBlocksMeasures(sizes: seq<int>)
    ensures Total(FreeBlocks(sizes)) == Sum(sizes)
    ensures FreeTotal(FreeBlocks(sizes)) == Sum(sizes)
    ensures Occupants(FreeBlocks(sizes)) == []
    ensures AllPositive(sizes) ==> WellFormed(FreeBlocks(sizes))
  {
    if sizes != [] {
      FreeBlocksMeasures(sizes[1..]);
      var m := FreeBlocks(sizes);
      assert m[1..] == FreeBlocks(sizes[1..]);
      if AllPositive(sizes) {
        assert AllPositive(sizes[1..]) by {
          forall i | 0 <= i < |sizes| - 1 ensures sizes[1..][i] > 0 {
            assert sizes[1..][i] == sizes[i + 1];
          }
        }
        forall i | 0 <= i < |m| ensures Consistent(m[i]) {
          if i > 0 { assert m[i] == m[1..][i - 1]; }
        }
      }
    }
  }

  /** Because every split is exact, internal fragmentation is always 0. */
  lemma {:induction false} NoInternalFragmentation(m: seq<Partition>)
    requires WellFormed(m)
    ensures InternalFragmentation(m) == 0
  {
    if m != [] {
      assert Consistent(m[0]);
      assert WellFormed(m[1..]) by {
        forall i | 0 <= i < |m| - 1 ensures Consistent(m[1..][i]) {
          assert m[1..][i] == m[i + 1];
        }
      }
      NoInternalFragmentation(m[1..]);
    }
  }

  // ---------------------------------------------------------------------
  // Choosing a host partition

  /** Partition `p` can host a request of `size`. */
  predicate Fits(p: Partition, size: int) {
    p.free && p.size >= size
  }

  /**
   * `fit` strictly prefers a host of size `x` to one of size `y`:
   * First-Fit never does (the leftmost wins), Best-Fit prefers the
   * smaller, Worst-Fit the larger.
   */
  predicate Prefers(fit: Fit, x: int, y: int) {
    match fit
    case FirstFit => false
    case BestFit => x < y
    case WorstFit => x > y
  }

  /**
   * `c` is the host `fit` picks among the first `n` partitions: it fits,
   * it is strictly preferred to every fitting partition on its left, and
   * no fitting partition on its right is strictly preferred to it. For
   * First-Fit this is the lowest fitting index; for Best-Fit (Worst-Fit)
   * the smallest (largest) fitting size, leftmost among equals.
   */
  predicate IsChoice(m: seq<Partition>, size: int, fit: Fit, n: nat, c: nat)
    requires n <= |m|
  {
    && c < n
    && Fits(m[c], size)
    && (forall j :: 0 <= j < c && Fits(m[j], size) ==> Prefers(fit, m[c].size, m[j].size))
    && (forall j :: c < j < n && Fits(m[j], size) ==> !Prefers(fit, m[j].size, m[c].size))
  }

  /** The candidate scan over the first `n` partitions. */
  function ChooseIn(m: seq<Partition>, size: int, fit: Fit, n: nat): (r: Option<nat>)
    requires n <= |m|
    ensures r.None? <==> forall j :: 0 <= j < n ==> !Fits(m[j], size)
    ensures r.Some? ==> IsChoice(m, size, fit, n, r.value)
  {
    if n == 0 then None
    else
      var best := ChooseIn(m, size, fit, n - 1);
      if Fits(m[n - 1], size) && (best.None? || Prefers(fit, m[n - 1].size, m[best.value].size))
      then Some(n - 1)
      else best
  }

  /** The first of the fitting partitions once ordered by the policy's key. */
  function Choose(m: seq<Partition>, size: int, fit: Fit): Option<nat> {
    ChooseIn(m, size, fit, |m|)
  }

  /** The policy's choice is determined: at most one index satisfies IsChoice. */
  lemma ChoiceUnique(m: seq<Partition>, size: int, fit: Fit, c1: nat, c2: nat)
    requires IsChoice(m, size, fit, |m|, c1) && IsChoice(m, size, fit, |m|, c2)
    ensures c1 == c2
  {
  }

  /** Conversely, an index meeting the policy's characterisation is the one chosen. */
  lemma ChooseExactly(m: seq<Partition>, size: int, fit: Fit, c: nat)
    requires c < |m| && IsChoice(m, size, fit, |m|, c)
    ensures Choose(m, size, fit) == Some(c)
  {
    ChoiceUnique(m, size, fit, c, Choose(m, size, fit).value);
  }

  /**
   * The choice in each policy's own terms: First-Fit takes the lowest
   * fitting index; Best-Fit a fitting partition no larger than any other,
   * and strictly smaller than every fitting one on its left; Worst-Fit
   * likewise with larger.
   */
  lemma ChoiceByPolicy(m: seq<Partition>, size: int, fit: Fit)
    ensures Choose(m, size, fit).Some? ==> Fits(m[Choose(m, size, fit).value], size)
    ensures Choose(m, size, fit).Some? && fit == FirstFit ==>
      forall j :: 0 <= j < Choose(m, size, fit).value ==> !Fits(m[j], size)
    ensures Choose(m, size, fit).Some? && fit == BestFit ==>
      var c := Choose(m, size, fit).value;
      forall j :: 0 <= j < |m| && Fits(m[j], size) ==>
        m[c].size <= m[j].size && (j < c ==> m[c].size < m[j].size)
    ensures Choose(m, size, fit).Some? && fit == WorstFit ==>
      var c := Choose(m, size, fit).value;
      forall j :: 0 <= j < |m| && Fits(m[j], size) ==>
        m[c].size >= m[j].size && (j < c ==> m[c].size > m[j].size)
  {
  }

  // ---------------------------------------------------------------------
  // Placing a process

  /** The free remainder a split leaves, if any. */
  function Remainder(m: seq<Partition>, c: nat, o: Occupant): seq<Partition>
    requires c < |m|
  {
    if m[c].size > o.size then [Partition(m[c].size - o.size, true, None)] else []
  }

  /**
   * Partition `c` becomes an occupied block of exactly the requested size;
   * any surplus becomes a free block right after it.
   */
  function Place(m: seq<Partition>, c: nat, o: Occupant): seq<Partition>
    requires c < |m| && Fits(m[c], o.size)
  {
    m[..c] + [Partition(o.size, false, Some(o))] + Remainder(m, c, o) + m[c + 1..]
  }

  /** The pieces a split is made of. */
  lemma PlaceShape(m: seq<Partition>, c: nat, o: Occupant)
    requires c < |m| && Fits(m[c], o.size)
    ensures m == m[..c] + [m[c]] + m[c + 1..]
    ensures Place(m, c, o) == m[..c] + [Partition(o.size, false, Some(o))] + Remainder(m, c, o) + m[c + 1..]
    ensures Remainder(m, c, o) == [] || Remainder(m, c, o) == [Remainder(m, c, o)[0]]
  {
  }

  /** Splitting conserves memory. */
  lemma PlaceConserves(m: seq<Partition>, c: nat, o: Occupant)
    requires c < |m| && Fits(m[c], o.size)
    ensures Total(Place(m, c, o)) == Total(m)
  {
    var left, right, rest := m[..c], m[c + 1..], Remainder(m, c, o);
    var block := Partition(o.size, false, Some(o));
    PlaceShape(m, c, o);
    MeasuresOfThree(left, [m[c]], right);
    MeasuresOfThree(left, [block], rest);
    MeasuresOfConcat(left + [block] + rest, right);
    SingleMeasures(m[c]);
    SingleMeasures(block);
    if rest != [] { SingleMeasures(rest[0]); }
  }

  /** Splitting takes exactly the request out of free memory. */
  lemma PlaceFreeTotal(m: seq<Partition>, c: nat, o: Occupant)
    requires c < |m| && Fits(m[c], o.size)
    ensures FreeTotal(Place(m, c, o)) == FreeTotal(m) - o.size
  {
    var left, right, rest := m[..c], m[c + 1..], Remainder(m, c, o);
    var block := Partition(o.size, false, Some(o));
    PlaceShape(m, c, o);
    MeasuresOfThree(left, [m[c]], right);
    MeasuresOfThree(left, [block], rest);
    MeasuresOfConcat(left + [block] + rest, right);
    SingleMeasures(m[c]);
    SingleMeasures(block);
    if rest != [] { SingleMeasures(rest[0]); }
  }

  /** Splitting adds exactly one occupant and keeps all others. */
  lemma PlaceOccupants(m: seq<Partition>, c: nat, o: Occupant)
    requires c < |m| && Fits(m[c], o.size)
    ensures multiset(Occupants(Place(m, c, o))) == multiset(Occupants(m)) + multiset{o}
  {
    var left, right, rest := m[..c], m[c + 1..], Remainder(m, c, o);
    var block := Partition(o.size, false, Some(o));
    PlaceShape(m, c, o);
    MeasuresOfThree(left, [m[c]], right);
    MeasuresOfThree(left, [block], rest);
    MeasuresOfConcat(left + [block] + rest, right);
    SingleMeasures(m[c]);
    SingleMeasures(block);
    if rest != [] { SingleMeasures(rest[0]); }
  }

  /** Every block after a split is one of the old blocks, the new occupied block or the remainder. */
  lemma PlaceIndex(m: seq<Partition>, c: nat, o: Occupant, j: nat)
    requires c < |m| && Fits(m[c], o.size)
    requires j < |Place(m, c, o)|
    ensures j < c ==> Place(m, c, o)[j] == m[j]
    ensures j == c ==> Place(m, c, o)[j] == Partition(o.size, false, Some(o))
    ensures j > c && Remainder(m, c, o) != [] && j == c + 1 ==>
      Place(m, c, o)[j] == Partition(m[c].size - o.size, true, None)
    ensures j > c && Remainder(m, c, o) == [] ==> Place(m, c, o)[j] == m[j]
    ensures j > c + 1 && Remainder(m, c, o) != [] ==> Place(m, c, o)[j] == m[j - 1]
  {
  }

  /** A split keeps the memory well formed when the request is positive. */
  lemma PlaceWellFormed(m: seq<Partition>, c: nat, o: Occupant)
    requires c < |m| && Fits(m[c], o.size)
    requires WellFormed(m) && o.size > 0
    ensures WellFormed(Place(m, c, o))
  {
    forall j | 0 <= j < |Place(m, c, o)| ensures Consistent(Place(m, c, o)[j]) {
      PlaceIndex(m, c, o, j);
    }
  }

  /** A split never creates a free block larger than some free block that was already there. */
  lemma PlaceFreeShrinks(m: seq<Partition>, c: nat, o: Occupant, bound: int)
    requires c < |m| && Fits(m[c], o.size)
    requires o.size > 0
    requires forall i :: 0 <= i < |m| && m[i].free ==> m[i].size < bound
    ensures forall j :: 0 <= j < |Place(m, c, o)| && Place(m, c, o)[j].free ==>
      Place(m, c, o)[j].size < bound
  {
    forall j | 0 <= j < |Place(m, c, o)| && Place(m, c, o)[j].free
      ensures Place(m, c, o)[j].size < bound
    {
      PlaceIndex(m, c, o, j);
    }
  }

  /** One process considered against the current memory. */
  function Admit(m: seq<Partition>, p: Process, fit: Fit): seq<Partition> {
    match Choose(m, p.size, fit)
    case None => m
    case Some(c) => Place(m, c, Occupant(p.pid, p.size))
  }

  /** The memory after considering the processes `ps` in order. */
  function Layout(m: seq<Partition>, ps: seq<Process>, fit: Fit): seq<Partition>
    decreases |ps|
  {
    if ps == [] then m
    else Admit(Layout(m, ps[..|ps| - 1], fit), ps[|ps| - 1], fit)
  }

  /**
   * The allocation records of the processes `ps`, in order: one for each
   * process some free partition fitted when its turn came, holding the
   * size that partition had before it was split.
   */
  function Allocations(m: seq<Partition>, ps: seq<Process>, fit: Fit): seq<Allocation>
    decreases |ps|
  {
    if ps == [] then []
    else
      var cur := Layout(m, ps[..|ps| - 1], fit);
      var p := ps[|ps| - 1];
      Allocations(m, ps[..|ps| - 1], fit)
        + match Choose(cur, p.size, fit)
          case Some(c) => [Allocation(p, cur[c].size)]
          case None => []
  }

  /** No run of placements creates or loses memory, or breaks well-formedness. */
  lemma {:induction false} LayoutConserves(m: seq<Partition>, ps: seq<Process>, fit: Fit)
    requires forall i :: 0 <= i < |ps| ==> ps[i].size > 0
    ensures Total(Layout(m, ps, fit)) == Total(m)
    ensures WellFormed(m) ==> WellFormed(Layout(m, ps, fit))
    decreases |ps|
  {
    if ps != [] {
      var before := ps[..|ps| - 1];
      LayoutConserves(m, before, fit);
      var p := ps[|ps| - 1];
      var cur := Layout(m, before, fit);
      match Choose(cur, p.size, fit)
      case None =>
      case Some(c) =>
        PlaceConserves(cur, c, Occupant(p.pid, p.size));
        if WellFormed(m) { PlaceWellFormed(cur, c, Occupant(p.pid, p.size)); }
    }
  }

  /** Placements never free an occupied partition: every occupant stays in memory. */
  lemma {:induction false} LayoutNeverFrees(m: seq<Partition>, ps: seq<Process>, fit: Fit)
    ensures multiset(Occupants(m)) <= multiset(Occupants(Layout(m, ps, fit)))
    decreases |ps|
  {
    if ps != [] {
      var before := ps[..|ps| - 1];
      LayoutNeverFrees(m, before, fit);
      var p := ps[|ps| - 1];
      var cur := Layout(m, before, fit);
      match Choose(cur, p.size, fit)
      case None =>
      case Some(c) =>
        PlaceOccupants(cur, c, Occupant(p.pid, p.size));
    }
  }

  // ---------------------------------------------------------------------
  // Views of the result records

  /** The allocated processes, in allocation order. */
  function Placed(allocs: seq<Allocation>): (ps: seq<Process>)
    ensures |ps| == |allocs|
  {
    if allocs == [] then [] else Placed(allocs[..|allocs| - 1]) + [allocs[|allocs| - 1].proc]
  }

  /** The occupant tag each allocation leaves in memory. */
  function Tags(allocs: seq<Allocation>): seq<Occupant> {
    if allocs == [] then []
    else
      var a := allocs[|allocs| - 1];
      Tags(allocs[..|allocs| - 1]) + [Occupant(a.proc.pid, a.proc.size)]
  }

  /** Memory handed out, summed over the allocation records. */
  function AllocatedTotal(allocs: seq<Allocation>): int {
    if allocs == [] then 0
    else AllocatedTotal(allocs[..|allocs| - 1]) + allocs[|allocs| - 1].proc.size
  }

  /** The processes of the table rows whose allocated flag is `flag`. */
  function Select(rows: seq<ProcessRow>, flag: bool): seq<Process> {
    if rows == [] then []
    else
      var last := rows[|rows| - 1];
      Select(rows[..|rows| - 1], flag) + (if last.isAllocated == flag then [last.proc] else [])
  }

  lemma RecordsAppend(allocs: seq<Allocation>, a: Allocation)
    ensures Placed(allocs + [a]) == Placed(allocs) + [a.proc]
    ensures Tags(allocs + [a]) == Tags(allocs) + [Occupant(a.proc.pid, a.proc.size)]
    ensures AllocatedTotal(allocs + [a]) == AllocatedTotal(allocs) + a.proc.size
  {
    assert (allocs + [a])[..|allocs|] == allocs;
  }

  lemma LayoutStep(m: seq<Partition>, ps: seq<Process>, k: nat, fit: Fit)
    requires k < |ps|
    ensures Layout(m, ps[..k + 1], fit) == Admit(Layout(m, ps[..k], fit), ps[k], fit)
  {
    assert ps[..k + 1][..k] == ps[..k];
  }

  lemma AllocationsStep(m: seq<Partition>, ps: seq<Process>, k: nat, fit: Fit)
    requires k < |ps|
    ensures Allocations(m, ps[..k + 1], fit)
         == Allocations(m, ps[..k], fit)
          + match Choose(Layout(m, ps[..k], fit), ps[k].size, fit)
            case Some(c) => [Allocation(ps[k], Layout(m, ps[..k], fit)[c].size)]
            case None => []
  {
    assert ps[..k + 1][..k] == ps[..k];
  }

  /** A process that fits is placed in the chosen partition. */
  lemma LayoutPlaced(m: seq<Partition>, ps: seq<Process>, k: nat, fit: Fit, c: nat)
    requires k < |ps| && Choose(Layout(m, ps[..k], fit), ps[k].size, fit) == Some(c)
    ensures Layout(m, ps[..k + 1], fit) == Place(Layout(m, ps[..k], fit), c, Occupant(ps[k].pid, ps[k].size))
  {
    LayoutStep(m, ps, k, fit);
  }

  /** A process that fits nowhere leaves the memory as it was. */
  lemma LayoutWaited(m: seq<Partition>, ps: seq<Process>, k: nat, fit: Fit)
    requires k < |ps| && Choose(Layout(m, ps[..k], fit), ps[k].size, fit).None?
    ensures Layout(m, ps[..k + 1], fit) == Layout(m, ps[..k], fit)
  {
    LayoutStep(m, ps, k, fit);
  }

  lemma PrefixStep(ps: seq<Process>, k: nat)
    requires k < |ps|
    ensures multiset(ps[..k + 1]) == multiset(ps[..k]) + multiset{ps[k]}
  {
    assert ps[..k + 1] == ps[..k] + [ps[k]];
  }

  lemma SelectStep(rows: seq<ProcessRow>, k: nat)
    requires k < |rows|
    ensures Select(rows[..k + 1], true) == Select(rows[..k], true) + (if rows[k].isAllocated then [rows[k].proc] else [])
    ensures Select(rows[..k + 1], false) == Select(rows[..k], false) + (if rows[k].isAllocated then [] else [rows[k].proc])
  {
    assert rows[..k + 1][..k] == rows[..k];
  }

  /** The processes in the order the allocator considers them. */
  function ArrivalOrder(sizes: seq<int>, arrivals: seq<int>, bursts: seq<int>): seq<Process>
    requires SameLength(sizes, arrivals, bursts)
  {
    SortByArrival(Numbered(sizes, arrivals, bursts))
  }

  lemma ArrivalOrderPositive(sizes: seq<int>, arrivals: seq<int>, bursts: seq<int>)
    requires SameLength(sizes, arrivals, bursts) && AllPositive(sizes)
    ensures |ArrivalOrder(sizes, arrivals, bursts)| == |sizes|
    ensures forall j :: 0 <= j < |ArrivalOrder(sizes, arrivals, bursts)| ==>
      ArrivalOrder(sizes, arrivals, bursts)[j].size > 0
  {
    var ps := Numbered(sizes, arrivals, bursts);
    var order := ArrivalOrder(sizes, arrivals, bursts);
    assert |order| == |multiset(order)| == |multiset(ps)| == |ps|;
    forall j | 0 <= j < |order| ensures order[j].size > 0 {
      assert order[j] in multiset(ps);
    }
  }

  // ---------------------------------------------------------------------
  // The simulation

  /** No waiting process fits into any partition that is free. */
  predicate NoWaiterFits(m: seq<Partition>, waiting: seq<Process>) {
    forall w, i :: w in waiting && 0 <= i < |m| && m[i].free ==> m[i].size < w.size
  }

  /** Every allocation record reports a host at least as large as the request. */
  predicate HostsLargeEnough(allocs: seq<Allocation>) {
    forall i :: 0 <= i < |allocs| ==> allocs[i].hostSize >= allocs[i].proc.size
  }

  /** The table rows list the processes of `order`, in that order. */
  predicate RowsFollow(rows: seq<ProcessRow>, order: seq<Process>) {
    |rows| == |order| && forall j {:trigger rows[j]} :: 0 <= j < |rows| ==> rows[j].proc == order[j]
  }

  /**
   * The first `k` rows are allocated exactly when a free partition fitted
   * them once the processes before them had been placed.
   */
  predicate Decided(rows: seq<ProcessRow>, initial: seq<Partition>, order: seq<Process>, fit: Fit, k: nat)
    requires RowsFollow(rows, order) && k <= |rows|
  {
    forall j {:trigger rows[j]} :: 0 <= j < k ==>
      (rows[j].isAllocated <==> Choose(Layout(initial, order[..j], fit), order[j].size, fit).Some?)
  }

  /**
   * Marks partition `c` occupied by `o` and, when it is larger than the
   * request, shrinks it to the request and inserts the free remainder
   * right after it.
   */
  method Occupy(memory: seq<Partition>, c: nat, o: Occupant) returns (m: seq<Partition>)
    requires c < |memory| && Fits(memory[c], o.size)
    ensures m == Place(memory, c, o)
  {
    var host := memory[c].size;
    m := memory[c := Partition(host, false, Some(o))];
    var remaining := host - o.size;
    if remaining > 0 {
      m := m[..c + 1] + [Partition(remaining, true, None)] + m[c + 1..];
      m := m[c := m[c].(size := o.size)];
      assert m == memory[..c] + [Partition(o.size, false, Some(o))] + Remainder(memory, c, o) + memory[c + 1..];
    } else {
      assert m == memory[..c] + [Partition(o.size, false, Some(o))] + Remainder(memory, c, o) + memory[c + 1..];
    }
  }

  /** Numbers the processes by their 1-based position in the input lists. */
  method NumberProcesses(sizes: seq<int>, arrivals: seq<int>, bursts: seq<int>) returns (procs: seq<Process>)
    requires SameLength(sizes, arrivals, bursts)
    ensures procs == Numbered(sizes, arrivals, bursts)
  {
    procs := [];
    for i := 0 to |sizes|
      invariant |procs| == i
      invariant forall j :: 0 <= j < i ==> procs[j] == Process(j + 1, sizes[j], arrivals[j], bursts[j])
    {
      procs := procs + [Process(i + 1, sizes[i], arrivals[i], bursts[i])];
    }
  }

  /**
   * The state after the first `k` processes of `order` have been
   * considered: the memory is their layout, each of their rows is
   * flagged as the policy decided, the records list them in order, and
   * memory accounting is exact.
   */
  predicate Progress(initial: seq<Partition>, order: seq<Process>, fit: Fit, k: nat,
                     memory: seq<Partition>, rows: seq<ProcessRow>, allocations: seq<Allocation>, waiting: seq<Process>)
  {
    && RecordsFollow(initial, order, fit, k, memory, rows, allocations, waiting)
    && MemoryAccounted(initial, memory, allocations, waiting)
  }

  /** The layout, the table and the record lists after the first `k` processes. */
  predicate RecordsFollow(initial: seq<Partition>, order: seq<Process>, fit: Fit, k: nat,
                          memory: seq<Partition>, rows: seq<ProcessRow>, allocations: seq<Allocation>, waiting: seq<Process>)
  {
    && k <= |order|
    && RowsFollow(rows, order)
    && (forall j :: k <= j < |rows| ==> !rows[j].isAllocated)
    && Decided(rows, initial, order, fit, k)
    && memory == Layout(initial, order[..k], fit)
    && allocations == Allocations(initial, order[..k], fit)
    && Listed(order, k, rows, allocations, waiting)
  }

  /**
   * The allocation records list the allocated rows among the first `k`,
   * the waiting list the others, both in order, and between them they
   * hold the first `k` processes.
   */
  predicate Listed(order: seq<Process>, k: nat, rows: seq<ProcessRow>, allocations: seq<Allocation>, waiting: seq<Process>)
    requires k <= |rows| && k <= |order|
  {
    && Placed(allocations) == Select(rows[..k], true)
    && waiting == Select(rows[..k], false)
    && multiset(Placed(allocations)) + multiset(waiting) == multiset(order[..k])
  }

  /** Memory accounting that holds after every step. */
  predicate MemoryAccounted(initial: seq<Partition>, memory: seq<Partition>, allocations: seq<Allocation>, waiting: seq<Process>) {
    && HostsLargeEnough(allocations)
    && Total(memory) == Total(initial)
    && WellFormed(memory)
    && multiset(Occupants(memory)) == multiset(Tags(allocations))
    && FreeTotal(memory) + AllocatedTotal(allocations) == FreeTotal(initial)
    && NoWaiterFits(memory, waiting)
  }

  /** Flagging row `k` allocated, when a partition fitted it, extends the decided rows by one. */
  lemma AllocatedDecided(initial: seq<Partition>, order: seq<Process>, fit: Fit, k: nat, rows: seq<ProcessRow>)
    requires k < |order| && RowsFollow(rows, order) && Decided(rows, initial, order, fit, k)
    requires Choose(Layout(initial, order[..k], fit), order[k].size, fit).Some?
    ensures RowsFollow(rows[k := rows[k].(isAllocated := true)], order)
    ensures Decided(rows[k := rows[k].(isAllocated := true)], initial, order, fit, k + 1)
  {
    var rows' := rows[k := rows[k].(isAllocated := true)];
    assert RowsFollow(rows', order);
    forall j | 0 <= j < k + 1
      ensures rows'[j].isAllocated <==> Choose(Layout(initial, order[..j], fit), order[j].size, fit).Some?
    {
      if j < k { assert rows'[j] == rows[j]; }
    }
  }

  /** Leaving row `k` unallocated, when no partition fitted it, extends the decided rows by one. */
  lemma WaitedDecided(initial: seq<Partition>, order: seq<Process>, fit: Fit, k: nat, rows: seq<ProcessRow>)
    requires k < |order| && RowsFollow(rows, order) && Decided(rows, initial, order, fit, k)
    requires forall j :: k <= j < |rows| ==> !rows[j].isAllocated
    requires Choose(Layout(initial, order[..k], fit), order[k].size, fit).None?
    ensures Decided(rows, initial, order, fit, k + 1)
  {
    assert !rows[k].isAllocated;
  }

  /** Recording the allocation of process `k` and flagging its row keeps the lists in step. */
  lemma ListedPlaced(order: seq<Process>, k: nat, rows: seq<ProcessRow>, allocations: seq<Allocation>, waiting: seq<Process>,
                     host: int)
    requires k < |order| && RowsFollow(rows, order) && Listed(order, k, rows, allocations, waiting)
    ensures Listed(order, k + 1, rows[k := rows[k].(isAllocated := true)], allocations + [Allocation(order[k], host)], waiting)
  {
    var rows' := rows[k := rows[k].(isAllocated := true)];
    PrefixStep(order, k);
    RecordsAppend(allocations, Allocation(order[k], host));
    assert rows'[..k] == rows[..k];
    SelectStep(rows', k);
  }

  /** Putting process `k` on the waiting list keeps the lists in step. */
  lemma ListedWaited(order: seq<Process>, k: nat, rows: seq<ProcessRow>, allocations: seq<Allocation>, waiting: seq<Process>)
    requires k < |order| && RowsFollow(rows, order) && !rows[k].isAllocated
    requires Listed(order, k, rows, allocations, waiting)
    ensures Listed(order, k + 1, rows, allocations, waiting + [order[k]])
  {
    PrefixStep(order, k);
    SelectStep(rows, k);
  }

  /** Placing process `k` in partition `c` keeps the layout, table and records in step. */
  lemma PlacedRecords(initial: seq<Partition>, order: seq<Process>, fit: Fit, k: nat,
                      memory: seq<Partition>, rows: seq<ProcessRow>, allocations: seq<Allocation>, waiting: seq<Process>,
                      c: nat)
    requires k < |order|
    requires RecordsFollow(initial, order, fit, k, memory, rows, allocations, waiting)
    requires Choose(memory, order[k].size, fit) == Some(c)
    ensures RecordsFollow(initial, order, fit, k + 1,
                          Place(memory, c, Occupant(order[k].pid, order[k].size)),
                          rows[k := rows[k].(isAllocated := true)],
                          allocations + [Allocation(order[k], memory[c].size)],
                          waiting)
  {
    AllocatedDecided(initial, order, fit, k, rows);
    LayoutPlaced(initial, order, k, fit, c);
    AllocationsStep(initial, order, k, fit);
    ListedPlaced(order, k, rows, allocations, waiting, memory[c].size);
    var rows' := rows[k := rows[k].(isAllocated := true)];
    assert forall j :: k + 1 <= j < |rows'| ==> !rows'[j].isAllocated;
  }

  /** Placing a positive request in partition `c` keeps the memory accounting exact. */
  lemma PlacedMemory(initial: seq<Partition>, memory: seq<Partition>, allocations: seq<Allocation>, waiting: seq<Process>,
                     p: Process, c: nat)
    requires p.size > 0
    requires MemoryAccounted(initial, memory, allocations, waiting)
    requires c < |memory| && Fits(memory[c], p.size)
    ensures MemoryAccounted(initial, Place(memory, c, Occupant(p.pid, p.size)),
                            allocations + [Allocation(p, memory[c].size)], waiting)
  {
    var o := Occupant(p.pid, p.size);
    var memory' := Place(memory, c, o);
    RecordsAppend(allocations, Allocation(p, memory[c].size));
    PlaceConserves(memory, c, o);
    PlaceFreeTotal(memory, c, o);
    PlaceOccupants(memory, c, o);
    PlaceWellFormed(memory, c, o);
    forall w | w in waiting
      ensures forall i :: 0 <= i < |memory'| && memory'[i].free ==> memory'[i].size < w.size
    {
      PlaceFreeShrinks(memory, c, o, w.size);
    }
  }

  /** A process no free partition fits can join the waiting list without breaking the accounting. */
  lemma WaitedMemory(initial: seq<Partition>, memory: seq<Partition>, allocations: seq<Allocation>, waiting: seq<Process>,
                     p: Process, fit: Fit)
    requires MemoryAccounted(initial, memory, allocations, waiting)
    requires Choose(memory, p.size, fit).None?
    ensures MemoryAccounted(initial, memory, allocations, waiting + [p])
  {
    assert forall i :: 0 <= i < |memory| ==> !Fits(memory[i], p.size);
  }

  /** Putting process `k` on the waiting list keeps the progress invariant. */
  lemma WaitingStep(initial: seq<Partition>, order: seq<Process>, fit: Fit, k: nat,
                    memory: seq<Partition>, rows: seq<ProcessRow>, allocations: seq<Allocation>, waiting: seq<Process>)
    requires k < |order|
    requires Progress(initial, order, fit, k, memory, rows, allocations, waiting)
    requires Choose(memory, order[k].size, fit).None?
    ensures Progress(initial, order, fit, k + 1, memory, rows, allocations, waiting + [order[k]])
  {
    WaitedDecided(initial, order, fit, k, rows);
    LayoutWaited(initial, order, k, fit);
    AllocationsStep(initial, order, k, fit);
    ListedWaited(order, k, rows, allocations, waiting);
    WaitedMemory(initial, memory, allocations, waiting, order[k], fit);
  }

  /**
   * Considers process `k` of `order`: places it in the partition `fit`
   * chooses, recording the allocation and flagging its row, or appends
   * it to the waiting list.
   */
  method Consider(initial: seq<Partition>, order: seq<Process>, fit: Fit, k: nat,
                  memory: seq<Partition>, rows: seq<ProcessRow>, allocations: seq<Allocation>, waiting: seq<Process>)
    returns (memory': seq<Partition>, rows': seq<ProcessRow>, allocations': seq<Allocation>, waiting': seq<Process>)
    requires k < |order| && order[k].size > 0
    requires Progress(initial, order, fit, k, memory, rows, allocations, waiting)
    ensures Progress(initial, order, fit, k + 1, memory', rows', allocations', waiting')
    // a placed process is recorded with the size its host had before the split
    ensures Choose(memory, order[k].size, fit).Some? ==>
      var c := Choose(memory, order[k].size, fit).value;
      && memory' == Place(memory, c, Occupant(order[k].pid, order[k].size))
      && allocations' == allocations + [Allocation(order[k], memory[c].size)]
      && rows' == rows[k := rows[k].(isAllocated := true)]
      && waiting' == waiting
    ensures Choose(memory, order[k].size, fit).None? ==>
      memory' == memory && rows' == rows && allocations' == allocations && waiting' == waiting + [order[k]]
  {
    memory', rows', allocations', waiting' := memory, rows, allocations, waiting;
    var p := rows[k].proc;
    match Choose(memory, p.size, fit)
    case Some(c) =>
      PlacedRecords(initial, order, fit, k, memory, rows, allocations, waiting, c);
      PlacedMemory(initial, memory, allocations, waiting, p, c);
      allocations' := allocations + [Allocation(p, memory[c].size)];
      rows' := rows[k := rows[k].(isAllocated := true)];
      memory' := Occupy(memory, c, Occupant(p.pid, p.size));
    case None =>
      WaitingStep(initial, order, fit, k, memory, rows, allocations, waiting);
      waiting' := waiting + [p];
  }

  /** Before any process is considered: the initial memory, all rows unallocated, no records. */
  lemma ProgressStart(initial: seq<Partition>, order: seq<Process>, fit: Fit, rows: seq<ProcessRow>)
    requires WellFormed(initial) && Occupants(initial) == []
    requires RowsFollow(rows, order) && forall j :: 0 <= j < |rows| ==> !rows[j].isAllocated
    ensures Progress(initial, order, fit, 0, initial, rows, [], [])
  {
    assert order[..0] == [] && rows[..0] == [];
  }

  /** Once every process is considered, the invariant speaks of the whole order. */
  lemma ProgressDone(initial: seq<Partition>, order: seq<Process>, fit: Fit,
                     memory: seq<Partition>, rows: seq<ProcessRow>, allocations: seq<Allocation>, waiting: seq<Process>)
    requires Progress(initial, order, fit, |order|, memory, rows, allocations, waiting)
    ensures memory == Layout(initial, order, fit)
    ensures allocations == Allocations(initial, order, fit)
    ensures Placed(allocations) == Select(rows, true)
    ensures waiting == Select(rows, false)
    ensures multiset(Placed(allocations)) + multiset(waiting) == multiset(order)
  {
    assert rows[..|order|] == rows;
    assert order[..|order|] == order;
  }

  /**
   * Considers the processes of `order` one by one against the memory,
   * placing each in the partition `fit` chooses or putting it on the
   * waiting list. Returns the final memory, the table rows with their
   * allocated flags, and the two record lists.
   */
  method PlaceAll(initial: seq<Partition>, order: seq<Process>, fit: Fit)
    returns (memory: seq<Partition>, rows: seq<ProcessRow>, allocations: seq<Allocation>, waiting: seq<Process>)
    requires WellFormed(initial) && Occupants(initial) == []
    requires forall j :: 0 <= j < |order| ==> order[j].size > 0
    ensures RowsFollow(rows, order)
    ensures Decided(rows, initial, order, fit, |rows|)
    ensures memory == Layout(initial, order, fit)
    ensures allocations == Allocations(initial, order, fit)
    ensures Placed(allocations) == Select(rows, true)
    ensures waiting == Select(rows, false)
    ensures multiset(Placed(allocations)) + multiset(waiting) == multiset(order)
    ensures MemoryAccounted(initial, memory, allocations, waiting)
  {
    memory := initial;
    rows := seq(|order|, j requires 0 <= j < |order| => ProcessRow(order[j], false));
    allocations := [];
    waiting := [];
    ProgressStart(initial, order, fit, rows);
    var k := 0;
    while k < |order|
      invariant k <= |order|
      invariant Progress(initial, order, fit, k, memory, rows, allocations, waiting)
    {
      memory, rows, allocations, waiting := Consider(initial, order, fit, k, memory, rows, allocations, waiting);
      k := k + 1;
    }
    ProgressDone(initial, order, fit, memory, rows, allocations, waiting);
  }

  /**
   * What a run of the allocator on valid input produces, stated against
   * the specification functions: the table, the records, the final memory
   * and the metrics.
   */
  predicate Simulated(partitions: seq<int>, sizes: seq<int>, arrivals: seq<int>, bursts: seq<int>, fit: Fit,
                      r: AllocationResult)
  {
    ValidAllocationInput(partitions, sizes, arrivals, bursts) &&
    var order := ArrivalOrder(sizes, arrivals, bursts);
    var initial := FreeBlocks(partitions);
    // the table lists every process once, in stable arrival order
    && ArrivalOrdered(order)
    && multiset(order) == multiset(Numbered(sizes, arrivals, bursts))
    && |r.processes| == |sizes| == r.processCount
    && (forall j :: 0 <= j < |r.processes| ==> r.processes[j].proc == order[j])
    // a process is allocated iff some free partition fitted it when its turn came
    && (forall j :: 0 <= j < |r.processes| ==>
         (r.processes[j].isAllocated <==> Choose(Layout(initial, order[..j], fit), r.processes[j].proc.size, fit).Some?))
    // each record holds its host's size before the split
    && r.allocations == Allocations(initial, order, fit)
    && HostsLargeEnough(r.allocations)
    // the allocated ones are the allocation records, the others the waiting list, both in arrival order
    && Placed(r.allocations) == Select(r.processes, true)
    && r.waiting == Select(r.processes, false)
    && multiset(Placed(r.allocations)) + multiset(r.waiting) == multiset(Numbered(sizes, arrivals, bursts))
    // the final memory
    && r.memory == Layout(initial, order, fit)
    && Total(r.memory) == Sum(partitions)
    && WellFormed(r.memory)
    && multiset(Occupants(r.memory)) == multiset(Tags(r.allocations))
    && NoWaiterFits(r.memory, r.waiting)
    // the metrics
    && r.externalFrag == FreeTotal(r.memory)
    && r.externalFrag + AllocatedTotal(r.allocations) == Sum(partitions)
    && r.internalFrag == 0
    && r.totalWait == |r.waiting|
  }

  /**
   * Runs the allocator over already validated input: numbers the
   * processes, sorts them by arrival, places them, and measures the
   * final memory.
   */
  method SimulateContiguous(partitions: seq<int>, sizes: seq<int>, arrivals: seq<int>, bursts: seq<int>, fit: Fit)
    returns (r: AllocationResult)
    requires ValidAllocationInput(partitions, sizes, arrivals, bursts)
    ensures Simulated(partitions, sizes, arrivals, bursts, fit, r)
  {
    var procs := NumberProcesses(sizes, arrivals, bursts);
    // the library's stable sort
    var order := SortByArrival(procs);
    NumberedPidsAscending(sizes, arrivals, bursts);
    SortByArrivalOrdered(procs);
    ArrivalOrderPositive(sizes, arrivals, bursts);
    FreeBlocksMeasures(partitions);
    var memory, rows, allocations, waiting := PlaceAll(FreeBlocks(partitions), order, fit);
    NoInternalFragmentation(memory);
    r := AllocationResult(memory, allocations, waiting, FreeTotal(memory), InternalFragmentation(memory),
                          |waiting|, |order|, rows);
  }

  /**
   * Validates the parsed input as the caller of the simulator does, then
   * runs it. Mismatched list lengths are reported before non-positive
   * values; nothing is simulated on failure.
   */
  method RunContiguous(partitions: seq<int>, sizes: seq<int>, arrivals: seq<int>, bursts: seq<int>, fit: Fit)
    returns (r: Result<AllocationResult, InputError>)
    ensures r.Failure? <==> !ValidAllocationInput(partitions, sizes, arrivals, bursts)
    ensures r.Failure? ==> (r.error == LengthMismatch <==> !SameLength(sizes, arrivals, bursts))
    ensures r.Success? ==> Simulated(partitions, sizes, arrivals, bursts, fit, r.value)
  {
    if !SameLength(sizes, arrivals, bursts) {
      return Failure(LengthMismatch);
    }
    if !(AllPositive(partitions) && AllPositive(sizes) && AllPositive(bursts) && AllNonNegative(arrivals)) {
      return Failure(NotPositive);
    }
    var result := SimulateContiguous(partitions, sizes, arrivals, bursts, fit);
    return Success(result);
  }
}
