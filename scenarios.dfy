/**
 * The allocator on the input the program offers by default: partitions
 * of 100K, 500K, 200K, 300K and 600K, and four processes of 212K, 417K,
 * 112K and 426K arriving at times 0 to 3 with bursts 5, 3, 6 and 4.
 */
module Scenarios {
  import opened Wrappers
  import opened Processes
  import opened Contiguous

  const DefaultPartitions: seq<int> := [100, 500, 200, 300, 600]
  const DefaultSizes: seq<int> := [212, 417, 112, 426]
  const DefaultArrivals: seq<int> := [0, 1, 2, 3]
  const DefaultBursts: seq<int> := [5, 3, 6, 4]

  const P1 := Process(1, 212, 0, 5)
  const P2 := Process(2, 417, 1, 3)
  const P3 := Process(3, 112, 2, 6)
  const P4 := Process(4, 426, 3, 4)

  function Free(size: int): Partition { Partition(size, true, None) }
  function Held(p: Process): Partition { Partition(p.size, false, Some(Occupant(p.pid, p.size))) }

  /** The processes arrive in input order, so the stable sort keeps them as numbered. */
  lemma DefaultArrivalOrder()
    ensures ArrivalOrder(DefaultSizes, DefaultArrivals, DefaultBursts) == [P1, P2, P3, P4]
  {
    var order := [P1, P2, P3, P4];
    assert Numbered(DefaultSizes, DefaultArrivals, DefaultBursts) == order;
    assert forall i :: 0 <= i < |order| ==> order[i].arrival == i && order[i].pid == i + 1;
    SortKeepsOrdered(order);
  }

  lemma DefaultFreeBlocks()
    ensures FreeBlocks(DefaultPartitions) == [Free(100), Free(500), Free(200), Free(300), Free(600)]
  {
  }

  /** Admitting `p` where the policy chooses partition `c` gives `after`. */
  lemma AdmittedAt(m: seq<Partition>, p: Process, fit: Fit, c: nat, after: seq<Partition>)
    requires c < |m| && IsChoice(m, p.size, fit, |m|, c)
    requires Place(m, c, Occupant(p.pid, p.size)) == after
    ensures Choose(m, p.size, fit) == Some(c)
    ensures Admit(m, p, fit) == after
  {
    ChooseExactly(m, p.size, fit, c);
  }

  /** The layout of the four processes, one admission at a time. */
  lemma LayoutOfFour(m: seq<Partition>, fit: Fit)
    ensures Layout(m, [P1, P2, P3, P4], fit)
         == Admit(Admit(Admit(Admit(m, P1, fit), P2, fit), P3, fit), P4, fit)
  {
    var order := [P1, P2, P3, P4];
    assert order[..0] == [];
    LayoutStep(m, order, 0, fit);
    LayoutStep(m, order, 1, fit);
    LayoutStep(m, order, 2, fit);
    LayoutStep(m, order, 3, fit);
    assert order[..4] == order;
  }

  // The memory under First-Fit after each of the first three admissions.
  function FirstFitAfter1(): seq<Partition> { [Free(100), Held(P1), Free(288), Free(200), Free(300), Free(600)] }
  function FirstFitAfter2(): seq<Partition> { [Free(100), Held(P1), Free(288), Free(200), Free(300), Held(P2), Free(183)] }
  function FirstFitAfter3(): seq<Partition> { [Free(100), Held(P1), Held(P3), Free(176), Free(200), Free(300), Held(P2), Free(183)] }

  /** P1 (212K) goes to the 500K partition, the first that fits, leaving 288K free. */
  lemma FirstFitAdmitsP1()
    ensures Choose([Free(100), Free(500), Free(200), Free(300), Free(600)], P1.size, FirstFit) == Some(1)
    ensures Admit([Free(100), Free(500), Free(200), Free(300), Free(600)], P1, FirstFit) == FirstFitAfter1()
  {
    AdmittedAt([Free(100), Free(500), Free(200), Free(300), Free(600)], P1, FirstFit, 1, FirstFitAfter1());
  }

  /** P2 (417K) fits only the 600K partition, leaving 183K free. */
  lemma FirstFitAdmitsP2()
    ensures Choose(FirstFitAfter1(), P2.size, FirstFit) == Some(5)
    ensures Admit(FirstFitAfter1(), P2, FirstFit) == FirstFitAfter2()
  {
    AdmittedAt(FirstFitAfter1(), P2, FirstFit, 5, FirstFitAfter2());
  }

  /** P3 (112K) goes to the 288K remainder, which comes before the 200K partition. */
  lemma FirstFitAdmitsP3()
    ensures Choose(FirstFitAfter2(), P3.size, FirstFit) == Some(2)
    ensures Admit(FirstFitAfter2(), P3, FirstFit) == FirstFitAfter3()
  {
    AdmittedAt(FirstFitAfter2(), P3, FirstFit, 2, FirstFitAfter3());
  }

  /** P4 (426K) fits no free partition and waits. */
  lemma FirstFitRejectsP4()
    ensures Choose(FirstFitAfter3(), P4.size, FirstFit).None?
    ensures Admit(FirstFitAfter3(), P4, FirstFit) == FirstFitAfter3()
  {
    assert forall j :: 0 <= j < |FirstFitAfter3()| ==> !Fits(FirstFitAfter3()[j], P4.size);
  }

  /** The free partitions left are 100K, 176K, 200K, 300K and 183K. */
  lemma FirstFitFragmentation()
    ensures FreeTotal(FirstFitAfter3()) == 959
  {
    var m := FirstFitAfter3();
    assert m == [Free(100), Held(P1), Held(P3)] + ([Free(176), Free(200), Free(300)] + [Held(P2), Free(183)]);
    MeasuresOfConcat([Free(100), Held(P1), Held(P3)], [Free(176), Free(200), Free(300)] + [Held(P2), Free(183)]);
    MeasuresOfConcat([Free(176), Free(200), Free(300)], [Held(P2), Free(183)]);
  }

  /**
   * First-Fit on the default input: P1 splits the 500K partition, P2 the
   * 600K one, P3 takes the 288K remainder P1 left, and P4 finds no free
   * partition of 426K. External fragmentation is
   * 100 + 176 + 200 + 300 + 183 = 959K.
   */
  lemma DefaultFirstFit()
    ensures Layout(FreeBlocks(DefaultPartitions), ArrivalOrder(DefaultSizes, DefaultArrivals, DefaultBursts), FirstFit)
         == FirstFitAfter3()
    ensures FreeTotal(FirstFitAfter3()) == 959
  {
    FirstFitFragmentation();
    DefaultArrivalOrder();
    DefaultFreeBlocks();
    LayoutOfFour([Free(100), Free(500), Free(200), Free(300), Free(600)], FirstFit);
    FirstFitAdmitsP1();
    FirstFitAdmitsP2();
    FirstFitAdmitsP3();
    FirstFitRejectsP4();
  }

  /** The records First-Fit keeps for P1 to P4 on the default partitions, one admission at a time. */
  lemma FirstFitRecordsOfFour(order: seq<Process>)
    requires |order| == 4 && order[0] == P1 && order[1] == P2 && order[2] == P3 && order[3] == P4
    ensures Allocations([Free(100), Free(500), Free(200), Free(300), Free(600)], order[..4], FirstFit)
         == [Allocation(P1, 500), Allocation(P2, 600), Allocation(P3, 288)]
  {
    var m := [Free(100), Free(500), Free(200), Free(300), Free(600)];
    assert order[..0] == [];
    FirstFitAdmitsP1();
    LayoutStep(m, order, 0, FirstFit);
    AllocationsStep(m, order, 0, FirstFit);
    FirstFitAdmitsP2();
    LayoutStep(m, order, 1, FirstFit);
    AllocationsStep(m, order, 1, FirstFit);
    FirstFitAdmitsP3();
    LayoutStep(m, order, 2, FirstFit);
    AllocationsStep(m, order, 2, FirstFit);
    FirstFitRejectsP4();
    AllocationsStep(m, order, 3, FirstFit);
  }

  lemma WholePrefix(s: seq<Process>)
    ensures s[..|s|] == s
  {
  }

  /**
   * The allocation records First-Fit keeps on the default input, each with
   * the size its host had before the split: P1 in the 500K partition, P2
   * in the 600K one and P3 in the 288K remainder. P4 has none.
   */
  lemma DefaultFirstFitRecords()
    ensures Allocations(FreeBlocks(DefaultPartitions), ArrivalOrder(DefaultSizes, DefaultArrivals, DefaultBursts), FirstFit)
         == [Allocation(P1, 500), Allocation(P2, 600), Allocation(P3, 288)]
  {
    DefaultArrivalOrder();
    DefaultFreeBlocks();
    var order := ArrivalOrder(DefaultSizes, DefaultArrivals, DefaultBursts);
    FirstFitRecordsOfFour(order);
    WholePrefix(order);
  }
}
