/**
 * The processes of a contiguous-allocation run: each is numbered by its
 * 1-based position in the input lists, and the list is then ordered by
 * arrival time with a stable sort (equal arrivals keep input order).
 */
module Processes {

  datatype Process = Process(pid: int, size: int, arrival: int, burst: int)

  /** The process list built from the three parallel input lists. */
  function Numbered(sizes: seq<int>, arrivals: seq<int>, bursts: seq<int>): (ps: seq<Process>)
    requires |sizes| == |arrivals| == |bursts|
    ensures |ps| == |sizes|
    ensures forall i :: 0 <= i < |ps| ==>
      ps[i] == Process(i + 1, sizes[i], arrivals[i], bursts[i])
  {
    seq(|sizes|, i requires 0 <= i < |sizes| => Process(i + 1, sizes[i], arrivals[i], bursts[i]))
  }

  /** Pids strictly increase along the list, as they do in input order. */
  predicate PidsAscending(ps: seq<Process>) {
    forall i, j :: 0 <= i < j < |ps| ==> ps[i].pid < ps[j].pid
  }

  /** `a` is handled before `b`: earlier arrival, or same arrival and earlier input position. */
  predicate Precedes(a: Process, b: Process) {
    a.arrival < b.arrival || (a.arrival == b.arrival && a.pid < b.pid)
  }

  /** Ordered by arrival, ties kept in pid (that is, input) order. */
  predicate ArrivalOrdered(ps: seq<Process>) {
    forall i, j :: 0 <= i < j < |ps| ==> Precedes(ps[i], ps[j])
  }

  /** Places `p` in front of the first process that does not arrive before it. */
  function Insert(p: Process, ps: seq<Process>): (r: seq<Process>)
    ensures |r| == |ps| + 1
    ensures multiset(r) == multiset(ps) + multiset{p}
  {
    if ps == [] then [p]
    else if p.arrival <= ps[0].arrival then [p] + ps
    else
      assert ps == [ps[0]] + ps[1..];
      [ps[0]] + Insert(p, ps[1..])
  }

  /** Stable insertion sort on arrival time. */
  function SortByArrival(ps: seq<Process>): (r: seq<Process>)
    ensures |r| == |ps|
    ensures multiset(r) == multiset(ps)
  {
    if ps == [] then []
    else
      assert ps == [ps[0]] + ps[1..];
      Insert(ps[0], SortByArrival(ps[1..]))
  }

  lemma {:induction false} InsertOrdered(p: Process, ps: seq<Process>)
    requires ArrivalOrdered(ps)
    requires forall q :: q in ps ==> p.pid < q.pid
    ensures ArrivalOrdered(Insert(p, ps))
  {
    if ps != [] && p.arrival > ps[0].arrival {
      var tail := Insert(p, ps[1..]);
      InsertOrdered(p, ps[1..]);
      forall q | q in tail ensures Precedes(ps[0], q) {
        assert q in multiset(tail);
        if q != p {
          assert q in multiset(ps[1..]);
          var k :| 1 <= k < |ps| && ps[k] == q;
        }
      }
    }
  }

  /**
   * Sorting a list numbered in input order orders it by arrival with
   * ties in input order, and keeps every process exactly once.
   */
  lemma {:induction false} SortByArrivalOrdered(ps: seq<Process>)
    requires PidsAscending(ps)
    ensures ArrivalOrdered(SortByArrival(ps))
    ensures multiset(SortByArrival(ps)) == multiset(ps)
  {
    if ps != [] {
      var rest := SortByArrival(ps[1..]);
      SortByArrivalOrdered(ps[1..]);
      forall q | q in rest ensures ps[0].pid < q.pid {
        assert q in multiset(ps[1..]);
        var k :| 1 <= k < |ps| && ps[k] == q;
      }
      InsertOrdered(ps[0], rest);
    }
  }

  /**
   * The arrival order is unique: two lists holding the same processes and
   * both ordered by (arrival, pid) are equal. So any stable sort of the
   * numbered list yields exactly SortByArrival's result.
   */
  lemma {:induction false} ArrivalOrderUnique(xs: seq<Process>, ys: seq<Process>)
    requires ArrivalOrdered(xs) && ArrivalOrdered(ys)
    requires multiset(xs) == multiset(ys)
    ensures xs == ys
  {
    if xs != [] {
      assert xs[0] in multiset(ys);
      assert ys != [];
      assert ys[0] in multiset(xs);
      assert xs[0] == ys[0];
      assert xs == [xs[0]] + xs[1..];
      assert ys == [ys[0]] + ys[1..];
      assert multiset(xs) == multiset{xs[0]} + multiset(xs[1..]);
      assert multiset(ys) == multiset{xs[0]} + multiset(ys[1..]);
      assert multiset(xs[1..]) == multiset(xs) - multiset{xs[0]};
      assert multiset(ys[1..]) == multiset(ys) - multiset{xs[0]};
      ArrivalOrderUnique(xs[1..], ys[1..]);
    } else {
      assert |ys| == |multiset(ys)| == 0;
    }
  }

  /** Input already in arrival order is left as it is. */
  lemma SortKeepsOrdered(ps: seq<Process>)
    requires PidsAscending(ps) && ArrivalOrdered(ps)
    ensures SortByArrival(ps) == ps
  {
    SortByArrivalOrdered(ps);
    ArrivalOrderUnique(SortByArrival(ps), ps);
  }

  lemma NumberedPidsAscending(sizes: seq<int>, arrivals: seq<int>, bursts: seq<int>)
    requires |sizes| == |arrivals| == |bursts|
    ensures PidsAscending(Numbered(sizes, arrivals, bursts))
  {
  }
}
