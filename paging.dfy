/**
 * The page replacer: a reference string is replayed against a bounded
 * list of resident pages under FIFO, LRU or Optimal replacement. Every
 * reference records the page, the resident list after it and whether it
 * faulted; the faults are counted.
 */
module Paging {
  import opened Wrappers

  /** The three replacement policies. */
  datatype Policy = FIFO | LRU | Optimal

  /** One history entry: the page referenced, the frames after the reference, and whether it faulted. */
  datatype Step = Step(page: int, frames: seq<int>, fault: bool)

  datatype PagingResult = PagingResult(history: seq<Step>, totalFaults: nat)

  /** The frame count is rejected before any replay when it is not positive. */
  datatype PagingError = FramesNotPositive

  predicate NoDuplicates(s: seq<int>) {
    forall i, j :: 0 <= i < j < |s| ==> s[i] != s[j]
  }

  // ---------------------------------------------------------------------
  // List operations the replacer uses

  /** Position of the first occurrence of `x` in `s`. */
  function IndexOf(s: seq<int>, x: int): (i: nat)
    requires x in s
    ensures i < |s| && s[i] == x
    ensures forall j :: 0 <= j < i ==> s[j] != x
  {
    if s[0] == x then 0 else 1 + IndexOf(s[1..], x)
  }

  /** Conversely, an occurrence with no earlier occurrence is the one `IndexOf` finds. */
  lemma IndexOfAt(s: seq<int>, x: int, i: nat)
    requires i < |s| && s[i] == x && x !in s[..i]
    ensures IndexOf(s, x) == i
  {
    assert forall j :: 0 <= j < i ==> s[..i][j] == s[j];
  }

  /** `s` without its element at position `i`; the others keep their order. */
  function RemoveAt(s: seq<int>, i: nat): (r: seq<int>)
    requires i < |s|
    ensures |r| == |s| - 1
    ensures forall j :: 0 <= j < |r| ==> r[j] == if j < i then s[j] else s[j + 1]
  {
    s[..i] + s[i + 1..]
  }

  lemma RemoveAtMultiset(s: seq<int>, i: nat)
    requires i < |s|
    ensures multiset(RemoveAt(s, i)) == multiset(s) - multiset{s[i]}
  {
    assert s == s[..i] + [s[i]] + s[i + 1..];
  }

  /** Removing one element from a list without duplicates leaves a list without duplicates that lacks it. */
  lemma RemoveAtDistinct(s: seq<int>, i: nat)
    requires i < |s| && NoDuplicates(s)
    ensures NoDuplicates(RemoveAt(s, i)) && s[i] !in RemoveAt(s, i)
  {
    var r := RemoveAt(s, i);
    forall j, l | 0 <= j < l < |r|
      ensures r[j] != r[l]
    {
      var j' := if j < i then j else j + 1;
      var l' := if l < i then l else l + 1;
      assert r[j] == s[j'] && r[l] == s[l'] && j' < l';
    }
    forall j | 0 <= j < |r|
      ensures r[j] != s[i]
    {
      var j' := if j < i then j else j + 1;
      assert r[j] == s[j'] && j' != i;
    }
  }

  // ---------------------------------------------------------------------
  // Optimal replacement

  /**
   * How far ahead `page` is next referenced in `future`: the index of its
   * first occurrence, or `|future|` when it never occurs again, which
   * stands for infinity because it exceeds every real index.
   */
  function NextUse(page: int, future: seq<int>): (n: nat)
    ensures n <= |future|
    ensures n < |future| ==> future[n] == page
    ensures forall j :: 0 <= j < n ==> future[j] != page
  {
    if |future| == 0 then 0
    else if future[0] == page then 0
    else 1 + NextUse(page, future[1..])
  }

  /** Conversely, an index that is the first occurrence (or `|future|` when there is none) is the next use. */
  lemma NextUseIs(page: int, future: seq<int>, n: nat)
    requires n <= |future| && (n < |future| ==> future[n] == page) && page !in future[..n]
    ensures NextUse(page, future) == n
  {
    assert forall j :: 0 <= j < n ==> future[..n][j] == future[j];
  }

  /** Among the first `n` frames, the first one whose next use is furthest away. */
  function VictimIn(frames: seq<int>, future: seq<int>, n: nat): (v: nat)
    requires 0 < n <= |frames|
    ensures v < n
    ensures forall j :: 0 <= j < n ==> NextUse(frames[j], future) <= NextUse(frames[v], future)
    ensures forall j :: 0 <= j < v ==> NextUse(frames[j], future) < NextUse(frames[v], future)
  {
    if n == 1 then 0
    else
      var v := VictimIn(frames, future, n - 1);
      if NextUse(frames[n - 1], future) > NextUse(frames[v], future) then n - 1 else v
  }

  /**
   * The frame Optimal evicts: the resident referenced furthest in the
   * future (never again counts as furthest), the first one on ties.
   */
  function OptimalVictim(frames: seq<int>, future: seq<int>): (v: nat)
    requires |frames| > 0
    ensures v < |frames|
    ensures forall j :: 0 <= j < |frames| ==> NextUse(frames[j], future) <= NextUse(frames[v], future)
    ensures forall j :: 0 <= j < v ==> NextUse(frames[j], future) < NextUse(frames[v], future)
  {
    VictimIn(frames, future, |frames|)
  }

  // ---------------------------------------------------------------------
  // One reference

  /** The position a full fault evicts: the oldest frame under FIFO and LRU, Optimal's victim otherwise. */
  function Evicted(policy: Policy, frames: seq<int>, future: seq<int>): (v: nat)
    requires |frames| > 0
    ensures v < |frames|
  {
    match policy
    case FIFO => 0
    case LRU => 0
    case Optimal => OptimalVictim(frames, future)
  }

  /**
   * The frames after referencing `page`, given the frames before and the
   * references still to come. A hit leaves the frames alone except under
   * LRU, which moves the page to the end; a fault appends the page, after
   * evicting one frame when all `capacity` frames are in use.
   */
  function Access(policy: Policy, capacity: nat, frames: seq<int>, page: int, future: seq<int>): seq<int>
    requires capacity > 0
  {
    if page in frames then
      if policy == LRU then RemoveAt(frames, IndexOf(frames, page)) + [page] else frames
    else if |frames| < capacity then
      frames + [page]
    else
      RemoveAt(frames, Evicted(policy, frames, future)) + [page]
  }

  /** The result of a full fault: one evicted frame swapped for the page, without duplicates. */
  lemma EvictAndAppend(frames: seq<int>, v: nat, page: int)
    requires v < |frames| && NoDuplicates(frames) && page !in frames
    ensures NoDuplicates(RemoveAt(frames, v) + [page])
    ensures multiset(RemoveAt(frames, v) + [page]) == multiset(frames) - multiset{frames[v]} + multiset{page}
  {
    RemoveAtMultiset(frames, v);
    RemoveAtDistinct(frames, v);
    assert page !in multiset(RemoveAt(frames, v));
    AppendDistinct(RemoveAt(frames, v), page);
  }

  /** An LRU hit keeps the same resident pages, without duplicates. */
  lemma MoveToEnd(frames: seq<int>, page: int)
    requires page in frames && NoDuplicates(frames)
    ensures NoDuplicates(RemoveAt(frames, IndexOf(frames, page)) + [page])
    ensures multiset(RemoveAt(frames, IndexOf(frames, page)) + [page]) == multiset(frames)
  {
    var i := IndexOf(frames, page);
    RemoveAtMultiset(frames, i);
    RemoveAtDistinct(frames, i);
    AppendDistinct(RemoveAt(frames, i), page);
  }

  /**
   * One reference keeps the frames free of duplicates and within capacity,
   * makes the page resident, and changes the resident pages only as the
   * replacement rule says: a hit changes none, a fault with room adds the
   * page, a full fault swaps the evicted frame for the page.
   */
  lemma AccessResidents(policy: Policy, capacity: nat, frames: seq<int>, page: int, future: seq<int>)
    requires capacity > 0 && NoDuplicates(frames) && |frames| <= capacity
    ensures var r := Access(policy, capacity, frames, page, future);
      && NoDuplicates(r) && |r| <= capacity && page in r
      && (page in frames ==> multiset(r) == multiset(frames))
      && (page !in frames && |frames| < capacity ==> multiset(r) == multiset(frames) + multiset{page})
      && (page !in frames && |frames| == capacity ==>
            multiset(r) == multiset(frames) - multiset{frames[Evicted(policy, frames, future)]} + multiset{page})
  {
    if page in frames {
      if policy == LRU {
        MoveToEnd(frames, page);
      }
    } else if |frames| < capacity {
      AppendDistinct(frames, page);
    } else {
      EvictAndAppend(frames, Evicted(policy, frames, future), page);
    }
  }

  lemma AppendDistinct(s: seq<int>, x: int)
    requires NoDuplicates(s) && x !in s
    ensures NoDuplicates(s + [x])
  {
  }

  // ---------------------------------------------------------------------
  // The replay

  /** The frames after the first `k` references of `refs`, starting from no resident page. */
  function FramesAfter(refs: seq<int>, capacity: nat, policy: Policy, k: nat): seq<int>
    requires capacity > 0 && k <= |refs|
  {
    if k == 0 then []
    else Access(policy, capacity, FramesAfter(refs, capacity, policy, k - 1), refs[k - 1], refs[k..])
  }

  /**
   * The history of the first `k` references: one entry per reference,
   * holding the page, the frames after it, and a fault flag that is set
   * exactly when the page was not resident before the reference.
   */
  function Replay(refs: seq<int>, capacity: nat, policy: Policy, k: nat): (h: seq<Step>)
    requires capacity > 0 && k <= |refs|
    ensures |h| == k
    ensures forall i {:trigger h[i]} :: 0 <= i < k ==>
      h[i] == Step(refs[i], FramesAfter(refs, capacity, policy, i + 1), refs[i] !in FramesAfter(refs, capacity, policy, i))
  {
    if k == 0 then []
    else
      Replay(refs, capacity, policy, k - 1)
        + [Step(refs[k - 1], FramesAfter(refs, capacity, policy, k), refs[k - 1] !in FramesAfter(refs, capacity, policy, k - 1))]
  }

  /** The number of history entries flagged as faults; never more than the number of entries. */
  function CountFaults(h: seq<Step>): (n: nat)
    ensures n <= |h|
  {
    if |h| == 0 then 0
    else CountFaults(h[..|h| - 1]) + (if h[|h| - 1].fault then 1 else 0)
  }

  /** The frames hold no duplicates, fit in `capacity`, and hold only pages referenced in `past`. */
  predicate Resident(frames: seq<int>, capacity: nat, past: seq<int>) {
    && NoDuplicates(frames) && |frames| <= capacity
    && forall x :: x in frames ==> x in past
  }

  /** One reference keeps the frames resident and makes the page resident. */
  lemma AccessKeepsResident(policy: Policy, capacity: nat, frames: seq<int>, page: int, future: seq<int>, past: seq<int>)
    requires capacity > 0 && Resident(frames, capacity, past)
    ensures Resident(Access(policy, capacity, frames, page, future), capacity, past + [page])
    ensures page in Access(policy, capacity, frames, page, future)
  {
    var r := Access(policy, capacity, frames, page, future);
    AccessResidents(policy, capacity, frames, page, future);
    forall x | x in r
      ensures x in past + [page]
    {
      assert x in multiset(r);
      if x != page {
        assert x in multiset(frames);
      }
    }
  }

  lemma PrefixAppend(refs: seq<int>, k: nat)
    requires 0 < k <= |refs|
    ensures refs[..k] == refs[..k - 1] + [refs[k - 1]]
  {
  }

  /**
   * After any number of references the frames hold no duplicates, never
   * exceed the capacity, hold only pages that have been referenced, and
   * hold the page just referenced.
   */
  lemma {:induction false} FramesInvariant(refs: seq<int>, capacity: nat, policy: Policy, k: nat)
    requires capacity > 0 && k <= |refs|
    ensures Resident(FramesAfter(refs, capacity, policy, k), capacity, refs[..k])
    ensures k > 0 ==> refs[k - 1] in FramesAfter(refs, capacity, policy, k)
  {
    if k > 0 {
      FramesInvariant(refs, capacity, policy, k - 1);
      PrefixAppend(refs, k);
      AccessKeepsResident(policy, capacity, FramesAfter(refs, capacity, policy, k - 1), refs[k - 1], refs[k..], refs[..k - 1]);
    }
  }

  /**
   * The history lists the references in order, and an entry is a fault
   * exactly when its page was absent from the frames of the entry before
   * (the first reference always faults).
   */
  predicate FaultsMarked(h: seq<Step>, refs: seq<int>) {
    && |h| == |refs|
    && forall i :: 0 <= i < |h| ==>
         && h[i].page == refs[i]
         && (h[i].fault <==> i == 0 || refs[i] !in h[i - 1].frames)
  }

  /** Every entry's frames hold no duplicates, fit in `capacity` and hold the entry's page. */
  predicate FramesBounded(h: seq<Step>, capacity: nat) {
    forall i :: 0 <= i < |h| ==>
      NoDuplicates(h[i].frames) && |h[i].frames| <= capacity && h[i].page in h[i].frames
  }

  lemma ReplayFaultsMarked(refs: seq<int>, capacity: nat, policy: Policy)
    requires capacity > 0
    ensures FaultsMarked(Replay(refs, capacity, policy, |refs|), refs)
  {
    var h := Replay(refs, capacity, policy, |refs|);
    forall i | 0 <= i < |refs|
      ensures h[i].page == refs[i]
      ensures h[i].fault <==> i == 0 || refs[i] !in h[i - 1].frames
    {
      if i > 0 {
        assert h[i - 1].frames == FramesAfter(refs, capacity, policy, i);
      }
    }
  }

  lemma ReplayFramesBounded(refs: seq<int>, capacity: nat, policy: Policy)
    requires capacity > 0
    ensures FramesBounded(Replay(refs, capacity, policy, |refs|), capacity)
  {
    var h := Replay(refs, capacity, policy, |refs|);
    forall i | 0 <= i < |refs|
      ensures NoDuplicates(h[i].frames) && |h[i].frames| <= capacity && h[i].page in h[i].frames
    {
      EntryBounded(refs, capacity, policy, i);
    }
  }

  lemma EntryBounded(refs: seq<int>, capacity: nat, policy: Policy, i: nat)
    requires capacity > 0 && i < |refs|
    ensures var e := Replay(refs, capacity, policy, |refs|)[i];
      NoDuplicates(e.frames) && |e.frames| <= capacity && e.page in e.frames
  {
    FramesInvariant(refs, capacity, policy, i + 1);
  }

  /**
   * Updates the frames for one reference to `page`, with `future` the
   * references after it, and reports whether the page faulted.
   */
  method Refer(policy: Policy, numFrames: int, frames: seq<int>, page: int, future: seq<int>)
    returns (frames': seq<int>, fault: bool)
    requires numFrames > 0
    ensures frames' == Access(policy, numFrames, frames, page, future)
    ensures fault <==> page !in frames
  {
    frames' := frames;
    fault := false;
    if page in frames {
      if policy == LRU {
        frames' := RemoveAt(frames', IndexOf(frames', page)) + [page];
      }
    } else {
      fault := true;
      if |frames'| < numFrames {
        frames' := frames' + [page];
      } else {
        match policy {
          case FIFO =>
            assert frames'[1..] == RemoveAt(frames', 0);
            frames' := frames'[1..];
          case LRU =>
            assert frames'[1..] == RemoveAt(frames', 0);
            frames' := frames'[1..];
          case Optimal =>
            frames' := RemoveAt(frames', OptimalVictim(frames', future));
        }
        frames' := frames' + [page];
      }
    }
  }

  /**
   * The replacement rules, reference by reference: a hit leaves the frames
   * alone under FIFO and Optimal and moves the page to the end under LRU;
   * a fault with a frame to spare appends the page; a full fault under FIFO
   * or LRU drops the frame at the front, and under Optimal drops the first
   * resident whose next reference is furthest away, before appending.
   */
  lemma ReplacementRules(refs: seq<int>, capacity: nat, policy: Policy, k: nat)
    requires capacity > 0 && k < |refs|
    ensures var frames, page, next := FramesAfter(refs, capacity, policy, k), refs[k], FramesAfter(refs, capacity, policy, k + 1);
      && (page in frames && policy != LRU ==> next == frames)
      && (page in frames && policy == LRU ==>
            && |next| == |frames| && next[|next| - 1] == page
            && multiset(next) == multiset(frames)
            && next[..|next| - 1] == RemoveAt(frames, IndexOf(frames, page)))
      && (page !in frames && |frames| < capacity ==> next == frames + [page])
      && (page !in frames && |frames| == capacity && policy != Optimal ==>
            next == frames[1..] + [page] && frames[0] !in next)
      && (page !in frames && |frames| == capacity && policy == Optimal ==>
            exists v :: 0 <= v < |frames| && next == RemoveAt(frames, v) + [page] && frames[v] !in next
              && (forall j :: 0 <= j < |frames| ==> NextUse(frames[j], refs[k + 1..]) <= NextUse(frames[v], refs[k + 1..]))
              && (forall j :: 0 <= j < v ==> NextUse(frames[j], refs[k + 1..]) < NextUse(frames[v], refs[k + 1..])))
  {
    var frames, page, next := FramesAfter(refs, capacity, policy, k), refs[k], FramesAfter(refs, capacity, policy, k + 1);
    FramesInvariant(refs, capacity, policy, k);
    if page in frames {
      if policy == LRU {
        MoveToEnd(frames, page);
        assert next[..|next| - 1] == RemoveAt(frames, IndexOf(frames, page));
      }
    } else if |frames| == capacity {
      var v := Evicted(policy, frames, refs[k + 1..]);
      RemoveAtDistinct(frames, v);
      if policy != Optimal {
        assert RemoveAt(frames, 0) == frames[1..];
      }
    }
  }

  // ---------------------------------------------------------------------
  // Policies chosen by name

  /** The policy a selector name stands for; any other name stands for none. */
  function PolicyNamed(name: string): (p: Option<Policy>)
    ensures p == Some(FIFO) <==> name == "FIFO"
    ensures p == Some(LRU) <==> name == "LRU"
    ensures p == Some(Optimal) <==> name == "Optimal"
  {
    if name == "FIFO" then Some(FIFO)
    else if name == "LRU" then Some(LRU)
    else if name == "Optimal" then Some(Optimal)
    else None
  }

  /**
   * One reference with the policy given by its selector name, branch for
   * branch as the replacer tests the name: on a full fault a name that is
   * none of the three evicts nothing and still appends the page.
   */
  function AccessByName(name: string, capacity: nat, frames: seq<int>, page: int, future: seq<int>): seq<int>
    requires capacity > 0
  {
    if page in frames then
      if name == "LRU" then RemoveAt(frames, IndexOf(frames, page)) + [page] else frames
    else if |frames| < capacity then
      frames + [page]
    else if name == "FIFO" || name == "LRU" then
      frames[1..] + [page]
    else if name == "Optimal" then
      RemoveAt(frames, OptimalVictim(frames, future)) + [page]
    else
      frames + [page]
  }

  /** For the three names the selector offers, the named step is the policy's step. */
  lemma AccessByNameAgrees(name: string, capacity: nat, frames: seq<int>, page: int, future: seq<int>)
    requires capacity > 0 && PolicyNamed(name).Some?
    ensures AccessByName(name, capacity, frames, page, future)
         == Access(PolicyNamed(name).value, capacity, frames, page, future)
  {
    if page !in frames && |frames| >= capacity && name != "Optimal" {
      assert frames[1..] == RemoveAt(frames, 0);
    }
  }

  /**
   * A name outside the three, such as "fifo" typed into the selector, lets
   * a single frame hold two pages after one full fault.
   */
  lemma UnknownNameOverflows()
    ensures PolicyNamed("fifo").None?
    ensures AccessByName("fifo", 1, [7], 0, []) == [7, 0]
    ensures |AccessByName("fifo", 1, [7], 0, [])| > 1
  {
  }

  // ---------------------------------------------------------------------
  // A single frame

  /** With one frame, the frame holds the page just referenced, whatever the policy. */
  lemma {:induction false} SingleFrameHoldsLast(refs: seq<int>, policy: Policy, k: nat)
    requires 0 < k <= |refs|
    ensures FramesAfter(refs, 1, policy, k) == [refs[k - 1]]
  {
    if k > 1 {
      SingleFrameHoldsLast(refs, policy, k - 1);
      var frames := FramesAfter(refs, 1, policy, k - 1);
      if refs[k - 1] in frames {
        assert refs[k - 1] == refs[k - 2];
      } else {
        assert RemoveAt(frames, Evicted(policy, frames, refs[k..])) == [];
      }
    }
  }

  /** With one frame, reference `i` leaves the same frames and the same fault flag under any policy. */
  lemma SingleFramePolicies(refs: seq<int>, policy: Policy, i: nat)
    requires i < |refs|
    ensures FramesAfter(refs, 1, policy, i + 1) == FramesAfter(refs, 1, FIFO, i + 1) == [refs[i]]
    ensures FramesAfter(refs, 1, policy, i) == FramesAfter(refs, 1, FIFO, i)
    ensures refs[i] !in FramesAfter(refs, 1, policy, i) <==> i == 0 || refs[i] != refs[i - 1]
  {
    SingleFrameHoldsLast(refs, policy, i + 1);
    SingleFrameHoldsLast(refs, FIFO, i + 1);
    if i > 0 {
      SingleFrameHoldsLast(refs, policy, i);
      SingleFrameHoldsLast(refs, FIFO, i);
    }
  }

  /**
   * With one frame the three policies record the same history, and a
   * reference faults exactly when it differs from the reference before it.
   */
  lemma SingleFrame(refs: seq<int>, policy: Policy)
    ensures Replay(refs, 1, policy, |refs|) == Replay(refs, 1, FIFO, |refs|)
    ensures var h := Replay(refs, 1, policy, |refs|);
      forall i :: 0 <= i < |refs| ==> (h[i].fault <==> i == 0 || refs[i] != refs[i - 1])
  {
    var h := Replay(refs, 1, policy, |refs|);
    var g := Replay(refs, 1, FIFO, |refs|);
    forall i | 0 <= i < |refs|
      ensures h[i] == g[i]
      ensures h[i].fault <==> i == 0 || refs[i] != refs[i - 1]
    {
      SingleFramePolicies(refs, policy, i);
    }
  }

  // ---------------------------------------------------------------------
  // LRU keeps the frames in order of last use

  /** Position of the last occurrence of `x` in `s`. */
  function LastUse(s: seq<int>, x: int): (i: nat)
    requires x in s
    ensures i < |s| && s[i] == x
    ensures forall j :: i < j < |s| ==> s[j] != x
  {
    if s[|s| - 1] == x then |s| - 1 else LastUse(s[..|s| - 1], x)
  }

  /** Every frame has been referenced in `past`, and frames further back were used less recently. */
  predicate RecencyOrdered(frames: seq<int>, past: seq<int>) {
    && (forall x :: x in frames ==> x in past)
    && forall i, j :: 0 <= i < j < |frames| ==> LastUse(past, frames[i]) < LastUse(past, frames[j])
  }

  lemma RecencyRemove(frames: seq<int>, past: seq<int>, v: nat)
    requires v < |frames| && RecencyOrdered(frames, past)
    ensures RecencyOrdered(RemoveAt(frames, v), past)
  {
    var r := RemoveAt(frames, v);
    forall x | x in r
      ensures x in past
    {
      var j :| 0 <= j < |r| && r[j] == x;
      assert x == frames[if j < v then j else j + 1];
    }
    forall i, j | 0 <= i < j < |r|
      ensures LastUse(past, r[i]) < LastUse(past, r[j])
    {
      var i' := if i < v then i else i + 1;
      var j' := if j < v then j else j + 1;
      assert r[i] == frames[i'] && r[j] == frames[j'] && i' < j';
    }
  }

  lemma RecencyAppend(frames: seq<int>, past: seq<int>, page: int)
    requires RecencyOrdered(frames, past) && page !in frames
    ensures RecencyOrdered(frames + [page], past + [page])
  {
    var past' := past + [page];
    assert past'[..|past|] == past;
    forall x | x in frames
      ensures LastUse(past', x) == LastUse(past, x) < |past|
    {
    }
    assert LastUse(past', page) == |past|;
  }

  /** One LRU reference keeps the frames in order of last use, the page now last used. */
  lemma LRUStep(capacity: nat, frames: seq<int>, page: int, future: seq<int>, past: seq<int>)
    requires capacity > 0 && NoDuplicates(frames) && |frames| <= capacity && RecencyOrdered(frames, past)
    ensures RecencyOrdered(Access(LRU, capacity, frames, page, future), past + [page])
  {
    if page in frames {
      var i := IndexOf(frames, page);
      RemoveAtDistinct(frames, i);
      RecencyRemove(frames, past, i);
      RecencyAppend(RemoveAt(frames, i), past, page);
    } else if |frames| < capacity {
      RecencyAppend(frames, past, page);
    } else {
      RemoveAtMultiset(frames, 0);
      assert page !in multiset(RemoveAt(frames, 0));
      RecencyRemove(frames, past, 0);
      RecencyAppend(RemoveAt(frames, 0), past, page);
    }
  }

  /**
   * Under LRU the frames are listed from least to most recently used:
   * each has been referenced, and each was last referenced before every
   * frame after it.
   */
  lemma {:induction false} LRURecency(refs: seq<int>, capacity: nat, k: nat)
    requires capacity > 0 && k <= |refs|
    ensures RecencyOrdered(FramesAfter(refs, capacity, LRU, k), refs[..k])
  {
    if k > 0 {
      LRURecency(refs, capacity, k - 1);
      FramesInvariant(refs, capacity, LRU, k - 1);
      PrefixAppend(refs, k);
      LRUStep(capacity, FramesAfter(refs, capacity, LRU, k - 1), refs[k - 1], refs[k..], refs[..k - 1]);
    }
  }

  /**
   * When all frames are in use and LRU faults, the frame it evicts is the
   * one used least recently, and it is no longer resident afterwards.
   */
  lemma LRUEvictsLeastRecent(refs: seq<int>, capacity: nat, k: nat)
    requires capacity > 0 && k < |refs|
    requires refs[k] !in FramesAfter(refs, capacity, LRU, k)
    requires |FramesAfter(refs, capacity, LRU, k)| == capacity
    ensures var frames := FramesAfter(refs, capacity, LRU, k);
      && (forall x :: x in frames ==> x in refs[..k])
      && (forall x :: x in frames && x != frames[0] ==> LastUse(refs[..k], frames[0]) < LastUse(refs[..k], x))
      && frames[0] !in FramesAfter(refs, capacity, LRU, k + 1)
  {
    var frames := FramesAfter(refs, capacity, LRU, k);
    LRURecency(refs, capacity, k);
    FramesInvariant(refs, capacity, LRU, k);
    forall x | x in frames && x != frames[0]
      ensures LastUse(refs[..k], frames[0]) < LastUse(refs[..k], x)
    {
      var j :| 0 <= j < |frames| && frames[j] == x;
    }
    RemoveAtDistinct(frames, 0);
  }

  // ---------------------------------------------------------------------
  // FIFO keeps the frames in order of loading

  /**
   * Under FIFO, the index of the reference among the first `k` whose
   * fault last loaded `x`, or -1 when none did. Hits on `x` since then
   * do not change it.
   */
  function LoadTime(refs: seq<int>, capacity: nat, k: nat, x: int): (t: int)
    requires capacity > 0 && k <= |refs|
    ensures -1 <= t < k
    ensures t >= 0 ==> refs[t] == x && x !in FramesAfter(refs, capacity, FIFO, t)
  {
    if k == 0 then -1
    else if refs[k - 1] == x && x !in FramesAfter(refs, capacity, FIFO, k - 1) then k - 1
    else LoadTime(refs, capacity, k - 1, x)
  }

  /** No reference after the load time faulted on `x`: later references to it were hits. */
  lemma {:induction false} LoadTimeIsLast(refs: seq<int>, capacity: nat, k: nat, x: int)
    requires capacity > 0 && k <= |refs|
    ensures forall i :: LoadTime(refs, capacity, k, x) < i < k && refs[i] == x ==> x in FramesAfter(refs, capacity, FIFO, i)
  {
    if k > 0 {
      LoadTimeIsLast(refs, capacity, k - 1, x);
    }
  }

  /** Every frame has been loaded, and frames further back were loaded earlier. */
  predicate LoadOrdered(frames: seq<int>, refs: seq<int>, capacity: nat, k: nat)
    requires capacity > 0 && k <= |refs|
  {
    && (forall x :: x in frames ==> LoadTime(refs, capacity, k, x) >= 0)
    && forall i, j :: 0 <= i < j < |frames| ==> LoadTime(refs, capacity, k, frames[i]) < LoadTime(refs, capacity, k, frames[j])
  }

  /** A reference leaves the load time of every page resident before it unchanged. */
  lemma LoadTimeKept(refs: seq<int>, capacity: nat, k: nat, x: int)
    requires capacity > 0 && 0 < k <= |refs| && x in FramesAfter(refs, capacity, FIFO, k - 1)
    ensures LoadTime(refs, capacity, k, x) == LoadTime(refs, capacity, k - 1, x)
  {
  }

  /** A FIFO fault keeps the frames after the evicted one, if any, and appends the page. */
  lemma FIFOFaultFrames(refs: seq<int>, capacity: nat, k: nat)
    requires capacity > 0 && 0 < k <= |refs|
    requires refs[k - 1] !in FramesAfter(refs, capacity, FIFO, k - 1)
    ensures var frames := FramesAfter(refs, capacity, FIFO, k - 1);
      FramesAfter(refs, capacity, FIFO, k) == frames[(if |frames| < capacity then 0 else 1)..] + [refs[k - 1]]
  {
  }

  /** After a FIFO fault the kept frames keep their load times, and the page is loaded now. */
  lemma FIFOFaultTimes(refs: seq<int>, capacity: nat, k: nat, d: nat)
    requires capacity > 0 && 0 < k <= |refs|
    requires refs[k - 1] !in FramesAfter(refs, capacity, FIFO, k - 1)
    requires d <= |FramesAfter(refs, capacity, FIFO, k - 1)|
    requires FramesAfter(refs, capacity, FIFO, k) == FramesAfter(refs, capacity, FIFO, k - 1)[d..] + [refs[k - 1]]
    ensures LoadTime(refs, capacity, k, refs[k - 1]) == k - 1
    ensures forall i :: 0 <= i < |FramesAfter(refs, capacity, FIFO, k)| - 1 ==>
      LoadTime(refs, capacity, k, FramesAfter(refs, capacity, FIFO, k)[i])
        == LoadTime(refs, capacity, k - 1, FramesAfter(refs, capacity, FIFO, k - 1)[i + d])
  {
    var frames := FramesAfter(refs, capacity, FIFO, k - 1);
    var frames' := FramesAfter(refs, capacity, FIFO, k);
    forall i | 0 <= i < |frames'| - 1
      ensures LoadTime(refs, capacity, k, frames'[i]) == LoadTime(refs, capacity, k - 1, frames[i + d])
    {
      assert frames'[i] == frames[i + d];
      LoadTimeKept(refs, capacity, k, frames[i + d]);
    }
  }

  /** A FIFO fault appends the page it loads after the frames it keeps, which were loaded earlier. */
  lemma FIFOFaultStep(refs: seq<int>, capacity: nat, k: nat)
    requires capacity > 0 && 0 < k <= |refs|
    requires refs[k - 1] !in FramesAfter(refs, capacity, FIFO, k - 1)
    requires LoadOrdered(FramesAfter(refs, capacity, FIFO, k - 1), refs, capacity, k - 1)
    ensures LoadOrdered(FramesAfter(refs, capacity, FIFO, k), refs, capacity, k)
  {
    var frames := FramesAfter(refs, capacity, FIFO, k - 1);
    var frames' := FramesAfter(refs, capacity, FIFO, k);
    var d := if |frames| < capacity then 0 else 1;
    FIFOFaultFrames(refs, capacity, k);
    FIFOFaultTimes(refs, capacity, k, d);
    var last := |frames'| - 1;
    forall i | 0 <= i < |frames'|
      ensures LoadTime(refs, capacity, k, frames'[i]) >= 0
      ensures i < last ==> LoadTime(refs, capacity, k, frames'[i]) < k - 1
    {
      if i < last { assert frames[i + d] in frames; }
    }
    forall x | x in frames'
      ensures LoadTime(refs, capacity, k, x) >= 0
    {
      var j :| 0 <= j < |frames'| && frames'[j] == x;
    }
  }

  /**
   * Under FIFO the frames are listed from the earliest loaded to the
   * latest: each was loaded by a fault, and each was loaded before every
   * frame after it.
   */
  lemma {:induction false} FIFOLoadOrdered(refs: seq<int>, capacity: nat, k: nat)
    requires capacity > 0 && k <= |refs|
    ensures LoadOrdered(FramesAfter(refs, capacity, FIFO, k), refs, capacity, k)
  {
    if k > 0 {
      FIFOLoadOrdered(refs, capacity, k - 1);
      var frames := FramesAfter(refs, capacity, FIFO, k - 1);
      if refs[k - 1] in frames {
        // a hit: the frames and their load times stay as they were
        forall x | x in frames
          ensures LoadTime(refs, capacity, k, x) == LoadTime(refs, capacity, k - 1, x)
        {
          LoadTimeKept(refs, capacity, k, x);
        }
      } else {
        FIFOFaultStep(refs, capacity, k);
      }
    }
  }

  /**
   * When all frames are in use and FIFO faults, the frame it evicts is the
   * one loaded earliest, and it is no longer resident afterwards.
   */
  lemma FIFOEvictsOldest(refs: seq<int>, capacity: nat, k: nat)
    requires capacity > 0 && k < |refs|
    requires refs[k] !in FramesAfter(refs, capacity, FIFO, k)
    requires |FramesAfter(refs, capacity, FIFO, k)| == capacity
    ensures var frames := FramesAfter(refs, capacity, FIFO, k);
      && (forall x :: x in frames ==> LoadTime(refs, capacity, k, x) >= 0)
      && (forall x :: x in frames && x != frames[0] ==> LoadTime(refs, capacity, k, frames[0]) < LoadTime(refs, capacity, k, x))
      && frames[0] !in FramesAfter(refs, capacity, FIFO, k + 1)
  {
    var frames := FramesAfter(refs, capacity, FIFO, k);
    FIFOLoadOrdered(refs, capacity, k);
    FramesInvariant(refs, capacity, FIFO, k);
    forall x | x in frames && x != frames[0]
      ensures LoadTime(refs, capacity, k, frames[0]) < LoadTime(refs, capacity, k, x)
    {
      var j :| 0 <= j < |frames| && frames[j] == x;
    }
    RemoveAtDistinct(frames, 0);
  }

  /** Replaying one more reference appends its entry and counts it if it faulted. */
  lemma ReplayNext(refs: seq<int>, capacity: nat, policy: Policy, i: nat, s: Step)
    requires capacity > 0 && i < |refs|
    requires s == Step(refs[i], FramesAfter(refs, capacity, policy, i + 1), refs[i] !in FramesAfter(refs, capacity, policy, i))
    ensures Replay(refs, capacity, policy, i + 1) == Replay(refs, capacity, policy, i) + [s]
    ensures CountFaults(Replay(refs, capacity, policy, i) + [s])
         == CountFaults(Replay(refs, capacity, policy, i)) + (if s.fault then 1 else 0)
  {
    var h := Replay(refs, capacity, policy, i);
    assert (h + [s])[..i] == h;
  }

  /**
   * Replays `refs` against `numFrames` frames under `policy`, recording
   * every reference and counting the faults.
   */
  method SimulatePaging(refs: seq<int>, numFrames: int, policy: Policy) returns (r: PagingResult)
    requires numFrames > 0
    ensures r.history == Replay(refs, numFrames, policy, |refs|)
    ensures r.totalFaults == CountFaults(r.history) <= |refs|
    ensures FaultsMarked(r.history, refs)
    ensures FramesBounded(r.history, numFrames)
  {
    var frames: seq<int> := [];
    var history: seq<Step> := [];
    var faults: nat := 0;
    for i := 0 to |refs|
      invariant history == Replay(refs, numFrames, policy, i)
      invariant frames == FramesAfter(refs, numFrames, policy, i)
      invariant faults == CountFaults(history)
    {
      var page := refs[i];
      var fault;
      frames, fault := Refer(policy, numFrames, frames, page, refs[i + 1..]);
      if fault {
        faults := faults + 1;
      }
      ReplayNext(refs, numFrames, policy, i, Step(page, frames, fault));
      history := history + [Step(page, frames, fault)];
    }
    ReplayFaultsMarked(refs, numFrames, policy);
    ReplayFramesBounded(refs, numFrames, policy);
    r := PagingResult(history, faults);
  }

  /** Rejects a non-positive frame count, and otherwise replays the reference string. */
  method RunPaging(refs: seq<int>, numFrames: int, policy: Policy) returns (r: Result<PagingResult, PagingError>)
    ensures r.Failure? <==> numFrames <= 0
    ensures r.Failure? ==> r.error == FramesNotPositive
    ensures r.Success? ==>
      && r.value.history == Replay(refs, numFrames, policy, |refs|)
      && r.value.totalFaults == CountFaults(r.value.history) <= |refs|
  {
    if numFrames <= 0 {
      return Failure(FramesNotPositive);
    }
    var result := SimulatePaging(refs, numFrames, policy);
    return Success(result);
  }
}
