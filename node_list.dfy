/**
 * The list surgery of the allocator as functions on the node sequence: the
 * split that follows an allocation (with its address renumbering), the
 * coalescing that follows a release, the swap of a hole past the process after
 * it, the compaction pass, and the selection rules of the three placement
 * strategies. The methods of `MemoryManager.Memory` are proved against these.
 */
module NodeList {
  import opened Nodes

  // ---------------------------------------------------------------- selection

  predicate AnyFits(s: seq<Node>, space: int) {
    exists j :: 0 <= j < |s| && Fits(s[j], space)
  }

  /** `i` is the first hole in list order that can take `space` bytes. */
  predicate IsFirstFit(s: seq<Node>, space: int, i: int) {
    0 <= i < |s| && Fits(s[i], space) &&
    forall j :: 0 <= j < i ==> !Fits(s[j], space)
  }

  /** `i` is the first of the smallest holes that can take `space` bytes. */
  predicate IsBestFit(s: seq<Node>, space: int, i: int) {
    0 <= i < |s| && Fits(s[i], space) &&
    (forall j :: 0 <= j < |s| && Fits(s[j], space) ==> s[i].availableSpace <= s[j].availableSpace) &&
    (forall j :: 0 <= j < i && Fits(s[j], space) ==> s[j].availableSpace != s[i].availableSpace)
  }

  /** `i` is the first of the largest holes that can take `space` bytes. */
  predicate IsWorstFit(s: seq<Node>, space: int, i: int) {
    0 <= i < |s| && Fits(s[i], space) &&
    (forall j :: 0 <= j < |s| && Fits(s[j], space) ==> s[i].availableSpace >= s[j].availableSpace) &&
    (forall j :: 0 <= j < i && Fits(s[j], space) ==> s[j].availableSpace != s[i].availableSpace)
  }

  /** The strategy codes `request_memory` accepts. */
  predicate IsStrategy(algo: string) {
    algo == "W" || algo == "B" || algo == "F"
  }

  /** `i` is the node the strategy named by `algo` chooses (first fit for "F"). */
  predicate Selects(algo: string, s: seq<Node>, space: int, i: int) {
    if algo == "W" then IsWorstFit(s, space, i)
    else if algo == "B" then IsBestFit(s, space, i)
    else IsFirstFit(s, space, i)
  }

  /** `i` is the first node labelled `pid`: where `find_process` stops. */
  predicate IsFirstOf(s: seq<Node>, pid: string, i: int) {
    0 <= i < |s| && s[i].processId == pid &&
    forall j :: 0 <= j < i ==> s[j].processId != pid
  }

  /** Each selection rule names at most one node. */
  lemma {:induction false} SelectionIsUnique(s: seq<Node>, space: int, i: int, k: int)
    ensures IsFirstFit(s, space, i) && IsFirstFit(s, space, k) ==> i == k
    ensures IsBestFit(s, space, i) && IsBestFit(s, space, k) ==> i == k
    ensures IsWorstFit(s, space, i) && IsWorstFit(s, space, k) ==> i == k
  {
  }

  // ------------------------------------------------------- split and renumber

  function Clipped(address: int, last: int): int {
    if address > last then last else address
  }

  /** `n` moved to start just after `previousEnd`, spanning its own size. */
  function Shifted(n: Node, previousEnd: int): Node {
    n.(startAddress := previousEnd + 1, endAddress := previousEnd + 1 + n.availableSpace)
  }

  /** The renumbering walk of `create_node`, from position `k` to the end of the list. */
  function Renumbered(t: seq<Node>, k: nat): (r: seq<Node>)
    requires 1 <= k < |t|
    ensures |r| == |t|
    decreases |t| - k
  {
    if k == |t| - 1 then t[k := t[k].(startAddress := t[k - 1].endAddress + 1)]
    else Renumbered(t[k := Shifted(t[k], t[k - 1].endAddress)], k + 1)
  }

  /**
   * Renumbering changes addresses only: every node from `k` on but the last
   * starts one past its predecessor's end and ends its own size later; the last
   * node gets the new start and keeps its end.
   */
  lemma {:induction false} RenumberedFacts(t: seq<Node>, k: nat)
    requires 1 <= k < |t|
    decreases |t| - k
    ensures var r := Renumbered(t, k);
      && SameShape(r, t)
      && r[..k] == t[..k]
      && (forall j :: k <= j < |t| - 1 ==> r[j] == Shifted(t[j], r[j - 1].endAddress))
      && r[|t| - 1] == t[|t| - 1].(startAddress := r[|t| - 2].endAddress + 1)
  {
    if k < |t| - 1 {
      var t' := t[k := Shifted(t[k], t[k - 1].endAddress)];
      RenumberedFacts(t', k + 1);
      var r := Renumbered(t', k + 1);
      assert r[k] == r[..k + 1][k] == t'[k];
      assert r[k - 1] == r[..k + 1][k - 1] == t[k - 1];
      assert r[..k] == r[..k + 1][..k];
    }
  }

  /**
   * `create_node`: node `i` keeps `space` bytes and a new hole of `leftOver`
   * bytes follows it, starting one past its end and clipped to `last`; the
   * nodes after are renumbered when the hole's end meets the next start.
   */
  function SplitOff(s: seq<Node>, i: nat, space: int, leftOver: int, last: int): (r: seq<Node>)
    requires i < |s|
    ensures |r| == |s| + 1
  {
    var kept := s[i].(availableSpace := space);
    var start := kept.endAddress + 1;
    var hole := Node(Unused, leftOver, start, Clipped(start + leftOver, last));
    var t := s[..i] + [kept, hole] + s[i + 1..];
    if i + 2 < |t| && hole.endAddress == t[i + 2].startAddress then Renumbered(t, i + 2) else t
  }

  /** An allocation of `space` bytes to `pid` in node `i`, as every strategy performs it. */
  function Placed(s: seq<Node>, i: nat, pid: string, space: int, last: int): (r: seq<Node>)
    requires i < |s|
    ensures |r| == if s[i].availableSpace > space then |s| + 1 else |s|
  {
    var taken := s[i].(processId := pid, endAddress := s[i].startAddress + space);
    var leftOver := s[i].availableSpace - space;
    if leftOver > 0 then SplitOff(s[i := taken], i, space, leftOver, last) else s[i := taken]
  }

  /**
   * The shape of an allocation of `space` bytes to `pid` in node `i`: the
   * nodes before `i` are untouched; node `i` keeps its start, gets the owner,
   * the size and the end `start + space`; a hole of the leftover follows it
   * exactly when the leftover is positive, starting one past the allocation's
   * end and clipped to `last`; the nodes after keep their owners and sizes.
   */
  ghost predicate IsPlacement(s: seq<Node>, i: nat, pid: string, space: int, last: int, r: seq<Node>)
    requires i < |s|
  {
    var leftOver := s[i].availableSpace - space;
    var extra := if leftOver > 0 then 1 else 0;
    && |r| == |s| + extra
    && r[..i] == s[..i]
    && r[i] == Node(pid, space, s[i].startAddress, s[i].startAddress + space)
    && (leftOver > 0 ==>
          r[i + 1] == Node(Unused, leftOver, r[i].endAddress + 1, Clipped(r[i].endAddress + 1 + leftOver, last)))
    && SameShape(r[i + 1 + extra..], s[i + 1..])
  }

  lemma {:induction false} PlacedFacts(s: seq<Node>, i: nat, pid: string, space: int, last: int)
    requires i < |s| && Fits(s[i], space)
    ensures IsPlacement(s, i, pid, space, last, Placed(s, i, pid, space, last))
  {
    var taken := s[i].(processId := pid, endAddress := s[i].startAddress + space);
    var leftOver := s[i].availableSpace - space;
    var r := Placed(s, i, pid, space, last);
    if leftOver > 0 {
      var u := s[i := taken];
      var kept := u[i].(availableSpace := space);
      var start := kept.endAddress + 1;
      var hole := Node(Unused, leftOver, start, Clipped(start + leftOver, last));
      var t := u[..i] + [kept, hole] + u[i + 1..];
      assert u[..i] == s[..i] && u[i + 1..] == s[i + 1..];
      assert t[i + 2..] == s[i + 1..];
      if i + 2 < |t| && hole.endAddress == t[i + 2].startAddress {
        RenumberedFacts(t, i + 2);
        assert r[..i] == r[..i + 2][..i] == t[..i];
        assert r[i] == r[..i + 2][i] == t[i];
        assert r[i + 1] == r[..i + 2][i + 1] == t[i + 1];
        assert SameShape(r[i + 2..], t[i + 2..]);
      }
    } else {
      assert r[i + 1..] == s[i + 1..];
    }
  }

  /** After the allocated node: the leftover hole, if any, then nodes of the old shape. */
  lemma {:induction false} PlacementTail(s: seq<Node>, i: nat, pid: string, space: int, last: int, r: seq<Node>)
    requires i < |s| && Fits(s[i], space)
    requires IsPlacement(s, i, pid, space, last, r)
    ensures FreeSum(r[i + 1..]) == FreeSum(s[i + 1..]) + (s[i].availableSpace - space)
    ensures SizeSum(r[i + 1..]) == SizeSum(s[i + 1..]) + (s[i].availableSpace - space)
    ensures Allocations(r[i + 1..]) == Allocations(s[i + 1..])
  {
    var extra := if s[i].availableSpace - space > 0 then 1 else 0;
    var rest := r[i + 1 + extra..];
    SameShapeFree(rest, s[i + 1..]);
    SameShapeSize(rest, s[i + 1..]);
    SameShapeAllocations(rest, s[i + 1..]);
    if extra == 1 {
      assert r[i + 1..] == [r[i + 1]] + rest;
      MeasuresCons(r[i + 1], rest);
    } else {
      assert r[i + 1..] == rest;
    }
  }

  /** An allocation takes `space` bytes off the free total and keeps the total size. */
  lemma {:induction false} PlacementSums(s: seq<Node>, i: nat, pid: string, space: int, last: int, r: seq<Node>)
    requires i < |s| && Fits(s[i], space) && pid != Unused
    requires IsPlacement(s, i, pid, space, last, r)
    ensures FreeSum(r) == FreeSum(s) - space
    ensures SizeSum(r) == SizeSum(s)
  {
    PlacementTail(s, i, pid, space, last, r);
    FreeAround(s, i);
    FreeAround(r, i);
    SizeAround(s, i);
    SizeAround(r, i);
  }

  /** An allocation adds `(pid, space)` to the allocations at the chosen position. */
  lemma {:induction false} PlacementAllocations(s: seq<Node>, i: nat, pid: string, space: int, last: int, r: seq<Node>)
    requires i < |s| && Fits(s[i], space) && pid != Unused
    requires IsPlacement(s, i, pid, space, last, r)
    ensures Allocations(s) == Allocations(s[..i]) + Allocations(s[i + 1..])
    ensures Allocations(r) == Allocations(s[..i]) + ([(pid, space)] + Allocations(s[i + 1..]))
  {
    PlacementTail(s, i, pid, space, last, r);
    AllocAround(s, i);
    AllocAround(r, i);
    assert Held(s[i]) + Allocations(s[i + 1..]) == Allocations(s[i + 1..]);
    assert Held(r[i]) == [(pid, space)];
  }

  /** An allocation keeps sizes non-negative and keeps "no two free neighbours". */
  lemma {:induction false} PlacementShape(s: seq<Node>, i: nat, pid: string, space: int, last: int, r: seq<Node>)
    requires i < |s| && Fits(s[i], space) && pid != Unused
    requires IsPlacement(s, i, pid, space, last, r)
    ensures NoAdjacentFree(s) ==> NoAdjacentFree(r)
    ensures NonNegative(s) && space >= 0 ==> NonNegative(r)
  {
    var extra := if s[i].availableSpace - space > 0 then 1 else 0;
    var rest := r[i + 1 + extra..];
    assert forall j :: 0 <= j < i ==> r[j] == r[..i][j] == s[j];
    assert forall j :: i + extra < j < |r| ==> r[j] == rest[j - i - 1 - extra];
    assert forall k :: i + 1 <= k < |s| ==> s[i + 1..][k - i - 1] == s[k];
    if NoAdjacentFree(s) {
      forall j | 0 <= j < |r| - 1 ensures !(IsFree(r[j]) && IsFree(r[j + 1])) {
        if j == i + extra {
          // the node after the hole, or after the allocation, was after a hole
          assert !IsFree(s[i + 1]);
        }
      }
    }
  }

  /** An allocation to a process not yet in the list keeps the list invariant. */
  lemma {:induction false} PlacedWellFormed(s: seq<Node>, i: nat, pid: string, space: int, last: int)
    requires WellFormed(s, last) && i < |s| && Fits(s[i], space)
    requires pid != Unused && space >= 0 && !HasProcess(s, pid)
    ensures WellFormed(Placed(s, i, pid, space, last), last)
    ensures HasProcess(Placed(s, i, pid, space, last), pid)
    ensures FreeSum(Placed(s, i, pid, space, last)) == FreeSum(s) - space
  {
    var r := Placed(s, i, pid, space, last);
    PlacedFacts(s, i, pid, space, last);
    PlacementSums(s, i, pid, space, last, r);
    PlacementAllocations(s, i, pid, space, last, r);
    PlacementShape(s, i, pid, space, last, r);
    HasProcessAllocations(s, pid);
    InsertDistinct(Allocations(s[..i]), Allocations(s[i + 1..]), (pid, space));
    assert r[i].processId == pid;
  }

  /**
   * Whichever strategy chose the node, allocating it to a process not in the
   * list keeps the list invariant. The process is never the free marker:
   * a chosen node is free, so the marker would already be in the list.
   */
  lemma {:induction false} SelectedPlacement(s: seq<Node>, algo: string, i: int, pid: string, space: int, last: int)
    requires WellFormed(s, last) && Selects(algo, s, space, i)
    requires space >= 0 && !HasProcess(s, pid)
    ensures pid != Unused && 0 <= i < |s|
    ensures WellFormed(Placed(s, i, pid, space, last), last)
    ensures HasProcess(Placed(s, i, pid, space, last), pid)
    ensures FreeSum(Placed(s, i, pid, space, last)) == FreeSum(s) - space
  {
    assert 0 <= i < |s| && Fits(s[i], space);
    assert s[i].processId == Unused;
    PlacedWellFormed(s, i, pid, space, last);
  }

  // ----------------------------------------------------------------- coalesce

  /**
   * `merge`: node `i` has just become free; it is joined with a free
   * predecessor, else with a free successor, and, after a join with the
   * predecessor, also with a free successor when there is one. Position 0 has
   * the dummy head before it, which is never free.
   */
  function Coalesced(s: seq<Node>, i: nat): seq<Node>
    requires i < |s|
  {
    if i > 0 && IsFree(s[i - 1]) then
      var grown := s[i - 1].(endAddress := s[i].endAddress,
                             availableSpace := s[i - 1].availableSpace + s[i].availableSpace);
      var t := s[..i - 1] + [grown] + s[i + 1..];
      if i < |t| && IsFree(t[i]) then
        t[..i - 1] +
        [grown.(endAddress := t[i].endAddress, availableSpace := grown.availableSpace + t[i].availableSpace)] +
        t[i + 1..]
      else t
    else if i + 1 < |s| && IsFree(s[i + 1]) then
      s[..i] +
      [s[i + 1].(startAddress := s[i].startAddress, availableSpace := s[i + 1].availableSpace + s[i].availableSpace)] +
      s[i + 2..]
    else s
  }

  datatype Option<T> = None | Some(value: T)

  /**
   * `merge` exactly as written: its third test reads the node after the one
   * it has just merged into the predecessor even when there is none, which is
   * a null dereference in the source (`None` here).
   */
  function CoalescedAsWritten(s: seq<Node>, i: nat): (r: Option<seq<Node>>)
    requires i < |s|
    ensures r.None? <==> i > 0 && IsFree(s[i - 1]) && i == |s| - 1
    ensures r.Some? ==> r.value == Coalesced(s, i)
  {
    if i > 0 && IsFree(s[i - 1]) then
      var grown := s[i - 1].(endAddress := s[i].endAddress,
                             availableSpace := s[i - 1].availableSpace + s[i].availableSpace);
      var t := s[..i - 1] + [grown] + s[i + 1..];
      if i >= |t| then None
      else if IsFree(t[i]) then
        Some(t[..i - 1] +
             [grown.(endAddress := t[i].endAddress, availableSpace := grown.availableSpace + t[i].availableSpace)] +
             t[i + 1..])
      else Some(t)
    else Some(Coalesced(s, i))
  }

  /** First and last position of the run of free nodes that coalescing at `i` joins. */
  function RunLow(s: seq<Node>, i: nat): nat
    requires i < |s|
  {
    if i > 0 && IsFree(s[i - 1]) then i - 1 else i
  }

  function RunHigh(s: seq<Node>, i: nat): nat
    requires i < |s|
  {
    if i + 1 < |s| && IsFree(s[i + 1]) then i + 1 else i
  }

  /** The bytes of that run. */
  function RunSize(s: seq<Node>, i: nat): int
    requires i < |s|
  {
    (if RunLow(s, i) < i then s[i - 1].availableSpace else 0) + s[i].availableSpace +
    (if RunHigh(s, i) > i then s[i + 1].availableSpace else 0)
  }

  /** The node that replaces the run: free, spanning the run, holding all its bytes. */
  function RunNode(s: seq<Node>, i: nat): Node
    requires i < |s|
  {
    Node(Unused, RunSize(s, i), s[RunLow(s, i)].startAddress, s[RunHigh(s, i)].endAddress)
  }

  /**
   * Coalescing at a free node replaces the run of free nodes around it (its
   * free neighbours) by one free node that spans from the first one's start to
   * the last one's end and holds all their bytes.
   */
  lemma {:induction false} CoalescedRun(s: seq<Node>, i: nat)
    requires i < |s| && IsFree(s[i])
    ensures Coalesced(s, i) == s[..RunLow(s, i)] + ([RunNode(s, i)] + s[RunHigh(s, i) + 1..])
  {
    if i > 0 && IsFree(s[i - 1]) {
      if i + 1 < |s| && IsFree(s[i + 1]) {
        CoalescedBoth(s, i);
      } else {
        CoalescedWithPredecessor(s, i);
      }
    } else if i + 1 < |s| && IsFree(s[i + 1]) {
      CoalescedWithSuccessor(s, i);
    } else {
      CoalescedAlone(s, i);
    }
  }

  lemma {:induction false} CoalescedAlone(s: seq<Node>, i: nat)
    requires i < |s| && !(i > 0 && IsFree(s[i - 1])) && IsFree(s[i]) && !(i + 1 < |s| && IsFree(s[i + 1]))
    ensures Coalesced(s, i) == s[..RunLow(s, i)] + ([RunNode(s, i)] + s[RunHigh(s, i) + 1..])
  {
    assert RunLow(s, i) == i && RunHigh(s, i) == i && RunNode(s, i) == s[i];
    assert s == s[..i] + ([s[i]] + s[i + 1..]);
  }

  lemma {:induction false} CoalescedBoth(s: seq<Node>, i: nat)
    requires 0 < i && i + 1 < |s| && IsFree(s[i - 1]) && IsFree(s[i]) && IsFree(s[i + 1])
    ensures Coalesced(s, i) == s[..RunLow(s, i)] + ([RunNode(s, i)] + s[RunHigh(s, i) + 1..])
  {
    assert RunLow(s, i) == i - 1 && RunHigh(s, i) == i + 1;
    var grown := s[i - 1].(endAddress := s[i].endAddress,
                           availableSpace := s[i - 1].availableSpace + s[i].availableSpace);
    var t := s[..i - 1] + [grown] + s[i + 1..];
    var a, y, b := s[..i - 1], s[i + 1], s[i + 2..];
    assert s[i + 1..] == [y] + b;
    assert t == (a + [grown]) + ([y] + b);
    assert t[..i - 1] == a && t[i] == y && t[i + 1..] == b;
    var n := grown.(endAddress := y.endAddress, availableSpace := grown.availableSpace + y.availableSpace);
    assert n == RunNode(s, i);
    assert Coalesced(s, i) == a + [n] + b;
    assert a + [n] + b == a + ([n] + b);
  }

  lemma {:induction false} CoalescedWithPredecessor(s: seq<Node>, i: nat)
    requires 0 < i < |s| && IsFree(s[i - 1]) && IsFree(s[i]) && !(i + 1 < |s| && IsFree(s[i + 1]))
    ensures Coalesced(s, i) == s[..RunLow(s, i)] + ([RunNode(s, i)] + s[RunHigh(s, i) + 1..])
  {
    assert RunLow(s, i) == i - 1 && RunHigh(s, i) == i;
    var grown := s[i - 1].(endAddress := s[i].endAddress,
                           availableSpace := s[i - 1].availableSpace + s[i].availableSpace);
    var t := s[..i - 1] + [grown] + s[i + 1..];
    assert i < |t| ==> t[i] == s[i + 1];
    assert grown == RunNode(s, i);
  }

  lemma {:induction false} CoalescedWithSuccessor(s: seq<Node>, i: nat)
    requires i + 1 < |s| && !(i > 0 && IsFree(s[i - 1])) && IsFree(s[i]) && IsFree(s[i + 1])
    ensures Coalesced(s, i) == s[..RunLow(s, i)] + ([RunNode(s, i)] + s[RunHigh(s, i) + 1..])
  {
    assert RunLow(s, i) == i && RunHigh(s, i) == i + 1;
    var n := s[i + 1].(startAddress := s[i].startAddress, availableSpace := s[i + 1].availableSpace + s[i].availableSpace);
    assert n == RunNode(s, i);
    assert Coalesced(s, i) == s[..i] + [n] + s[i + 2..];
    assert s[..i] + [n] + s[i + 2..] == s[..i] + ([n] + s[i + 2..]);
  }

  /** The run's bytes are the total size of the nodes in it. */
  lemma {:induction false} RunSizeSum(s: seq<Node>, i: nat)
    requires i < |s|
    ensures RunSize(s, i) == SizeSum(s[RunLow(s, i)..RunHigh(s, i) + 1])
  {
    var lo, hi := RunLow(s, i), RunHigh(s, i);
    var run := s[lo..hi + 1];
    MeasuresSingle(s[hi]);
    if hi > lo {
      assert run == [s[lo]] + s[lo + 1..hi + 1];
      MeasuresCons(s[lo], s[lo + 1..hi + 1]);
      if hi > lo + 1 {
        assert s[lo + 1..hi + 1] == [s[lo + 1]] + [s[hi]];
        MeasuresCons(s[lo + 1], [s[hi]]);
      } else {
        assert s[lo + 1..hi + 1] == [s[hi]];
      }
    } else {
      assert run == [s[hi]];
    }
  }

  /** No two free neighbours, except possibly next to position `i`. */
  predicate NoAdjacentFreeExcept(s: seq<Node>, i: nat) {
    forall j :: 0 <= j < |s| - 1 && j + 1 != i && j != i ==> !(IsFree(s[j]) && IsFree(s[j + 1]))
  }

  /** Replacing the run by its node keeps the free total and the total size. */
  lemma {:induction false} JoinedSums(s: seq<Node>, i: nat, r: seq<Node>)
    requires i < |s| && IsFree(s[i])
    requires r == s[..RunLow(s, i)] + ([RunNode(s, i)] + s[RunHigh(s, i) + 1..])
    ensures FreeSum(r) == FreeSum(s) && SizeSum(r) == SizeSum(s)
  {
    var lo, hi := RunLow(s, i), RunHigh(s, i);
    FreeRun(s, lo, hi);
    SizeRun(s, lo, hi);
    RunSizeSum(s, i);
    FreeSplit(r, s[..lo], [RunNode(s, i)], s[hi + 1..]);
    SizeSplit(r, s[..lo], [RunNode(s, i)], s[hi + 1..]);
    MeasuresSingle(RunNode(s, i));
  }

  /** Replacing the run by its node keeps the allocations. */
  lemma {:induction false} JoinedAllocations(s: seq<Node>, i: nat, r: seq<Node>)
    requires i < |s| && IsFree(s[i])
    requires r == s[..RunLow(s, i)] + ([RunNode(s, i)] + s[RunHigh(s, i) + 1..])
    ensures Allocations(r) == Allocations(s)
  {
    var lo, hi := RunLow(s, i), RunHigh(s, i);
    AllocRun(s, lo, hi);
    AllocSplit(r, s[..lo], [RunNode(s, i)], s[hi + 1..]);
    MeasuresSingle(RunNode(s, i));
    assert Allocations([RunNode(s, i)]) + Allocations(s[hi + 1..]) == Allocations(s[hi + 1..]);
  }

  /**
   * Replacing the run removes at most two nodes, leaves those before the run
   * alone, keeps sizes non-negative, and restores "no two free neighbours"
   * when that held everywhere but around `i`.
   */
  lemma {:induction false} JoinedShape(s: seq<Node>, i: nat, r: seq<Node>)
    requires i < |s| && IsFree(s[i])
    requires r == s[..RunLow(s, i)] + ([RunNode(s, i)] + s[RunHigh(s, i) + 1..])
    ensures |s| - 2 <= |r| <= |s| && |r| >= 1
    ensures r[..RunLow(s, i)] == s[..RunLow(s, i)]
    ensures NonNegative(s) ==> NonNegative(r)
    ensures NoAdjacentFreeExcept(s, i) ==> NoAdjacentFree(r)
  {
    var lo, hi, n := RunLow(s, i), RunHigh(s, i), RunNode(s, i);
    ReplacedRunIndices(s, r, lo, hi, n);
    if NonNegative(s) {
      assert n.availableSpace >= 0;
    }
    if NoAdjacentFreeExcept(s, i) {
      assert lo > 0 ==> !IsFree(s[lo - 1]);
      assert hi + 1 < |s| ==> !IsFree(s[hi + 1]);
      ReplacedRunShape(s, r, lo, hi, n);
    }
  }

  /** Where each node of a list with its run `lo..hi` replaced by `n` comes from. */
  lemma {:induction false} ReplacedRunIndices(s: seq<Node>, r: seq<Node>, lo: nat, hi: nat, n: Node)
    requires lo <= hi < |s|
    requires r == s[..lo] + ([n] + s[hi + 1..])
    ensures |r| == |s| - (hi - lo) && r[..lo] == s[..lo]
    ensures forall j :: 0 <= j < lo ==> r[j] == s[j]
    ensures r[lo] == n
    ensures forall j :: lo < j < |r| ==> r[j] == s[j + hi - lo]
  {
    var a, b := s[..lo], s[hi + 1..];
    assert r[..lo] == a;
    assert forall j :: 0 <= j < lo ==> r[j] == a[j];
    assert forall j :: lo < j < |r| ==> r[j] == b[j - lo - 1];
  }

  /**
   * A run `lo..hi` replaced by one free node `n`, when the nodes around the
   * run are allocated and no two free nodes meet elsewhere, leaves no two
   * free neighbours.
   */
  lemma {:induction false} ReplacedRunShape(s: seq<Node>, r: seq<Node>, lo: nat, hi: nat, n: Node)
    requires lo <= hi < |s| && |r| == |s| - (hi - lo)
    requires forall j :: 0 <= j < lo ==> r[j] == s[j]
    requires r[lo] == n
    requires forall j :: lo < j < |r| ==> r[j] == s[j + hi - lo]
    requires lo > 0 ==> !IsFree(s[lo - 1])
    requires hi + 1 < |s| ==> !IsFree(s[hi + 1])
    requires forall j :: 0 <= j < |s| - 1 && (j + 1 < lo || j > hi) ==> !(IsFree(s[j]) && IsFree(s[j + 1]))
    ensures NoAdjacentFree(r)
  {
    forall j | 0 <= j < |r| - 1 ensures !(IsFree(r[j]) && IsFree(r[j + 1])) {
      if j + 1 < lo {
        assert r[j] == s[j] && r[j + 1] == s[j + 1];
      } else if j + 1 == lo {
        assert r[j] == s[lo - 1];
      } else if j == lo {
        assert r[j + 1] == s[hi + 1];
      } else {
        assert r[j] == s[j + hi - lo] && r[j + 1] == s[j + 1 + hi - lo];
      }
    }
  }

  /** Coalescing keeps the free total, the total size and the allocations. */
  lemma {:induction false} CoalescedSums(s: seq<Node>, i: nat)
    requires i < |s| && IsFree(s[i])
    ensures FreeSum(Coalesced(s, i)) == FreeSum(s) && SizeSum(Coalesced(s, i)) == SizeSum(s)
  {
    CoalescedRun(s, i);
    JoinedSums(s, i, Coalesced(s, i));
  }

  lemma {:induction false} CoalescedAllocations(s: seq<Node>, i: nat)
    requires i < |s| && IsFree(s[i])
    ensures Allocations(Coalesced(s, i)) == Allocations(s)
  {
    CoalescedRun(s, i);
    JoinedAllocations(s, i, Coalesced(s, i));
  }

  /**
   * Coalescing removes at most two nodes, leaves those before the run alone,
   * keeps sizes non-negative, and restores "no two free neighbours" when that
   * held everywhere but around `i`.
   */
  lemma {:induction false} CoalescedShape(s: seq<Node>, i: nat)
    requires i < |s| && IsFree(s[i])
    ensures var r := Coalesced(s, i);
      && |s| - 2 <= |r| <= |s| && |r| >= 1
      && r[..RunLow(s, i)] == s[..RunLow(s, i)]
      && (NonNegative(s) ==> NonNegative(r))
      && (NoAdjacentFreeExcept(s, i) ==> NoAdjacentFree(r))
  {
    CoalescedRun(s, i);
    JoinedShape(s, i, Coalesced(s, i));
  }

  /** `release_memory`: node `i` is relabelled free and coalesced with its neighbours. */
  function Freed(s: seq<Node>, i: nat): seq<Node>
    requires i < |s|
  {
    Coalesced(s[i := s[i].(processId := Unused)], i)
  }

  /** A release adds the node's bytes to the free total and keeps the total size. */
  lemma {:induction false} FreedSums(s: seq<Node>, i: nat)
    requires i < |s| && !IsFree(s[i])
    ensures FreeSum(Freed(s, i)) == FreeSum(s) + s[i].availableSpace
    ensures SizeSum(Freed(s, i)) == SizeSum(s)
  {
    var u := s[i := s[i].(processId := Unused)];
    FreeAround(s, i);
    FreeAround(u, i);
    SizeAround(s, i);
    SizeAround(u, i);
    assert u[..i] == s[..i] && u[i + 1..] == s[i + 1..];
    CoalescedSums(u, i);
  }

  /** A release removes exactly the node's allocation from the list of allocations. */
  lemma {:induction false} FreedAllocations(s: seq<Node>, i: nat)
    requires i < |s| && !IsFree(s[i])
    ensures Allocations(s) == Allocations(s[..i]) + ([(s[i].processId, s[i].availableSpace)] + Allocations(s[i + 1..]))
    ensures Allocations(Freed(s, i)) == Allocations(s[..i]) + Allocations(s[i + 1..])
  {
    var u := s[i := s[i].(processId := Unused)];
    AllocAround(s, i);
    AllocAround(u, i);
    assert u[..i] == s[..i] && u[i + 1..] == s[i + 1..];
    assert Held(u[i]) + Allocations(s[i + 1..]) == Allocations(s[i + 1..]);
    CoalescedAllocations(u, i);
  }

  /** A release keeps at least one node, non-negative sizes and "no two free neighbours". */
  lemma {:induction false} FreedShape(s: seq<Node>, i: nat)
    requires i < |s| && !IsFree(s[i])
    ensures |Freed(s, i)| >= 1
    ensures NonNegative(s) ==> NonNegative(Freed(s, i))
    ensures NoAdjacentFree(s) ==> NoAdjacentFree(Freed(s, i))
  {
    var u := s[i := s[i].(processId := Unused)];
    CoalescedShape(u, i);
    if NoAdjacentFree(s) {
      assert NoAdjacentFreeExcept(u, i);
    }
  }

  /** A release keeps the list invariant and leaves no node labelled with the released process. */
  lemma {:induction false} FreedWellFormed(s: seq<Node>, i: nat, total: int)
    requires WellFormed(s, total) && i < |s| && !IsFree(s[i])
    ensures WellFormed(Freed(s, i), total)
    ensures !HasProcess(Freed(s, i), s[i].processId)
  {
    var pid := s[i].processId;
    FreedSums(s, i);
    FreedAllocations(s, i);
    FreedShape(s, i);
    RemoveDistinct(Allocations(s[..i]), Allocations(s[i + 1..]), (pid, s[i].availableSpace));
    HasProcessAllocations(Freed(s, i), pid);
  }

  /**
   * Allocating a hole and releasing the allocation again restores the free
   * total, the total size and the list of allocations.
   */
  lemma {:induction false} PlaceThenFree(s: seq<Node>, i: nat, pid: string, space: int, last: int)
    requires i < |s| && Fits(s[i], space) && pid != Unused
    ensures var r := Freed(Placed(s, i, pid, space, last), i);
      FreeSum(r) == FreeSum(s) && SizeSum(r) == SizeSum(s) && Allocations(r) == Allocations(s)
  {
    var p := Placed(s, i, pid, space, last);
    PlacedFacts(s, i, pid, space, last);
    PlacementSums(s, i, pid, space, last, p);
    PlacementTail(s, i, pid, space, last, p);
    PlacementAllocations(s, i, pid, space, last, p);
    assert p[i].availableSpace == space && !IsFree(p[i]);
    FreedSums(p, i);
    FreedAllocations(p, i);
    assert p[..i] == s[..i];
  }

  // ---------------------------------------------------------------- compaction

  /**
   * `swap_nodes` on the hole at `j` and the node after it: that node moves to
   * the hole's start and keeps its size, the hole moves to one past the moved
   * node's end and keeps its size, and the two change places.
   */
  function Swapped(s: seq<Node>, j: nat): seq<Node>
    requires j + 1 < |s|
  {
    var moved := s[j + 1].(startAddress := s[j].startAddress,
                           endAddress := s[j].startAddress + s[j + 1].availableSpace);
    var hole := s[j].(startAddress := moved.endAddress + 1,
                      endAddress := moved.endAddress + 1 + s[j].availableSpace);
    s[..j] + [moved, hole] + s[j + 2..]
  }

  /**
   * The single left-to-right pass of `compact` from cursor `c` (-1 is the
   * dummy head). The source's second disjunct (an allocated node after a free
   * cursor) never holds here: the cursor is only ever the head, an allocated
   * node, or the last node.
   */
  function CompactedFrom(s: seq<Node>, c: int): seq<Node>
    requires -1 <= c < |s|
    requires NoAdjacentFree(s)
    requires forall j :: 0 <= j <= c && j < |s| - 1 ==> !IsFree(s[j])
    decreases |s| - c
  {
    if c == |s| - 1 then s
    else if IsFree(s[c + 1]) && c + 2 < |s| then
      CompactStep(s, c);
      CompactedFrom(Coalesced(Swapped(s, c + 1), c + 2), c + 1)
    else CompactedFrom(s, c + 1)
  }

  /** Swapping a hole with the allocated node after it keeps every measure. */
  lemma {:induction false} SwappedSums(s: seq<Node>, j: nat)
    requires j + 1 < |s| && IsFree(s[j]) && !IsFree(s[j + 1])
    ensures FreeSum(Swapped(s, j)) == FreeSum(s) && SizeSum(Swapped(s, j)) == SizeSum(s)
  {
    var t := Swapped(s, j);
    var a, m, m', b := s[..j], [s[j], s[j + 1]], [t[j], t[j + 1]], s[j + 2..];
    assert s == a + (m + b);
    assert t == a + (m' + b);
    FreeSplit(s, a, m, b);
    FreeSplit(t, a, m', b);
    SizeSplit(s, a, m, b);
    SizeSplit(t, a, m', b);
    assert m == [s[j]] + [s[j + 1]] && m' == [t[j]] + [t[j + 1]];
    MeasuresCons(s[j], [s[j + 1]]);
    MeasuresCons(t[j], [t[j + 1]]);
    MeasuresSingle(s[j + 1]);
    MeasuresSingle(t[j + 1]);
  }

  lemma {:induction false} SwappedAllocations(s: seq<Node>, j: nat)
    requires j + 1 < |s| && IsFree(s[j]) && !IsFree(s[j + 1])
    ensures Allocations(Swapped(s, j)) == Allocations(s)
  {
    var t := Swapped(s, j);
    var a, m, m', b := s[..j], [s[j], s[j + 1]], [t[j], t[j + 1]], s[j + 2..];
    assert s == a + (m + b);
    assert t == a + (m' + b);
    AllocSplit(s, a, m, b);
    AllocSplit(t, a, m', b);
    assert m == [s[j]] + [s[j + 1]] && m' == [t[j]] + [t[j + 1]];
    MeasuresCons(s[j], [s[j + 1]]);
    MeasuresCons(t[j], [t[j + 1]]);
    MeasuresSingle(s[j + 1]);
    MeasuresSingle(t[j + 1]);
    assert Allocations(m) == Held(s[j + 1]) == Allocations(m');
  }

  /**
   * After the swap the allocated node sits at `j` and the hole at `j + 1`;
   * nothing else moves, sizes stay non-negative, and only the hole can have a
   * free neighbour.
   */
  lemma {:induction false} SwappedShape(s: seq<Node>, j: nat)
    requires j + 1 < |s| && IsFree(s[j]) && !IsFree(s[j + 1]) && NoAdjacentFree(s)
    ensures var t := Swapped(s, j);
      && |t| == |s| && !IsFree(t[j]) && IsFree(t[j + 1])
      && (forall k :: 0 <= k < j ==> t[k] == s[k])
      && NoAdjacentFreeExcept(t, j + 1)
      && (NonNegative(s) ==> NonNegative(t))
  {
    var t := Swapped(s, j);
    assert forall k :: 0 <= k < j ==> t[k] == s[k];
    assert forall k :: j + 2 <= k < |s| ==> t[k] == s[k];
    assert t[j].availableSpace == s[j + 1].availableSpace && t[j + 1].availableSpace == s[j].availableSpace;
  }

  /**
   * One swap-and-merge step of the compaction pass keeps every measure, keeps
   * "no two free neighbours", and leaves an allocated node under the advanced
   * cursor.
   */
  lemma {:induction false} CompactStep(s: seq<Node>, c: int)
    requires -1 <= c && c + 2 < |s| && IsFree(s[c + 1])
    requires NoAdjacentFree(s)
    requires forall j :: 0 <= j <= c ==> !IsFree(s[j])
    ensures |Swapped(s, c + 1)| == |s|
    ensures var u := Coalesced(Swapped(s, c + 1), c + 2);
      && |u| <= |s| && c + 1 < |u|
      && NoAdjacentFree(u)
      && (forall j :: 0 <= j <= c + 1 ==> !IsFree(u[j]))
      && FreeSum(u) == FreeSum(s) && SizeSum(u) == SizeSum(s) && Allocations(u) == Allocations(s)
      && (NonNegative(s) ==> NonNegative(u))
  {
    var t := Swapped(s, c + 1);
    assert !IsFree(s[c + 2]);
    SwappedShape(s, c + 1);
    SwappedSums(s, c + 1);
    SwappedAllocations(s, c + 1);
    assert RunLow(t, c + 2) == c + 2;
    CoalescedSums(t, c + 2);
    CoalescedAllocations(t, c + 2);
    CoalescedShape(t, c + 2);
    var u := Coalesced(t, c + 2);
    assert forall j :: 0 <= j <= c + 1 ==> u[j] == u[..c + 2][j] == t[j];
  }

  /**
   * What the compaction pass guarantees: it keeps the free total, the total
   * size and the allocations (owners and sizes, in their order), keeps "no two
   * free neighbours", and leaves every node but the last allocated.
   */
  lemma {:induction false} CompactedFromFacts(s: seq<Node>, c: int)
    requires -1 <= c < |s| && |s| >= 1
    requires NoAdjacentFree(s)
    requires forall j :: 0 <= j <= c && j < |s| - 1 ==> !IsFree(s[j])
    decreases |s| - c
    ensures var r := CompactedFrom(s, c);
      && |r| >= 1
      && FreeSum(r) == FreeSum(s) && SizeSum(r) == SizeSum(s) && Allocations(r) == Allocations(s)
      && (NonNegative(s) ==> NonNegative(r))
      && NoAdjacentFree(r)
      && (forall j :: 0 <= j < |r| - 1 ==> !IsFree(r[j]))
  {
    if c == |s| - 1 {
    } else if IsFree(s[c + 1]) && c + 2 < |s| {
      CompactStep(s, c);
      CompactedFromFacts(Coalesced(Swapped(s, c + 1), c + 2), c + 1);
    } else {
      CompactedFromFacts(s, c + 1);
    }
  }

  /**
   * Compaction of a well-formed list ends with all free space in at most one
   * node, the last one, and keeps the list invariant.
   */
  lemma {:induction false} CompactConsolidates(s: seq<Node>, total: int)
    requires WellFormed(s, total)
    ensures var r := CompactedFrom(s, -1);
      && WellFormed(r, total)
      && Allocations(r) == Allocations(s)
      && (forall j :: 0 <= j < |r| - 1 ==> !IsFree(r[j]))
      && FreeSum(s) == (if IsFree(r[|r| - 1]) then r[|r| - 1].availableSpace else 0)
  {
    CompactedFromFacts(s, -1);
    TrailingFreeSum(CompactedFrom(s, -1));
  }
}
