/**
 * Worked examples of the list operations: two command traces from the
 * initial list (a request-request-release sequence, and one that reaches a
 * state in which `merge` as written reads past the end of the list), and one
 * compaction pass over a hand-made list.
 */
module Scenarios {
  import opened Nodes
  import opened NodeList

  /** The list the allocator starts with for a configured size of 100. */
  function Start(): seq<Node> {
    [Node(Unused, 99, 0, 99)]
  }

  /**
   * Size 100, then `RQ P1 30 F`, `RQ P2 20 B`, `RL P1`: the free block of P1
   * is back at address 0, P2 is untouched, a free block trails, and the free
   * total is 99 - 20 = 79.
   */
  lemma {:induction false} RequestRequestRelease()
    ensures IsFirstFit(Start(), 30, 0)
    ensures var s1 := Placed(Start(), 0, "P1", 30, 99);
      && s1 == [Node("P1", 30, 0, 30), Node(Unused, 69, 31, 99)]
      && IsBestFit(s1, 20, 1)
      && var s2 := Placed(s1, 1, "P2", 20, 99);
      && s2 == [Node("P1", 30, 0, 30), Node("P2", 20, 31, 51), Node(Unused, 49, 52, 99)]
      && IsFirstOf(s2, "P1", 0)
      && var s3 := Freed(s2, 0);
      && s3 == [Node(Unused, 30, 0, 30), Node("P2", 20, 31, 51), Node(Unused, 49, 52, 99)]
      && FreeSum(s3) == 79
  {
    var s1 := Placed(Start(), 0, "P1", 30, 99);
    assert s1 == [Node("P1", 30, 0, 30), Node(Unused, 69, 31, 99)];
    var s2 := Placed(s1, 1, "P2", 20, 99);
    assert s2[..1] == [s1[0]];
    assert s2 == [Node("P1", 30, 0, 30), Node("P2", 20, 31, 51), Node(Unused, 49, 52, 99)];
    var s3 := Freed(s2, 0);
    assert s3 == [Node(Unused, 30, 0, 30), Node("P2", 20, 31, 51), Node(Unused, 49, 52, 99)];
    MeasuresCons(s3[0], s3[1..]);
    assert s3[1..] == [s3[1]] + [s3[2]];
    MeasuresCons(s3[1], [s3[2]]);
    MeasuresSingle(s3[2]);
  }

  /**
   * A hand-made list (two allocated blocks each followed by a hole, with
   * addresses no command sequence produces): one compaction pass moves
   * P2 down next to P1 and leaves a single free block of both holes' bytes.
   */
  lemma {:induction false} CompactTwoHoles()
    ensures var s := [Node("P1", 10, 0, 9), Node(Unused, 10, 10, 19), Node("P2", 10, 20, 29), Node(Unused, 10, 30, 39)];
      && NoAdjacentFree(s)
      && CompactedFrom(s, -1) == [Node("P1", 10, 0, 9), Node("P2", 10, 10, 20), Node(Unused, 20, 21, 39)]
  {
    var s := [Node("P1", 10, 0, 9), Node(Unused, 10, 10, 19), Node("P2", 10, 20, 29), Node(Unused, 10, 30, 39)];
    var t := Swapped(s, 1);
    assert t == [Node("P1", 10, 0, 9), Node("P2", 10, 10, 20), Node(Unused, 10, 21, 31), Node(Unused, 10, 30, 39)];
    var u := Coalesced(t, 2);
    assert u == [Node("P1", 10, 0, 9), Node("P2", 10, 10, 20), Node(Unused, 20, 21, 39)];
    assert CompactedFrom(s, -1) == CompactedFrom(s, 0) == CompactedFrom(u, 1) == CompactedFrom(u, 2) == u;
  }

  /**
   * Size 100, then `RQ P1 50 F`, `RQ P2 49 F`, `RL P1`: the last node is now
   * allocated with a free node before it, so `RL P2` makes `merge` as written
   * dereference the missing successor; the guarded version yields one free
   * block.
   */
  lemma {:induction false} ReleaseLastAfterHole()
    ensures var s1 := Placed(Start(), 0, "P1", 50, 99);
      && IsFirstFit(s1, 49, 1)
      && var s2 := Placed(s1, 1, "P2", 49, 99);
      && var s3 := Freed(s2, 0);
      && s3 == [Node(Unused, 50, 0, 50), Node("P2", 49, 51, 100)]
      && WellFormed(s3, 99)
      && IsFirstOf(s3, "P2", 1)
      && CoalescedAsWritten(s3[1 := s3[1].(processId := Unused)], 1) == None
      && Freed(s3, 1) == [Node(Unused, 99, 0, 100)]
  {
    var s1 := Placed(Start(), 0, "P1", 50, 99);
    assert s1 == [Node("P1", 50, 0, 50), Node(Unused, 49, 51, 99)];
    var s2 := Placed(s1, 1, "P2", 49, 99);
    assert s2 == [Node("P1", 50, 0, 50), Node("P2", 49, 51, 100)];
    var s3 := Freed(s2, 0);
    assert s3 == [Node(Unused, 50, 0, 50), Node("P2", 49, 51, 100)];
    MeasuresCons(s3[0], [s3[1]]);
    MeasuresSingle(s3[1]);
    assert s3 == [s3[0]] + [s3[1]];
    assert Allocations(s3) == [("P2", 49)];
  }
}
