/**
 * The segment records of the contiguous-memory allocator and the quantities
 * computed over a list of them: the free total, the total of all sizes, and
 * the ordered list of allocations.
 */
module Nodes {

  /** The process label that marks a segment as free. */
  const Unused: string := "Unused"

  /** The range of the C `int` used by the best-fit and worst-fit sentinels. */
  const IntMax: int := 0x7fff_ffff
  const IntMin: int := -0x8000_0000

  /** One segment of the list: a `struct Node` without its `next` link. */
  datatype Node = Node(processId: string, availableSpace: int, startAddress: int, endAddress: int)

  predicate IsFree(n: Node) {
    n.processId == Unused
  }

  /** A hole that can take a request of `space` bytes. */
  predicate Fits(n: Node, space: int) {
    IsFree(n) && n.availableSpace >= space
  }

  /** What a node adds to the free total. */
  function Free(n: Node): int {
    if IsFree(n) then n.availableSpace else 0
  }

  /** What a node adds to the list of allocations: its owner and its size. */
  function Held(n: Node): seq<(string, int)> {
    if IsFree(n) then [] else [(n.processId, n.availableSpace)]
  }

  /** The sum of `availableSpace` over the free nodes. */
  function FreeSum(s: seq<Node>): int {
    if s == [] then 0 else Free(s[0]) + FreeSum(s[1..])
  }

  /** The sum of `availableSpace` over all nodes. */
  function SizeSum(s: seq<Node>): int {
    if s == [] then 0 else s[0].availableSpace + SizeSum(s[1..])
  }

  /** Owner and size of every allocated node, in list order. */
  function Allocations(s: seq<Node>): seq<(string, int)> {
    if s == [] then [] else Held(s[0]) + Allocations(s[1..])
  }

  predicate HasProcess(s: seq<Node>, pid: string) {
    exists j :: 0 <= j < |s| && s[j].processId == pid
  }

  predicate NoAdjacentFree(s: seq<Node>) {
    forall j :: 0 <= j < |s| - 1 ==> !(IsFree(s[j]) && IsFree(s[j + 1]))
  }

  predicate NonNegative(s: seq<Node>) {
    forall j :: 0 <= j < |s| ==> s[j].availableSpace >= 0
  }

  predicate DistinctOwners(a: seq<(string, int)>) {
    forall x, y :: 0 <= x < y < |a| ==> a[x].0 != a[y].0
  }

  /** Same owners and sizes position by position; addresses may differ. */
  predicate SameShape(s: seq<Node>, t: seq<Node>) {
    |s| == |t| &&
    forall j :: 0 <= j < |s| ==> s[j].processId == t[j].processId && s[j].availableSpace == t[j].availableSpace
  }

  /**
   * The list invariant of the allocator, apart from the counter: at least one
   * node, sizes that are never negative and add up to `total`, no two free
   * neighbours, and no process owning two nodes.
   */
  ghost predicate WellFormed(s: seq<Node>, total: int) {
    |s| >= 1 && NonNegative(s) && SizeSum(s) == total && NoAdjacentFree(s) && DistinctOwners(Allocations(s))
  }

  lemma {:induction false} MeasuresSingle(n: Node)
    ensures FreeSum([n]) == Free(n) && SizeSum([n]) == n.availableSpace && Allocations([n]) == Held(n)
  {
    assert [n][1..] == [];
  }

  lemma {:induction false} MeasuresCons(n: Node, b: seq<Node>)
    ensures FreeSum([n] + b) == Free(n) + FreeSum(b)
    ensures SizeSum([n] + b) == n.availableSpace + SizeSum(b)
    ensures Allocations([n] + b) == Held(n) + Allocations(b)
  {
    assert ([n] + b)[0] == n;
    assert ([n] + b)[1..] == b;
  }

  /** The three measures distribute over concatenation. */
  lemma {:induction false} FreeAppend(a: seq<Node>, b: seq<Node>)
    ensures FreeSum(a + b) == FreeSum(a) + FreeSum(b)
  {
    if a == [] {
      assert a + b == b;
    } else {
      assert (a + b)[1..] == a[1..] + b;
      FreeAppend(a[1..], b);
    }
  }

  lemma {:induction false} SizeAppend(a: seq<Node>, b: seq<Node>)
    ensures SizeSum(a + b) == SizeSum(a) + SizeSum(b)
  {
    if a == [] {
      assert a + b == b;
    } else {
      assert (a + b)[1..] == a[1..] + b;
      SizeAppend(a[1..], b);
    }
  }

  lemma {:induction false} AllocAppend(a: seq<Node>, b: seq<Node>)
    ensures Allocations(a + b) == Allocations(a) + Allocations(b)
  {
    if a == [] {
      assert a + b == b;
    } else {
      assert (a + b)[0] == a[0];
      assert (a + b)[1..] == a[1..] + b;
      AllocAppend(a[1..], b);
    }
  }

  /** The measures of a list split around position `i`. */
  lemma {:induction false} FreeAround(s: seq<Node>, i: nat)
    requires i < |s|
    ensures FreeSum(s) == FreeSum(s[..i]) + Free(s[i]) + FreeSum(s[i + 1..])
  {
    assert s == s[..i] + ([s[i]] + s[i + 1..]);
    FreeAppend(s[..i], [s[i]] + s[i + 1..]);
    MeasuresCons(s[i], s[i + 1..]);
  }

  lemma {:induction false} SizeAround(s: seq<Node>, i: nat)
    requires i < |s|
    ensures SizeSum(s) == SizeSum(s[..i]) + s[i].availableSpace + SizeSum(s[i + 1..])
  {
    assert s == s[..i] + ([s[i]] + s[i + 1..]);
    SizeAppend(s[..i], [s[i]] + s[i + 1..]);
    MeasuresCons(s[i], s[i + 1..]);
  }

  lemma {:induction false} AllocAround(s: seq<Node>, i: nat)
    requires i < |s|
    ensures Allocations(s) == Allocations(s[..i]) + (Held(s[i]) + Allocations(s[i + 1..]))
  {
    assert s == s[..i] + ([s[i]] + s[i + 1..]);
    AllocAppend(s[..i], [s[i]] + s[i + 1..]);
    MeasuresCons(s[i], s[i + 1..]);
  }

  /** The measures of a list cut in three. */
  lemma {:induction false} FreeSplit(s: seq<Node>, a: seq<Node>, m: seq<Node>, b: seq<Node>)
    requires s == a + (m + b)
    ensures FreeSum(s) == FreeSum(a) + FreeSum(m) + FreeSum(b)
  {
    FreeAppend(a, m + b);
    FreeAppend(m, b);
  }

  lemma {:induction false} SizeSplit(s: seq<Node>, a: seq<Node>, m: seq<Node>, b: seq<Node>)
    requires s == a + (m + b)
    ensures SizeSum(s) == SizeSum(a) + SizeSum(m) + SizeSum(b)
  {
    SizeAppend(a, m + b);
    SizeAppend(m, b);
  }

  lemma {:induction false} AllocSplit(s: seq<Node>, a: seq<Node>, m: seq<Node>, b: seq<Node>)
    requires s == a + (m + b)
    ensures Allocations(s) == Allocations(a) + (Allocations(m) + Allocations(b))
  {
    AllocAppend(a, m + b);
    AllocAppend(m, b);
  }

  /** The measures of a list split around a run `lo..hi` of free nodes. */
  lemma {:induction false} FreeRun(s: seq<Node>, lo: nat, hi: nat)
    requires lo <= hi < |s| && forall j :: lo <= j <= hi ==> IsFree(s[j])
    ensures FreeSum(s) == FreeSum(s[..lo]) + SizeSum(s[lo..hi + 1]) + FreeSum(s[hi + 1..])
  {
    var a, run, b := s[..lo], s[lo..hi + 1], s[hi + 1..];
    assert s == a + (run + b);
    assert forall j :: 0 <= j < |run| ==> IsFree(run[j]);
    FreeSplit(s, a, run, b);
    AllFreeSum(run);
  }

  lemma {:induction false} SizeRun(s: seq<Node>, lo: nat, hi: nat)
    requires lo <= hi < |s|
    ensures SizeSum(s) == SizeSum(s[..lo]) + SizeSum(s[lo..hi + 1]) + SizeSum(s[hi + 1..])
  {
    var a, run, b := s[..lo], s[lo..hi + 1], s[hi + 1..];
    assert s == a + (run + b);
    SizeSplit(s, a, run, b);
  }

  lemma {:induction false} AllocRun(s: seq<Node>, lo: nat, hi: nat)
    requires lo <= hi < |s| && forall j :: lo <= j <= hi ==> IsFree(s[j])
    ensures Allocations(s) == Allocations(s[..lo]) + Allocations(s[hi + 1..])
  {
    var a, run, b := s[..lo], s[lo..hi + 1], s[hi + 1..];
    assert s == a + (run + b);
    assert forall j :: 0 <= j < |run| ==> IsFree(run[j]);
    AllocSplit(s, a, run, b);
    AllFreeAllocations(run);
    assert Allocations(run) + Allocations(b) == Allocations(b);
  }

  /** Lists of the same shape have the same measures and the same invariants. */
  lemma {:induction false} SameShapeFree(s: seq<Node>, t: seq<Node>)
    requires SameShape(s, t)
    ensures FreeSum(s) == FreeSum(t)
  {
    if s != [] {
      assert Free(s[0]) == Free(t[0]);
      assert SameShape(s[1..], t[1..]);
      SameShapeFree(s[1..], t[1..]);
    }
  }

  lemma {:induction false} SameShapeSize(s: seq<Node>, t: seq<Node>)
    requires SameShape(s, t)
    ensures SizeSum(s) == SizeSum(t)
  {
    if s != [] {
      assert SameShape(s[1..], t[1..]);
      SameShapeSize(s[1..], t[1..]);
    }
  }

  lemma {:induction false} SameShapeAllocations(s: seq<Node>, t: seq<Node>)
    requires SameShape(s, t)
    ensures Allocations(s) == Allocations(t)
  {
    if s != [] {
      assert Held(s[0]) == Held(t[0]);
      assert SameShape(s[1..], t[1..]);
      SameShapeAllocations(s[1..], t[1..]);
    }
  }

  /** A run of free nodes adds all its sizes to the free total and owns nothing. */
  lemma {:induction false} AllFreeSum(s: seq<Node>)
    requires forall j :: 0 <= j < |s| ==> IsFree(s[j])
    ensures FreeSum(s) == SizeSum(s)
  {
    if s != [] {
      assert IsFree(s[0]);
      AllFreeSum(s[1..]);
    }
  }

  lemma {:induction false} AllFreeAllocations(s: seq<Node>)
    requires forall j :: 0 <= j < |s| ==> IsFree(s[j])
    ensures Allocations(s) == []
  {
    if s != [] {
      assert IsFree(s[0]);
      AllFreeAllocations(s[1..]);
    }
  }

  /** A process (other than the free label) labels a node exactly when it heads an allocation. */
  lemma {:induction false} HasProcessAllocations(s: seq<Node>, pid: string)
    requires pid != Unused
    ensures HasProcess(s, pid) <==> exists k :: 0 <= k < |Allocations(s)| && Allocations(s)[k].0 == pid
  {
    if s != [] {
      HasProcessAllocations(s[1..], pid);
      var a := Allocations(s[1..]);
      assert Allocations(s) == Held(s[0]) + a;
      if HasProcess(s, pid) {
        var j :| 0 <= j < |s| && s[j].processId == pid;
        if j == 0 {
          assert Allocations(s)[0].0 == pid;
        } else {
          assert s[1..][j - 1].processId == pid;
          var k :| 0 <= k < |a| && a[k].0 == pid;
          assert Allocations(s)[|Held(s[0])| + k].0 == pid;
        }
      }
      if exists k :: 0 <= k < |Allocations(s)| && Allocations(s)[k].0 == pid {
        var k :| 0 <= k < |Allocations(s)| && Allocations(s)[k].0 == pid;
        if k < |Held(s[0])| {
          assert s[0].processId == pid;
        } else {
          assert a[k - |Held(s[0])|].0 == pid;
          var j :| 0 <= j < |s| - 1 && s[1..][j].processId == pid;
          assert s[j + 1].processId == pid;
        }
      }
    }
  }

  /** With no negative size, no node is larger than the total of all sizes. */
  lemma {:induction false} ElementBelowSum(s: seq<Node>, j: nat)
    requires NonNegative(s) && j < |s|
    ensures s[j].availableSpace <= SizeSum(s)
  {
    if j > 0 {
      assert NonNegative(s[1..]);
      ElementBelowSum(s[1..], j - 1);
    } else {
      assert NonNegative(s[1..]);
      NonNegativeSum(s[1..]);
    }
  }

  lemma {:induction false} NonNegativeSum(s: seq<Node>)
    requires NonNegative(s)
    ensures SizeSum(s) >= 0
  {
    if s != [] {
      assert NonNegative(s[1..]);
      NonNegativeSum(s[1..]);
    }
  }

  /** Every size is a non-negative C `int` below `INT_MAX`. */
  predicate IntSizes(s: seq<Node>) {
    forall j :: 0 <= j < |s| ==> 0 <= s[j].availableSpace < IntMax
  }

  lemma {:induction false} WellFormedIntSizes(s: seq<Node>, total: int)
    requires WellFormed(s, total) && total < IntMax
    ensures IntSizes(s)
  {
    forall j | 0 <= j < |s| ensures s[j].availableSpace < IntMax {
      ElementBelowSum(s, j);
    }
  }

  /** When every node but the last is allocated, the free total is the size of a free last node. */
  lemma {:induction false} TrailingFreeSum(s: seq<Node>)
    requires forall j :: 0 <= j < |s| - 1 ==> !IsFree(s[j])
    ensures FreeSum(s) == if s != [] && IsFree(s[|s| - 1]) then s[|s| - 1].availableSpace else 0
  {
    if |s| > 1 {
      TrailingFreeSum(s[1..]);
    } else if |s| == 1 {
      MeasuresSingle(s[0]);
      assert s == [s[0]];
    }
  }

  /** Inserting a new owner into a list of distinct owners keeps them distinct. */
  lemma {:induction false} InsertDistinct(a: seq<(string, int)>, b: seq<(string, int)>, p: (string, int))
    requires DistinctOwners(a + b)
    requires forall k :: 0 <= k < |a + b| ==> (a + b)[k].0 != p.0
    ensures DistinctOwners(a + ([p] + b))
  {
    var c := a + ([p] + b);
    forall x, y | 0 <= x < y < |c| ensures c[x].0 != c[y].0 {
      if x < |a| && y == |a| {
        assert c[x] == (a + b)[x];
      } else if x == |a| {
        assert c[y] == (a + b)[y - 1];
      } else if y < |a| {
        assert c[x] == (a + b)[x] && c[y] == (a + b)[y];
      } else if x < |a| {
        assert c[x] == (a + b)[x] && c[y] == (a + b)[y - 1];
      } else {
        assert c[x] == (a + b)[x - 1] && c[y] == (a + b)[y - 1];
      }
    }
  }

  /** Removing an owner from a list of distinct owners keeps them distinct and drops that owner. */
  lemma {:induction false} RemoveDistinct(a: seq<(string, int)>, b: seq<(string, int)>, p: (string, int))
    requires DistinctOwners(a + ([p] + b))
    ensures DistinctOwners(a + b)
    ensures forall k :: 0 <= k < |a + b| ==> (a + b)[k].0 != p.0
  {
    var c := a + ([p] + b);
    forall x, y | 0 <= x < y < |a + b| ensures (a + b)[x].0 != (a + b)[y].0 {
      if y < |a| {
        assert (a + b)[x] == c[x] && (a + b)[y] == c[y];
      } else if x < |a| {
        assert (a + b)[x] == c[x] && (a + b)[y] == c[y + 1];
      } else {
        assert (a + b)[x] == c[x + 1] && (a + b)[y] == c[y + 1];
      }
    }
    forall k | 0 <= k < |a + b| ensures (a + b)[k].0 != p.0 {
      assert c[|a|] == p;
      if k < |a| {
        assert (a + b)[k] == c[k];
      } else {
        assert (a + b)[k] == c[k + 1];
      }
    }
  }
}
