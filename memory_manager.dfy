/**
 * The allocator itself: the segment list behind the dummy head, with the
 * head's running free total, and one method per operation of the simulator.
 * The source's global traversal pointer is replaced by indices local to each
 * method; index `k` of `nodes` is the node the pointer reaches as `temp->next`
 * after `k` steps from the head.
 */
module MemoryManager {
  import opened Nodes
  import opened NodeList

  /** What `request_memory` reports. */
  datatype RequestOutcome = Allocated | NoSpace | AlreadyInMemory | UnknownStrategy

  /** One line of the status report. */
  datatype Line = Line(startAddress: int, endAddress: int, processId: string)

  class Memory {
    /** The segments after the dummy head, in list order. */
    var nodes: seq<Node>
    /** The dummy head's `available_space`: the running total of free bytes. */
    var availableSpace: int
    /** The highest address of the simulated memory. */
    const lastAddressSpace: int

    /**
     * The class invariant: the list is well formed with sizes adding up to
     * the highest address, which is a C `int` below `INT_MAX`, and the head's
     * counter is the sum of the free sizes.
     */
    ghost predicate Valid()
      reads this
    {
      0 <= lastAddressSpace < IntMax &&
      WellFormed(nodes, lastAddressSpace) &&
      availableSpace == FreeSum(nodes)
    }

    /**
     * The initial partition: one free block from address 0 to one less than
     * the configured size, whose size is its end minus its start.
     */
    constructor (memorySize: int)
      requires 1 <= memorySize <= IntMax
      ensures Valid()
      ensures lastAddressSpace == memorySize - 1 && availableSpace == memorySize - 1
      ensures nodes == [Node(Unused, memorySize - 1, 0, memorySize - 1)]
    {
      var initialMemory := memorySize - 1;
      lastAddressSpace := initialMemory;
      availableSpace := initialMemory;
      nodes := [Node(Unused, initialMemory - 0, 0, initialMemory)];
      new;
      MeasuresSingle(nodes[0]);
    }

    /** `find_process`: whether some node is labelled `pid`, and the first such node. */
    method FindProcess(pid: string) returns (found: bool, index: nat)
      ensures found <==> HasProcess(nodes, pid)
      ensures found ==> IsFirstOf(nodes, pid, index)
    {
      index := 0;
      while index < |nodes|
        invariant index <= |nodes|
        invariant forall j :: 0 <= j < index ==> nodes[j].processId != pid
      {
        if nodes[index].processId == pid {
          return true, index;
        }
        index := index + 1;
      }
      return false, index;
    }

    /**
     * `create_node`: node `i` keeps `spaceRequested` bytes, a free node of
     * `leftOverSpace` bytes is linked in after it, and when that node's end
     * meets the next start the addresses of the rest of the list are walked
     * forward.
     */
    method CreateNode(i: nat, spaceRequested: int, leftOverSpace: int)
      requires i < |nodes|
      modifies this`nodes
      ensures nodes == SplitOff(old(nodes), i, spaceRequested, leftOverSpace, lastAddressSpace)
    {
      var kept := nodes[i].(availableSpace := spaceRequested);
      var start := kept.endAddress + 1;
      var end := start + leftOverSpace;
      if end > lastAddressSpace {
        end := lastAddressSpace;
      }
      var hole := Node(Unused, leftOverSpace, start, end);
      nodes := nodes[..i] + [kept, hole] + nodes[i + 1..];
      if i + 2 < |nodes| && nodes[i + 1].endAddress == nodes[i + 2].startAddress {
        ghost var linked := nodes;
        var p := i + 1;
        while p + 2 < |nodes|
          invariant i + 1 <= p && p + 1 < |nodes| && |nodes| == |linked|
          invariant Renumbered(nodes, p + 1) == Renumbered(linked, i + 2)
          decreases |nodes| - p
        {
          var moved := nodes[p + 1].(startAddress := nodes[p].endAddress + 1);
          moved := moved.(endAddress := moved.startAddress + moved.availableSpace);
          nodes := nodes[p + 1 := moved];
          p := p + 1;
        }
        nodes := nodes[p + 1 := nodes[p + 1].(startAddress := nodes[p].endAddress + 1)];
      }
    }

    /**
     * The allocation every strategy performs once it has chosen node `k`:
     * take the bytes off the counter, label the node, set its end, and split
     * off the leftover.
     */
    method Allocate(k: nat, pid: string, space: int)
      requires k < |nodes|
      modifies this`nodes, this`availableSpace
      ensures nodes == Placed(old(nodes), k, pid, space, lastAddressSpace)
      ensures availableSpace == old(availableSpace) - space
    {
      availableSpace := availableSpace - space;
      nodes := nodes[k := nodes[k].(processId := pid, endAddress := nodes[k].startAddress + space)];
      var leftOverSpace := nodes[k].availableSpace - space;
      if leftOverSpace > 0 {
        CreateNode(k, space, leftOverSpace);
      }
    }

    /** `first_fit`: allocate the first free node in list order that is large enough. */
    method FirstFit(pid: string, space: int) returns (placed: bool)
      modifies this`nodes, this`availableSpace
      ensures placed <==> AnyFits(old(nodes), space)
      ensures placed ==> availableSpace == old(availableSpace) - space
      ensures placed ==> exists i :: IsFirstFit(old(nodes), space, i) && nodes == Placed(old(nodes), i, pid, space, lastAddressSpace)
      ensures !placed ==> nodes == old(nodes) && availableSpace == old(availableSpace)
    {
      var k := 0;
      while k < |nodes|
        invariant k <= |nodes|
        invariant nodes == old(nodes) && availableSpace == old(availableSpace)
        invariant forall j :: 0 <= j < k ==> !Fits(nodes[j], space)
      {
        if IsFree(nodes[k]) && nodes[k].availableSpace >= space {
          Allocate(k, pid, space);
          assert IsFirstFit(old(nodes), space, k);
          return true;
        }
        k := k + 1;
      }
      return false;
    }

    /**
     * `best_fit`: find the smallest size among the free nodes large enough
     * (starting from `INT_MAX`), then allocate the first free node of exactly
     * that size.
     */
    method BestFit(pid: string, space: int) returns (placed: bool)
      requires IntSizes(nodes) && space <= IntMax
      modifies this`nodes, this`availableSpace
      ensures placed <==> AnyFits(old(nodes), space)
      ensures placed ==> availableSpace == old(availableSpace) - space
      ensures placed ==> exists i :: IsBestFit(old(nodes), space, i) && nodes == Placed(old(nodes), i, pid, space, lastAddressSpace)
      ensures !placed ==> nodes == old(nodes) && availableSpace == old(availableSpace)
    {
      var smallestSpace := IntMax;
      var k := 0;
      while k < |nodes|
        invariant k <= |nodes| && smallestSpace <= IntMax
        invariant forall j :: 0 <= j < k && Fits(nodes[j], space) ==> smallestSpace <= nodes[j].availableSpace
        invariant (exists j :: 0 <= j < k && Fits(nodes[j], space)) ==>
          exists j :: 0 <= j < k && Fits(nodes[j], space) && nodes[j].availableSpace == smallestSpace
        invariant (forall j :: 0 <= j < k ==> !Fits(nodes[j], space)) ==> smallestSpace == IntMax
      {
        if IsFree(nodes[k]) && nodes[k].availableSpace >= space {
          if nodes[k].availableSpace <= smallestSpace {
            smallestSpace := nodes[k].availableSpace;
          }
        }
        k := k + 1;
      }
      // the chosen size is large enough, whether or not some node fits
      assert smallestSpace >= space;
      k := 0;
      while k < |nodes|
        invariant k <= |nodes|
        invariant nodes == old(nodes) && availableSpace == old(availableSpace)
        invariant forall j :: 0 <= j < k ==> !(IsFree(nodes[j]) && nodes[j].availableSpace == smallestSpace)
      {
        if IsFree(nodes[k]) && nodes[k].availableSpace == smallestSpace {
          Allocate(k, pid, space);
          assert IsBestFit(old(nodes), space, k);
          return true;
        }
        k := k + 1;
      }
      return false;
    }

    /**
     * `worst_fit`: find the largest size among the free nodes large enough
     * (starting from `INT_MIN`), then allocate the first free node of exactly
     * that size.
     */
    method WorstFit(pid: string, space: int) returns (placed: bool)
      requires IntSizes(nodes)
      modifies this`nodes, this`availableSpace
      ensures placed <==> AnyFits(old(nodes), space)
      ensures placed ==> availableSpace == old(availableSpace) - space
      ensures placed ==> exists i :: IsWorstFit(old(nodes), space, i) && nodes == Placed(old(nodes), i, pid, space, lastAddressSpace)
      ensures !placed ==> nodes == old(nodes) && availableSpace == old(availableSpace)
    {
      var largestSpace := IntMin;
      var k := 0;
      while k < |nodes|
        invariant k <= |nodes|
        invariant forall j :: 0 <= j < k && Fits(nodes[j], space) ==> largestSpace >= nodes[j].availableSpace
        invariant (exists j :: 0 <= j < k && Fits(nodes[j], space)) ==>
          exists j :: 0 <= j < k && Fits(nodes[j], space) && nodes[j].availableSpace == largestSpace
        invariant (forall j :: 0 <= j < k ==> !Fits(nodes[j], space)) ==> largestSpace == IntMin
      {
        if IsFree(nodes[k]) && nodes[k].availableSpace >= space {
          if nodes[k].availableSpace >= largestSpace {
            largestSpace := nodes[k].availableSpace;
          }
        }
        k := k + 1;
      }
      k := 0;
      while k < |nodes|
        invariant k <= |nodes|
        invariant nodes == old(nodes) && availableSpace == old(availableSpace)
        invariant forall j :: 0 <= j < k ==> !(IsFree(nodes[j]) && nodes[j].availableSpace == largestSpace)
      {
        if IsFree(nodes[k]) && nodes[k].availableSpace == largestSpace {
          // no size is INT_MIN, so the sentinel is never matched
          assert largestSpace != IntMin;
          Allocate(k, pid, space);
          assert IsWorstFit(old(nodes), space, k);
          return true;
        }
        k := k + 1;
      }
      return false;
    }

    /**
     * `request_memory`: refuse a process already in memory, then run the
     * strategy the code names; any other code changes nothing.
     */
    method RequestMemory(pid: string, space: int, algo: string) returns (outcome: RequestOutcome)
      requires Valid() && 0 <= space <= IntMax
      modifies this`nodes, this`availableSpace
      ensures Valid()
      ensures outcome == AlreadyInMemory <==> HasProcess(old(nodes), pid)
      ensures outcome == UnknownStrategy <==> !HasProcess(old(nodes), pid) && !IsStrategy(algo)
      ensures outcome == NoSpace <==> !HasProcess(old(nodes), pid) && IsStrategy(algo) && !AnyFits(old(nodes), space)
      ensures outcome == Allocated ==>
        && pid != Unused && HasProcess(nodes, pid)
        && availableSpace == old(availableSpace) - space
        && exists i :: Selects(algo, old(nodes), space, i) && nodes == Placed(old(nodes), i, pid, space, lastAddressSpace)
      ensures outcome != Allocated ==> nodes == old(nodes) && availableSpace == old(availableSpace)
    {
      var found, _ := FindProcess(pid);
      if found {
        return AlreadyInMemory;
      }
      WellFormedIntSizes(nodes, lastAddressSpace);
      var placed;
      if algo == "W" {
        placed := WorstFit(pid, space);
      } else if algo == "B" {
        placed := BestFit(pid, space);
      } else if algo == "F" {
        placed := FirstFit(pid, space);
      } else {
        return UnknownStrategy;
      }
      if !placed {
        return NoSpace;
      }
      ghost var i :| Selects(algo, old(nodes), space, i) && nodes == Placed(old(nodes), i, pid, space, lastAddressSpace);
      SelectedPlacement(old(nodes), algo, i, pid, space, lastAddressSpace);
      return Allocated;
    }

    /**
     * `merge`: node `i` has just been freed; join it with a free predecessor
     * (the head never is), else with a free successor, then join a free
     * predecessor with a free successor when one exists.
     */
    method Merge(i: nat)
      requires i < |nodes|
      modifies this`nodes
      ensures nodes == Coalesced(old(nodes), i)
    {
      if i > 0 && IsFree(nodes[i - 1]) {
        var grown := nodes[i - 1].(endAddress := nodes[i].endAddress,
                                   availableSpace := nodes[i - 1].availableSpace + nodes[i].availableSpace);
        nodes := nodes[..i - 1] + [grown] + nodes[i + 1..];
      } else if i + 1 < |nodes| {
        if IsFree(nodes[i + 1]) {
          var grown := nodes[i + 1].(startAddress := nodes[i].startAddress,
                                     availableSpace := nodes[i + 1].availableSpace + nodes[i].availableSpace);
          nodes := nodes[..i] + [grown] + nodes[i + 2..];
        }
      }
      if i > 0 && IsFree(nodes[i - 1]) && i < |nodes| && IsFree(nodes[i]) {
        var grown := nodes[i - 1].(endAddress := nodes[i].endAddress,
                                   availableSpace := nodes[i - 1].availableSpace + nodes[i].availableSpace);
        nodes := nodes[..i - 1] + [grown] + nodes[i + 1..];
      }
    }

    /**
     * `release_memory`: find the process, add its bytes to the counter, mark
     * its node free and merge it with its free neighbours.
     */
    method ReleaseMemory(pid: string) returns (released: bool)
      requires Valid() && pid != Unused
      modifies this`nodes, this`availableSpace
      ensures Valid()
      ensures released <==> HasProcess(old(nodes), pid)
      ensures !HasProcess(nodes, pid)
      ensures released ==> exists i ::
        && IsFirstOf(old(nodes), pid, i)
        && nodes == Freed(old(nodes), i)
        && availableSpace == old(availableSpace) + old(nodes)[i].availableSpace
      ensures !released ==> nodes == old(nodes) && availableSpace == old(availableSpace)
    {
      var found, index := FindProcess(pid);
      if found {
        availableSpace := availableSpace + nodes[index].availableSpace;
        nodes := nodes[index := nodes[index].(processId := Unused)];
        Merge(index);
        FreedWellFormed(old(nodes), index, lastAddressSpace);
        FreedSums(old(nodes), index);
        return true;
      }
      return false;
    }

    /**
     * `swap_nodes`: the allocated node after the free node `j` moves to the
     * free node's start, the free node moves to one past its end, and the two
     * change places.
     */
    method SwapNodes(j: nat)
      requires j + 1 < |nodes|
      modifies this`nodes
      ensures nodes == Swapped(old(nodes), j)
    {
      var moved := nodes[j + 1].(startAddress := nodes[j].startAddress);
      moved := moved.(endAddress := moved.startAddress + moved.availableSpace);
      var hole := nodes[j].(startAddress := moved.endAddress + 1);
      hole := hole.(endAddress := hole.startAddress + hole.availableSpace);
      nodes := nodes[..j] + [moved, hole] + nodes[j + 2..];
    }

    /**
     * `compact`: one pass from the head that swaps each free node past the
     * allocated node after it and merges it with a free node it then touches.
     * It keeps the free total and the allocations in their order, and leaves
     * all free space in the last node.
     */
    method Compact()
      requires Valid()
      modifies this`nodes
      ensures Valid()
      ensures nodes == CompactedFrom(old(nodes), -1)
      ensures Allocations(nodes) == Allocations(old(nodes))
      ensures forall j :: 0 <= j < |nodes| - 1 ==> !IsFree(nodes[j])
      ensures availableSpace == (if IsFree(nodes[|nodes| - 1]) then nodes[|nodes| - 1].availableSpace else 0)
    {
      CompactConsolidates(nodes, lastAddressSpace);
      CompactedFromFacts(nodes, -1);
      var c := -1;
      while c + 1 < |nodes|
        invariant -1 <= c < |nodes|
        invariant NoAdjacentFree(nodes)
        invariant forall j :: 0 <= j <= c && j < |nodes| - 1 ==> !IsFree(nodes[j])
        invariant CompactedFrom(nodes, c) == CompactedFrom(old(nodes), -1)
        decreases |nodes| - c
      {
        // the cursor is the head (never free) or an allocated node
        var cursorFree := c >= 0 && IsFree(nodes[c]);
        if (IsFree(nodes[c + 1]) && c + 2 < |nodes|) || (!IsFree(nodes[c + 1]) && cursorFree) {
          assert IsFree(nodes[c + 1]) && c + 2 < |nodes|;
          CompactStep(nodes, c);
          SwapNodes(c + 1);
          c := c + 1;
          Merge(c + 1);
        } else {
          c := c + 1;
        }
      }
    }

    /** `status_report`: the free total and, for each node, its addresses and owner. */
    method StatusReport() returns (freeSpace: int, report: seq<Line>)
      ensures freeSpace == availableSpace
      ensures Valid() ==> freeSpace == FreeSum(nodes)
      ensures |report| == |nodes|
      ensures forall k :: 0 <= k < |nodes| ==>
        report[k] == Line(nodes[k].startAddress, nodes[k].endAddress, nodes[k].processId)
    {
      freeSpace := availableSpace;
      report := [];
      var k := 0;
      while k < |nodes|
        invariant k <= |nodes| && |report| == k
        invariant forall m :: 0 <= m < k ==>
          report[m] == Line(nodes[m].startAddress, nodes[m].endAddress, nodes[m].processId)
      {
        report := report + [Line(nodes[k].startAddress, nodes[k].endAddress, nodes[k].processId)];
        k := k + 1;
      }
    }
  }
}
