/**
 The block allocator of queue items: items are carved from blocks of thirty and
 recycled through a free list threaded through the first word of each item.
 */
module ItemPool {
  import opened Queue

  const NITEMS: nat := 30

  /** The free list: it starts at `first`, runs through `free` and ends. */
  ghost predicate Chain(first: Item?, free: seq<Item>)
    reads free`next
  {
    && (first == if free == [] then null else free[0])
    && forall i {:trigger free[i].next} :: 0 <= i < |free| ==>
         free[i].next == if i + 1 < |free| then free[i + 1] else null
  }

  ghost predicate Distinct(items: seq<Item>) {
    forall i, j :: 0 <= i < j < |items| ==> items[i] != items[j]
  }

  /** The free list turns up the item freed last first. */
  ghost function Reversed(items: seq<Item>): seq<Item> {
    if items == [] then [] else [items[|items| - 1]] + Reversed(items[..|items| - 1])
  }

  ghost function Members(items: seq<Item>): set<Item> { set x | x in items }

  lemma FirstMember(items: seq<Item>)
    requires items != []
    ensures Members(items) == {items[0]} + Members(items[1..])
  {
  }

  lemma {:induction false} MembersCount(items: seq<Item>)
    requires Distinct(items)
    ensures |Members(items)| == |items|
  {
    if items != [] {
      FirstMember(items);
      MembersCount(items[1..]);
    }
  }

  /** Every item ever carved from a block is either live or free, once. */
  ghost predicate Accounted(free: seq<Item>, live: set<Item>, carved: set<Item>, blocks: nat) {
    && Distinct(free) && (forall i :: 0 <= i < |free| ==> free[i] !in live)
    && carved == live + Members(free) && |carved| == NITEMS * blocks
  }

  /** Live and free items together are thirty times the number of blocks. */
  lemma LiveAndFree(free: seq<Item>, live: set<Item>, carved: set<Item>, blocks: nat)
    requires Accounted(free, live, carved, blocks)
    ensures |live| + |free| == 30 * blocks && |carved| == 30 * blocks
  {
    MembersCount(free);
    assert live !! Members(free);
    assert |live + Members(free)| == |live| + |Members(free)|;
  }

  lemma TakenIsAccounted(free: seq<Item>, live: set<Item>, carved: set<Item>, blocks: nat)
    requires free != [] && Accounted(free, live, carved, blocks)
    ensures free[0] !in live && Accounted(free[1..], live + {free[0]}, carved, blocks)
  {
    FirstMember(free);
  }

  lemma FreedIsAccounted(free: seq<Item>, live: set<Item>, carved: set<Item>, blocks: nat, item: Item)
    requires Accounted(free, live, carved, blocks) && item in live
    ensures Accounted([item] + free, live - {item}, carved, blocks)
    ensures forall i :: 0 <= i < |free| ==> free[i] != item
  {
    hide Distinct, Members;
    FreedStaysDistinct(free, item, live);
    FirstMember([item] + free);
    assert ([item] + free)[1..] == free;
  }

  lemma FreedStaysDistinct(free: seq<Item>, item: Item, live: set<Item>)
    requires Distinct(free) && item in live && forall i :: 0 <= i < |free| ==> free[i] !in live
    ensures Distinct([item] + free)
    ensures forall i :: 0 <= i < |[item] + free| ==> ([item] + free)[i] !in live - {item}
    ensures forall i :: 0 <= i < |free| ==> free[i] != item
  {
  }

  lemma BlockIsAccounted(live: set<Item>, carved: set<Item>, blocks: nat, block: seq<Item>)
    requires Accounted([], live, carved, blocks)
    requires |block| == NITEMS && Distinct(block) && forall i :: 0 <= i < |block| ==> block[i] !in carved
    ensures Accounted(block, live, carved + Members(block), blocks + 1) && Members(block) !! carved
  {
    MembersCount(block);
    assert Members([]) == {};
    assert |carved + Members(block)| == |carved| + |Members(block)|;
  }

  lemma FreeIsNotLive(free: seq<Item>, live: set<Item>, carved: set<Item>, blocks: nat)
    requires Accounted(free, live, carved, blocks)
    ensures forall i :: 0 <= i < |free| ==> free[i] !in live
  {
  }

  ghost predicate OnlyLive(items: seq<Item>, head: Item, free: seq<Item>, live: set<Item>) {
    && (forall i :: 0 <= i < |items| ==> items[i] in live)
    && forall i :: 0 <= i < |free| ==> free[i] != head
  }

  lemma OthersStayLive(items: seq<Item>, head: Item, free: seq<Item>, live: set<Item>)
    requires OnlyLive(items, head, free, live) && items != [] && items[0] != head
    requires forall i :: 0 < i < |items| ==> items[i] != items[0]
    ensures OnlyLive(items[1..], head, [items[0]] + free, live - {items[0]})
  {
  }

  lemma ChainTail(first: Item?, free: seq<Item>)
    requires Chain(first, free) && free != []
    ensures first == free[0] && Chain(free[0].next, free[1..])
  {
    assert free[0].next == if 1 < |free| then free[1] else null;
  }

  class Pool {
    var free_item_ptr: Item?
    ghost var free: seq<Item>
    ghost var live: set<Item>
    ghost var carved: set<Item>
    ghost var blocks: nat

    /** Every item ever carved from a block is either live or on the acyclic free list, once. */
    ghost predicate Valid()
      reads this, free`next
    {
      Chain(free_item_ptr, free) && Accounted(free, live, carved, blocks)
    }

    constructor ()
      ensures Valid() && free == [] && live == {} && carved == {} && blocks == 0
    {
      free_item_ptr, free, live, carved, blocks := null, [], {}, {}, 0;
    }

    /** ALLOC_NEW_ITEM, when malloc succeeds. */
    method AllocNewItem() returns (new_ptr: Item)
      requires Valid()
      modifies this
      ensures Valid() && live == old(live) + {new_ptr} && new_ptr !in old(live)
      ensures old(free) != [] ==>
        new_ptr == old(free)[0] && free == old(free)[1..] && carved == old(carved) && blocks == old(blocks)
      ensures old(free) == [] ==>
        && fresh(new_ptr) && (forall i :: 0 <= i < |free| ==> fresh(free[i])) && |free| == 29
        && Members([new_ptr] + free) !! old(carved)
        && carved == old(carved) + Members([new_ptr] + free) && blocks == old(blocks) + 1
    {
      hide Distinct, Accounted, Members;
      if free_item_ptr == null {
        CarveBlock();
      }
      ChainTail(free_item_ptr, free);
      TakenIsAccounted(free, live, carved, blocks);
      assert free == [free[0]] + free[1..];
      new_ptr := free_item_ptr;
      free_item_ptr := free_item_ptr.next;
      live := live + {new_ptr};
      free := free[1..];
    }

    /** The part of ALLOC_NEW_ITEM for an empty free list. */
    method CarveBlock()
      requires Valid() && free_item_ptr == null
      modifies this
      ensures Valid() && old(free) == [] && live == old(live) && free_item_ptr != null
      ensures |free| == NITEMS && forall i :: 0 <= i < |free| ==> fresh(free[i])
      ensures Members(free) !! old(carved) && carved == old(carved) + Members(free) && blocks == old(blocks) + 1
    {
      hide Distinct, Accounted, Members;
      assert free == [];
      var block := MallocBlock(carved);
      LinkBlock(block);
      BlockIsAccounted(live, carved, blocks, block);
      free_item_ptr := block[0];
      free, carved, blocks := block, carved + Members(block), blocks + 1;
    }

    /** FREE_ITEM */
    method FreeItem(item: Item)
      requires Valid() && item in live
      modifies this, item`next
      ensures Valid() && free == [item] + old(free) && live == old(live) - {item}
      ensures carved == old(carved) && blocks == old(blocks)
    {
      hide Distinct, Accounted, Members;
      FreedIsAccounted(free, live, carved, blocks, item);
      item.next := free_item_ptr;
      free_item_ptr := item;
      free := [item] + free;
      live := live - {item};
    }

    /** NUM_ITEMS_FREE */
    method NumItemsFree() returns (num_items: nat)
      requires Valid()
      ensures num_items == |free|
    {
      var ptr := free_item_ptr;
      num_items := 0;
      while ptr != null
        invariant num_items <= |free| && ptr == if num_items < |free| then free[num_items] else null
        decreases |free| - num_items
      {
        assert free[num_items].next == if num_items + 1 < |free| then free[num_items + 1] else null;
        ptr := ptr.next;
        num_items := num_items + 1;
      }
    }

    /** Only live items are queued, and the queue's head is not a free item. */
    ghost predicate QueueOfLive(ring: Ring)
      reads this, ring, ring.head, ring.cycle
      requires ring.Valid()
    {
      OnlyLive(ring.Items(), ring.head, free, live)
    }

    /** Taking the first item off the queue leaves the free list alone. */
    method TakeFirst(ring: Ring) returns (ptmp: Item)
      requires Valid() && ring.Valid() && ring.Items() != [] && QueueOfLive(ring)
      modifies ring`cycle, ring.cycle`next, ring.cycle`prev
      ensures Valid() && ring.Valid() && QueueOfLive(ring)
      ensures ring.Items() == old(ring.Items())[1..] && ring.cycle == WithRemoved(old(ring.cycle), 1)
      ensures ptmp == old(ring.Items())[0] && ptmp !in ring.cycle && ptmp in live
    {
      hide Inner, Distinct, WithRemoved, Linked, Accounted;
      ghost var c, items := ring.cycle, ring.Items();
      FirstItem(c);
      CycleNodes(c);
      FreeIsNotLive(free, live, carved, blocks);
      assert forall i, j :: 0 <= i < |free| && 0 <= j < |c| ==> free[i] != c[j] by {
        assert c[|c| - 1] == c[0];
      }
      ptmp := ring.GetHeadItem();
      ring.Remove(ptmp, 1);
      assert items[..0] + items[1..] == items[1..];
    }

    /** The loop body of RESET_QUEUE. */
    method ResetFirst(ring: Ring)
      requires Valid() && ring.Valid() && ring.Items() != [] && QueueOfLive(ring)
      modifies this, ring`cycle, ring.cycle`next, ring.cycle`prev
      ensures Valid() && ring.Valid() && ring.Items() == old(ring.Items())[1..]
        && ring.cycle == WithRemoved(old(ring.cycle), 1)
      ensures free == [old(ring.Items())[0]] + old(free) && live == old(live) - {old(ring.Items())[0]}
      ensures carved == old(carved) && blocks == old(blocks)
      ensures QueueOfLive(ring)
    {
      hide Inner, Distinct, WithRemoved, Chain, OnlyLive, Accounted, Linked;
      ghost var items := ring.Items();
      FirstItem(ring.cycle);
      FirstIsAlone(ring.cycle);
      OthersStayLive(items, ring.head, free, live);
      var ptmp := TakeFirst(ring);
      FreeItem(ptmp);
    }

    /** RESET_QUEUE: every queued item goes to the free list. */
    method ResetQueue(ring: Ring)
      requires Valid() && ring.Valid() && QueueOfLive(ring)
      modifies this, ring`cycle, (set x | x in ring.cycle)`next, (set x | x in ring.cycle)`prev
      ensures Valid() && ring.Valid() && ring.Items() == []
      ensures free == Reversed(old(ring.Items())) + old(free) && carved == old(carved) && blocks == old(blocks)
      ensures live == old(live) - Members(old(ring.Items()))
    {
      hide Linked, WithRemoved, Inner, Reversed, Valid, Distinct, OnlyLive, Members;
      ghost var nodes, items, was := (set x | x in ring.cycle), ring.Items(), free;
      ghost var freed := 0;
      NothingReversed(items);
      assert forall i :: 0 <= i < |ring.cycle| ==> ring.cycle[i] in ring.cycle;
      var empty := ring.IsNull();
      while !empty
        invariant Valid() && ring.Valid() && carved == old(carved) && blocks == old(blocks)
        invariant empty <==> ring.Items() == []
        invariant forall i :: 0 <= i < |ring.cycle| ==> ring.cycle[i] in nodes
        invariant freed <= |items| && ring.Items() == items[freed..]
        invariant QueueOfLive(ring)
        invariant free == Reversed(items[..freed]) + was && live == old(live) - Members(items[..freed])
        decreases |items| - freed
      {
        ghost var c := ring.cycle;
        ResetFirst(ring);
        RemovedNodes(c, 1);
        forall i | 0 <= i < |ring.cycle| ensures ring.cycle[i] in nodes {
          assert ring.cycle[i] == if i < 1 then c[i] else c[i + 1];
        }
        ReversedStep(items, freed, was, old(live));
        freed := freed + 1;
        empty := ring.IsNull();
      }
      assert items[..|items|] == items;
    }
  }

  lemma FirstIsAlone(c: seq<Item>)
    requires IsCycle(c) && Inner(c) != []
    ensures Inner(c)[0] != c[0] && forall i :: 0 < i < |Inner(c)| ==> Inner(c)[i] != Inner(c)[0]
  {
  }

  lemma CycleNodes(c: seq<Item>)
    requires IsCycle(c)
    ensures forall i :: 0 < i < |c| - 1 ==> c[i] == Inner(c)[i - 1]
  {
  }

  lemma FirstItem(c: seq<Item>)
    requires IsCycle(c) && Inner(c) != []
    ensures |c| > 2 && Inner(c)[0] == c[1]
  {
  }

  lemma ReversedStep(items: seq<Item>, n: nat, was: seq<Item>, live: set<Item>)
    requires n < |items|
    ensures items[n..][1..] == items[n + 1..]
    ensures Reversed(items[..n + 1]) + was == [items[n..][0]] + (Reversed(items[..n]) + was)
    ensures live - Members(items[..n + 1]) == live - Members(items[..n]) - {items[n..][0]}
  {
    assert items[..n + 1] == items[..n] + [items[n]];
  }

  lemma NothingReversed(items: seq<Item>)
    ensures items[..0] == [] && Reversed(items[..0]) == [] && Members(items[..0]) == {}
  {
  }

  /** The memory of one block: items nobody else knows. */
  method MallocBlock(ghost carved: set<Item>) returns (block: seq<Item>)
    ensures |block| == NITEMS && Distinct(block)
    ensures forall i :: 0 <= i < |block| ==> fresh(block[i]) && block[i] !in carved
  {
    block := [];
    while |block| < NITEMS
      invariant |block| <= NITEMS && Distinct(block)
      invariant forall i :: 0 <= i < |block| ==> fresh(block[i]) && block[i] !in carved
    {
      var item := new Item.Unset();
      block := block + [item];
    }
  }

  /** The loop that links the items of a new block. */
  method LinkBlock(block: seq<Item>)
    requires |block| == NITEMS && Distinct(block)
    modifies (set x | x in block)`next
    ensures Chain(block[0], block)
  {
    var free_item_ptr := block[0];
    for ii := 0 to NITEMS - 1
      invariant free_item_ptr == block[ii]
      invariant forall i {:trigger block[i].next} :: 0 <= i < ii ==> block[i].next == block[i + 1]
    {
      free_item_ptr.next := block[ii + 1];
      free_item_ptr := free_item_ptr.next;
    }
    free_item_ptr.next := null;
  }
}
