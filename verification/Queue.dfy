/**
 The intrusive circular queue: items linked both ways in one cycle through a head node,
 and the sorted insertions built on it.
 */
module Queue {

  /** A structure that can be queued. `next` is its first word, which the free list reuses. */
  class Item {
    var next: Item?
    var prev: Item?
    var key: int

    constructor Unset() {
    }
  }

  /** The nodes in cycle order: the head, the items front to tail, and the head again. */
  ghost predicate IsCycle(c: seq<Item>) {
    |c| >= 2 && c[0] == c[|c| - 1] && forall i, j :: 0 <= i < j < |c| - 1 ==> c[i] != c[j]
  }

  /** next and prev are mutually inverse along the cycle. */
  ghost predicate Linked(c: seq<Item>)
    reads c
  {
    && (forall i {:trigger c[i].next} :: 0 <= i < |c| - 1 ==> c[i].next == c[i + 1])
    && (forall i {:trigger c[i].prev} :: 0 < i < |c| ==> c[i].prev == c[i - 1])
  }

  /** The items of a cycle. */
  ghost function Inner(c: seq<Item>): (items: seq<Item>)
    requires |c| >= 2
    ensures |items| == |c| - 2
  {
    c[1..|c| - 1]
  }

  ghost function WithInserted(c: seq<Item>, p: nat, item: Item): seq<Item>
    requires p < |c|
  {
    c[..p + 1] + [item] + c[p + 1..]
  }

  ghost function WithRemoved(c: seq<Item>, p: nat): seq<Item>
    requires p < |c|
  {
    c[..p] + c[p + 1..]
  }

  lemma InnerInserted(c: seq<Item>, p: nat, item: Item)
    requires p + 1 < |c|
    ensures |WithInserted(c, p, item)| == |c| + 1 && WithInserted(c, p, item)[0] == c[0]
    ensures Inner(WithInserted(c, p, item)) == Inner(c)[..p] + [item] + Inner(c)[p..]
  {
  }

  lemma InnerRemoved(c: seq<Item>, p: nat)
    requires 1 <= p < |c| - 1
    ensures |WithRemoved(c, p)| == |c| - 1 && WithRemoved(c, p)[0] == c[0]
    ensures Inner(WithRemoved(c, p)) == Inner(c)[..p - 1] + Inner(c)[p..]
  {
    var d := WithRemoved(c, p);
    forall i | 0 <= i < |c| - 3 ensures Inner(d)[i] == (Inner(c)[..p - 1] + Inner(c)[p..])[i] {
      assert Inner(d)[i] == d[i + 1];
    }
  }

  lemma RemovedNodes(c: seq<Item>, p: nat)
    requires p < |c|
    ensures |WithRemoved(c, p)| == |c| - 1
    ensures forall i :: 0 <= i < |c| - 1 ==> WithRemoved(c, p)[i] == if i < p then c[i] else c[i + 1]
  {
  }

  lemma InsertedNodes(c: seq<Item>, p: nat, item: Item)
    requires p < |c|
    ensures forall x :: x in WithInserted(c, p, item) <==> x in c || x == item
  {
    var d := WithInserted(c, p, item);
    forall x | x in c || x == item ensures x in d {
      if x in c {
        var i :| 0 <= i < |c| && c[i] == x;
        assert d[if i <= p then i else i + 1] == x;
      } else {
        assert d[p + 1] == item;
      }
    }
  }

  lemma InsertedLinked(c: seq<Item>, p: nat, item: Item)
    requires IsCycle(c) && item !in c && p < |c| - 1
    requires c[p].next == item && item.next == c[p + 1] && item.prev == c[p] && c[p + 1].prev == item
    requires forall i :: 0 <= i < |c| - 1 && i != p ==> c[i].next == c[i + 1]
    requires forall i :: 0 < i < |c| && i != p + 1 ==> c[i].prev == c[i - 1]
    ensures IsCycle(WithInserted(c, p, item)) && Linked(WithInserted(c, p, item))
  {
    var d := WithInserted(c, p, item);
    assert forall i :: 0 <= i < |d| ==> d[i] == if i <= p then c[i] else if i == p + 1 then item else c[i - 1];
    assert forall i :: 0 <= i < |d| - 1 ==> d[i].next == d[i + 1];
    assert forall i :: 0 < i < |d| ==> d[i].prev == d[i - 1];
  }

  lemma RemovedLinked(c: seq<Item>, p: nat)
    requires IsCycle(c) && 0 < p < |c| - 1
    requires c[p - 1].next == c[p + 1] && c[p + 1].prev == c[p - 1]
    requires forall i :: 0 <= i < |c| - 1 && i != p && i != p - 1 ==> c[i].next == c[i + 1]
    requires forall i :: 0 < i < |c| && i != p && i != p + 1 ==> c[i].prev == c[i - 1]
    ensures IsCycle(WithRemoved(c, p)) && Linked(WithRemoved(c, p)) && c[p] !in WithRemoved(c, p)
  {
    var d := WithRemoved(c, p);
    assert forall i :: 0 <= i < |d| ==> d[i] == if i < p then c[i] else c[i + 1];
    assert forall i :: 0 <= i < |d| - 1 ==> d[i].next == d[i + 1];
    assert forall i :: 0 < i < |d| ==> d[i].prev == d[i - 1];
  }

  /** INSERT_ITEM_AFTER(at, item), where `at` is node p of the cycle. */
  method InsertItemAfter(at: Item, item: Item, ghost c: seq<Item>, ghost p: nat)
    requires IsCycle(c) && Linked(c) && item !in c && p < |c| - 1 && at == c[p]
    modifies c`next, c`prev, item`next, item`prev
    ensures IsCycle(WithInserted(c, p, item)) && Linked(WithInserted(c, p, item))
  {
    assert c[p].next == c[p + 1];
    item.next := at.next;
    item.prev := at;
    at.next.prev := item;
    at.next := item;
    InsertedLinked(c, p, item);
  }

  /** INSERT_ITEM_BEFORE(at, item), where `at` is the node after node p. */
  method InsertItemBefore(at: Item, item: Item, ghost c: seq<Item>, ghost p: nat)
    requires IsCycle(c) && Linked(c) && item !in c && p < |c| - 1 && at == c[p + 1]
    modifies c`next, c`prev, item`next, item`prev
    ensures IsCycle(WithInserted(c, p, item)) && Linked(WithInserted(c, p, item))
  {
    assert c[p + 1].prev == c[p];
    item.next := at;
    item.prev := at.prev;
    at.prev.next := item;
    at.prev := item;
    InsertedLinked(c, p, item);
  }

  /** REMOVE_ITEM, where `item` is node p of the cycle. The item's own links stay as they were. */
  method RemoveItem(item: Item, ghost c: seq<Item>, ghost p: nat)
    requires IsCycle(c) && Linked(c) && 0 < p < |c| - 1 && item == c[p]
    modifies c`next, c`prev
    ensures IsCycle(WithRemoved(c, p)) && Linked(WithRemoved(c, p)) && item !in WithRemoved(c, p)
    ensures item.next == old(item.next) && item.prev == old(item.prev)
  {
    assert c[p].next == c[p + 1] && c[p].prev == c[p - 1];
    item.next.prev := item.prev;
    item.prev.next := item.next;
    RemovedLinked(c, p);
  }

  /** The two assignments of DEQUEUE_ITEM. On an empty queue they change nothing. */
  method DequeueFirst(queue: Item, item: Item, ghost c: seq<Item>)
    requires IsCycle(c) && Linked(c) && queue == c[0] && item == c[1]
    modifies c`next, c`prev
    ensures if |c| == 2 then Linked(c)
            else IsCycle(WithRemoved(c, 1)) && Linked(WithRemoved(c, 1)) && item !in WithRemoved(c, 1)
  {
    assert c[1].next == if |c| == 2 then c[1] else c[2];
    queue.next := item.next;
    item.next.prev := queue;
    if |c| > 2 {
      RemovedLinked(c, 1);
    }
  }

  lemma InnerEmpty(c: seq<Item>)
    requires IsCycle(c)
    ensures Inner(c) == [] <==> c[1] == c[0]
    ensures Inner(c) == [] <==> |c| == 2
  {
  }

  lemma InnerFirst(c: seq<Item>)
    requires IsCycle(c) && |c| > 2
    ensures Inner(c) != [] && Inner(c)[0] == c[1] && Inner(c)[1..] == Inner(c)[..0] + Inner(c)[1..]
  {
  }

  // ---------------------------------------------------------------- the queue

  /** A queue and, as a ghost, the cycle its links form. */
  class Ring {
    const head: Item
    ghost var cycle: seq<Item>

    ghost predicate Valid()
      reads this, head, cycle
    {
      IsCycle(cycle) && cycle[0] == head && Linked(cycle)
    }

    /** The queued items, front to tail. */
    ghost function Items(): seq<Item>
      reads this, head, cycle
      requires Valid()
    {
      Inner(cycle)
    }

    /** INIT_QUEUE */
    constructor (queue: Item)
      modifies queue`next, queue`prev
      ensures Valid() && head == queue && Items() == []
    {
      head := queue;
      cycle := [queue, queue];
      new;
      queue.next := queue;
      queue.prev := queue;
    }

    /** IS_NULL */
    method IsNull() returns (empty: bool)
      requires Valid()
      ensures empty <==> Items() == []
    {
      assert cycle[0].next == cycle[1];
      empty := head.next == head;
    }

    /** GET_HEAD_ITEM */
    method GetHeadItem() returns (item: Item?)
      requires Valid()
      ensures item == if Items() == [] then null else Items()[0]
    {
      assert cycle[0].next == cycle[1];
      item := if head.next == head then null else head.next;
    }

    /** GET_NEXT_ITEM, for item number i. */
    method GetNextItem(item: Item, ghost i: nat) returns (follower: Item?)
      requires Valid() && i < |Items()| && item == Items()[i]
      ensures follower == if i + 1 < |Items()| then Items()[i + 1] else null
    {
      assert cycle[i + 1].next == cycle[i + 2];
      follower := if item.next == head then null else item.next;
    }

    /** INSERT_ITEM_AFTER. Node 0 of the cycle is the head, node p item number p - 1. */
    method InsertAfter(at: Item, item: Item, ghost p: nat)
      requires Valid() && item !in cycle && p <= |Items()| && at == cycle[p]
      modifies this`cycle, cycle`next, cycle`prev, item`next, item`prev
      ensures Valid() && cycle == WithInserted(old(cycle), p, item)
      ensures Items() == old(Items()[..p] + [item] + Items()[p..])
    {
      hide WithInserted, Inner, Linked;
      InnerInserted(cycle, p, item);
      InsertItemAfter(at, item, cycle, p);
      cycle := WithInserted(cycle, p, item);
    }

    /** INSERT_ITEM_BEFORE: `at` is the node after node p. */
    method InsertBefore(at: Item, item: Item, ghost p: nat)
      requires Valid() && item !in cycle && p <= |Items()| && at == cycle[p + 1]
      modifies this`cycle, cycle`next, cycle`prev, item`next, item`prev
      ensures Valid() && cycle == WithInserted(old(cycle), p, item)
      ensures Items() == old(Items()[..p] + [item] + Items()[p..])
    {
      hide WithInserted, Inner, Linked;
      InnerInserted(cycle, p, item);
      InsertItemBefore(at, item, cycle, p);
      cycle := WithInserted(cycle, p, item);
    }

    /** ENQUEUE_HEAD_ITEM */
    method EnqueueHead(item: Item)
      requires Valid() && item !in cycle
      modifies this`cycle, cycle`next, cycle`prev, item`next, item`prev
      ensures Valid() && cycle == WithInserted(old(cycle), 0, item) && Items() == [item] + old(Items())
    {
      InsertAfter(head, item, 0);
    }

    /** ENQUEUE_ITEM */
    method Enqueue(item: Item)
      requires Valid() && item !in cycle
      modifies this`cycle, cycle`next, cycle`prev, item`next, item`prev
      ensures Valid() && cycle == WithInserted(old(cycle), |old(cycle)| - 2, item) && Items() == old(Items()) + [item]
    {
      InsertBefore(head, item, |cycle| - 2);
    }

    /** REMOVE_ITEM */
    method Remove(item: Item, ghost p: nat)
      requires Valid() && 1 <= p <= |Items()| && item == cycle[p]
      modifies this`cycle, cycle`next, cycle`prev
      ensures Valid() && cycle == WithRemoved(old(cycle), p) && item !in cycle
      ensures Items() == old(Items()[..p - 1] + Items()[p..])
      ensures item.next == old(item.next) && item.prev == old(item.prev)
    {
      hide WithRemoved, Inner, Linked;
      InnerRemoved(cycle, p);
      RemoveItem(item, cycle, p);
      cycle := WithRemoved(cycle, p);
    }

    /** DEQUEUE_ITEM */
    method Dequeue() returns (item: Item?)
      requires Valid()
      modifies this`cycle, cycle`next, cycle`prev
      ensures Valid()
      ensures if old(Items()) == [] then item == null && cycle == old(cycle)
              else
                && item == old(Items())[0] && Items() == old(Items())[1..] && cycle == WithRemoved(old(cycle), 1)
                && item !in cycle
    {
      hide WithRemoved, Inner;
      assert cycle[0].next == cycle[1];
      item := head.next;
      if item == head {
        item := null;
        InnerEmpty(cycle);
      } else {
        InnerRemoved(cycle, 1);
        InnerFirst(cycle);
        DequeueFirst(head, item, cycle);
        cycle := WithRemoved(cycle, 1);
      }
    }

    /** DEQUEUE_ITEM_NOCHECK: an empty queue stays as it is, and the head is returned. */
    method DequeueNoCheck() returns (item: Item)
      requires Valid()
      modifies this`cycle, cycle`next, cycle`prev
      ensures Valid()
      ensures if old(Items()) == [] then item == head && cycle == old(cycle)
              else item == old(Items())[0] && Items() == old(Items())[1..]
    {
      hide WithRemoved, Inner;
      assert cycle[0].next == cycle[1];
      item := head.next;
      DequeueFirst(head, item, cycle);
      if |cycle| > 2 {
        InnerRemoved(cycle, 1);
        InnerFirst(cycle);
        cycle := WithRemoved(cycle, 1);
      } else {
        InnerEmpty(cycle);
      }
    }

    /** The search of INSERT_ITEM_INCREASING: back from the tail to the first item whose key is not larger. */
    method FindNotLarger(key: int) returns (ptmp: Item, ghost p: nat)
      requires Valid()
      ensures p <= |Items()| && ptmp == cycle[p] && (p > 0 ==> Items()[p - 1].key <= key)
      ensures forall q :: p <= q < |Items()| ==> Items()[q].key > key
    {
      p := |cycle| - 2;
      assert cycle[|cycle| - 1].prev == cycle[p];
      ptmp := head.prev;
      while ptmp != head
        invariant 0 <= p <= |cycle| - 2 && ptmp == cycle[p]
        invariant forall q :: p < q < |cycle| - 1 ==> cycle[q].key > key
        decreases p
      {
        if ptmp.key <= key { break; }
        assert cycle[p].prev == cycle[p - 1];
        ptmp := ptmp.prev;
        p := p - 1;
      }
    }

    /** The search of INSERT_ITEM_DECREASING. */
    method FindNotSmaller(key: int) returns (ptmp: Item, ghost p: nat)
      requires Valid()
      ensures p <= |Items()| && ptmp == cycle[p] && (p > 0 ==> Items()[p - 1].key >= key)
      ensures forall q :: p <= q < |Items()| ==> Items()[q].key < key
    {
      p := |cycle| - 2;
      assert cycle[|cycle| - 1].prev == cycle[p];
      ptmp := head.prev;
      while ptmp != head
        invariant 0 <= p <= |cycle| - 2 && ptmp == cycle[p]
        invariant forall q :: p < q < |cycle| - 1 ==> cycle[q].key < key
        decreases p
      {
        if ptmp.key >= key { break; }
        assert cycle[p].prev == cycle[p - 1];
        ptmp := ptmp.prev;
        p := p - 1;
      }
    }

    /** INSERT_ITEM_INCREASING */
    method InsertIncreasing(item: Item) returns (ghost p: nat)
      requires Valid() && item !in cycle
      modifies this`cycle, cycle`next, cycle`prev, item`next, item`prev
      ensures Valid() && p < |old(cycle)| - 1 && cycle == WithInserted(old(cycle), p, item)
      ensures Entries(Items()) == InsertEntry(old(Entries(Items())), Entry(item, item.key))
    {
      hide IsCycle, Linked, InsertEntry, WithInserted, Entries;
      ghost var items := Items();
      var ptmp;
      ptmp, p := FindNotLarger(item.key);
      InsertedAt(items, item, p);
      ghost var es := Entries(PlacedAt(items, p, item));
      InsertAfter(ptmp, item, p);
      assert forall i :: 0 <= i < |es| ==> Entries(Items())[i] == es[i];
    }

    /** INSERT_ITEM_DECREASING */
    method InsertDecreasing(item: Item) returns (ghost p: nat)
      requires Valid() && item !in cycle
      modifies this`cycle, cycle`next, cycle`prev, item`next, item`prev
      ensures Valid() && p < |old(cycle)| - 1 && cycle == WithInserted(old(cycle), p, item)
      ensures Negated(Entries(Items())) == InsertEntry(Negated(old(Entries(Items()))), Entry(item, -item.key))
    {
      hide IsCycle, Linked, InsertEntry, WithInserted, Entries, Negated;
      ghost var items := Items();
      var ptmp;
      ptmp, p := FindNotSmaller(item.key);
      EntryBelongsAt(items, item.key, p);
      EntriesInserted(items, p, item);
      ghost var es := Entries(PlacedAt(items, p, item));
      NegatedInsertEntry(Entries(items), item, item.key, p, es);
      InsertAfter(ptmp, item, p);
      assert forall i :: 0 <= i < |es| ==> Entries(Items())[i] == es[i];
    }
  }

  // ---------------------------------------------------------------- sorting

  /** An item with the key it has. */
  datatype Entry = Entry(item: Item, key: int)

  ghost function Entries(items: seq<Item>): (es: seq<Entry>)
    reads items`key
    ensures |es| == |items| && forall i :: 0 <= i < |items| ==> es[i] == Entry(items[i], items[i].key)
  {
    if items == [] then [] else
      Entries(items[..|items| - 1]) + [Entry(items[|items| - 1], items[|items| - 1].key)]
  }

  lemma {:induction false} EntriesConcat(a: seq<Item>, b: seq<Item>)
    ensures Entries(a + b) == Entries(a) + Entries(b)
  {
    if b == [] {
      assert a + b == a;
    } else {
      var front, last := b[..|b| - 1], b[|b| - 1];
      EntriesConcat(a, front);
      assert (a + b)[..|a + b| - 1] == a + front;
    }
  }

  ghost function PlacedAt<T>(s: seq<T>, p: nat, x: T): seq<T>
    requires p <= |s|
  {
    s[..p] + [x] + s[p..]
  }

  lemma EntriesInserted(items: seq<Item>, p: nat, item: Item)
    requires p <= |items|
    ensures Entries(PlacedAt(items, p, item)) == PlacedAt(Entries(items), p, Entry(item, item.key))
  {
    var a, b := items[..p], items[p..];
    EntriesConcat(a, b);
    assert a + b == items;
    EntriesConcat(a, [item]);
    EntriesConcat(a + [item], b);
    assert Entries([item]) == [Entry(item, item.key)];
    assert Entries(items)[..p] == Entries(a) && Entries(items)[p..] == Entries(b);
  }

  /** The same entries in the order of decreasing keys. */
  ghost function Negated(es: seq<Entry>): (r: seq<Entry>)
    ensures |r| == |es| && forall i :: 0 <= i < |es| ==> r[i] == Entry(es[i].item, -es[i].key)
  {
    seq(|es|, i requires 0 <= i < |es| => Entry(es[i].item, -es[i].key))
  }

  lemma NegatedInserted(es: seq<Entry>, x: Entry, p: nat)
    requires p <= |es|
    ensures Negated(PlacedAt(es, p, x)) == PlacedAt(Negated(es), p, Entry(x.item, -x.key))
  {
  }

  /** By decreasing keys, an item with this key belongs at p. */
  ghost predicate BelongsAt(es: seq<Entry>, key: int, p: nat) {
    p <= |es| && (p > 0 ==> es[p - 1].key >= key) && forall q :: p <= q < |es| ==> es[q].key < key
  }

  lemma NegatedInsertEntry(es: seq<Entry>, item: Item, key: int, p: nat, placed: seq<Entry>)
    requires BelongsAt(es, key, p) && placed == PlacedAt(es, p, Entry(item, key))
    ensures Negated(placed) == InsertEntry(Negated(es), Entry(item, -key))
  {
    hide InsertEntry;
    var x := Entry(item, key);
    InsertEntryAt(Negated(es), Entry(x.item, -x.key), p);
    NegatedInserted(es, x, p);
  }

  lemma EntryBelongsAt(items: seq<Item>, key: int, p: nat)
    requires p <= |items| && (p > 0 ==> items[p - 1].key >= key)
    requires forall q :: p <= q < |items| ==> items[q].key < key
    ensures BelongsAt(Entries(items), key, p)
  {
    hide Entries;
  }

  lemma InsertedAt(items: seq<Item>, item: Item, p: nat)
    requires p <= |items| && (p > 0 ==> items[p - 1].key <= item.key)
    requires forall q :: p <= q < |items| ==> items[q].key > item.key
    ensures Entries(PlacedAt(items, p, item)) == InsertEntry(Entries(items), Entry(item, item.key))
  {
    hide Entries, InsertEntry;
    InsertEntryAt(Entries(items), Entry(item, item.key), p);
    EntriesInserted(items, p, item);
  }

  /** Behind the last entry whose key is not larger. */
  ghost function InsertEntry(es: seq<Entry>, x: Entry): (r: seq<Entry>)
    ensures |r| == |es| + 1
  {
    if es == [] || es[|es| - 1].key <= x.key then es + [x]
    else InsertEntry(es[..|es| - 1], x) + [es[|es| - 1]]
  }

  lemma {:induction false} InsertEntryAt(es: seq<Entry>, x: Entry, p: nat)
    requires p <= |es| && (p > 0 ==> es[p - 1].key <= x.key) && forall q :: p <= q < |es| ==> es[q].key > x.key
    ensures InsertEntry(es, x) == PlacedAt(es, p, x)
  {
    if p < |es| {
      var front := es[..|es| - 1];
      InsertEntryAt(front, x, p);
      assert front[..p] == es[..p] && es[p..] == front[p..] + [es[|es| - 1]];
    } else {
      assert es[..p] == es && es[p..] == [];
    }
  }

  /** The queue after inserting the entries one by one. */
  ghost function SortEntries(xs: seq<Entry>): seq<Entry> {
    if xs == [] then [] else InsertEntry(SortEntries(xs[..|xs| - 1]), xs[|xs| - 1])
  }

  ghost predicate Sorted(es: seq<Entry>) {
    forall i, j :: 0 <= i < j < |es| ==> es[i].key <= es[j].key
  }

  /** The entries with a given key, in order. */
  ghost function WithKey(es: seq<Entry>, key: int): seq<Entry> {
    if es == [] then [] else
      var last := es[|es| - 1];
      WithKey(es[..|es| - 1], key) + if last.key == key then [last] else []
  }

  lemma {:induction false} InsertKeepsEntries(es: seq<Entry>, x: Entry)
    ensures multiset(InsertEntry(es, x)) == multiset(es) + multiset{x}
    ensures forall i :: 0 <= i < |InsertEntry(es, x)| ==> InsertEntry(es, x)[i] in es || InsertEntry(es, x)[i] == x
  {
    if es != [] && es[|es| - 1].key > x.key {
      var front, last := es[..|es| - 1], es[|es| - 1];
      assert es == front + [last];
      InsertKeepsEntries(front, x);
    }
  }

  lemma {:induction false} InsertKeepsSorted(es: seq<Entry>, x: Entry)
    requires Sorted(es)
    ensures Sorted(InsertEntry(es, x))
  {
    if es != [] && es[|es| - 1].key > x.key {
      var front, last := es[..|es| - 1], es[|es| - 1];
      InsertKeepsSorted(front, x);
      InsertKeepsEntries(front, x);
      var r := InsertEntry(front, x);
      forall i | 0 <= i < |r| ensures r[i].key <= last.key {
        if r[i] in front {
          var k :| 0 <= k < |front| && front[k] == r[i];
          assert es[k] == r[i] && es[|es| - 1] == last && es[k].key <= es[|es| - 1].key;
        } else {
          assert r[i] == x;
        }
      }
    }
  }

  lemma {:induction false} InsertIsStable(es: seq<Entry>, x: Entry, key: int)
    requires Sorted(es)
    ensures WithKey(InsertEntry(es, x), key) == WithKey(es, key) + if x.key == key then [x] else []
  {
    var r := InsertEntry(es, x);
    if es == [] || es[|es| - 1].key <= x.key {
      assert r[..|r| - 1] == es;
    } else {
      var front, last := es[..|es| - 1], es[|es| - 1];
      InsertIsStable(front, x, key);
      assert r[..|r| - 1] == InsertEntry(front, x);
    }
  }

  /** Inserting entries one by one in increasing order gives their stable sort: sorted, the same entries,
      and entries with equal keys in the order they were inserted. */
  lemma {:induction false} SortIsStable(xs: seq<Entry>)
    ensures Sorted(SortEntries(xs)) && multiset(SortEntries(xs)) == multiset(xs)
    ensures forall key :: WithKey(SortEntries(xs), key) == WithKey(xs, key)
  {
    if xs != [] {
      var front, last := xs[..|xs| - 1], xs[|xs| - 1];
      SortIsStable(front);
      InsertKeepsSorted(SortEntries(front), last);
      InsertKeepsEntries(SortEntries(front), last);
      assert xs == front + [last];
      forall key ensures WithKey(SortEntries(xs), key) == WithKey(xs, key) {
        InsertIsStable(SortEntries(front), last, key);
      }
    }
  }

  lemma WithKeyLast(front: seq<Entry>, x: Entry, key: int)
    ensures WithKey(front + [x], key) == if x.key == key then WithKey(front, key) + [x] else WithKey(front, key)
  {
    assert (front + [x])[..|front|] == front;
  }

  /** A key that occurs in a sorted sequence is at most the last one. */
  lemma {:induction false} OccursUpToLast(es: seq<Entry>, key: int)
    requires Sorted(es)
    ensures WithKey(es, key) != [] ==> es != [] && key <= es[|es| - 1].key
  {
    if es != [] {
      OccursUpToLast(es[..|es| - 1], key);
    }
  }

  /** Sequences sorted by key that agree on the entries of every key, in order, are the same: the
      stable sort is the only one. */
  lemma {:induction false} StableSortIsUnique(a: seq<Entry>, b: seq<Entry>)
    requires Sorted(a) && Sorted(b) && forall key :: WithKey(a, key) == WithKey(b, key)
    ensures a == b
  {
    hide WithKey;
    if a != [] || b != [] {
      if a != [] {
        LastOccurs(a);
        OccursUpToLast(b, a[|a| - 1].key);
      }
      if b != [] {
        LastOccurs(b);
        OccursUpToLast(a, b[|b| - 1].key);
      }
      var fa, x, fb, y := a[..|a| - 1], a[|a| - 1], b[..|b| - 1], b[|b| - 1];
      assert a == fa + [x] && b == fb + [y] && x.key == y.key;
      forall key ensures WithKey(fa, key) == WithKey(fb, key) && x == y {
        WithKeyLast(fa, x, key);
        WithKeyLast(fb, y, key);
        WithKeyLast(fa, x, x.key);
        WithKeyLast(fb, y, x.key);
        SameLast(WithKey(fa, x.key), x, WithKey(fb, x.key), y);
      }
      StableSortIsUnique(fa, fb);
    }
  }

  lemma LastOccurs(es: seq<Entry>)
    requires es != []
    ensures WithKey(es, es[|es| - 1].key) != []
  {
  }

  lemma SameLast(s: seq<Entry>, x: Entry, t: seq<Entry>, y: Entry)
    requires s + [x] == t + [y]
    ensures s == t && x == y
  {
    assert |s + [x]| == |t + [y]|;
    assert x == (s + [x])[|s|] && y == (t + [y])[|t|];
    assert s == (s + [x])[..|s|] && t == (t + [y])[..|t|];
  }

  // ---------------------------------------------------------------- filling and draining

  /** A client that queues distinct items in increasing order. */
  method InsertAll(ring: Ring, xs: seq<Item>)
    requires ring.Valid() && ring.Items() == []
    requires ring.head !in xs && forall i, j :: 0 <= i < j < |xs| ==> xs[i] != xs[j]
    modifies ring`cycle, ring.head`next, ring.head`prev, (set x | x in xs)`next, (set x | x in xs)`prev
    ensures ring.Valid() && forall x :: x in ring.cycle <==> x == ring.head || x in xs
    ensures Entries(ring.Items()) == SortEntries(old(Entries(xs)))
  {
    hide Linked, InsertEntry, Entries, WithInserted, Inner, IsCycle;
    ghost var es := Entries(xs);
    ghost var nodes := {ring.head} + (set x | x in xs);
    InnerEmpty(ring.cycle);
    for n := 0 to |xs|
      invariant ring.Valid() && (forall i :: 0 <= i < |ring.cycle| ==> ring.cycle[i] in nodes)
      invariant forall x :: x in ring.cycle <==> x == ring.head || x in xs[..n]
      invariant Entries(xs) == es && Entries(ring.Items()) == SortEntries(es[..n])
    {
      ghost var c := ring.cycle;
      assert xs[n] in xs && xs[n] !in xs[..n];
      ghost var p := ring.InsertIncreasing(xs[n]);
      InsertedNodes(c, p, xs[n]);
      assert xs[..n + 1] == xs[..n] + [xs[n]];
      SortStep(es, n);
      forall i | 0 <= i < |ring.cycle| ensures ring.cycle[i] in nodes {
        assert ring.cycle[i] in ring.cycle;
      }
    }
    assert es[..|xs|] == es && xs[..|xs|] == xs;
  }

  lemma SortStep(es: seq<Entry>, n: nat)
    requires n < |es|
    ensures SortEntries(es[..n + 1]) == InsertEntry(SortEntries(es[..n]), es[n])
  {
    assert es[..n + 1][..n] == es[..n];
  }

  /** A client that dequeues until the queue is empty gets the items front to tail. */
  method Drain(ring: Ring) returns (out: seq<Item>)
    requires ring.Valid()
    modifies ring`cycle, (set x | x in ring.cycle)`next, (set x | x in ring.cycle)`prev
    ensures ring.Valid() && ring.Items() == [] && out == old(ring.Items())
  {
    hide Linked, WithRemoved, Inner, IsCycle;
    ghost var nodes, items := (set x | x in ring.cycle), ring.Items();
    out := [];
    while true
      invariant ring.Valid() && (forall i :: 0 <= i < |ring.cycle| ==> ring.cycle[i] in nodes)
        && out + ring.Items() == items
      decreases |ring.cycle|
    {
      ghost var c := ring.cycle;
      var item := ring.Dequeue();
      if item == null { break; }
      RemovedNodes(c, 1);
      forall i | 0 <= i < |ring.cycle| ensures ring.cycle[i] in nodes {
        assert ring.cycle[i] == if i < 1 then c[i] else c[i + 1];
      }
      out := out + [item];
    }
  }

  /** Queueing distinct items in increasing order and dequeueing until the queue is empty sorts them, stably. */
  method SortItems(ring: Ring, xs: seq<Item>) returns (out: seq<Item>)
    requires ring.Valid() && ring.Items() == []
    requires ring.head !in xs && forall i, j :: 0 <= i < j < |xs| ==> xs[i] != xs[j]
    modifies ring`cycle, ring.head`next, ring.head`prev, (set x | x in xs)`next, (set x | x in xs)`prev
    ensures ring.Valid() && ring.Items() == []
    ensures Entries(out) == SortEntries(old(Entries(xs)))
  {
    hide Linked, Inner, Entries, SortEntries, IsCycle;
    InsertAll(ring, xs);
    ghost var es := Entries(ring.Items());
    out := Drain(ring);
    assert forall i :: 0 <= i < |es| ==> Entries(out)[i] == es[i];
  }
}
