/**
 * The priority queue of the path planner: a binary heap of (priority, item)
 * entries next to the set of items it holds, so that an item already queued
 * is not pushed again. Items are grid cells; entries compare as Python
 * tuples, by priority and then by the cell's coordinates.
 *
 * The heap's array layout is not modelled: the entries are kept as a
 * sequence whose order carries no meaning, and a pop takes a least entry.
 */
module PQueue {
  import opened SeqUtil
  import opened Grid

  /** heappop on an empty heap raises IndexError. */
  datatype QueueError = IndexError

  datatype Entry = Entry(priority: real, item: Cell)

  /** Python's tuple order on (priority, (x, y)). */
  predicate EntryLe(a: Entry, b: Entry)
  {
    a.priority < b.priority ||
    (a.priority == b.priority && (a.item.0 < b.item.0 || (a.item.0 == b.item.0 && a.item.1 <= b.item.1)))
  }

  /** No item occurs in two entries. */
  predicate ItemsDistinct(es: seq<Entry>)
  {
    forall i, j :: 0 <= i < j < |es| ==> es[i].item != es[j].item
  }

  /** The items of the entries. */
  function ItemSet(es: seq<Entry>): set<Cell>
  {
    set e | e in es :: e.item
  }

  /** A least entry of a non-empty sequence, by index. */
  function MinIndex(es: seq<Entry>): (k: nat)
    requires es != []
    ensures k < |es|
    ensures forall i :: 0 <= i < |es| ==> EntryLe(es[k], es[i])
  {
    if |es| == 1 then 0
    else
      var k := MinIndex(es[1..]) + 1;
      assert forall i :: 1 <= i < |es| ==> es[i] == es[1..][i - 1];
      if EntryLe(es[0], es[k]) then 0 else k
  }

  /** The entries without the one at index `k`. */
  function RemoveAt(es: seq<Entry>, k: nat): (r: seq<Entry>)
    requires k < |es|
    ensures multiset(r) == multiset(es) - multiset{es[k]}
    ensures |r| == |es| - 1
  {
    assert es == es[..k] + [es[k]] + es[k + 1..];
    es[..k] + es[k + 1..]
  }

  /** Removing an entry keeps the items distinct and drops exactly its item. */
  lemma RemoveAtItems(es: seq<Entry>, k: nat)
    requires k < |es| && ItemsDistinct(es)
    ensures ItemsDistinct(RemoveAt(es, k))
    ensures ItemSet(RemoveAt(es, k)) == ItemSet(es) - {es[k].item}
  {
    var r := RemoveAt(es, k);
    assert forall i :: 0 <= i < k ==> r[i] == es[i];
    assert forall i :: k <= i < |r| ==> r[i] == es[i + 1];
    forall i, j | 0 <= i < j < |r|
      ensures r[i].item != r[j].item
    {
      var i', j' := if i < k then i else i + 1, if j < k then j else j + 1;
      assert r[i] == es[i'] && r[j] == es[j'];
    }
    RemoveAtItemSet(es, k);
  }

  lemma RemoveAtItemSet(es: seq<Entry>, k: nat)
    requires k < |es| && ItemsDistinct(es)
    ensures ItemSet(RemoveAt(es, k)) == ItemSet(es) - {es[k].item}
  {
    var r := RemoveAt(es, k);
    forall x | x in ItemSet(r)
      ensures x in ItemSet(es) && x != es[k].item
    {
      var e :| e in r && e.item == x;
      var i :| 0 <= i < |r| && r[i] == e;
      var i' := if i < k then i else i + 1;
      assert es[i'] == e && i' != k;
    }
    forall x | x in ItemSet(es) && x != es[k].item
      ensures x in ItemSet(r)
    {
      var e :| e in es && e.item == x;
      var i :| 0 <= i < |es| && es[i] == e;
      assert r[if i < k then i else i - 1] == e;
    }
  }

  /** There are no more items than entries. */
  lemma {:induction false} ItemSetBound(es: seq<Entry>)
    ensures |ItemSet(es)| <= |es|
  {
    if es != [] {
      var rest := es[1..];
      ItemSetBound(rest);
      forall x | x in ItemSet(es)
        ensures x in {es[0].item} + ItemSet(rest)
      {
        var e :| e in es && e.item == x;
        if e != es[0] {
          var i :| 0 <= i < |es| && es[i] == e;
          assert rest[i - 1] == e;
        }
      }
      SubsetCard(ItemSet(es), {es[0].item} + ItemSet(rest));
    }
  }

  class PriorityQueue {
    var elements: seq<Entry>
    var check: set<Cell>

    /** Every queued item is in `check` exactly once, and `check` holds nothing else. */
    ghost predicate Valid()
      reads this
    {
      ItemsDistinct(elements) && ItemSet(elements) == check
    }

    constructor ()
      ensures Valid()
      ensures elements == [] && check == {}
    {
      elements, check := [], {};
    }

    /** The asserted len(elements) >= len(check) follows from Valid. */
    lemma LengthBound()
      requires Valid()
      ensures |elements| >= |check|
    {
      ItemSetBound(elements);
    }

    /** __contains__: the item is queued. */
    method Contains(item: Cell) returns (b: bool)
      requires Valid()
      ensures b <==> item in check
      ensures b <==> exists e :: e in elements && e.item == item
    {
      LengthBound();
      assert |elements| >= |check|;
      b := item in check;
    }

    /** empty: no entry is left, and so no item. */
    method Empty() returns (b: bool)
      requires Valid()
      ensures b <==> elements == []
      ensures b <==> check == {}
    {
      LengthBound();
      assert |elements| >= |check|;
      b := |elements| == 0;
      if !b {
        assert elements[0].item in ItemSet(elements);
      }
    }

    /** put: pushes (priority, item) unless the item is already queued. */
    method Put(priority: real, item: Cell)
      requires Valid()
      modifies this
      ensures Valid()
      ensures item in old(check) ==> elements == old(elements) && check == old(check)
      ensures item !in old(check) ==>
        multiset(elements) == multiset(old(elements)) + multiset{Entry(priority, item)} && check == old(check) + {item}
    {
      if item !in check {
        var es := elements + [Entry(priority, item)];
        assert ItemSet(es) == ItemSet(elements) + {item};
        assert forall i :: 0 <= i < |elements| ==> es[i] == elements[i] && elements[i].item in check;
        elements := es;
        check := check + {item};
      }
      LengthBound();
      assert |elements| >= |check|;
    }

    /**
     * get: pops a least (priority, item) entry and drops its item from
     * `check`; an empty queue raises IndexError.
     */
    method Get() returns (r: Result<Cell, QueueError>)
      requires Valid()
      modifies this
      ensures Valid()
      ensures old(elements) == [] ==> r == Err(IndexError) && elements == old(elements) && check == old(check)
      ensures old(elements) != [] ==> r.Ok? && exists e :: (e in old(elements) && e.item == r.value &&
        (forall e' :: e' in old(elements) ==> EntryLe(e, e')) &&
        multiset(elements) == multiset(old(elements)) - multiset{e} && check == old(check) - {r.value})
    {
      if elements == [] {
        return Err(IndexError);
      }
      var k := MinIndex(elements);
      var e := elements[k];
      RemoveAtItems(elements, k);
      elements := RemoveAt(elements, k);
      check := check - {e.item};
      r := Ok(e.item);
    }
  }

  /** A get after a put of a fresh item on an empty queue returns that item and leaves the queue empty. */
  method PutThenGet(priority: real, item: Cell) returns (r: Result<Cell, QueueError>, emptyAfter: bool)
    ensures r == Ok(item) && emptyAfter
  {
    var q := new PriorityQueue();
    q.Put(priority, item);
    r := q.Get();
    assert multiset(q.elements) == multiset{};
    emptyAfter := q.Empty();
  }

  /** The A* search node; it is ordered by its total cost fCost alone. */
  datatype AstarNode = AstarNode(cellPos: Cell, parent: Option<AstarNode>, gCost: real, hCost: real, fCost: real)

  /** AstarNode.__lt__. */
  predicate NodeLt(a: AstarNode, b: AstarNode)
  {
    a.fCost < b.fCost
  }

  /**
   * The node order is a strict order that ignores everything but fCost:
   * nodes of equal fCost are never ordered either way, whatever their
   * cells and other costs.
   */
  lemma NodeOrder(a: AstarNode, b: AstarNode, c: AstarNode)
    ensures !NodeLt(a, a)
    ensures NodeLt(a, b) && NodeLt(b, c) ==> NodeLt(a, c)
    ensures a.fCost == b.fCost ==> !NodeLt(a, b) && !NodeLt(b, a)
    ensures NodeLt(a, b) || NodeLt(b, a) || a.fCost == b.fCost
  {
  }
}
