/** `apps/api/src/shared/services/queue.service.ts`: the API's single task
    queue. Items wait in order of their priority value, lowest first; one
    drain at a time hands them to their handlers, front first. The
    handlers' own effects belong to the services that enqueue them, so the
    drain records which items it handed over and which handlers threw. */
module TaskQueue {

  /** `QueuePriority`: the values the handlers use. Only their order
      matters here (HIGH before MEDIUM); the enum file itself is not part
      of this model. */
  const HIGH: int := 0
  const MEDIUM: int := 1

  /** `EventQueueItem`: the data passed to the handler and its priority. */
  datatype Item<T> = Item(data: T, priority: int)

  predicate SortedByPriority<T>(q: seq<Item<T>>)
  {
    forall i, j :: 0 <= i < j < |q| ==> q[i].priority <= q[j].priority
  }

  /** `findIndex(item => item.priority > priority)`, with -1 read as the
      length: the first position holding a strictly greater priority. */
  function InsertionIndex<T>(q: seq<Item<T>>, priority: int): (i: nat)
    ensures i <= |q|
    ensures forall j :: 0 <= j < i ==> q[j].priority <= priority
    ensures i < |q| ==> q[i].priority > priority
  {
    if |q| == 0 then 0
    else if q[0].priority > priority then 0
    else 1 + InsertionIndex(q[1..], priority)
  }

  /** `splice(index, 0, item)` at that position. */
  function Insert<T>(q: seq<Item<T>>, x: Item<T>): seq<Item<T>>
  {
    var i := InsertionIndex(q, x.priority);
    q[..i] + [x] + q[i..]
  }

  /** Insertion keeps a priority-ordered queue ordered. */
  lemma InsertKeepsOrder<T>(q: seq<Item<T>>, x: Item<T>)
    requires SortedByPriority(q)
    ensures SortedByPriority(Insert(q, x))
  {
    var i := InsertionIndex(q, x.priority);
    var r := Insert(q, x);
    assert forall j :: i <= j < |q| ==> q[j].priority > x.priority by {
      forall j | i <= j < |q|
        ensures q[j].priority > x.priority
      {
        if j > i {
          assert q[i].priority <= q[j].priority;
        }
      }
    }
    forall a, b | 0 <= a < b < |r|
      ensures r[a].priority <= r[b].priority
    {
      if b < i || a > i {
        var a' := if a < i then a else a - 1;
        var b' := if b < i then b else b - 1;
        assert r[a] == q[a'] && r[b] == q[b'];
      } else if a == i {
        assert r[b] == q[b - 1];
      } else {
        assert r[a] == q[a];
      }
    }
  }

  /** Exactly one item is added and the items already waiting keep their
      relative order: taking the new item out gives the old queue back. */
  lemma InsertAddsOne<T>(q: seq<Item<T>>, x: Item<T>)
    ensures var i := InsertionIndex(q, x.priority);
            && |Insert(q, x)| == |q| + 1 && Insert(q, x)[i] == x
            && Insert(q, x)[..i] + Insert(q, x)[i + 1..] == q
            && multiset(Insert(q, x)) == multiset(q) + multiset{x}
  {
    var i := InsertionIndex(q, x.priority);
    var r := Insert(q, x);
    assert r[..i] == q[..i];
    assert r[i + 1..] == q[i..];
    assert q == q[..i] + q[i..];
  }

  /** First in, first out among equal priorities: in an ordered queue the
      new item goes behind every item whose priority is not greater. */
  lemma InsertBehindEqual<T>(q: seq<Item<T>>, x: Item<T>, j: nat)
    requires SortedByPriority(q)
    requires j < |q| && q[j].priority <= x.priority
    ensures j < InsertionIndex(q, x.priority)
  {
  }

  class QueueService<T> {
    /** The waiting items, front first. */
    var queue: seq<Item<T>>
    /** Whether a drain is under way. */
    var processing: bool
    /** Every item handed to its handler, in order. */
    var handled: seq<Item<T>>
    /** The items whose handler threw (the error is logged). */
    var failed: seq<Item<T>>

    constructor ()
      ensures queue == [] && !processing && handled == [] && failed == []
    {
      queue := [];
      processing := false;
      handled := [];
      failed := [];
    }

    /** The `findIndex` scan: the position before which an item of this
        priority is spliced in. */
    method FindIndex(priority: int) returns (index: nat)
      ensures index <= |queue|
      ensures forall j :: 0 <= j < index ==> queue[j].priority <= priority
      ensures index < |queue| ==> queue[index].priority > priority
    {
      index := 0;
      while index < |queue| && queue[index].priority <= priority
        invariant index <= |queue|
        invariant forall j :: 0 <= j < index ==> queue[j].priority <= priority
      {
        index := index + 1;
      }
    }

    /** `enqueue`: splice the item in by priority, then try to drain. When
        a drain is already under way (the caller is itself a handler) the
        item only waits; otherwise the queue is drained at once. */
    method Enqueue(data: T, priority: int, throws: T -> bool)
      modifies this
      ensures var waiting := Insert(old(queue), Item(data, priority));
              if old(processing)
              then queue == waiting && processing && handled == old(handled) && failed == old(failed)
              else && queue == [] && !processing && handled == old(handled) + waiting
                   && failed == old(failed) + Throwing(waiting, throws)
    {
      var index := FindIndex(priority);
      assert index == InsertionIndex(queue, priority) by {
        IndexIsUnique(queue, priority, index);
      }
      queue := queue[..index] + [Item(data, priority)] + queue[index..];
      ProcessQueue(throws);
    }

    /** One turn of the drain: the front item is removed and handed to
        its handler. */
    method TakeNext(throws: T -> bool)
      requires |queue| > 0
      modifies this
      ensures queue == old(queue)[1..] && processing == old(processing)
      ensures handled == old(handled) + [old(queue)[0]]
      ensures failed == old(failed) + (if throws(old(queue)[0].data) then [old(queue)[0]] else [])
    {
      var next := queue[0];
      queue := queue[1..];
      handled := handled + [next];
      if throws(next.data) {
        failed := failed + [next];
      }
    }

    /** `processQueue`: nothing while a drain is under way; otherwise take
        items from the front until none is left, whatever their handlers
        do, then clear the flag. */
    method ProcessQueue(throws: T -> bool)
      modifies this
      ensures old(processing) ==> queue == old(queue) && processing && handled == old(handled) && failed == old(failed)
      ensures !old(processing) ==>
                && queue == [] && !processing && handled == old(handled) + old(queue)
                && failed == old(failed) + Throwing(old(queue), throws)
    {
      if processing {
        return;
      }
      processing := true;
      ghost var drained: seq<Item<T>> := [];
      while |queue| > 0
        invariant processing
        invariant drained + queue == old(queue)
        invariant handled == old(handled) + drained
        invariant failed == old(failed) + Throwing(drained, throws)
        decreases |queue|
      {
        var next := queue[0];
        ghost var rest := queue[1..];
        assert (drained + [next]) + rest == drained + queue;
        TakeNext(throws);
        ThrowingAppend(drained, next, throws);
        drained := drained + [next];
      }
      assert drained == old(queue) by {
        assert drained + queue == drained;
      }
      processing := false;
    }
  }

  /** The items, in order, whose handler throws. */
  function Throwing<T>(items: seq<Item<T>>, throws: T -> bool): (r: seq<Item<T>>)
    ensures |r| <= |items|
    ensures forall x :: x in r ==> x in items && throws(x.data)
  {
    if |items| == 0 then []
    else (if throws(items[0].data) then [items[0]] else []) + Throwing(items[1..], throws)
  }

  lemma {:induction false} ThrowingAppend<T>(items: seq<Item<T>>, x: Item<T>, throws: T -> bool)
    ensures Throwing(items + [x], throws) == Throwing(items, throws) + (if throws(x.data) then [x] else [])
  {
    if |items| == 0 {
      assert Throwing([x], throws) == (if throws(x.data) then [x] else []) + Throwing([], throws);
    } else {
      assert (items + [x])[1..] == items[1..] + [x];
      ThrowingAppend(items[1..], x, throws);
    }
  }

  /** The positions from `from` on, in increasing order, whose item's
      handler throws: every such position and no other. */
  function ThrowingPositions<T>(items: seq<Item<T>>, throws: T -> bool, from: nat): (ps: seq<nat>)
    requires from <= |items|
    ensures forall k :: 0 <= k < |ps| ==> from <= ps[k] < |items| && throws(items[ps[k]].data)
    ensures forall k, l :: 0 <= k < l < |ps| ==> ps[k] < ps[l]
    ensures forall i :: from <= i < |items| && throws(items[i].data) ==> i in ps
    decreases |items| - from
  {
    if from == |items| then []
    else (if throws(items[from].data) then [from] else []) + ThrowingPositions(items, throws, from + 1)
  }

  /** The failed items are the items at the throwing positions, in order:
      every item whose handler throws is recorded once, in the order it was
      handled, and nothing else is. */
  lemma {:induction false} ThrowingInOrder<T>(items: seq<Item<T>>, throws: T -> bool, from: nat)
    requires from <= |items|
    ensures var ps := ThrowingPositions(items, throws, from);
            && |Throwing(items[from..], throws)| == |ps|
            && forall k :: 0 <= k < |ps| ==> Throwing(items[from..], throws)[k] == items[ps[k]]
    decreases |items| - from
  {
    if from < |items| {
      var rest := ThrowingPositions(items, throws, from + 1);
      var tail := Throwing(items[from + 1..], throws);
      assert items[from..][1..] == items[from + 1..];
      assert items[from..][0] == items[from];
      ThrowingInOrder(items, throws, from + 1);
      var head := if throws(items[from].data) then [items[from]] else [];
      assert Throwing(items[from..], throws) == head + tail;
      assert ThrowingPositions(items, throws, from) == (if throws(items[from].data) then [from] else []) + rest;
    }
  }

  /** The two clauses of the scan pin the index down. */
  lemma IndexIsUnique<T>(q: seq<Item<T>>, priority: int, index: nat)
    requires index <= |q|
    requires forall j :: 0 <= j < index ==> q[j].priority <= priority
    requires index < |q| ==> q[index].priority > priority
    ensures index == InsertionIndex(q, priority)
  {
  }
}
