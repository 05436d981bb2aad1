/** A dictionary with a capacity: a map paired with a FIFO queue of its keys, so that
    adding to a full dictionary first evicts the oldest key. */
module Queued {
  import opened Sequences

  class QueuedDictionary<K(==,!new), V> {
    var items: map<K, V>   // the underlying dictionary
    var queue: seq<K>      // the keys, oldest first
    var capacity: int

    /** The queue lists exactly the dictionary's keys, each once, in insertion order. */
    ghost predicate Valid()
      reads this
    {
      NoDup(queue) && Elements(queue) == items.Keys
    }

    constructor (capacity: int)
      requires capacity >= 0   // the base dictionary and the queue reject a negative capacity
      ensures Valid()
      ensures this.capacity == capacity && items == map[] && queue == []
    {
      this.capacity := capacity;
      items := map[];
      queue := [];
    }

    /** The number of entries, which is also the length of the key queue. */
    function Count(): (n: nat)
      reads this
      requires Valid()
      ensures n == |queue|
    {
      NoDupCard(queue);
      |items|
    }

    /** Add does not throw: a full queue is not empty (Dequeue), and the key is absent
        once the eviction has happened (the base Add rejects a present key). */
    predicate CanAdd(key: K)
      reads this
    {
      && (|queue| == capacity ==> queue != [])
      && key !in (if |queue| == capacity then items - {queue[0]} else items)
    }

    /** Evict the oldest key when the queue holds `capacity` keys, then insert. */
    method Add(key: K, value: V)
      requires Valid() && CanAdd(key)
      modifies this
      ensures Valid() && capacity == old(capacity)
      ensures old(|queue|) == capacity ==>
        queue == old(queue[1..]) + [key] && items == (old(items) - {old(queue[0])})[key := value]
      ensures old(|queue|) != capacity ==>
        queue == old(queue) + [key] && items == old(items)[key := value]
      ensures old(|queue|) <= capacity ==> |queue| <= capacity
    {
      if |queue| == capacity {
        var oldest := queue[0];
        SuffixNoDup(queue, 1);
        queue := queue[1..];
        items := items - {oldest};
      }
      AppendNoDup(queue, key);
      items := items[key := value];
      queue := queue + [key];
    }

    /** The indexer's getter; the base indexer throws on a missing key. */
    function Get(key: K): (v: V)
      reads this
      requires key in items
      ensures v == items[key]
    {
      items[key]
    }

    /** The indexer's setter is Add, not an in-place update. */
    method Set(key: K, value: V)
      requires Valid() && CanAdd(key)
      modifies this
      ensures Valid() && capacity == old(capacity)
      ensures old(|queue|) == capacity ==>
        queue == old(queue[1..]) + [key] && items == (old(items) - {old(queue[0])})[key := value]
      ensures old(|queue|) != capacity ==>
        queue == old(queue) + [key] && items == old(items)[key := value]
      ensures old(|queue|) <= capacity ==> |queue| <= capacity
    {
      Add(key, value);
    }

    method Clear()
      modifies this
      ensures Valid() && capacity == old(capacity)
      ensures items == map[] && queue == []
    {
      items := map[];
      queue := [];
    }

    /** Remove a key from the dictionary and from the queue; Peek throws on an empty queue. */
    method Remove(key: K) returns (result: bool)
      requires Valid() && queue != []
      modifies this
      ensures Valid() && capacity == old(capacity)
      ensures result == (key in old(items))
      ensures items == old(items) - {key}
      ensures queue == Without(old(queue), key)
    {
      ghost var q0, m0 := queue, items;
      RemovedKey(q0, m0, key);
      if queue[0] == key {
        WithoutHead(queue);
        result := key in items;
        items := items - {key};
        queue := queue[1..];
        return;
      }
      result := key in items;
      items := items - {key};
      if result {
        queue := Requeue(queue, key);
      } else {
        WithoutAbsent(q0, key);
      }
    }

    /** The rebuilt queue of Remove: every key but `key`, in their order. */
    static method Requeue(q: seq<K>, key: K) returns (newQueue: seq<K>)
      ensures newQueue == Without(q, key)
    {
      newQueue := [];
      var rest := q;
      while |rest| > 0
        invariant newQueue + Without(rest, key) == Without(q, key)
        decreases |rest|
      {
        var item := rest[0];
        rest := rest[1..];
        if item != key {
          newQueue := newQueue + [item];
        }
      }
    }

    /** The Capacity setter, as written: when the new value exceeds the old one it
        dequeues and removes `value - capacity` of the oldest keys; shrinking evicts
        nothing. Each removal goes through Remove, whose Peek runs after the Dequeue,
        so the queue must keep at least one key. */
    method SetCapacity(value: int)
      requires Valid()
      requires value - capacity > 0 ==> value - capacity < |queue|
      modifies this
      ensures Valid() && capacity == value
      ensures var n := if value - old(capacity) > 0 then value - old(capacity) else 0;
        queue == old(queue)[n..] && items == old(items) - Elements(old(queue)[..n])
    {
      var itemsToRemove := value - capacity;
      var n := if itemsToRemove > 0 then itemsToRemove else 0;
      var q, m := DropOldest(queue, items, n);
      PrefixEvicted(queue, items, n);
      queue, items, capacity := q, m, value;
    }

    /** The Capacity setter as evidently intended: evict the oldest keys until at most
        `value` remain. */
    method SetCapacityEvicting(value: int)
      requires Valid() && value >= 0
      modifies this
      ensures Valid() && capacity == value
      ensures |queue| == if |old(queue)| > value then value else |old(queue)|
      ensures queue == old(queue)[|old(queue)| - |queue|..]
      ensures items == old(items) - Elements(old(queue)[..|old(queue)| - |queue|])
      ensures |queue| <= capacity
    {
      var n := if |queue| > value then |queue| - value else 0;
      var q, m := DropOldest(queue, items, n);
      PrefixEvicted(queue, items, n);
      queue, items, capacity := q, m, value;
    }
  }

  /** As written, growing the capacity from 3 to 4 evicts the oldest of two keys. */
  method GrowingCapacityEvicts() returns (oldestKept: bool, count: nat)
    ensures !oldestKept && count == 1
  {
    var d := new QueuedDictionary<int, string>(3);
    d.Add(1, "one");
    d.Add(2, "two");
    d.SetCapacity(4);
    oldestKept := 1 in d.items;
    count := d.Count();
  }

  /** As written, shrinking the capacity below the count evicts nothing, and from then
      on Add never evicts (its test is `Count == Capacity`), so the dictionary outgrows
      its capacity. */
  method ShrinkingCapacityOverflows() returns (count: nat, capacity: int)
    ensures count == 3 && capacity == 1
  {
    var d := new QueuedDictionary<int, string>(2);
    d.Add(1, "one");
    d.Add(2, "two");
    d.SetCapacity(1);
    d.Add(3, "three");
    count := d.Count();
    capacity := d.capacity;
  }

  /** With the intended setter, shrinking to 1 keeps only the newest key and a later
      Add stays within the capacity. */
  method ShrinkingCapacityEvicting() returns (count: nat, capacity: int, newestKept: bool)
    ensures count == 1 && capacity == 1 && newestKept
  {
    var d := new QueuedDictionary<int, string>(2);
    d.Add(1, "one");
    d.Add(2, "two");
    d.SetCapacityEvicting(1);
    d.Add(3, "three");
    count := d.Count();
    capacity := d.capacity;
    newestKept := 3 in d.items;
  }
}
