/** The LRU cache: a key index over a doubly linked list between two sentinels, with an optional time to live. */
module LruCaches {
  import opened Collections
  import opened RecencyList
  import opened TimedRuns

  /** A sentinel has neither key nor value. */
  class LruNode<K, V> {
    const key: Option<K>
    var val: Option<V>
    var expiresAt: Option<int>
    var prev: LruNode?<K, V>
    var next: LruNode?<K, V>

    constructor (key: Option<K>, val: Option<V>, expiresAt: Option<int>)
      ensures this.key == key && this.val == val && this.expiresAt == expiresAt && prev == null && next == null
    {
      this.key, this.val, this.expiresAt, prev, next := key, val, expiresAt, null, null;
    }
  }

  /** The forward and the backward links run through the same nodes. */
  ghost predicate IsChain<K, V>(full: seq<LruNode<K, V>>)
    reads full
  {
    && Distinct(full)
    && (forall i {:trigger full[i].next} :: 0 <= i < |full| - 1 ==> full[i].next == full[i + 1])
    && (forall i {:trigger full[i].prev} :: 1 <= i < |full| ==> full[i].prev == full[i - 1])
  }

  ghost function Dropped<A>(s: seq<A>, i: nat): seq<A>
    requires i < |s|
  {
    s[..i] + s[i + 1..]
  }

  lemma DroppedElement<A>(s: seq<A>, i: nat, r: nat)
    requires i < |s| && r < |s| - 1
    ensures Dropped(s, i)[r] == if r < i then s[r] else s[r + 1]
  {
  }

  /** Bypassing one inner node of a chain leaves a chain. */
  lemma DroppedIsChain<K, V>(full: seq<LruNode<K, V>>, i: nat)
    requires 0 < i < |full| - 1 && Distinct(full)
    requires forall q {:trigger full[q].next} :: 0 <= q < |full| - 1 && q != i ==>
               full[q].next == full[if q == i - 1 then i + 1 else q + 1]
    requires forall q {:trigger full[q].prev} :: 1 <= q < |full| && q != i ==>
               full[q].prev == full[if q == i + 1 then i - 1 else q - 1]
    ensures IsChain(Dropped(full, i))
  {
    var chain := Dropped(full, i);
    forall r {:trigger chain[r].next} | 0 <= r < |chain| - 1
      ensures chain[r].next == chain[r + 1]
    {
      DroppedElement(full, i, r);
      DroppedElement(full, i, r + 1);
    }
    forall r {:trigger chain[r].prev} | 1 <= r < |chain|
      ensures chain[r].prev == chain[r - 1]
    {
      DroppedElement(full, i, r);
      DroppedElement(full, i, r - 1);
    }
  }

  ghost function WithFirst<A>(s: seq<A>, x: A): seq<A>
    requires s != []
  {
    [s[0], x] + s[1..]
  }

  lemma WithFirstElement<A>(s: seq<A>, x: A, r: nat)
    requires s != [] && r <= |s|
    ensures WithFirst(s, x)[r] == if r == 0 then s[0] else if r == 1 then x else s[r - 1]
  {
  }

  /** Inserting a node behind the first one of a chain leaves a chain. */
  lemma FrontIsChain<K, V>(full: seq<LruNode<K, V>>, node: LruNode<K, V>)
    requires |full| >= 2 && Distinct(full) && node !in full
    requires full[0].next == node && node.prev == full[0] && node.next == full[1] && full[1].prev == node
    requires forall q {:trigger full[q].next} :: 1 <= q < |full| - 1 ==> full[q].next == full[q + 1]
    requires forall q {:trigger full[q].prev} :: 2 <= q < |full| ==> full[q].prev == full[q - 1]
    ensures IsChain(WithFirst(full, node))
  {
    var chain := WithFirst(full, node);
    forall i, j | 0 <= i < j < |chain|
      ensures chain[i] != chain[j]
    {
      WithFirstElement(full, node, i);
      WithFirstElement(full, node, j);
    }
    forall r {:trigger chain[r].next} | 0 <= r < |chain| - 1
      ensures chain[r].next == chain[r + 1]
    {
      WithFirstElement(full, node, r);
      WithFirstElement(full, node, r + 1);
    }
    forall r {:trigger chain[r].prev} | 1 <= r < |chain|
      ensures chain[r].prev == chain[r - 1]
    {
      WithFirstElement(full, node, r);
      WithFirstElement(full, node, r - 1);
    }
  }

  ghost function EntryOf<K, V>(n: LruNode<K, V>): Option<Entry<K, V>>
    reads n
  {
    if n.key.Some? && n.val.Some? then Some(Entry(n.key.value, n.val.value, n.expiresAt)) else None
  }

  /** The nodes between the sentinels hold the entries in order, and the index leads from each key to its node. */
  ghost predicate IsIndexed<K(!new), V>(full: seq<LruNode<K, V>>, index: map<K, LruNode<K, V>>, es: seq<Entry<K, V>>)
    reads full
  {
    && |full| == |es| + 2
    && (forall i: nat {:trigger es[i]} {:trigger Holds(full, index, es, i)} :: i < |es| ==> Holds(full, index, es, i))
    && (forall k {:trigger index[k]} :: k in index ==> NodeAt(full, es, index[k], k))
  }

  /** The node is one of the inner ones, and its entry has the key. */
  ghost predicate NodeAt<K, V>(full: seq<LruNode<K, V>>, es: seq<Entry<K, V>>, n: LruNode<K, V>, k: K)
    requires |full| == |es| + 2
  {
    exists i :: 0 <= i < |es| && full[i + 1] == n && es[i].key == k
  }

  /** What `IsIndexed` asks of one entry. */
  ghost predicate Holds<K, V>(full: seq<LruNode<K, V>>, index: map<K, LruNode<K, V>>, es: seq<Entry<K, V>>, i: nat)
    requires i < |es| && |full| == |es| + 2
    reads full
  {
    EntryOf(full[i + 1]) == Some(es[i]) && es[i].key in index && index[es[i].key] == full[i + 1]
  }

  lemma KeysDiffer<K(!new), V>(full: seq<LruNode<K, V>>, index: map<K, LruNode<K, V>>, es: seq<Entry<K, V>>, i: nat, j: nat)
    requires IsIndexed(full, index, es) && Distinct(full) && i < |es| && j < |es| && i != j
    ensures es[i].key != es[j].key
  {
    assert Holds(full, index, es, i) && Holds(full, index, es, j) && full[i + 1] != full[j + 1];
  }

  lemma IndexedDropped<K(!new), V>(full: seq<LruNode<K, V>>, index: map<K, LruNode<K, V>>, es: seq<Entry<K, V>>, i: nat)
    requires IsIndexed(full, index, es) && Distinct(full) && i < |es|
    ensures IsIndexed(Dropped(full, i + 1), index - {es[i].key}, Dropped(es, i))
  {
    hide Distinct;
    var full', es', index' := Dropped(full, i + 1), Dropped(es, i), index - {es[i].key};
    forall r: nat {:trigger Holds(full', index', es', r)} | r < |es'|
      ensures Holds(full', index', es', r)
    {
      var q := if r < i then r else r + 1;
      KeysDiffer(full, index, es, i, q);
      assert Holds(full, index, es, q);
      DroppedElement(full, i + 1, r + 1);
      DroppedElement(es, i, r);
    }
    forall k | k in index'
      ensures NodeAt(full', es', index'[k], k)
    {
      var q :| 0 <= q < |es| && full[q + 1] == index[k] && es[q].key == k;
      var r := if q < i then q else q - 1;
      DroppedElement(full, i + 1, r + 1);
      DroppedElement(es, i, r);
    }
  }

  lemma IndexedWithFirst<K(!new), V>(full: seq<LruNode<K, V>>, index: map<K, LruNode<K, V>>, es: seq<Entry<K, V>>,
                                     node: LruNode<K, V>, e: Entry<K, V>)
    requires IsIndexed(full, index, es) && e.key !in index && EntryOf(node) == Some(e)
    ensures IsIndexed(WithFirst(full, node), index[e.key := node], [e] + es)
  {
    var full', es', index' := WithFirst(full, node), [e] + es, index[e.key := node];
    forall r | 0 <= r < |es'|
      ensures EntryOf(full'[r + 1]) == Some(es'[r]) && es'[r].key in index' && index'[es'[r].key] == full'[r + 1]
    {
      WithFirstElement(full, node, r + 1);
      assert r > 0 ==> es'[r] == es[r - 1];
    }
    forall k | k in index'
      ensures NodeAt(full', es', index'[k], k)
    {
      if k == e.key {
        assert full'[0 + 1] == node && es'[0] == e;
      } else {
        assert NodeAt(full, es, index[k], k);
        var q :| 0 <= q < |es| && full[q + 1] == index[k] && es[q].key == k;
        WithFirstElement(full, node, q + 2);
        assert full'[q + 1 + 1] == index[k] && es'[q + 1] == es[q];
      }
    }
  }

  /** The keys of the entries are those of the index, each once. */
  lemma IndexedKeys<K(!new), V>(full: seq<LruNode<K, V>>, index: map<K, LruNode<K, V>>, es: seq<Entry<K, V>>)
    requires IsIndexed(full, index, es) && Distinct(full)
    ensures Distinct(Keys(es)) && forall k :: k in Keys(es) <==> k in index
  {
    forall i, j | 0 <= i < j < |es|
      ensures Keys(es)[i] != Keys(es)[j]
    {
      assert es[i].key in index && es[j].key in index && full[i + 1] != full[j + 1];
    }
    forall k
      ensures k in Keys(es) <==> k in index
    {
      if k in Keys(es) {
        var i :| 0 <= i < |es| && Keys(es)[i] == k;
        assert es[i].key in index;
      }
      if k in index {
        assert NodeAt(full, es, index[k], k);
        var i :| 0 <= i < |es| && full[i + 1] == index[k] && es[i].key == k;
        assert Keys(es)[i] == k;
      }
    }
  }

  class LruCache<K(==, !new), V> {
    var index: map<K, LruNode<K, V>>
    const head: LruNode<K, V>
    const tail: LruNode<K, V>
    var len: nat
    const cap: nat
    var ttlMs: int
    /** The latest instant the clock can represent. */
    const horizon: int
    /** The list from head to tail, most recently touched first, and what it holds. */
    ghost var full: seq<LruNode<K, V>>
    ghost var entries: seq<Entry<K, V>>
    /** Every node this cache has ever linked. */
    ghost var repr: set<LruNode<K, V>>

    ghost predicate HasEnds()
      reads this
    {
      |full| >= 2 && full[0] == head && full[|full| - 1] == tail && forall n :: n in full ==> n in repr
    }

    /** List, index and length describe the same entries, and with capacity there are never too many. */
    ghost predicate Valid()
      reads this, repr
    {
      && HasEnds() && IsChain(full) && IsIndexed(full, index, entries)
      && len == |entries| && (cap >= 1 ==> len <= cap)
    }

    /** Where the node of a key sits, and what the plain list says about the key. */
    lemma Position(k: K) returns (i: nat)
      requires Valid() && k in index
      ensures i < |entries| && full[i + 1] == index[k] && entries[i].key == k
      ensures EntryOf(full[i + 1]) == Some(entries[i])
      ensures Lookup(entries, k) == Some(entries[i])
      ensures RecencyList.Without(entries, k) == Dropped(entries, i)
      ensures k in Keys(entries)
    {
      assert NodeAt(full, entries, index[k], k);
      i :| 0 <= i < |entries| && full[i + 1] == index[k] && entries[i].key == k;
      IndexedKeys(full, index, entries);
      forall j | 0 <= j < i
        ensures entries[j].key != entries[i].key
      {
        assert Keys(entries)[j] != Keys(entries)[i];
      }
      AtIndex(entries, i);
    }

    lemma IsCached(k: K) returns (cached: bool)
      requires Valid()
      ensures cached <==> k in index
      ensures cached <==> k in Keys(entries)
    {
      IndexedKeys(full, index, entries);
      cached := k in index;
    }

    lemma NeverTooMany()
      requires Valid()
      ensures cap >= 1 ==> |entries| <= cap
    {
    }

    constructor (cap: nat, ttlMs: int, horizon: int)
      ensures Valid() && entries == [] && fresh(repr)
      ensures this.cap == cap && this.ttlMs == ttlMs && this.horizon == horizon
    {
      this.cap, this.ttlMs, this.horizon, len, index := cap, ttlMs, horizon, 0, map[];
      var h := new LruNode<K, V>(None, None, None);
      var t := new LruNode<K, V>(None, None, None);
      h.next, t.prev := t, h;
      head, tail := h, t;
      full, entries, repr := [h, t], [], {h, t};
    }

    // -------------------------------------------------------------- list surgery

    /** Links the neighbours of the node at `i` to each other; the node's own links stay. */
    method Bypass(node: LruNode<K, V>, ghost i: nat)
      requires HasEnds() && IsChain(full) && 0 < i < |full| - 1 && full[i] == node
      modifies this`full, repr
      ensures full == Dropped(old(full), i) && HasEnds() && IsChain(full) && node !in full
      ensures node.next != null && node.prev != null
      ensures forall n :: n in old(full) ==> EntryOf(n) == old(EntryOf(n))
    {
      assert full[i].next == full[i + 1] && full[i].prev == full[i - 1];
      var prev, next := node.prev, node.next;
      prev.next := next;
      next.prev := prev;
      DroppedIsChain(full, i);
      DistinctWithout(full, i);
      DroppedElement(full, i, 0);
      DroppedElement(full, i, |full| - 2);
      full := Dropped(full, i);
      assert node !in Elems(full);
    }

    /** Links a node that is not in the list between the head and the node behind it. */
    method LinkFirst(node: LruNode<K, V>)
      requires HasEnds() && IsChain(full) && node !in full && node in repr
      modifies this`full, repr
      ensures full == WithFirst(old(full), node) && HasEnds() && IsChain(full)
      ensures EntryOf(node) == old(EntryOf(node))
      ensures forall n :: n in old(full) ==> EntryOf(n) == old(EntryOf(n))
    {
      assert full[0].next == full[1];
      var first := head.next;
      head.next := node;
      node.prev := head;
      node.next := first;
      first.prev := node;
      FrontIsChain(full, node);
      full := WithFirst(full, node);
    }

    /** Takes the node at `i` out of the list. */
    method DetachNode(node: LruNode<K, V>, ghost i: nat)
      requires HasEnds() && IsChain(full) && 0 < i < |full| - 1 && full[i] == node
      modifies this`full, repr
      ensures full == Dropped(old(full), i) && HasEnds() && IsChain(full)
      ensures forall n :: n in old(full) ==> EntryOf(n) == old(EntryOf(n))
    {
      assert full[i].next == full[i + 1] && full[i].prev == full[i - 1];
      if node.prev == null || node.next == null {
        return;
      }
      Bypass(node, i);
      node.prev := null;
      node.next := null;
    }

    /** Puts a new node right behind the head. */
    method AddToFront(node: LruNode<K, V>)
      requires HasEnds() && IsChain(full) && node !in full && node in repr && len == |full| - 2
      modifies this`full, repr
      ensures full == WithFirst(old(full), node) && HasEnds() && IsChain(full)
      ensures EntryOf(node) == old(EntryOf(node))
      ensures forall n :: n in old(full) ==> EntryOf(n) == old(EntryOf(n))
    {
      LinkFirst(node);
      if len == 0 {
        assert full[2].prev == full[1] && full[1].next == full[2];
        tail.prev := node;
        node.next := tail;
      }
    }

    /** Moves the node at `i` right behind the head; a node already there stays. */
    method MoveNodeToFront(node: LruNode<K, V>, ghost i: nat)
      requires HasEnds() && IsChain(full) && 0 < i < |full| - 1 && full[i] == node
      modifies this`full, repr
      ensures full == WithFirst(Dropped(old(full), i), node) && HasEnds() && IsChain(full)
      ensures forall n :: n in old(full) ==> EntryOf(n) == old(EntryOf(n))
    {
      assert full[0].next == full[1];
      if head.next == node {
        assert i == 1;
        return;
      }
      Bypass(node, i);
      LinkFirst(node);
    }

    method RemoveTailNode() returns (removed: LruNode?<K, V>)
      requires HasEnds() && IsChain(full) && len == |full| - 2
      modifies this`full, repr
      ensures len == 0 ==> removed == null && full == old(full)
      ensures len > 0 ==> removed == old(full)[len] && full == Dropped(old(full), len)
      ensures HasEnds() && IsChain(full)
      ensures forall n :: n in old(full) ==> EntryOf(n) == old(EntryOf(n))
    {
      if len == 0 {
        return null;
      }
      assert full[len + 1].prev == full[len] && full[len].prev == full[len - 1] && full[len].next == tail;
      removed := tail.prev;
      Bypass(removed, len);
      removed.prev := null;
    }

    // -------------------------------------------------------------- the operations

    function CalcExpiresAt(now: int): Option<int>
      reads this
    {
      RecencyList.ExpiresAt(ttlMs, horizon, now)
    }

    /** Drops the node at `i` from list, index and length. */
    method RemoveNode(node: LruNode<K, V>, ghost i: nat)
      requires Valid() && i < |entries| && full[i + 1] == node
      modifies this`full, this`index, this`len, this`entries, repr
      ensures Valid() && full == Dropped(old(full), i + 1)
      ensures entries == Dropped(old(entries), i) && index == old(index) - {old(entries)[i].key}
    {
      hide NodeAt;
      ghost var before := full;
      assert EntryOf(node) == Some(entries[i]);
      if len == 0 || node == head || node == tail {
        return;
      }
      DetachNode(node, i + 1);
      IndexedDropped(before, index, entries, i);
      if node.key.Some? {
        index := index - {node.key.value};
      }
      len := len - 1;
      entries := Dropped(entries, i);
    }

    /** Drops the node at `i` if its entry has expired, and returns the node before it. */
    method PurgeNode(node: LruNode<K, V>, now: int, ghost i: nat) returns (prev: LruNode?<K, V>)
      requires Valid() && i < |entries| && full[i + 1] == node
      modifies this`full, this`index, this`len, this`entries, repr
      ensures Valid() && i < |full| && prev == full[i]
      ensures entries == if IsExpiredAt(old(entries)[i].expiresAt, now) then Dropped(old(entries), i) else old(entries)
    {
      ghost var before := full;
      assert full[i + 1].prev == full[i] && EntryOf(full[i + 1]) == Some(entries[i]);
      prev := node.prev;
      if IsExpiredAt(node.expiresAt, now) {
        RemoveNode(node, i);
        DroppedElement(before, i + 1, i);
      }
    }

    /** Drops what has expired, from the least recently touched end. */
    method PurgeExpired(now: int)
      requires Valid()
      modifies this`full, this`index, this`len, this`entries, repr
      ensures Valid()
      ensures entries == if ttlMs < 0 then old(entries) else Unexpired(old(entries), now)
    {
      hide Valid;
      LastNode();
      if ttlMs < 0 || len == 0 {
        return;
      }
      ghost var es := entries;
      ghost var i: nat := |es|;
      PurgeEnds(es, now);
      var curr := tail.prev;
      while curr != head
        invariant Valid() && ttlMs == old(ttlMs)
        invariant i <= |es| && i < |full| && curr == full[i]
        invariant entries == PurgedFrom(es, i, now)
        decreases i
      {
        OnlyHeadIsFirst(i);
        PurgeStep(es, i - 1, now);
        i := i - 1;
        curr := PurgeNode(curr, now, i);
      }
      OnlyHeadIsFirst(i);
    }

    lemma OnlyHeadIsFirst(i: nat)
      requires Valid() && i < |full|
      ensures |full| == |entries| + 2 && (full[i] == head <==> i == 0)
    {
    }

    lemma LastNode()
      requires Valid()
      ensures len == |entries| && |full| == |entries| + 2 && full[|entries| + 1] == tail
      ensures tail in repr && tail.prev == full[|entries|]
    {
      assert full[|entries| + 1].prev == full[|entries|];
    }

    method SetTtlMs(ttlMs: int, now: int)
      requires Valid()
      modifies this`ttlMs, this`full, this`index, this`len, this`entries, repr
      ensures Valid() && this.ttlMs == ttlMs
      ensures entries == if ttlMs < 0 then old(entries) else Unexpired(old(entries), now)
    {
      this.ttlMs := ttlMs;
      if ttlMs >= 0 {
        PurgeExpired(now);
      }
    }

    /** Overwrites value and expiry of the node at `i`. */
    method Overwrite(node: LruNode<K, V>, v: V, expiresAt: Option<int>, ghost i: nat)
      requires Valid() && i < |entries| && full[i + 1] == node
      modifies this`entries, repr
      ensures Valid() && entries == old(entries)[i := Entry(old(entries)[i].key, v, expiresAt)]
    {
      ghost var es := entries;
      assert EntryOf(full[i + 1]) == Some(es[i]);
      node.val := Some(v);
      node.expiresAt := expiresAt;
      entries := es[i := Entry(es[i].key, v, expiresAt)];
      forall r | 0 <= r < |es|
        ensures EntryOf(full[r + 1]) == Some(entries[r]) && entries[r].key in index && index[entries[r].key] == full[r + 1]
      {
        assert old(EntryOf(full[r + 1])) == Some(es[r]);
      }
      forall k | k in index
        ensures NodeAt(full, entries, index[k], k)
      {
        assert NodeAt(full, es, index[k], k);
        var q :| 0 <= q < |es| && full[q + 1] == index[k] && es[q].key == k;
        assert entries[q].key == k;
      }
    }

    /** Makes the node at `i` the most recently touched one. */
    method Touch(node: LruNode<K, V>, ghost i: nat)
      requires Valid() && i < |entries| && full[i + 1] == node
      modifies this`full, this`entries, repr
      ensures Valid() && entries == [old(entries)[i]] + Dropped(old(entries), i)
    {
      hide NodeAt;
      ghost var before, es := full, entries;
      assert EntryOf(node) == Some(es[i]) && es[i].key in index;
      MoveNodeToFront(node, i + 1);
      IndexedDropped(before, index, es, i);
      IndexedWithFirst(Dropped(before, i + 1), index - {es[i].key}, Dropped(es, i), node, es[i]);
      assert (index - {es[i].key})[es[i].key := node] == index;
      entries := [es[i]] + Dropped(es, i);
    }

    /** Makes room by dropping the least recently touched entry, if there is one. */
    method Evict()
      requires Valid()
      modifies this`full, this`index, this`len, this`entries, repr
      ensures Valid() && index.Keys <= old(index.Keys)
      ensures entries == if old(entries) == [] then [] else old(entries)[..|old(entries)| - 1]
    {
      hide NodeAt;
      ghost var before, es := full, entries;
      assert len > 0 ==> EntryOf(full[len - 1 + 1]) == Some(es[len - 1]);
      var removed := RemoveTailNode();
      if removed != null {
        IndexedDropped(before, index, es, len - 1);
        if removed.key.Some? {
          index := index - {removed.key.value};
        }
        len := len - 1;
        entries := Dropped(es, len);
      }
    }

    /** Puts a new node in front and under its key, where there is room. */
    method InsertNew(k: K, node: LruNode<K, V>, ghost e: Entry<K, V>)
      requires Valid() && node !in full && node in repr && EntryOf(node) == Some(e) && e.key == k && k !in index
      requires cap >= 1 ==> len < cap
      modifies this`full, this`index, this`len, this`entries, repr
      ensures Valid() && entries == [e] + old(entries)
    {
      hide NodeAt;
      ghost var before, es := full, entries;
      AddToFront(node);
      IndexedWithFirst(before, index, es, node, e);
      index := index[k := node];
      len := len + 1;
      entries := [e] + es;
    }

    /** Evicts when the cache is exactly full. */
    method MakeRoom()
      requires Valid()
      modifies this`full, this`index, this`len, this`entries, repr
      ensures Valid() && index.Keys <= old(index.Keys) && (cap >= 1 ==> len < cap)
      ensures entries == if |old(entries)| == cap && cap > 0 then old(entries)[..cap - 1] else old(entries)
    {
      if len == cap {
        Evict();
      }
    }

    /** A new key. */
    method PutNew(k: K, v: V, expiresAt: Option<int>)
      requires Valid() && k !in index
      modifies this`full, this`index, this`len, this`entries, this`repr, repr
      ensures Valid() && fresh(repr - old(repr))
      ensures entries == [Entry(k, v, expiresAt)] + if |old(entries)| == cap && cap > 0 then old(entries)[..cap - 1] else old(entries)
    {
      var node := new LruNode<K, V>(Some(k), Some(v), expiresAt);
      MakeRoom();
      repr := repr + {node};
      InsertNew(k, node, Entry(k, v, expiresAt));
    }

    /** The key is cached: its entry is overwritten and moved to the front. */
    method PutHit(k: K, v: V, expiresAt: Option<int>)
      requires Valid() && k in index
      modifies this`full, this`entries, repr
      ensures Valid() && entries == [Entry(k, v, expiresAt)] + RecencyList.Without(old(entries), k)
    {
      ghost var i := Position(k);
      Overwrite(index[k], v, expiresAt, i);
      Touch(index[k], i);
    }

    method Put(k: K, v: V, now: int)
      requires Valid()
      modifies this`full, this`index, this`len, this`entries, this`repr, repr
      ensures Valid() && fresh(repr - old(repr))
      ensures entries == RecencyList.Put(if ttlMs < 0 then old(entries) else Unexpired(old(entries), now), cap,
                                         Entry(k, v, RecencyList.ExpiresAt(ttlMs, horizon, now)))
      ensures entries == ApplyTimed(old(entries), Setting(cap, ttlMs, horizon), TimedPut(k, v, now))
    {
      hide Valid;
      if ttlMs >= 0 {
        PurgeExpired(now);
      }
      ghost var cached := IsCached(k);
      if k in index {
        PutCached(k, v, now);
      } else {
        PutNew(k, v, CalcExpiresAt(now));
      }
    }

    /** The key is cached: an expired entry is dropped first, a live one is overwritten. */
    method PutCached(k: K, v: V, now: int)
      requires Valid() && k in index
      modifies this`full, this`index, this`len, this`entries, this`repr, repr
      ensures Valid() && fresh(repr - old(repr))
      ensures entries == [Entry(k, v, CalcExpiresAt(now))] + RecencyList.Without(old(entries), k)
    {
      hide Valid, RecencyList.Without;
      var node := index[k];
      ghost var i := Position(k);
      NeverTooMany();
      ghost var rest := Dropped(entries, i);
      if IsExpired(ttlMs, node.expiresAt, now) {
        RemoveNode(node, i);
        assert entries == rest;
        PutNew(k, v, CalcExpiresAt(now));
      } else {
        PutHit(k, v, CalcExpiresAt(now));
      }
    }

    /** Also what the lookup by reference does. */
    method Get(k: K, now: int) returns (value: Option<V>)
      requires Valid()
      modifies this`full, this`index, this`len, this`entries, repr
      ensures Valid() && entries == RecencyList.Get(old(entries), ttlMs, now, k)
      ensures value == GetValue(old(entries), ttlMs, now, k)
      ensures entries == ApplyTimed(old(entries), Setting(cap, ttlMs, horizon), TimedGet(k, now))
    {
      if k !in index {
        IndexedKeys(full, index, entries);
        Absent(entries, k);
        return None;
      }
      ghost var i := Position(k);
      value := GetHit(k, index[k], now, i);
    }

    method GetHit(k: K, node: LruNode<K, V>, now: int, ghost i: nat) returns (value: Option<V>)
      requires Valid() && i < |entries| && full[i + 1] == node && EntryOf(node) == Some(entries[i])
      modifies this`full, this`index, this`len, this`entries, repr
      ensures Valid()
      ensures entries == (if IsExpired(ttlMs, old(entries)[i].expiresAt, now) then [] else [old(entries)[i]])
                         + Dropped(old(entries), i)
      ensures value == if IsExpired(ttlMs, old(entries)[i].expiresAt, now) then None else Some(old(entries)[i].val)
    {
      if IsExpired(ttlMs, node.expiresAt, now) {
        RemoveNode(node, i);
        return None;
      }
      value := node.val;
      Touch(node, i);
    }

    /** With a time to live the list is walked and what has expired is not counted. */
    method Len(now: int) returns (count: nat)
      requires Valid()
      ensures count == if ttlMs < 0 then |entries| else |Unexpired(entries, now)|
    {
      if ttlMs < 0 {
        return len;
      }
      count := 0;
      ghost var i: nat := 0;
      assert full[0].next == full[1] && entries[0..] == entries;
      var curr := head.next;
      while curr != null && curr != tail
        invariant i <= |entries| && curr == full[i + 1]
        invariant count + |Unexpired(entries[i..], now)| == |Unexpired(entries, now)|
        decreases |entries| - i
      {
        assert EntryOf(full[i + 1]) == Some(entries[i]) && full[i + 1].next == full[i + 1 + 1];
        assert entries[i..][0] == entries[i] && entries[i..][1..] == entries[i + 1..];
        if !IsExpiredAt(curr.expiresAt, now) {
          count := count + 1;
        }
        curr := curr.next;
        i := i + 1;
      }
    }

    method ContainsKey(k: K, now: int) returns (found: bool)
      requires Valid()
      ensures found <==> GetValue(entries, ttlMs, now, k).Some?
    {
      if k !in index {
        IndexedKeys(full, index, entries);
        Absent(entries, k);
        return false;
      }
      ghost var i := Position(k);
      found := ttlMs < 0 || !IsExpiredAt(index[k].expiresAt, now);
    }

    method Clear()
      requires Valid()
      modifies this`full, this`index, this`len, this`entries, repr
      ensures Valid() && entries == []
    {
      index := map[];
      len := 0;
      head.next := tail;
      tail.prev := head;
      full, entries := [head, tail], [];
    }
  }

  /** Only the entries from `i` on have been tried. */
  ghost function PurgedFrom<K, V>(es: seq<Entry<K, V>>, i: nat, now: int): seq<Entry<K, V>>
    requires i <= |es|
  {
    es[..i] + Unexpired(es[i..], now)
  }

  lemma PurgeEnds<K, V>(es: seq<Entry<K, V>>, now: int)
    ensures PurgedFrom(es, |es|, now) == es && PurgedFrom(es, 0, now) == Unexpired(es, now)
  {
    assert es[0..] == es && es[..|es|] == es;
  }

  /** One more entry, from the end, decided by its expiry. */
  lemma PurgeStep<K, V>(es: seq<Entry<K, V>>, i: nat, now: int)
    requires i < |es|
    ensures var tried := PurgedFrom(es, i + 1, now);
            && i < |tried| && tried[i] == es[i]
            && PurgedFrom(es, i, now) == if IsExpiredAt(tried[i].expiresAt, now) then Dropped(tried, i) else tried
  {
    assert es[i..][1..] == es[i + 1..] && es[..i + 1] == es[..i] + [es[i]];
  }
}
