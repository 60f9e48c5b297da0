/** What the cache stands for: its entries, most recently touched first. */
module RecencyList {
  import opened Collections

  datatype Entry<K, V> = Entry(key: K, val: V, expiresAt: Option<int>)

  predicate IsExpiredAt(expiresAt: Option<int>, now: int) {
    expiresAt.Some? && expiresAt.value <= now
  }

  /** With a negative time to live nothing expires. */
  predicate IsExpired(ttlMs: int, expiresAt: Option<int>, now: int) {
    ttlMs >= 0 && IsExpiredAt(expiresAt, now)
  }

  /** No expiry when the time to live is negative or ends beyond what the clock can represent. */
  function ExpiresAt(ttlMs: int, horizon: int, now: int): Option<int> {
    if ttlMs < 0 || now + ttlMs > horizon then None else Some(now + ttlMs)
  }

  ghost function Keys<K, V>(es: seq<Entry<K, V>>): (ks: seq<K>)
    ensures |ks| == |es| && forall i :: 0 <= i < |es| ==> ks[i] == es[i].key
  {
    if es == [] then [] else [es[0].key] + Keys(es[1..])
  }

  ghost function Unexpired<K, V>(es: seq<Entry<K, V>>, now: int): seq<Entry<K, V>> {
    if es == [] then []
    else (if IsExpiredAt(es[0].expiresAt, now) then [] else [es[0]]) + Unexpired(es[1..], now)
  }

  ghost function Without<K, V>(es: seq<Entry<K, V>>, k: K): seq<Entry<K, V>> {
    if es == [] then [] else if es[0].key == k then es[1..] else [es[0]] + Without(es[1..], k)
  }

  ghost function Lookup<K, V>(es: seq<Entry<K, V>>, k: K): Option<Entry<K, V>> {
    if es == [] then None else if es[0].key == k then Some(es[0]) else Lookup(es[1..], k)
  }

  ghost function Put<K, V>(es: seq<Entry<K, V>>, cap: nat, entry: Entry<K, V>): seq<Entry<K, V>> {
    if entry.key in Keys(es) then [entry] + Without(es, entry.key)
    else if |es| == cap && es != [] then [entry] + es[..|es| - 1]
    else [entry] + es
  }

  /** A hit moves the entry to the front; an expired entry is dropped. */
  ghost function Get<K, V>(es: seq<Entry<K, V>>, ttlMs: int, now: int, k: K): seq<Entry<K, V>> {
    match Lookup(es, k)
    case None => es
    case Some(e) => if IsExpired(ttlMs, e.expiresAt, now) then Without(es, k) else [e] + Without(es, k)
  }

  ghost function GetValue<K, V>(es: seq<Entry<K, V>>, ttlMs: int, now: int, k: K): Option<V> {
    match Lookup(es, k)
    case None => None
    case Some(e) => if IsExpired(ttlMs, e.expiresAt, now) then None else Some(e.val)
  }

  lemma SlicesOfTail<A>(s: seq<A>, i: nat)
    requires 0 < i < |s|
    ensures s[..i] == [s[0]] + s[1..][..i - 1] && s[1..][i..] == s[i + 1..]
  {
  }

  lemma {:induction false} AtIndex<K, V>(es: seq<Entry<K, V>>, i: nat)
    requires i < |es| && forall j :: 0 <= j < i ==> es[j].key != es[i].key
    ensures Lookup(es, es[i].key) == Some(es[i])
    ensures Without(es, es[i].key) == es[..i] + es[i + 1..]
  {
    if i > 0 {
      AtIndex(es[1..], i - 1);
      SlicesOfTail(es, i);
    }
  }

  lemma {:induction false} Absent<K, V>(es: seq<Entry<K, V>>, k: K)
    requires k !in Keys(es)
    ensures Lookup(es, k) == None && Without(es, k) == es
  {
    if es != [] {
      assert Keys(es)[0] != k;
      assert forall a :: 0 <= a < |es[1..]| ==> Keys(es[1..])[a] == Keys(es)[a + 1];
      Absent(es[1..], k);
    }
  }

  // ---------------------------------------------------------------- runs with the time to live off

  datatype Op<K, V> = PutOp(k: K, v: V) | GetOp(k: K)

  ghost function Apply<K, V>(es: seq<Entry<K, V>>, cap: nat, op: Op<K, V>): seq<Entry<K, V>> {
    match op
    case PutOp(k, v) => Put(es, cap, Entry(k, v, None))
    case GetOp(k) => Get(es, -1, 0, k)
  }

  /** The cache after the operations `ops`, first one first, on an empty cache. */
  ghost function Run<K, V>(cap: nat, ops: seq<Op<K, V>>): seq<Entry<K, V>> {
    if ops == [] then [] else Apply(Run(cap, ops[..|ops| - 1]), cap, ops[|ops| - 1])
  }

  /** The keys touched, latest first: a put touches its key, and so does a get that finds its key. */
  ghost function Touched<K, V>(cap: nat, ops: seq<Op<K, V>>): seq<K> {
    if ops == [] then []
    else
      var init, op := ops[..|ops| - 1], ops[|ops| - 1];
      if op.GetOp? && op.k !in Keys(Run(cap, init)) then Touched(cap, init) else [op.k] + Touched(cap, init)
  }

  ghost function Drop<K>(s: seq<K>, k: K): seq<K> {
    if s == [] then [] else (if s[0] == k then [] else [s[0]]) + Drop(s[1..], k)
  }

  /** The distinct keys of a touch history in order of their latest touch. */
  ghost function Recent<K>(touched: seq<K>): seq<K> {
    if touched == [] then [] else [touched[0]] + Drop(Recent(touched[1..]), touched[0])
  }

  ghost function Take<K>(s: seq<K>, n: nat): seq<K> {
    if |s| <= n then s else s[..n]
  }

  /** The value that the latest put stored under `k`. */
  ghost function LatestPut<K, V>(ops: seq<Op<K, V>>, k: K): Option<V> {
    if ops == [] then None
    else if ops[|ops| - 1].PutOp? && ops[|ops| - 1].k == k then Some(ops[|ops| - 1].v)
    else LatestPut(ops[..|ops| - 1], k)
  }

  lemma {:induction false} DropFacts<K>(s: seq<K>, k: K)
    requires Distinct(s)
    ensures Distinct(Drop(s, k)) && Elems(Drop(s, k)) == Elems(s) - {k}
    ensures k !in s ==> Drop(s, k) == s
  {
    if s != [] {
      HeadAndTail(s);
      DropFacts(s[1..], k);
      if s[0] != k {
        DistinctPrepend(s[0], Drop(s[1..], k));
      }
    }
  }

  lemma {:induction false} RecentDistinct<K>(touched: seq<K>)
    ensures Distinct(Recent(touched)) && Elems(Recent(touched)) == Elems(touched)
  {
    if touched != [] {
      HeadAndTail(touched);
      RecentDistinct(touched[1..]);
      DropFacts(Recent(touched[1..]), touched[0]);
      DistinctPrepend(touched[0], Drop(Recent(touched[1..]), touched[0]));
    }
  }

  /** Taking one fewer after dropping `k`: nothing else is lost when `k` was among those taken. */
  lemma {:induction false} TakeAfterDrop<K>(s: seq<K>, k: K, n: nat)
    requires Distinct(s) && n >= 1
    ensures k in Take(s, n) ==> Take(Drop(s, k), n - 1) == Drop(Take(s, n), k)
    ensures k !in Take(s, n) ==> Take(Drop(s, k), n - 1) == Take(s, n - 1)
  {
    if s != [] {
      HeadAndTail(s);
      TakeOfTail(s, n);
      if s[0] == k {
        DropFacts(s[1..], k);
        HeadAndTail(Take(s, n));
        DropFacts(Take(s[1..], n - 1), k);
      } else if n >= 2 {
        TakeAfterDrop(s[1..], k, n - 1);
        TakePrepend(s[0], Drop(s[1..], k), n - 1);
        if n >= 2 {
          TakePrepend(s[0], s[1..], n - 1);
        }
      }
    }
  }

  lemma TakeOfTail<K>(s: seq<K>, n: nat)
    requires Distinct(s) && s != [] && n >= 1
    ensures Take(s, n) == [s[0]] + Take(s[1..], n - 1) && Take(s, n)[1..] == Take(s[1..], n - 1)
    ensures Distinct(Take(s, n))
  {
  }

  lemma {:induction false} KeysWithout<K, V>(es: seq<Entry<K, V>>, k: K)
    requires Distinct(Keys(es))
    ensures Keys(Without(es, k)) == Drop(Keys(es), k)
  {
    if es != [] {
      HeadAndTail(Keys(es));
      assert Keys(es)[1..] == Keys(es[1..]);
      if es[0].key == k {
        assert k !in Elems(Keys(es[1..]));
        DropFacts(Keys(es[1..]), k);
      } else {
        KeysWithout(es[1..], k);
        assert ([es[0]] + Without(es[1..], k))[1..] == Without(es[1..], k);
      }
    }
  }

  /** With capacity, the cached keys are exactly the most recently touched ones, in order of recency. */
  lemma {:induction false} HoldsMostRecent<K, V>(cap: nat, ops: seq<Op<K, V>>)
    requires cap >= 1
    ensures Keys(Run(cap, ops)) == Take(Recent(Touched(cap, ops)), cap)
    ensures Distinct(Keys(Run(cap, ops))) && |Run(cap, ops)| <= cap
    decreases |ops|
  {
    if ops != [] {
      var init, op := ops[..|ops| - 1], ops[|ops| - 1];
      HoldsMostRecent(cap, init);
      var es, recent := Run(cap, init), Recent(Touched(cap, init));
      RecentDistinct(Touched(cap, init));
      RecentDistinct(Touched(cap, ops));
      if op.k in Keys(es) || op.PutOp? {
        TouchMovesToFront(es, cap, op, recent);
        assert ([op.k] + Touched(cap, init))[1..] == Touched(cap, init);
      } else {
        Absent(es, op.k);
      }
    }
  }

  lemma TouchMovesToFront<K, V>(es: seq<Entry<K, V>>, cap: nat, op: Op<K, V>, recent: seq<K>)
    requires cap >= 1 && Distinct(recent) && Keys(es) == Take(recent, cap) && Distinct(Keys(es))
    requires op.k in Keys(es) || op.PutOp?
    ensures Keys(Apply(es, cap, op)) == Take([op.k] + Drop(recent, op.k), cap)
  {
    var k := op.k;
    TakeAfterDrop(recent, k, cap);
    TakePrepend(k, Drop(recent, k), cap);
    if k in Keys(es) {
      KeysAfterHit(es, cap, op);
    } else {
      KeysAfterNew(es, cap, Entry(k, op.v, None));
    }
  }

  lemma TakePrepend<K>(k: K, s: seq<K>, n: nat)
    requires n >= 1
    ensures Take([k] + s, n) == [k] + Take(s, n - 1)
  {
  }

  lemma KeysAfterHit<K, V>(es: seq<Entry<K, V>>, cap: nat, op: Op<K, V>)
    requires Distinct(Keys(es)) && op.k in Keys(es)
    ensures Keys(Apply(es, cap, op)) == [op.k] + Drop(Keys(es), op.k)
  {
    var i :| 0 <= i < |es| && Keys(es)[i] == op.k;
    AtIndex(es, i);
    KeysWithout(es, op.k);
    var e := if op.PutOp? then Entry(op.k, op.v, None) else es[i];
    assert Apply(es, cap, op) == [e] + Without(es, op.k);
    assert ([e] + Without(es, op.k))[1..] == Without(es, op.k);
  }

  lemma KeysAfterNew<K, V>(es: seq<Entry<K, V>>, cap: nat, e: Entry<K, V>)
    requires e.key !in Keys(es)
    ensures Keys(Put(es, cap, e)) ==
            [e.key] + (if |es| == cap && es != [] then Keys(es)[..|es| - 1] else Keys(es))
  {
    var rest := if |es| == cap && es != [] then es[..|es| - 1] else es;
    assert ([e] + rest)[1..] == rest;
    KeysOfPrefix(es, |rest|);
    assert es[..|es|] == es;
  }

  lemma {:induction false} KeysOfPrefix<K, V>(es: seq<Entry<K, V>>, n: nat)
    requires n <= |es|
    ensures Keys(es[..n]) == Keys(es)[..n]
  {
    if n > 0 {
      KeysOfPrefix(es[1..], n - 1);
      assert es[..n][1..] == es[1..][..n - 1];
    }
  }

  /** A cached value is the one last put under its key. */
  lemma {:induction false} HoldsLatestValues<K, V>(cap: nat, ops: seq<Op<K, V>>, e: Entry<K, V>)
    requires cap >= 1 && e in Run(cap, ops)
    ensures LatestPut(ops, e.key) == Some(e.val)
    decreases |ops|
  {
    var init, op := ops[..|ops| - 1], ops[|ops| - 1];
    var es := Run(cap, init);
    HoldsMostRecent(cap, init);
    if op.PutOp? && op.k == e.key {
      HoldsMostRecent(cap, ops);
      assert Run(cap, ops)[0] == Entry(op.k, op.v, None);
      var i :| 0 <= i < |Run(cap, ops)| && Run(cap, ops)[i] == e;
      assert Keys(Run(cap, ops))[i] == Keys(Run(cap, ops))[0];
    } else {
      WithoutSubset(es, op.k);
      LookupMember(es, op.k);
      assert e in es;
      HoldsLatestValues(cap, init, e);
    }
  }

  lemma {:induction false} WithoutSubset<K, V>(es: seq<Entry<K, V>>, k: K)
    ensures forall e :: e in Without(es, k) ==> e in es
  {
    if es != [] && es[0].key != k {
      WithoutSubset(es[1..], k);
    }
  }

  lemma {:induction false} LookupMember<K, V>(es: seq<Entry<K, V>>, k: K)
    ensures Lookup(es, k).Some? ==> Lookup(es, k).value in es && Lookup(es, k).value.key == k
  {
    if es != [] && es[0].key != k {
      LookupMember(es[1..], k);
    }
  }

  /**
   * Without capacity the guard never evicts: the cache keeps every key it was
   * ever given, most recently touched first.
   */
  lemma {:induction false} ZeroCapacityKeepsAll<K, V>(ops: seq<Op<K, V>>)
    ensures Keys(Run(0, ops)) == Recent(Touched(0, ops)) && Distinct(Keys(Run(0, ops)))
    decreases |ops|
  {
    if ops != [] {
      var init, op := ops[..|ops| - 1], ops[|ops| - 1];
      ZeroCapacityKeepsAll(init);
      var es, recent := Run(0, init), Recent(Touched(0, init));
      RecentDistinct(Touched(0, init));
      RecentDistinct(Touched(0, ops));
      if op.k in Keys(es) {
        KeysAfterHit(es, 0, op);
      } else if op.PutOp? {
        KeysAfterNew(es, 0, Entry(op.k, op.v, None));
        DropFacts(recent, op.k);
      } else {
        Absent(es, op.k);
      }
      assert ([op.k] + Touched(0, init))[1..] == Touched(0, init);
    }
  }
}
