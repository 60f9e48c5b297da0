/**
 * Runs of the cache with a time to live, at instants that never go back: which lookups give a value,
 * and which value, told from the history of puts and gets alone.
 */
module TimedRuns {
  import opened Collections
  import opened RecencyList

  /** What a cache is made with; the horizon is the latest instant the clock can represent. */
  datatype Setting = Setting(cap: nat, ttlMs: int, horizon: int)

  datatype TimedOp<K, V> = TimedPut(k: K, v: V, at: int) | TimedGet(k: K, at: int)

  ghost function ApplyTimed<K, V>(es: seq<Entry<K, V>>, c: Setting, op: TimedOp<K, V>): seq<Entry<K, V>> {
    match op
    case TimedPut(k, v, at) =>
      Put(if c.ttlMs < 0 then es else Unexpired(es, at), c.cap, Entry(k, v, ExpiresAt(c.ttlMs, c.horizon, at)))
    case TimedGet(k, at) => Get(es, c.ttlMs, at, k)
  }

  /** The cache after the operations `ops`, first one first, on an empty cache. */
  ghost function RunTimed<K, V>(c: Setting, ops: seq<TimedOp<K, V>>): seq<Entry<K, V>> {
    if ops == [] then [] else ApplyTimed(RunTimed(c, ops[..|ops| - 1]), c, ops[|ops| - 1])
  }

  /** What a lookup after these operations gives. */
  ghost function Answer<K, V>(c: Setting, ops: seq<TimedOp<K, V>>, k: K, now: int): Option<V> {
    GetValue(RunTimed(c, ops), c.ttlMs, now, k)
  }

  // ---------------------------------------------------------------- the history

  ghost predicate IsChronological<K, V>(ops: seq<TimedOp<K, V>>) {
    forall i, j :: 0 <= i < j < |ops| ==> ops[i].at <= ops[j].at
  }

  /** Operation `i` put `v` under `k` at `t`, and none after it put anything under `k`. */
  ghost predicate WasLastPut<K, V>(ops: seq<TimedOp<K, V>>, i: nat, k: K, v: V, t: int) {
    && i < |ops| && ops[i] == TimedPut(k, v, t)
    && forall j :: i < j < |ops| ==> !(ops[j].TimedPut? && ops[j].k == k)
  }

  /** The time to live counted from `t` has not run out at `now`, or it runs out beyond the horizon. */
  ghost predicate InTime(c: Setting, t: int, now: int) {
    now < t + c.ttlMs || t + c.ttlMs > c.horizon
  }

  /** A put touches its key, and so does a get that gives a value. */
  ghost predicate Touches<K, V>(c: Setting, ops: seq<TimedOp<K, V>>, j: nat) {
    j < |ops| && (ops[j].TimedPut? || Answer(c, ops[..j], ops[j].k, ops[j].at).Some?)
  }

  /** The keys other than `k` that have been touched since operation `j`. */
  ghost function OthersSince<K, V>(c: Setting, ops: seq<TimedOp<K, V>>, j: nat, k: K): set<K> {
    set q | j < q < |ops| && Touches(c, ops, q) && ops[q].k != k :: ops[q].k
  }

  // ---------------------------------------------------------------- lists with one entry for a key

  ghost predicate Unique<K, V>(es: seq<Entry<K, V>>) {
    forall i, j :: 0 <= i < j < |es| ==> es[i].key != es[j].key
  }

  ghost predicate Subsumes<K, V>(es: seq<Entry<K, V>>, fs: seq<Entry<K, V>>) {
    |fs| <= |es| && forall f :: f in fs ==> f in es
  }

  lemma {:induction false} UnexpiredFacts<K, V>(es: seq<Entry<K, V>>, now: int)
    requires Unique(es)
    ensures Unique(Unexpired(es, now)) && Subsumes(es, Unexpired(es, now))
  {
    if es != [] {
      UnexpiredFacts(es[1..], now);
      assert forall f :: f in es[1..] ==> f in es && f.key != es[0].key;
    }
  }

  lemma {:induction false} WithoutSubset<K, V>(es: seq<Entry<K, V>>, k: K)
    ensures Subsumes(es, Without(es, k)) && (forall f :: f in es && f.key != k ==> f in Without(es, k))
    ensures (exists f :: f in es && f.key == k) ==> |Without(es, k)| < |es|
  {
    if es != [] {
      assert es == [es[0]] + es[1..];
      if es[0].key != k {
        WithoutSubset(es[1..], k);
      }
    }
  }

  lemma {:induction false} WithoutFacts<K, V>(es: seq<Entry<K, V>>, k: K)
    requires Unique(es)
    ensures Unique(Without(es, k)) && forall f :: f in Without(es, k) ==> f.key != k
  {
    if es != [] {
      var rest := es[1..];
      assert es == [es[0]] + rest && Unique(rest);
      forall f | f in rest
        ensures f.key != es[0].key
      {
        var i :| 0 <= i < |rest| && rest[i] == f;
        assert es[i + 1] == f;
      }
      if es[0].key != k {
        WithoutFacts(rest, k);
        WithoutSubset(rest, k);
        UniquePrepend(es[0], Without(rest, k));
      }
    }
  }

  lemma UniquePrepend<K, V>(e: Entry<K, V>, es: seq<Entry<K, V>>)
    requires Unique(es) && forall f :: f in es ==> f.key != e.key
    ensures Unique([e] + es)
  {
  }

  lemma {:induction false} LookupFacts<K, V>(es: seq<Entry<K, V>>, k: K)
    ensures Lookup(es, k).Some? ==> Lookup(es, k).value in es && Lookup(es, k).value.key == k && k in Keys(es)
    ensures Lookup(es, k).None? ==> forall f :: f in es ==> f.key != k
  {
    if es != [] {
      assert es == [es[0]] + es[1..];
      if es[0].key == k {
        assert Keys(es)[0] == k;
      } else {
        LookupFacts(es[1..], k);
      }
    }
  }

  lemma KeyOfEntry<K, V>(es: seq<Entry<K, V>>, k: K)
    ensures k in Keys(es) <==> exists f :: f in es && f.key == k
  {
    if k in Keys(es) {
      var i :| 0 <= i < |es| && Keys(es)[i] == k;
      assert es[i] in es;
    }
    if f :| f in es && f.key == k {
      var i :| 0 <= i < |es| && es[i] == f;
      assert Keys(es)[i] == k;
    }
  }

  lemma AllButLast<K, V>(es: seq<Entry<K, V>>)
    requires Unique(es)
    ensures es != [] ==> Unique(es[..|es| - 1]) && forall f :: f in es[..|es| - 1] ==> f in es
  {
  }

  lemma PutFacts<K, V>(es: seq<Entry<K, V>>, cap: nat, e: Entry<K, V>)
    requires Unique(es) && |es| <= cap && cap >= 1
    ensures Unique(Put(es, cap, e)) && |Put(es, cap, e)| <= cap
    ensures Put(es, cap, e) != [] && Put(es, cap, e)[0] == e
    ensures forall f :: f in Put(es, cap, e) && f != e ==> f in es && f.key != e.key
  {
    hide Without, Unique, Keys;
    KeyOfEntry(es, e.key);
    if e.key in Keys(es) {
      WithoutFacts(es, e.key);
      WithoutSubset(es, e.key);
      UniquePrepend(e, Without(es, e.key));
    } else {
      AllButLast(es);
      UniquePrepend(e, if |es| == cap then es[..|es| - 1] else es);
    }
  }

  lemma GetFacts<K, V>(es: seq<Entry<K, V>>, ttlMs: int, now: int, k: K)
    requires Unique(es)
    ensures Unique(Get(es, ttlMs, now, k)) && Subsumes(es, Get(es, ttlMs, now, k))
  {
    hide Unique, Without;
    LookupFacts(es, k);
    WithoutFacts(es, k);
    WithoutSubset(es, k);
    match Lookup(es, k)
    case None =>
    case Some(e) =>
      UniquePrepend(e, Without(es, k));
  }

  // ---------------------------------------------------------------- what is cached was put

  lemma {:induction false} RunIsUnique<K, V>(c: Setting, ops: seq<TimedOp<K, V>>)
    requires c.cap >= 1
    ensures Unique(RunTimed(c, ops)) && |RunTimed(c, ops)| <= c.cap
    decreases |ops|
  {
    hide Unique, Put, Get, Unexpired, Subsumes;
    if ops == [] {
      NothingIsUnique<K, V>();
    } else {
      var es, op := RunTimed(c, ops[..|ops| - 1]), ops[|ops| - 1];
      RunIsUnique(c, ops[..|ops| - 1]);
      StepIsUnique(es, c, op);
    }
  }

  lemma NothingIsUnique<K, V>()
    ensures Unique<K, V>([])
  {
  }

  lemma StepIsUnique<K, V>(es: seq<Entry<K, V>>, c: Setting, op: TimedOp<K, V>)
    requires c.cap >= 1 && Unique(es) && |es| <= c.cap
    ensures Unique(ApplyTimed(es, c, op)) && |ApplyTimed(es, c, op)| <= c.cap
  {
    hide Unique, Put, Get, Unexpired;
    match op
    case TimedPut(k, v, at) =>
      UnexpiredFacts(es, at);
      PutFacts(if c.ttlMs < 0 then es else Unexpired(es, at), c.cap, Entry(k, v, ExpiresAt(c.ttlMs, c.horizon, at)));
    case TimedGet(k, at) => GetFacts(es, c.ttlMs, at, k);
  }

  /** Every entry holds the value last put under its key, and expires by the instant of that put. */
  lemma {:induction false} EntryWasPut<K, V>(c: Setting, ops: seq<TimedOp<K, V>>, e: Entry<K, V>) returns (i: nat, t: int)
    requires c.cap >= 1 && e in RunTimed(c, ops)
    ensures WasLastPut(ops, i, e.key, e.val, t) && e.expiresAt == ExpiresAt(c.ttlMs, c.horizon, t)
    decreases |ops|
  {
    hide Unexpired, Get, Put, ExpiresAt;
    var init, op := ops[..|ops| - 1], ops[|ops| - 1];
    var es := RunTimed(c, init);
    RunIsUnique(c, init);
    match op
    case TimedPut(k, v, at) =>
      var put := Entry(k, v, ExpiresAt(c.ttlMs, c.horizon, at));
      UnexpiredFacts(es, at);
      PutFacts(if c.ttlMs < 0 then es else Unexpired(es, at), c.cap, put);
      if e == put {
        i, t := |ops| - 1, at;
      } else {
        i, t := EntryWasPut(c, init, e);
      }
    case TimedGet(k, at) =>
      GetFacts(es, c.ttlMs, at, k);
      i, t := EntryWasPut(c, init, e);
  }

  /** A value that a lookup gives was the last one put under the key, and its time has not run out. */
  lemma AnswersAreInTime<K, V>(c: Setting, ops: seq<TimedOp<K, V>>, k: K, now: int)
    requires c.cap >= 1 && c.ttlMs >= 0
    ensures Answer(c, ops, k, now).Some? ==>
              exists i: nat, t :: WasLastPut(ops, i, k, Answer(c, ops, k, now).value, t) && InTime(c, t, now)
  {
    var es := RunTimed(c, ops);
    LookupFacts(es, k);
    if Answer(c, ops, k, now).Some? {
      var i, t := EntryWasPut(c, ops, Lookup(es, k).value);
      assert WasLastPut(ops, i, k, Answer(c, ops, k, now).value, t) && InTime(c, t, now);
    }
  }

  // ---------------------------------------------------------------- what was touched lately is cached

  /** `k` has an entry, and those before it have keys among `others`. */
  ghost predicate Behind<K, V>(es: seq<Entry<K, V>>, k: K, others: set<K>) {
    es != [] && (es[0].key == k || (es[0].key in others && Behind(es[1..], k, others)))
  }

  lemma {:induction false} BehindMore<K, V>(es: seq<Entry<K, V>>, k: K, others: set<K>, more: set<K>)
    requires Behind(es, k, others) && others <= more
    ensures Behind(es, k, more)
  {
    if es[0].key != k {
      BehindMore(es[1..], k, others, more);
    }
  }

  lemma {:induction false} BehindUnexpired<K, V>(es: seq<Entry<K, V>>, k: K, others: set<K>, now: int)
    requires Behind(es, k, others) && forall f :: f in es && f.key == k ==> !IsExpiredAt(f.expiresAt, now)
    ensures Behind(Unexpired(es, now), k, others)
  {
    assert es[0] in es;
    var rest := Unexpired(es[1..], now);
    if es[0].key == k {
      assert ([es[0]] + rest)[0] == es[0];
    } else {
      assert forall f :: f in es[1..] ==> f in es;
      BehindUnexpired(es[1..], k, others, now);
      assert ([es[0]] + rest)[1..] == rest && [] + rest == rest;
    }
  }

  lemma {:induction false} BehindWithout<K, V>(es: seq<Entry<K, V>>, k: K, others: set<K>, other: K)
    requires Behind(es, k, others) && other != k
    ensures Behind(Without(es, other), k, others)
  {
    if es[0].key != k && es[0].key != other {
      BehindWithout(es[1..], k, others, other);
      assert ([es[0]] + Without(es[1..], other))[1..] == Without(es[1..], other);
    }
  }

  lemma {:induction false} BehindPrefix<K, V>(es: seq<Entry<K, V>>, k: K, others: set<K>)
    requires Behind(es, k, others) && es[|es| - 1].key != k
    ensures Behind(es[..|es| - 1], k, others)
  {
    if es[0].key != k {
      BehindPrefix(es[1..], k, others);
      assert es[..|es| - 1][1..] == es[1..][..|es| - 2];
    }
  }

  /** When `k` comes last, the entries before it fit into `others`. */
  lemma {:induction false} LastIsBehindAll<K, V>(es: seq<Entry<K, V>>, k: K, others: set<K>)
    requires Behind(es, k, others) && Unique(es)
    ensures es[|es| - 1].key == k ==> |es| - 1 <= |others|
  {
    if es[0].key != k {
      BehindFewer(es[1..], k, others, es[0].key);
      LastIsBehindAll(es[1..], k, others - {es[0].key});
    }
  }

  lemma {:induction false} BehindFewer<K, V>(es: seq<Entry<K, V>>, k: K, others: set<K>, other: K)
    requires Behind(es, k, others) && forall i :: 0 <= i < |es| ==> es[i].key != other
    ensures Behind(es, k, others - {other})
  {
    if es[0].key != k {
      BehindFewer(es[1..], k, others, other);
    }
  }

  lemma {:induction false} BehindIsFound<K, V>(es: seq<Entry<K, V>>, k: K, others: set<K>)
    requires Behind(es, k, others)
    ensures Lookup(es, k).Some?
  {
    if es[0].key != k {
      BehindIsFound(es[1..], k, others);
    }
  }

  lemma BehindFirst<K, V>(e: Entry<K, V>, es: seq<Entry<K, V>>, k: K, others: set<K>)
    requires e.key == k || (e.key in others && Behind(es, k, others))
    ensures Behind([e] + es, k, others)
  {
    assert ([e] + es)[1..] == es;
  }

  /** A put under another key moves one more key ahead; it evicts `k` only if enough others are ahead. */
  lemma BehindPut<K, V>(es: seq<Entry<K, V>>, cap: nat, e: Entry<K, V>, k: K, others: set<K>)
    requires Unique(es) && |es| <= cap && cap >= 1 && e.key != k
    requires Behind(es, k, others) && |others + {e.key}| < cap
    ensures Behind(Put(es, cap, e), k, others + {e.key})
  {
    var more := others + {e.key};
    BehindMore(es, k, others, more);
    if e.key in Keys(es) {
      BehindWithout(es, k, more, e.key);
      BehindFirst(e, Without(es, e.key), k, more);
    } else if |es| == cap {
      NoneHasKey(es, e.key);
      BehindFewer(es, k, others, e.key);
      LastIsBehindAll(es, k, others - {e.key});
      assert more == (others - {e.key}) + {e.key};
      BehindPrefix(es, k, more);
      BehindFirst(e, es[..|es| - 1], k, more);
    } else {
      BehindFirst(e, es, k, more);
    }
  }

  lemma NoneHasKey<K, V>(es: seq<Entry<K, V>>, k: K)
    requires k !in Keys(es)
    ensures forall i :: 0 <= i < |es| ==> es[i].key != k
  {
    assert forall i :: 0 <= i < |es| ==> Keys(es)[i] == es[i].key;
  }

  lemma BehindGet<K, V>(es: seq<Entry<K, V>>, ttlMs: int, now: int, other: K, k: K, others: set<K>)
    requires Behind(es, k, others) && other != k
    ensures var touched := if GetValue(es, ttlMs, now, other).Some? then {other} else {};
            Behind(Get(es, ttlMs, now, other), k, others + touched)
  {
    var touched := if GetValue(es, ttlMs, now, other).Some? then {other} else {};
    BehindMore(es, k, others, others + touched);
    BehindWithout(es, k, others + touched, other);
    LookupFacts(es, other);
    match Lookup(es, other)
    case None =>
    case Some(e) =>
      if !IsExpired(ttlMs, e.expiresAt, now) {
        BehindFirst(e, Without(es, other), k, others + touched);
      }
  }

  lemma OneMoreOp<K, V>(c: Setting, ops: seq<TimedOp<K, V>>, j: nat, k: K)
    requires j < |ops| - 1
    ensures var init, last := ops[..|ops| - 1], ops[|ops| - 1];
            OthersSince(c, ops, j, k) == OthersSince(c, init, j, k) +
            if last.k != k && (last.TimedPut? || Answer(c, init, last.k, last.at).Some?) then {last.k} else {}
  {
    hide Answer;
    var init, last := ops[..|ops| - 1], ops[|ops| - 1];
    forall q | j < q < |init|
      ensures Touches(c, ops, q) <==> Touches(c, init, q)
    {
      assert ops[..q] == init[..q];
    }
    assert Touches(c, ops, |ops| - 1) <==> last.TimedPut? || Answer(c, init, last.k, last.at).Some?;
  }

  ghost predicate IsLive<K, V>(c: Setting, ops: seq<TimedOp<K, V>>, i: nat, k: K, v: V, t: int, now: int) {
    WasLastPut(ops, i, k, v, t) && InTime(c, t, now)
  }

  /** Whatever entry `k` has is that of its last put, so it has not expired while that is in time. */
  lemma LiveIsUnexpired<K, V>(c: Setting, ops: seq<TimedOp<K, V>>, i: nat, k: K, v: V, t: int, now: int)
    requires c.cap >= 1 && c.ttlMs >= 0 && IsLive(c, ops, i, k, v, t, now)
    ensures forall f :: f in RunTimed(c, ops) && f.key == k ==> f.val == v && !IsExpiredAt(f.expiresAt, now)
  {
    forall f | f in RunTimed(c, ops) && f.key == k
      ensures f.val == v && !IsExpiredAt(f.expiresAt, now)
    {
      var i', t' := EntryWasPut(c, ops, f);
      assert i' == i;
    }
  }

  /** Once touched, `k` stays where the keys touched after it are all that can be ahead. */
  lemma {:induction false} StaysBehind<K, V>(c: Setting, ops: seq<TimedOp<K, V>>, i: nat, k: K, v: V, t: int, now: int,
                                             j: nat)
    requires c.cap >= 1 && c.ttlMs >= 0 && IsChronological(ops) && IsLive(c, ops, i, k, v, t, now)
    requires forall q :: 0 <= q < |ops| ==> ops[q].at <= now
    requires i <= j < |ops| && Touches(c, ops, j) && ops[j].k == k && |OthersSince(c, ops, j, k)| < c.cap
    ensures Behind(RunTimed(c, ops), k, OthersSince(c, ops, j, k))
    decreases |ops|
  {
    hide Behind, Unexpired, Put, Get, OthersSince, Touches, Answer, ExpiresAt, IsChronological, InTime;
    var init, op := ops[..|ops| - 1], ops[|ops| - 1];
    var es, others := RunTimed(c, init), OthersSince(c, ops, j, k);
    RunIsUnique(c, init);
    if j == |ops| - 1 {
      LastTouch(c, ops);
      TouchedIsFirst(es, c, op, others);
    } else {
      EarlierOps(c, ops, i, k, v, t, now, j);
      OneMoreOp(c, ops, j, k);
      StaysBehind(c, init, i, k, v, t, now, j);
      LiveIsUnexpired(c, init, i, k, v, t, op.at);
      if op.k == k {
        LiveIsHit(es, c, op, OthersSince(c, init, j, k));
        TouchedIsFirst(es, c, op, others);
      } else {
        AnswerIs(c, init, op);
        StepKeepsBehind(es, c, op, k, OthersSince(c, init, j, k), others);
      }
    }
  }

  lemma AnswerIs<K, V>(c: Setting, ops: seq<TimedOp<K, V>>, op: TimedOp<K, V>)
    ensures Answer(c, ops, op.k, op.at) == GetValue(RunTimed(c, ops), c.ttlMs, op.at, op.k)
  {
  }

  lemma LastTouch<K, V>(c: Setting, ops: seq<TimedOp<K, V>>)
    requires ops != [] && Touches(c, ops, |ops| - 1)
    ensures var op := ops[|ops| - 1];
            op.TimedPut? || GetValue(RunTimed(c, ops[..|ops| - 1]), c.ttlMs, op.at, op.k).Some?
  {
  }

  lemma TouchedIsFirst<K, V>(es: seq<Entry<K, V>>, c: Setting, op: TimedOp<K, V>, others: set<K>)
    requires c.cap >= 1 && Unique(es) && |es| <= c.cap
    requires op.TimedPut? || GetValue(es, c.ttlMs, op.at, op.k).Some?
    ensures Behind(ApplyTimed(es, c, op), op.k, others)
  {
    hide Unexpired, Put;
    match op
    case TimedPut(k, v, at) =>
      UnexpiredFacts(es, at);
      PutFacts(if c.ttlMs < 0 then es else Unexpired(es, at), c.cap, Entry(k, v, ExpiresAt(c.ttlMs, c.horizon, at)));
    case TimedGet(k, at) => LookupFacts(es, k);
  }

  lemma LiveIsHit<K, V>(es: seq<Entry<K, V>>, c: Setting, op: TimedOp<K, V>, others: set<K>)
    requires Behind(es, op.k, others) && forall f :: f in es && f.key == op.k ==> !IsExpiredAt(f.expiresAt, op.at)
    ensures GetValue(es, c.ttlMs, op.at, op.k).Some?
  {
    BehindIsFound(es, op.k, others);
    LookupFacts(es, op.k);
  }

  lemma StepKeepsBehind<K, V>(es: seq<Entry<K, V>>, c: Setting, op: TimedOp<K, V>, k: K, others: set<K>, more: set<K>)
    requires c.cap >= 1 && c.ttlMs >= 0 && Unique(es) && |es| <= c.cap && op.k != k
    requires Behind(es, k, others) && forall f :: f in es && f.key == k ==> !IsExpiredAt(f.expiresAt, op.at)
    requires more == others + if op.TimedPut? || GetValue(es, c.ttlMs, op.at, op.k).Some? then {op.k} else {}
    requires |more| < c.cap
    ensures Behind(ApplyTimed(es, c, op), k, more)
  {
    hide Behind, Unexpired, Put, Get, Unique, ExpiresAt;
    match op
    case TimedPut(_, v, at) =>
      UnexpiredFacts(es, at);
      BehindUnexpired(es, k, others, at);
      BehindPut(Unexpired(es, at), c.cap, Entry(op.k, v, ExpiresAt(c.ttlMs, c.horizon, at)), k, others);
    case TimedGet(_, at) =>
      BehindGet(es, c.ttlMs, at, op.k, k, others);
  }

  /** Before an operation that came after the touch, all that is assumed held already. */
  lemma EarlierOps<K, V>(c: Setting, ops: seq<TimedOp<K, V>>, i: nat, k: K, v: V, t: int, now: int, j: nat)
    requires IsChronological(ops) && IsLive(c, ops, i, k, v, t, now)
    requires forall q :: 0 <= q < |ops| ==> ops[q].at <= now
    requires Touches(c, ops, j) && ops[j].k == k && i <= j < |ops| - 1 && |OthersSince(c, ops, j, k)| < c.cap
    ensures var init := ops[..|ops| - 1];
            && IsChronological(init) && IsLive(c, init, i, k, v, t, now) && IsLive(c, init, i, k, v, t, ops[|ops| - 1].at)
            && Touches(c, init, j) && |OthersSince(c, init, j, k)| < c.cap
    ensures ops[|ops| - 1].k == k ==> ops[|ops| - 1].TimedGet?
  {
    hide Answer, OthersSince;
    var init := ops[..|ops| - 1];
    assert init[..j] == ops[..j];
    OneMoreOp(c, ops, j, k);
    SubsetCardinality(OthersSince(c, init, j, k), OthersSince(c, ops, j, k));
  }

  /**
   * A lookup gives the value last put under the key if its time has not run out and, since the key was
   * last touched, fewer other keys than the cache has room for have been.
   */
  lemma LiveIsAnswered<K, V>(c: Setting, ops: seq<TimedOp<K, V>>, i: nat, k: K, v: V, t: int, now: int, j: nat)
    requires c.cap >= 1 && c.ttlMs >= 0 && IsChronological(ops) && forall q :: 0 <= q < |ops| ==> ops[q].at <= now
    requires WasLastPut(ops, i, k, v, t) && InTime(c, t, now)
    requires j < |ops| && Touches(c, ops, j) && ops[j].k == k && |OthersSince(c, ops, j, k)| < c.cap
    ensures Answer(c, ops, k, now) == Some(v)
  {
    hide Behind, OthersSince, Touches, Unexpired;
    LaterTouch(c, ops, i, k, v, t, j);
    var last := if i <= j then j else i;
    StaysBehind(c, ops, i, k, v, t, now, last);
    LiveIsUnexpired(c, ops, i, k, v, t, now);
    BehindIsFound(RunTimed(c, ops), k, OthersSince(c, ops, last, k));
    LookupFacts(RunTimed(c, ops), k);
  }

  lemma LaterTouch<K, V>(c: Setting, ops: seq<TimedOp<K, V>>, i: nat, k: K, v: V, t: int, j: nat)
    requires WasLastPut(ops, i, k, v, t) && |OthersSince(c, ops, j, k)| < c.cap
    ensures Touches(c, ops, i) && (j < i ==> |OthersSince(c, ops, i, k)| < c.cap)
  {
    hide Answer;
    if j < i {
      SubsetCardinality(OthersSince(c, ops, i, k), OthersSince(c, ops, j, k));
    }
  }

  // ---------------------------------------------------------------- counting

  /** What purging keeps is, in its order, what has no expiry or one still to come. */
  lemma {:induction false} KeptIsStillToCome<K, V>(es: seq<Entry<K, V>>, now: int)
    ensures forall e :: e in Unexpired(es, now) <==> e in es && (e.expiresAt == None || now < e.expiresAt.value)
  {
    if es != [] {
      assert es == [es[0]] + es[1..];
      KeptIsStillToCome(es[1..], now);
    }
  }

  ghost function Answered<K, V>(es: seq<Entry<K, V>>, ttlMs: int, now: int): set<K> {
    set k | k in Keys(es) && GetValue(es, ttlMs, now, k).Some?
  }

  /** The number of entries that have not expired is the number of keys for which a lookup gives a value. */
  lemma CountsAnswers<K(!new), V(!new)>(es: seq<Entry<K, V>>, ttlMs: int, now: int)
    requires Unique(es)
    ensures |Answered(es, ttlMs, now)| == if ttlMs < 0 then |es| else |Unexpired(es, now)|
  {
    hide Unique, Unexpired, Answered;
    var kept := if ttlMs < 0 then es else Unexpired(es, now);
    UnexpiredFacts(es, now);
    KeysOfUnique(kept);
    forall k
      ensures k in Answered(es, ttlMs, now) <==> k in Elems(Keys(kept))
    {
      IsAnswered(es, ttlMs, now, k);
    }
    assert Answered(es, ttlMs, now) == Elems(Keys(kept));
  }

  lemma KeysOfUnique<K, V>(es: seq<Entry<K, V>>)
    requires Unique(es)
    ensures |Elems(Keys(es))| == |es|
  {
    DistinctCardinality(Keys(es));
  }

  lemma IsAnswered<K(!new), V(!new)>(es: seq<Entry<K, V>>, ttlMs: int, now: int, k: K)
    requires Unique(es)
    ensures k in Answered(es, ttlMs, now) <==> k in Elems(Keys(if ttlMs < 0 then es else Unexpired(es, now)))
  {
    hide Unique, Unexpired;
    var kept := if ttlMs < 0 then es else Unexpired(es, now);
    KeptIsStillToCome(es, now);
    KeyOfEntry(es, k);
    KeyOfEntry(kept, k);
    LookupFacts(es, k);
    if Lookup(es, k).Some? {
      var e := Lookup(es, k).value;
      OnlyEntry(es, e, k);
      assert e in kept <==> !IsExpired(ttlMs, e.expiresAt, now);
      assert k in Keys(kept) <==> e in kept;
    }
    assert k in Keys(es) && GetValue(es, ttlMs, now, k).Some? <==> k in Keys(kept);
    assert k in Elems(Keys(kept)) <==> k in Keys(kept);
    assert k in Answered(es, ttlMs, now) <==> k in Keys(es) && GetValue(es, ttlMs, now, k).Some?;
  }

  lemma OnlyEntry<K, V>(es: seq<Entry<K, V>>, e: Entry<K, V>, k: K)
    requires Unique(es) && e in es && e.key == k
    ensures forall f :: f in es && f.key == k ==> f == e
  {
  }
}
