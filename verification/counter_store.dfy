/**
 * The in-memory counter store the rate limiter is tested against
 * (`FakeMemcache` in glance/tests/unit/test_ratelimit.py).
 *
 * The store is an immutable value: every operation that changes it returns
 * the new store. Stored values are integers; the source stores the string
 * form of an integer on `set` and converts it back with `int()` on `incr`,
 * which the model folds into one integer representation.
 */
module CounterStore {
  import opened Wrappers

  /** What the first `incr` returns while `init_incr_return_neg` is set. */
  const InitialNegativeReply: int := -10000000

  /**
   * `data` is the key/value dictionary; `errorOnIncr` makes every `incr`
   * fail with a connection error; `initIncrReturnNeg` makes the next `incr`
   * simulate a freshly restarted server.
   */
  datatype Store = Store(data: map<string, int>, errorOnIncr: bool, initIncrReturnNeg: bool)

  /** The reply of `incr`: the new counter value, or `MemcacheConnectionError`. */
  datatype IncrReply = Counter(value: int) | ConnectionError

  /** A store in which `incr` behaves as plain atomic addition. */
  predicate Healthy(s: Store) {
    !s.errorOnIncr && !s.initIncrReturnNeg
  }

  /** Both stores hold the same value (or absence) at every key but `key`. */
  ghost predicate AgreeExcept(s: Store, s': Store, key: string) {
    forall k :: k != key ==> Get(s', k) == Get(s, k)
  }

  /** Both stores have the same failure-injection flags. */
  predicate SameFlags(s: Store, s': Store) {
    s'.errorOnIncr == s.errorOnIncr && s'.initIncrReturnNeg == s.initIncrReturnNeg
  }

  /** A new `FakeMemcache()`: empty and healthy. */
  function Fresh(): (s: Store)
    ensures Healthy(s)
    ensures forall k :: Get(s, k).None?
  {
    Store(map[], false, false)
  }

  /** `get`: the stored value, or None for an absent key. */
  function Get(s: Store, key: string): (r: Option<int>)
    ensures r.Some? <==> key in s.data
    ensures r.Some? ==> r.value == s.data[key]
  {
    if key in s.data then Some(s.data[key]) else None
  }

  /** The value `incr` starts from: the stored value, 0 for an absent key. */
  function ValueOf(s: Store, key: string): (v: int)
    ensures Get(s, key).Some? ==> v == Get(s, key).value
    ensures Get(s, key).None? ==> v == 0
  {
    Get(s, key).GetOr(0)
  }

  /** `set`: unconditionally overwrites `key`; never fails. */
  function Set(s: Store, key: string, value: int): (s': Store)
    ensures Get(s', key) == Some(value)
    ensures AgreeExcept(s, s', key)
    ensures SameFlags(s, s')
  {
    s.(data := s.data[key := value])
  }

  /**
   * `incr`: fails when `error_on_incr` is set; otherwise, while
   * `init_incr_return_neg` is set, answers -10000000 once without touching
   * the data; otherwise adds `delta` to the value (0 when absent), clamps a
   * negative sum to 0, stores it and returns it.
   */
  function Incr(s: Store, key: string, delta: int): (r: (IncrReply, Store))
    ensures s.errorOnIncr ==> r == (ConnectionError, s)
    ensures !s.errorOnIncr && s.initIncrReturnNeg ==>
              r == (Counter(InitialNegativeReply), s.(initIncrReturnNeg := false))
    ensures Healthy(s) ==>
              && r.0.Counter?
              && r.0.value >= 0
              && Get(r.1, key) == Some(r.0.value)
              && AgreeExcept(s, r.1, key)
              && SameFlags(s, r.1)
    ensures Healthy(s) && ValueOf(s, key) + delta >= 0 ==> r.0 == Counter(ValueOf(s, key) + delta)
    ensures Healthy(s) && ValueOf(s, key) + delta < 0 ==> r.0 == Counter(0)
  {
    if s.errorOnIncr then (ConnectionError, s)
    else if s.initIncrReturnNeg then (Counter(InitialNegativeReply), s.(initIncrReturnNeg := false))
    else
      var sum := ValueOf(s, key) + delta;
      var stored := if sum < 0 then 0 else sum;
      (Counter(stored), s.(data := s.data[key := stored]))
  }

  /** `decr`: subtracts `delta` with the same failure and clamping rules as `incr`. */
  function Decr(s: Store, key: string, delta: int): (r: (IncrReply, Store))
    ensures s.errorOnIncr ==> r == (ConnectionError, s)
    ensures !s.errorOnIncr && s.initIncrReturnNeg ==>
              r == (Counter(InitialNegativeReply), s.(initIncrReturnNeg := false))
    ensures Healthy(s) ==>
              && r.0.Counter?
              && Get(r.1, key) == Some(r.0.value)
              && AgreeExcept(s, r.1, key)
              && SameFlags(s, r.1)
    ensures Healthy(s) && ValueOf(s, key) >= delta ==> r.0 == Counter(ValueOf(s, key) - delta)
    ensures Healthy(s) && ValueOf(s, key) < delta ==> r.0 == Counter(0)
  {
    Incr(s, key, -delta)
  }

  /** `delete`: removes `key`; a no-op when it is absent. */
  function Delete(s: Store, key: string): (s': Store)
    ensures Get(s', key).None?
    ensures AgreeExcept(s, s', key)
    ensures SameFlags(s, s')
    ensures Get(s, key).None? ==> s' == s
  {
    s.(data := s.data - {key})
  }

  /**
   * Undoing an increment: on a healthy store holding a non-negative value,
   * `decr(key, d)` after `incr(key, d)` with `d >= 0` gives back the value
   * held before, and no other key changes.
   */
  lemma IncrThenDecrRestores(s: Store, key: string, d: int)
    requires Healthy(s)
    requires ValueOf(s, key) >= 0 && d >= 0
    ensures var s1 := Incr(s, key, d).1;
            var s2 := Decr(s1, key, d).1;
            Get(s2, key) == Some(ValueOf(s, key)) && AgreeExcept(s, s2, key) && SameFlags(s, s2)
  {
    var s1 := Incr(s, key, d).1;
    assert ValueOf(s1, key) == ValueOf(s, key) + d;
  }

  /** Two increments without clamping add up to one increment by the sum. */
  lemma IncrAdditive(s: Store, key: string, a: int, b: int)
    requires Healthy(s)
    requires ValueOf(s, key) >= 0 && a >= 0 && b >= 0
    ensures Incr(Incr(s, key, a).1, key, b) == Incr(s, key, a + b)
  {
    var v := ValueOf(s, key);
    assert s.data[key := v + a][key := v + a + b] == s.data[key := v + a + b];
  }

  /** An absent key is incremented as though it held 0. */
  lemma IncrMissingAsZero(s: Store, key: string, delta: int)
    requires Get(s, key).None?
    ensures Incr(s, key, delta).0 == Incr(Set(s, key, 0), key, delta).0
  {
  }
}
