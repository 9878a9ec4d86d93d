/**
 * The timing oracle `_run` of glance/tests/unit/test_ratelimit.py: the same
 * request issued `n` times in a row, where every sleep the middleware asks
 * for advances the clock by exactly that much and nothing else does.
 */
module RateLimitTiming {
  import opened Wrappers
  import opened CounterStore
  import opened RateLimit

  /** The time slept over a run, the store client after it, and the clock. */
  datatype Run = Run(totalSleptM: nat, client: Option<Store>, nowM: int)

  /** One call of the middleware: from the store client and the clock to its outcome. */
  type CallFn = (Option<Store>, int) -> CallResult

  /** `__call__` on one fixed request. */
  function CallOf(c: Config, req: Request): CallFn {
    (client: Option<Store>, nowM: int) => Call(c, client, req, nowM)
  }

  /** `n` back-to-back calls, each starting when the last one's sleep ended. */
  function RunWith(call: CallFn, client: Option<Store>, nowM: int, n: nat): (r: Run)
    ensures r.nowM == nowM + r.totalSleptM
    decreases n
  {
    if n == 0 then Run(0, client, nowM)
    else
      var first := call(client, nowM);
      var rest := RunWith(call, first.client, nowM + first.sleptM, n - 1);
      Run(first.sleptM + rest.totalSleptM, rest.client, rest.nowM)
  }

  /** `n` calls of `__call__` on the same request back to back. */
  function RunCalls(c: Config, client: Option<Store>, req: Request, nowM: int, n: nat): (r: Run)
    ensures r.nowM == nowM + r.totalSleptM
  {
    RunWith(CallOf(c, req), client, nowM, n)
  }

  /** A call that forwards at once and leaves the client as it was does so on every repetition. */
  lemma {:induction false} QuietRun(call: CallFn, client: Option<Store>, nowM: int, n: nat)
    requires call(client, nowM) == CallResult(Forwarded, client, 0)
    ensures RunWith(call, client, nowM, n) == Run(0, client, nowM)
    decreases n
  {
    if n > 0 {
      QuietRun(call, client, nowM, n - 1);
    }
  }

  /** Without a store client, or without a token, a run never sleeps and touches nothing. */
  lemma UnlimitedRun(c: Config, client: Option<Store>, req: Request, nowM: int, n: nat)
    requires client.None? || req.authToken.None?
    ensures RunCalls(c, client, req, nowM, n) == Run(0, client, nowM)
  {
    QuietRun(CallOf(c, req), client, nowM, n);
  }

  /** One spacing followed by `n - 1` spacings is `n` spacings. */
  lemma SpacingsAdd(n: nat, tpr: int, rest: int, total: int)
    requires n > 0 && rest == (n - 1) * tpr && total == tpr + rest
    ensures total == n * tpr
  {
  }

  /**
   * A call that, from every steady state, sleeps `tpr` and lands in a
   * steady state again, sleeps `n * tpr` over `n` calls from a steady state.
   */
  lemma {:induction false} UniformRun(call: CallFn, steady: (Store, int) -> bool, tpr: nat, s: Store, nowM: int, n: nat)
    requires steady(s, nowM)
    requires forall s': Store, t: int :: steady(s', t) ==>
               && call(Some(s'), t).sleptM == tpr
               && call(Some(s'), t).client.Some?
               && steady(call(Some(s'), t).client.value, t + tpr)
    ensures RunWith(call, Some(s), nowM, n).totalSleptM == n * tpr
    decreases n
  {
    if n > 0 {
      var first := call(Some(s), nowM);
      UniformRun(call, steady, tpr, first.client.value, nowM + tpr, n - 1);
      SpacingsAdd(n, tpr, RunWith(call, first.client, nowM + tpr, n - 1).totalSleptM,
                  RunWith(call, Some(s), nowM, n).totalSleptM);
    }
  }

  /** The request is identified and limited by exactly one bucket. */
  predicate SingleBucket(c: Config, req: Request, b: Bucket) {
    req.authToken.Some? && KeyTuples(c, req.verb, req.authToken.value, req.action) == [b]
  }

  /** The spacing of `b` is one the bucket can keep up with for ever. */
  predicate Sustainable(c: Config, b: Bucket) {
    && TimePerRequest(c, b.rate) >= 0
    && c.rateBufferSeconds * c.clockAccuracy >= 0
    && !HitsCeiling(c, TimePerRequest(c, b.rate))
  }

  /** A single-bucket call is the walk over that one bucket. */
  lemma SingleBucketCall(c: Config, s: Store, req: Request, b: Bucket, nowM: int)
    requires SingleBucket(c, req, b)
    ensures var r := GetSleepTime(c, s, b.key, b.rate, nowM);
            var call := Call(c, Some(s), req, nowM);
            && call.client == Some(r.store)
            && (r.admission.Sleep? ==> call.response == Forwarded && call.sleptM == r.admission.needM)
            && (r.admission.MaxSleepHit? ==> call.response == Rejected(HttpTooManyRequests, SlowDownBody) && call.sleptM == 0)
            && (r.admission.DivideByZero? ==> call.response == Raised && call.sleptM == 0)
  {
    var r := GetSleepTime(c, s, b.key, b.rate, nowM);
    assert BucketStep(c)(s, b, nowM) == r;
    match r.admission
    case MaxSleepHit(_) =>
    case DivideByZero(_) =>
    case Sleep(needM) =>
      assert WalkFrom(BucketStep(c), r.store, [b], 1, nowM + needM) == Handled(Pass, r.store, 0, 0);
  }

  /**
   * With a zero `clock_accuracy` every wait reaches the ceiling, so the
   * first bucket of a counted request rejects, and formatting that
   * rejection divides by zero: the request neither passes nor gets a 429,
   * and the exception escapes the middleware without any sleep.
   */
  lemma ZeroAccuracyRaises(c: Config, s: Store, req: Request, nowM: int)
    requires c.clockAccuracy == 0 && !s.errorOnIncr && req.authToken.Some?
    requires |KeyTuples(c, req.verb, req.authToken.value, req.action)| >= 1
    ensures Call(c, Some(s), req, nowM).response == Raised
    ensures Call(c, Some(s), req, nowM).sleptM == 0
  {
    var buckets := KeyTuples(c, req.verb, req.authToken.value, req.action);
    var r := GetSleepTime(c, s, buckets[0].key, buckets[0].rate, nowM);
    assert BucketStep(c)(s, buckets[0], nowM) == r;
    assert r.admission.DivideByZero?;
  }

  /**
   * Steady state: when the bucket is due exactly one spacing after now, a
   * call waits exactly one spacing and leaves the bucket due one spacing
   * after the moment it proceeds.
   */
  lemma SteadyCall(c: Config, s: Store, req: Request, b: Bucket, nowM: int)
    requires SingleBucket(c, req, b) && Sustainable(c, b) && Healthy(s) && nowM >= 0
    requires Get(s, b.key) == Some(nowM + TimePerRequest(c, b.rate))
    ensures var call := Call(c, Some(s), req, nowM);
            var tpr := TimePerRequest(c, b.rate);
            && call.response == Forwarded
            && call.sleptM == tpr
            && call.client.Some?
            && Healthy(call.client.value)
            && Get(call.client.value, b.key) == Some(nowM + tpr + tpr)
  {
    var tpr := TimePerRequest(c, b.rate);
    SleepIsBacklog(c, s, b.key, b.rate, nowM);
    var r := GetSleepTime(c, s, b.key, b.rate, nowM);
    assert r.admission == Sleep(tpr);
    assert Incr(s, b.key, tpr).0 == Counter(nowM + tpr + tpr);
    assert r.store == Incr(s, b.key, tpr).1;
    SingleBucketCall(c, s, req, b, nowM);
  }

  /** The bucket is due exactly one spacing after `nowM`, in a healthy store. */
  predicate Steady(c: Config, b: Bucket, s: Store, nowM: int) {
    Healthy(s) && nowM >= 0 && Get(s, b.key) == Some(nowM + TimePerRequest(c, b.rate))
  }

  /** Every call from a steady state waits one spacing and lands in a steady state. */
  lemma SteadyCalls(c: Config, req: Request, b: Bucket)
    requires SingleBucket(c, req, b) && Sustainable(c, b)
    ensures forall s: Store, t: int :: Steady(c, b, s, t) ==>
              && CallOf(c, req)(Some(s), t).sleptM == TimePerRequest(c, b.rate)
              && CallOf(c, req)(Some(s), t).client.Some?
              && Steady(c, b, CallOf(c, req)(Some(s), t).client.value, t + TimePerRequest(c, b.rate))
  {
    forall s: Store, t: int | Steady(c, b, s, t)
      ensures && CallOf(c, req)(Some(s), t).sleptM == TimePerRequest(c, b.rate)
              && CallOf(c, req)(Some(s), t).client.Some?
              && Steady(c, b, CallOf(c, req)(Some(s), t).client.value, t + TimePerRequest(c, b.rate))
    {
      var call := Call(c, Some(s), req, t);
      assert CallOf(c, req)(Some(s), t) == call;
      SteadyCall(c, s, req, b, t);
      assert Steady(c, b, call.client.value, t + TimePerRequest(c, b.rate));
    }
  }

  /** From the steady state, `n` calls sleep `n` spacings in total. */
  lemma SteadyRun(c: Config, s: Store, req: Request, b: Bucket, nowM: int, n: nat)
    requires SingleBucket(c, req, b) && Sustainable(c, b) && Healthy(s) && nowM >= 0
    requires Get(s, b.key) == Some(nowM + TimePerRequest(c, b.rate))
    ensures RunCalls(c, Some(s), req, nowM, n).totalSleptM == n * TimePerRequest(c, b.rate)
  {
    SteadyCalls(c, req, b);
    UniformRun(CallOf(c, req), (s': Store, t: int) => Steady(c, b, s', t), TimePerRequest(c, b.rate), s, nowM, n);
  }

  /**
   * `n >= 1` back-to-back calls against a fresh store sleep `n - 1`
   * spacings in total: the first request is not limited. This holds from
   * time 0, and from any later time at which a bucket due one spacing
   * after time 0 counts as idle (the first call resets it to one spacing
   * after now); any realistic `time.time()` is such a time.
   */
  lemma FreshRun(c: Config, req: Request, b: Bucket, nowM: int, n: nat)
    requires SingleBucket(c, req, b) && Sustainable(c, b) && n >= 1
    requires nowM >= 0 && (nowM == 0 || IdleBeyondBuffer(c, nowM, TimePerRequest(c, b.rate)))
    ensures RunCalls(c, Some(Fresh()), req, nowM, n).totalSleptM == (n - 1) * TimePerRequest(c, b.rate)
  {
    var r := GetSleepTime(c, Fresh(), b.key, b.rate, nowM);
    SleepIsBacklog(c, Fresh(), b.key, b.rate, nowM);
    assert !HitsCeiling(c, 0);
    assert r.admission == Sleep(0);
    SingleBucketCall(c, Fresh(), req, b, nowM);
    SteadyRun(c, r.store, req, b, nowM, n - 1);
  }

  /**
   * The same with a store whose first `incr` answers -10000000 without
   * storing anything: that answer reads as a long-idle bucket, which is
   * reset, so the total is unchanged.
   */
  lemma RestartedStoreRun(c: Config, req: Request, b: Bucket, n: nat)
    requires SingleBucket(c, req, b) && Sustainable(c, b) && n >= 1
    requires c.rateBufferSeconds * c.clockAccuracy < -InitialNegativeReply
    ensures var s := Fresh().(initIncrReturnNeg := true);
            RunCalls(c, Some(s), req, 0, n).totalSleptM == (n - 1) * TimePerRequest(c, b.rate)
  {
    var s := Fresh().(initIncrReturnNeg := true);
    var tpr := TimePerRequest(c, b.rate);
    var r := GetSleepTime(c, s, b.key, b.rate, 0);
    assert r.admission == Sleep(0);
    assert Get(r.store, b.key) == Some(tpr);
    SingleBucketCall(c, s, req, b, 0);
    SteadyRun(c, r.store, req, b, 0, n - 1);
  }

  /** `k` spacings of `ca / rate` clock units are `k / rate` seconds. */
  lemma SpacingsInSeconds(total: int, k: nat, tpr: int, ca: int, rate: real)
    requires total == k * tpr && ca > 0 && rate != 0.0 && tpr as real == ca as real / rate
    ensures total as real / ca as real == k as real / rate
  {
    assert total as real == k as real * tpr as real;
    assert k as real * (ca as real / rate) == (k as real / rate) * ca as real;
  }

  /** When the spacing is exact, the total in seconds is `(n - 1) / rate`. */
  lemma FreshRunSeconds(c: Config, req: Request, b: Bucket, nowM: int, n: nat)
    requires SingleBucket(c, req, b) && Sustainable(c, b) && n >= 1
    requires nowM >= 0 && (nowM == 0 || IdleBeyondBuffer(c, nowM, TimePerRequest(c, b.rate)))
    requires c.clockAccuracy > 0 && TimePerRequest(c, b.rate) as real == c.clockAccuracy as real / b.rate
    ensures RunCalls(c, Some(Fresh()), req, nowM, n).totalSleptM as real / c.clockAccuracy as real
            == (n - 1) as real / b.rate
  {
    FreshRun(c, req, b, nowM, n);
    SpacingsInSeconds(RunCalls(c, Some(Fresh()), req, nowM, n).totalSleptM, n - 1,
                      TimePerRequest(c, b.rate), c.clockAccuracy, b.rate);
  }

  /** The configuration of the account-limit tests: 5 requests per second. */
  function AccountTestConfig(): Config {
    FromConf(map["account_ratelimit" := 5.0])
  }

  /**
   * The account-limit scenario: 50 calls at 5 per second with the default
   * clock accuracy sleep 9800 clock units of 1/1000 s, 9.8 seconds, for
   * each method.
   */
  lemma AccountRateFiftyCalls(verb: string)
    requires verb in {"DELETE", "GET", "POST", "PUT"}
    ensures var req := Request(verb, Some("HPAuth10_123456789" + verb), None);
            var run := RunCalls(AccountTestConfig(), Some(Fresh()), req, 0, 50);
            run.totalSleptM == 9800 && AccountTestConfig().clockAccuracy == 1000
  {
    var c := AccountTestConfig();
    var token := "HPAuth10_123456789" + verb;
    var req := Request(verb, Some(token), None);
    var b := Bucket(AccountKey(token), 5.0);
    assert c.clockAccuracy == 1000;
    assert TimePerRequest(c, 5.0) == 200;
    assert KeyTuples(c, verb, token, None) == [b];
    FreshRun(c, req, b, 0, 50);
  }

  /** The same scenario against a store that starts by answering -10000000. */
  lemma RestartedStoreFiftyCalls()
    ensures var req := Request("PUT", Some("HPAuth10_123456789"), None);
            var s := Fresh().(initIncrReturnNeg := true);
            RunCalls(AccountTestConfig(), Some(s), req, 0, 50).totalSleptM == 9800
  {
    var c := AccountTestConfig();
    var token := "HPAuth10_123456789";
    var req := Request("PUT", Some(token), None);
    var b := Bucket(AccountKey(token), 5.0);
    assert c.clockAccuracy == 1000 && c.rateBufferSeconds == 5;
    assert TimePerRequest(c, 5.0) == 200;
    assert KeyTuples(c, "PUT", token, None) == [b];
    RestartedStoreRun(c, req, b, 50);
  }

  /** With a store that fails every call, no call of a run ever sleeps. */
  lemma FailingStoreRun(c: Config, s: Store, req: Request, nowM: int, n: nat)
    requires s.errorOnIncr
    ensures RunCalls(c, Some(s), req, nowM, n) == Run(0, Some(s), nowM)
  {
    CallFailOpen(c, s, req, nowM);
    QuietRun(CallOf(c, req), Some(s), nowM, n);
  }
}
