/**
 * The per-token rate limiter of glance/api/middleware/ratelimit.py: a
 * leaky bucket implemented by virtual scheduling over a shared counter store.
 *
 * Time is an integer `nowM` in clock units (`clock_accuracy` units per
 * second). Sleeps are returned in clock units as well; the source converts
 * them to seconds by dividing by `clock_accuracy` just before sleeping.
 * Float configuration values are exact reals here.
 */
module RateLimit {
  import opened Wrappers
  import opened CounterStore

  const HttpTooManyRequests: int := 429
  const SlowDownBody: string := "Slow down"

  /** Methods that count against the per-token account limit. */
  const LimitableMethods: set<string> := {"GET", "PUT", "POST", "DELETE", "HEAD"}

  /** The actions that may carry their own per-second limit. */
  const RateLimitedActions: set<string> :=
    {"image_list", "image_download", "image_register", "image_upload", "image_update"}

  /** The middleware's settings after `__init__` has read them. */
  datatype Config = Config(
    clockAccuracy: int,
    rateBufferSeconds: int,
    maxSleepTimeSeconds: real,
    logSleepTimeSeconds: real,
    accountRatelimit: real,
    imageList: real,
    imageDownload: real,
    imageRegister: real,
    imageUpload: real,
    imageUpdate: real)

  /** Python's `int()` of a float: truncation toward zero. */
  function Truncate(x: real): (r: int)
    ensures x >= 0.0 ==> r as real <= x < r as real + 1.0
    ensures x < 0.0 ==> r as real - 1.0 < x <= r as real
  {
    if x >= 0.0 then x.Floor else -((-x).Floor)
  }

  /** Python 2's `round()`: to the nearest integer, halves away from zero. */
  function Round(x: real): (r: int)
    ensures x >= 0.0 ==> x - 0.5 < r as real <= x + 0.5
    ensures x < 0.0 ==> x - 0.5 <= r as real < x + 0.5
  {
    if x >= 0.0 then (x + 0.5).Floor else -((-x + 0.5).Floor)
  }

  /** `conf.get(name, default)`. */
  function ConfGet(conf: map<string, real>, name: string, default: real): real {
    if name in conf then conf[name] else default
  }

  /** `__init__`: every option read from `conf`, or its default when absent. */
  function FromConf(conf: map<string, real>): (c: Config)
    ensures c.clockAccuracy == (if "clock_accuracy" in conf then Truncate(conf["clock_accuracy"]) else 1000)
    ensures c.rateBufferSeconds == (if "rate_buffer_seconds" in conf then Truncate(conf["rate_buffer_seconds"]) else 5)
    ensures c.maxSleepTimeSeconds == (if "max_sleep_time_seconds" in conf then conf["max_sleep_time_seconds"] else 60.0)
    ensures c.logSleepTimeSeconds == (if "log_sleep_time_seconds" in conf then conf["log_sleep_time_seconds"] else 0.0)
    ensures c.accountRatelimit == (if "account_ratelimit" in conf then conf["account_ratelimit"] else 0.0)
    ensures forall a :: a in RateLimitedActions ==>
              LimitForAction(c, Some(a)) == Limit(if a in conf then conf[a] else 0.0)
  {
    Config(
      Truncate(ConfGet(conf, "clock_accuracy", 1000.0)),
      Truncate(ConfGet(conf, "rate_buffer_seconds", 5.0)),
      ConfGet(conf, "max_sleep_time_seconds", 60.0),
      ConfGet(conf, "log_sleep_time_seconds", 0.0),
      ConfGet(conf, "account_ratelimit", 0.0),
      ConfGet(conf, "image_list", 0.0),
      ConfGet(conf, "image_download", 0.0),
      ConfGet(conf, "image_register", 0.0),
      ConfGet(conf, "image_upload", 0.0),
      ConfGet(conf, "image_update", 0.0))
  }

  /** The outcome of `_get_limit_for_action`: a limit, or its ValueError. */
  datatype LimitLookup = Limit(rate: real) | UnknownAction

  /** `_get_limit_for_action`: the configured limit of one of the five actions. */
  function LimitForAction(c: Config, action: Option<string>): (r: LimitLookup)
    ensures r.Limit? <==> action.Some? && action.value in RateLimitedActions
  {
    match action
    case None => UnknownAction
    case Some(a) =>
      if a == "image_list" then Limit(c.imageList)
      else if a == "image_download" then Limit(c.imageDownload)
      else if a == "image_register" then Limit(c.imageRegister)
      else if a == "image_upload" then Limit(c.imageUpload)
      else if a == "image_update" then Limit(c.imageUpdate)
      else UnknownAction
  }

  /**
   * A bucket's rate in requests per second. It is never 0: the account
   * bucket needs a truthy rate and an action bucket a positive one, and
   * `_get_sleep_time` divides by it.
   */
  type Rate = r: real | r != 0.0 witness 1.0

  /** One `(key, rate)` pair of `get_ratelimitable_key_tuples`. */
  datatype Bucket = Bucket(key: string, rate: Rate)

  /** The key of the bucket shared by every request of one token. */
  function AccountKey(token: string): string {
    "ratelimit/" + token
  }

  /** The key of the bucket of one action of one token. */
  function ActionKey(token: string, action: string): string {
    "ratelimit/" + token + "/" + action
  }

  /** Whether a request with `method` is counted in the account bucket. */
  predicate AccountApplies(c: Config, verb: string) {
    verb in LimitableMethods && c.accountRatelimit != 0.0
  }

  /** The action limit `get_ratelimitable_key_tuples` uses: a ValueError reads as 0. */
  function EffectiveActionLimit(c: Config, action: Option<string>): (limit: real)
    ensures action.None? || action.value !in RateLimitedActions ==> limit == 0.0
    ensures LimitForAction(c, action).Limit? ==> limit == LimitForAction(c, action).rate
  {
    match LimitForAction(c, action)
    case Limit(rate) => rate
    case UnknownAction => 0.0
  }

  /**
   * `get_ratelimitable_key_tuples`: the account bucket (when it applies)
   * followed by the action bucket (when the action's limit is positive).
   */
  function KeyTuples(c: Config, verb: string, token: string, action: Option<string>): (r: seq<Bucket>)
    ensures |r| == (if AccountApplies(c, verb) then 1 else 0) + (if EffectiveActionLimit(c, action) > 0.0 then 1 else 0)
    ensures AccountApplies(c, verb) ==> r[0] == Bucket(AccountKey(token), c.accountRatelimit)
    ensures EffectiveActionLimit(c, action) > 0.0 ==>
              action.Some? && r[|r| - 1] == Bucket(ActionKey(token, action.value), EffectiveActionLimit(c, action))
  {
    var account := if AccountApplies(c, verb) then [Bucket(AccountKey(token), c.accountRatelimit)] else [];
    var limit := EffectiveActionLimit(c, action);
    if limit > 0.0 then account + [Bucket(ActionKey(token, action.value), limit)] else account
  }

  /**
   * With an account limit and limits for all five actions configured, a GET
   * with any of the actions meets the account bucket first and then the
   * action bucket, each with its configured rate.
   */
  lemma AccountBucketPrecedesActionBucket(token: string, a: string)
    requires a in RateLimitedActions
    ensures var conf := map["account_ratelimit" := 10.0, "image_list" := 5.0, "image_download" := 5.0,
                            "image_register" := 5.0, "image_upload" := 5.0, "image_update" := 5.0];
            KeyTuples(FromConf(conf), "GET", token, Some(a))
              == [Bucket(AccountKey(token), 10.0), Bucket(ActionKey(token, a), 5.0)]
  {
    var conf := map["account_ratelimit" := 10.0, "image_list" := 5.0, "image_download" := 5.0,
                    "image_register" := 5.0, "image_upload" := 5.0, "image_update" := 5.0];
    var c := FromConf(conf);
    assert a in conf;
    assert LimitForAction(c, Some(a)) == Limit(5.0);
    assert AccountApplies(c, "GET");
  }

  /** The account key and an action key of the same token never coincide. */
  lemma AccountAndActionKeysDiffer(token: string, action: string)
    ensures AccountKey(token) != ActionKey(token, action)
  {
    assert |AccountKey(token)| < |ActionKey(token, action)|;
  }

  /** `time_per_request_m`: the spacing between admitted requests, in clock units. */
  function TimePerRequest(c: Config, rate: Rate): (tpr: int)
    ensures c.clockAccuracy >= 0 && rate > 0.0 ==> tpr >= 0
    ensures var exact := c.clockAccuracy as real / rate; exact - 0.5 <= tpr as real <= exact + 0.5
  {
    Round(c.clockAccuracy as real / rate)
  }

  /**
   * Whether a wait of `needM` clock units is at (or within 1 % of a second
   * below) the `max_sleep_time_seconds` ceiling.
   */
  predicate HitsCeiling(c: Config, needM: int) {
    c.maxSleepTimeSeconds * (c.clockAccuracy as real) - (needM as real) <= (c.clockAccuracy as real) * 0.01
  }

  /** Whether a bucket last due at `runningM` has been idle past the burst buffer. */
  predicate IdleBeyondBuffer(c: Config, nowM: int, runningM: int) {
    nowM - runningM > c.rateBufferSeconds * c.clockAccuracy
  }

  /**
   * One bucket's decision: wait `needM` clock units, or `MaxSleepTimeHitError`,
   * or the `ZeroDivisionError` raised while formatting that error's message
   * when `clock_accuracy` is zero.
   */
  datatype Admission = Sleep(needM: nat) | MaxSleepHit(needM: nat) | DivideByZero(needM: nat)

  /** A bucket's decision together with the store it leaves behind. */
  datatype Reservation = Reservation(admission: Admission, store: Store)

  /**
   * `_get_sleep_time` for `key` at time `nowM`: reserve a slot by an atomic
   * increment; forgive an idle bucket by resetting it; otherwise wait until
   * the reserved slot is due; undo the reservation and reject when that wait
   * reaches the ceiling. A connection error at any store call admits at once.
   * The rejection's message divides the wait by `clock_accuracy`, so with a
   * zero accuracy the rejection becomes a division by zero instead.
   */
  function GetSleepTime(c: Config, s: Store, key: string, rate: Rate, nowM: int): (r: Reservation)
    ensures s.errorOnIncr ==> r == Reservation(Sleep(0), s)
    ensures AgreeExcept(s, r.store, key)
    ensures r.store.errorOnIncr == s.errorOnIncr
    ensures !s.errorOnIncr ==> !r.store.initIncrReturnNeg
    ensures !s.errorOnIncr ==>
              (r.admission.MaxSleepHit? <==> c.clockAccuracy != 0 && HitsCeiling(c, r.admission.needM))
    ensures !s.errorOnIncr ==> (r.admission.DivideByZero? <==> c.clockAccuracy == 0)
    ensures Healthy(s) && r.admission.Sleep? ==>
              && key in r.store.data
              && r.store.data[key] <= nowM + r.admission.needM + TimePerRequest(c, rate)
              && (r.admission.needM > 0 ==> r.store.data[key] == nowM + r.admission.needM + TimePerRequest(c, rate))
  {
    var admitAtOnce := Sleep(0);
    var tpr := TimePerRequest(c, rate);
    var (reply, s1) := Incr(s, key, tpr);
    match reply
    case ConnectionError => Reservation(admitAtOnce, s1)
    case Counter(runningM) =>
      var idle := IdleBeyondBuffer(c, nowM, runningM);
      var s2 := if idle then Set(s1, key, nowM + tpr) else s1;
      var needM: nat := if idle || runningM - nowM - tpr < 0 then 0 else runningM - nowM - tpr;
      if HitsCeiling(c, needM) then
        var (undo, s3) := Decr(s2, key, tpr);
        match undo
        case ConnectionError => Reservation(admitAtOnce, s3)
        case Counter(_) =>
          if c.clockAccuracy == 0 then Reservation(DivideByZero(needM), s3)
          else Reservation(MaxSleepHit(needM), s3)
      else
        Reservation(Sleep(needM), s2)
  }

  /**
   * On a healthy store whose bucket holds `v >= 0`, the wait is how far the
   * bucket's due time `v` lies ahead of now, or nothing when the bucket has
   * been idle past the burst buffer.
   */
  lemma SleepIsBacklog(c: Config, s: Store, key: string, rate: Rate, nowM: int)
    requires Healthy(s)
    requires ValueOf(s, key) >= 0 && TimePerRequest(c, rate) >= 0
    ensures var v := ValueOf(s, key);
            GetSleepTime(c, s, key, rate, nowM).admission.needM ==
              (if IdleBeyondBuffer(c, nowM, v + TimePerRequest(c, rate)) || v < nowM then 0 else v - nowM)
  {
  }

  /** An idle bucket is reset to one spacing after now, and the request does not wait. */
  lemma IdleBucketResets(c: Config, s: Store, key: string, rate: Rate, nowM: int)
    requires Healthy(s)
    requires ValueOf(s, key) + TimePerRequest(c, rate) >= 0
    requires IdleBeyondBuffer(c, nowM, ValueOf(s, key) + TimePerRequest(c, rate))
    requires !HitsCeiling(c, 0)
    ensures GetSleepTime(c, s, key, rate, nowM).admission == Sleep(0)
    ensures Get(GetSleepTime(c, s, key, rate, nowM).store, key) == Some(nowM + TimePerRequest(c, rate))
  {
  }

  /**
   * A rejection leaves no debt behind: when the bucket was busy, its value
   * after the rejected request equals its value before it.
   */
  lemma RejectIsNetZero(c: Config, s: Store, key: string, rate: Rate, nowM: int)
    requires Healthy(s)
    requires ValueOf(s, key) >= 0 && TimePerRequest(c, rate) >= 0
    requires !IdleBeyondBuffer(c, nowM, ValueOf(s, key) + TimePerRequest(c, rate))
    requires GetSleepTime(c, s, key, rate, nowM).admission.MaxSleepHit?
    ensures Get(GetSleepTime(c, s, key, rate, nowM).store, key) == Some(ValueOf(s, key))
    ensures SameFlags(s, GetSleepTime(c, s, key, rate, nowM).store)
  {
    IncrThenDecrRestores(s, key, TimePerRequest(c, rate));
  }

  /**
   * How `handle_ratelimit` ends: no response (pass), the 429 response, or
   * an exception it does not catch.
   */
  datatype Verdict = Pass | RateLimited(status: int, body: string) | ZeroDivision

  /**
   * The result of walking a bucket list: the verdict, the store after it,
   * the clock units slept on the way, and how many buckets were examined.
   */
  datatype Handled = Handled(verdict: Verdict, store: Store, sleptM: nat, examined: nat)

  /** The store keys of a bucket list. */
  function Keys(buckets: seq<Bucket>): set<string> {
    set i | 0 <= i < |buckets| :: buckets[i].key
  }

  /** How the walk asks one bucket for a decision: store, bucket, clock. */
  type Step = (Store, Bucket, int) -> Reservation

  /** The step `handle_ratelimit` takes: `_get_sleep_time` on the bucket. */
  function BucketStep(c: Config): Step {
    (s: Store, b: Bucket, nowM: int) => GetSleepTime(c, s, b.key, b.rate, nowM)
  }

  /**
   * The loop of `handle_ratelimit` from the bucket at index `i` on: each
   * bucket in order, sleeping after each admitted bucket (so the clock moves
   * on), stopping at the first rejection.
   */
  function WalkFrom(step: Step, s: Store, buckets: seq<Bucket>, i: nat, nowM: int): (h: Handled)
    requires i <= |buckets|
    ensures h.examined <= |buckets| - i
    ensures h.verdict.Pass? ==> h.examined == |buckets| - i
    ensures h.verdict.RateLimited? ==>
              h.verdict == RateLimited(HttpTooManyRequests, SlowDownBody) && h.examined >= 1
    ensures h.verdict.ZeroDivision? ==> h.examined >= 1
    ensures i == |buckets| ==> h == Handled(Pass, s, 0, 0)
    decreases |buckets| - i
  {
    if i == |buckets| then Handled(Pass, s, 0, 0)
    else
      var r := step(s, buckets[i], nowM);
      match r.admission
      case MaxSleepHit(_) => Handled(RateLimited(HttpTooManyRequests, SlowDownBody), r.store, 0, 1)
      case DivideByZero(_) => Handled(ZeroDivision, r.store, 0, 1)
      case Sleep(needM) =>
        var rest := WalkFrom(step, r.store, buckets, i + 1, nowM + needM);
        Handled(rest.verdict, rest.store, needM + rest.sleptM, 1 + rest.examined)
  }

  /** Walking a list from inside its second part is walking that part alone. */
  lemma {:induction false} WalkFromShift(step: Step, s: Store, front: seq<Bucket>, back: seq<Bucket>, j: nat, nowM: int)
    requires j <= |back|
    ensures WalkFrom(step, s, front + back, |front| + j, nowM) == WalkFrom(step, s, back, j, nowM)
    decreases |back| - j
  {
    if j < |back| {
      assert (front + back)[|front| + j] == back[j];
      var r := step(s, back[j], nowM);
      match r.admission
      case MaxSleepHit(_) =>
      case DivideByZero(_) =>
      case Sleep(needM) =>
        WalkFromShift(step, r.store, front, back, j + 1, nowM + needM);
    }
  }

  /** Buckets after the first rejecting one are never examined. */
  lemma {:induction false} WalkFromShortCircuit(step: Step, s: Store, buckets: seq<Bucket>, more: seq<Bucket>, i: nat, nowM: int)
    requires i <= |buckets|
    requires !WalkFrom(step, s, buckets, i, nowM).verdict.Pass?
    ensures WalkFrom(step, s, buckets + more, i, nowM) == WalkFrom(step, s, buckets, i, nowM)
    decreases |buckets| - i
  {
    assert (buckets + more)[i] == buckets[i];
    var r := step(s, buckets[i], nowM);
    match r.admission
    case MaxSleepHit(_) =>
    case DivideByZero(_) =>
    case Sleep(needM) =>
      WalkFromShortCircuit(step, r.store, buckets, more, i + 1, nowM + needM);
  }

  /**
   * When every bucket from `i` on admits, walking a longer list continues
   * from the store and clock the first part left, and the sleeps add up.
   */
  lemma {:induction false} WalkFromAppend(step: Step, s: Store, buckets: seq<Bucket>, more: seq<Bucket>, i: nat, nowM: int)
    requires i <= |buckets|
    requires WalkFrom(step, s, buckets, i, nowM).verdict.Pass?
    ensures var first := WalkFrom(step, s, buckets, i, nowM);
            var second := WalkFrom(step, first.store, more, 0, nowM + first.sleptM);
            WalkFrom(step, s, buckets + more, i, nowM) ==
              Handled(second.verdict, second.store, first.sleptM + second.sleptM, |buckets| - i + second.examined)
    decreases |buckets| - i
  {
    if i == |buckets| {
      WalkFromShift(step, s, buckets, more, 0, nowM);
    } else {
      assert (buckets + more)[i] == buckets[i];
      var r := step(s, buckets[i], nowM);
      match r.admission
      case MaxSleepHit(_) =>
      case DivideByZero(_) =>
      case Sleep(needM) =>
        var tail := WalkFrom(step, r.store, buckets, i + 1, nowM + needM);
        var whole := WalkFrom(step, r.store, buckets + more, i + 1, nowM + needM);
        assert WalkFrom(step, s, buckets, i, nowM) == Handled(tail.verdict, tail.store, needM + tail.sleptM, 1 + tail.examined);
        assert WalkFrom(step, s, buckets + more, i, nowM) == Handled(whole.verdict, whole.store, needM + whole.sleptM, 1 + whole.examined);
        WalkFromAppend(step, r.store, buckets, more, i + 1, nowM + needM);
    }
  }

  /**
   * The loop of `handle_ratelimit` over a bucket list with `_get_sleep_time`
   * as the step. A store that fails every call lets the request through at
   * once, and keys outside the list are never touched.
   */
  function Walk(c: Config, s: Store, buckets: seq<Bucket>, nowM: int): (h: Handled)
    ensures h.verdict.Pass? ==> h.examined == |buckets|
    ensures h.verdict.RateLimited? ==>
              h.verdict == RateLimited(HttpTooManyRequests, SlowDownBody) && 1 <= h.examined <= |buckets|
    ensures h.verdict.ZeroDivision? ==> 1 <= h.examined <= |buckets| && c.clockAccuracy == 0
    ensures |buckets| == 0 ==> h == Handled(Pass, s, 0, 0)
  {
    var h := WalkFrom(BucketStep(c), s, buckets, 0, nowM);
    if h.verdict.ZeroDivision? then WalkFromRaisesOnlyWithoutAccuracy(c, s, buckets, 0, nowM); h else h
  }

  /** Only a zero `clock_accuracy` lets a walk end in the division by zero. */
  lemma {:induction false} WalkFromRaisesOnlyWithoutAccuracy(c: Config, s: Store, buckets: seq<Bucket>, i: nat, nowM: int)
    requires i <= |buckets|
    requires WalkFrom(BucketStep(c), s, buckets, i, nowM).verdict.ZeroDivision?
    ensures c.clockAccuracy == 0
    decreases |buckets| - i
  {
    if i < |buckets| {
      var r := BucketStep(c)(s, buckets[i], nowM);
      assert r == GetSleepTime(c, s, buckets[i].key, buckets[i].rate, nowM);
      if r.admission.Sleep? {
        WalkFromRaisesOnlyWithoutAccuracy(c, r.store, buckets, i + 1, nowM + r.admission.needM);
      }
    }
  }

  /** Fail-open: when every `incr` fails, every bucket admits without waiting. */
  lemma {:induction false} WalkFromFailOpen(c: Config, s: Store, buckets: seq<Bucket>, i: nat, nowM: int)
    requires i <= |buckets| && s.errorOnIncr
    ensures WalkFrom(BucketStep(c), s, buckets, i, nowM) == Handled(Pass, s, 0, |buckets| - i)
    decreases |buckets| - i
  {
    if i < |buckets| {
      var r := BucketStep(c)(s, buckets[i], nowM);
      assert r == Reservation(Sleep(0), s);
      WalkFromFailOpen(c, s, buckets, i + 1, nowM);
    }
  }

  /** A step leaves key `k` alone whenever the bucket it serves has another key. */
  ghost predicate StepKeeps(step: Step, k: string) {
    forall s: Store, b: Bucket, nowM: int {:trigger step(s, b, nowM)} ::
      b.key != k ==> Get(step(s, b, nowM).store, k) == Get(s, k)
  }

  /** `_get_sleep_time` writes only the key of its own bucket. */
  lemma BucketStepKeeps(c: Config, k: string)
    ensures StepKeeps(BucketStep(c), k)
  {
    forall s: Store, b: Bucket, nowM: int | b.key != k
      ensures Get(BucketStep(c)(s, b, nowM).store, k) == Get(s, k)
    {
      assert BucketStep(c)(s, b, nowM) == GetSleepTime(c, s, b.key, b.rate, nowM);
    }
  }

  /** A walk whose steps each keep `k` keeps `k`, as long as no bucket has key `k`. */
  lemma {:induction false} WalkFromFrame(step: Step, s: Store, buckets: seq<Bucket>, i: nat, nowM: int, k: string)
    requires i <= |buckets| && k !in Keys(buckets) && StepKeeps(step, k)
    ensures Get(WalkFrom(step, s, buckets, i, nowM).store, k) == Get(s, k)
    decreases |buckets| - i
  {
    if i < |buckets| {
      var b := buckets[i];
      assert b.key in Keys(buckets);
      var r := step(s, b, nowM);
      match r.admission
      case MaxSleepHit(_) =>
      case DivideByZero(_) =>
      case Sleep(needM) =>
        WalkFromFrame(step, r.store, buckets, i + 1, nowM + needM, k);
    }
  }

  /**
   * The walk over one bucket: a rejecting bucket answers 429 "Slow down"
   * without sleeping; an admitting one passes after its wait.
   */
  lemma WalkFromOne(step: Step, s: Store, b: Bucket, nowM: int)
    ensures var r := step(s, b, nowM);
            WalkFrom(step, s, [b], 0, nowM) ==
              match r.admission
              case MaxSleepHit(_) => Handled(RateLimited(HttpTooManyRequests, SlowDownBody), r.store, 0, 1)
              case DivideByZero(_) => Handled(ZeroDivision, r.store, 0, 1)
              case Sleep(needM) => Handled(Pass, r.store, needM, 1)
  {
    var r := step(s, b, nowM);
    if r.admission.Sleep? {
      assert WalkFrom(step, r.store, [b], 1, nowM + r.admission.needM) == Handled(Pass, r.store, 0, 0);
    }
  }

  /**
   * The walk over two buckets, the account bucket and the action bucket of
   * `handle_ratelimit`: the first bucket rejects, or it admits and the
   * second bucket is asked after the first one's wait; the request passes
   * only when both admit, having slept both waits.
   */
  lemma WalkFromPair(step: Step, s: Store, a: Bucket, b: Bucket, nowM: int)
    ensures var r1 := step(s, a, nowM);
            WalkFrom(step, s, [a, b], 0, nowM) ==
              match r1.admission
              case MaxSleepHit(_) => Handled(RateLimited(HttpTooManyRequests, SlowDownBody), r1.store, 0, 1)
              case DivideByZero(_) => Handled(ZeroDivision, r1.store, 0, 1)
              case Sleep(n1) =>
                var r2 := step(r1.store, b, nowM + n1);
                match r2.admission
                case MaxSleepHit(_) => Handled(RateLimited(HttpTooManyRequests, SlowDownBody), r2.store, n1, 2)
                case DivideByZero(_) => Handled(ZeroDivision, r2.store, n1, 2)
                case Sleep(n2) => Handled(Pass, r2.store, n1 + n2, 2)
  {
    assert [a, b] == [a] + [b];
    var r1 := step(s, a, nowM);
    WalkFromOne(step, s, a, nowM);
    match r1.admission
    case MaxSleepHit(_) =>
      WalkFromShortCircuit(step, s, [a], [b], 0, nowM);
    case DivideByZero(_) =>
      WalkFromShortCircuit(step, s, [a], [b], 0, nowM);
    case Sleep(n1) =>
      WalkFromAppend(step, s, [a], [b], 0, nowM);
      WalkFromOne(step, r1.store, b, nowM + n1);
  }

  /** `handle_ratelimit` touches no key outside its bucket list. */
  lemma WalkFrame(c: Config, s: Store, buckets: seq<Bucket>, nowM: int, k: string)
    requires k !in Keys(buckets)
    ensures Get(Walk(c, s, buckets, nowM).store, k) == Get(s, k)
  {
    BucketStepKeeps(c, k);
    WalkFromFrame(BucketStep(c), s, buckets, 0, nowM, k);
  }

  /** The first rejection ends `handle_ratelimit`: later buckets change nothing. */
  lemma WalkShortCircuit(c: Config, s: Store, buckets: seq<Bucket>, more: seq<Bucket>, nowM: int)
    requires !Walk(c, s, buckets, nowM).verdict.Pass?
    ensures Walk(c, s, buckets + more, nowM) == Walk(c, s, buckets, nowM)
  {
    WalkFromShortCircuit(BucketStep(c), s, buckets, more, 0, nowM);
  }

  /** Fail-open for the whole walk. */
  lemma WalkFailOpen(c: Config, s: Store, buckets: seq<Bucket>, nowM: int)
    requires s.errorOnIncr
    ensures Walk(c, s, buckets, nowM) == Handled(Pass, s, 0, |buckets|)
  {
    WalkFromFailOpen(c, s, buckets, 0, nowM);
  }

  /** `handle_ratelimit` once a store client is available. */
  function HandleRateLimit(c: Config, s: Store, verb: string, token: string, action: Option<string>, nowM: int): (h: Handled)
    ensures h.verdict.Pass? ==> h.examined == |KeyTuples(c, verb, token, action)|
    ensures h.verdict.RateLimited? ==> h.verdict == RateLimited(HttpTooManyRequests, SlowDownBody)
    ensures !AccountApplies(c, verb) && EffectiveActionLimit(c, action) <= 0.0 ==> h == Handled(Pass, s, 0, 0)
  {
    Walk(c, s, KeyTuples(c, verb, token, action), nowM)
  }

  /**
   * A request counted against both its account and its action: the
   * account bucket is asked first; when it admits, the action bucket is
   * asked once the account bucket's wait is over.
   */
  lemma HandleAccountThenAction(c: Config, s: Store, verb: string, token: string, action: string, nowM: int)
    requires AccountApplies(c, verb) && EffectiveActionLimit(c, Some(action)) > 0.0
    ensures var r1 := GetSleepTime(c, s, AccountKey(token), c.accountRatelimit, nowM);
            HandleRateLimit(c, s, verb, token, Some(action), nowM) ==
              match r1.admission
              case MaxSleepHit(_) => Handled(RateLimited(HttpTooManyRequests, SlowDownBody), r1.store, 0, 1)
              case DivideByZero(_) => Handled(ZeroDivision, r1.store, 0, 1)
              case Sleep(n1) =>
                var r2 := GetSleepTime(c, r1.store, ActionKey(token, action), EffectiveActionLimit(c, Some(action)), nowM + n1);
                match r2.admission
                case MaxSleepHit(_) => Handled(RateLimited(HttpTooManyRequests, SlowDownBody), r2.store, n1, 2)
                case DivideByZero(_) => Handled(ZeroDivision, r2.store, n1, 2)
                case Sleep(n2) => Handled(Pass, r2.store, n1 + n2, 2)
  {
    var a := Bucket(AccountKey(token), c.accountRatelimit);
    var b := Bucket(ActionKey(token, action), EffectiveActionLimit(c, Some(action)));
    assert KeyTuples(c, verb, token, Some(action)) == [a, b];
    var r1 := GetSleepTime(c, s, a.key, a.rate, nowM);
    assert BucketStep(c)(s, a, nowM) == r1;
    var h := WalkFrom(BucketStep(c), s, [a, b], 0, nowM);
    assert HandleRateLimit(c, s, verb, token, Some(action), nowM) == h;
    WalkFromPair(BucketStep(c), s, a, b, nowM);
    match r1.admission
    case MaxSleepHit(_) =>
    case DivideByZero(_) =>
    case Sleep(n1) =>
      var r2 := GetSleepTime(c, r1.store, b.key, b.rate, nowM + n1);
      assert BucketStep(c)(r1.store, b, nowM + n1) == r2;
  }

  /** What the middleware needs from a request. */
  datatype Request = Request(verb: string, authToken: Option<string>, action: Option<string>)

  /**
   * `self.app(...)` (forwarded), the 429 response, or the `ZeroDivisionError`
   * escaping the middleware.
   */
  datatype Response = Forwarded | Rejected(status: int, body: string) | Raised

  /** A response with the store client as the call leaves it and the time slept. */
  datatype CallResult = CallResult(response: Response, client: Option<Store>, sleptM: nat)

  /**
   * `__call__`: without a store client, or without an `x-auth-token`, the
   * request is forwarded untouched; otherwise the buckets decide.
   */
  function Call(c: Config, client: Option<Store>, req: Request, nowM: int): (r: CallResult)
    ensures r.client.Some? == client.Some?
    ensures client.None? || req.authToken.None? ==> r == CallResult(Forwarded, client, 0)
    ensures r.response.Rejected? ==> r.response == Rejected(HttpTooManyRequests, SlowDownBody)
    ensures client.Some? && req.authToken.Some? ==>
              var h := HandleRateLimit(c, client.value, req.verb, req.authToken.value, req.action, nowM);
              && r.client == Some(h.store)
              && r.sleptM == h.sleptM
              && (r.response.Rejected? <==> h.verdict.RateLimited?)
              && (r.response.Raised? <==> h.verdict.ZeroDivision?)
  {
    match client
    case None => CallResult(Forwarded, None, 0)
    case Some(s) =>
      match req.authToken
      case None => CallResult(Forwarded, client, 0)
      case Some(token) =>
        var h := HandleRateLimit(c, s, req.verb, token, req.action, nowM);
        match h.verdict
        case Pass => CallResult(Forwarded, Some(h.store), h.sleptM)
        case RateLimited(status, body) => CallResult(Rejected(status, body), Some(h.store), h.sleptM)
        case ZeroDivision => CallResult(Raised, Some(h.store), h.sleptM)
  }

  /**
   * Fail-open: with a store whose every `incr` fails, every request is
   * forwarded at once and the store is left as it was.
   */
  lemma CallFailOpen(c: Config, s: Store, req: Request, nowM: int)
    requires s.errorOnIncr
    ensures Call(c, Some(s), req, nowM) == CallResult(Forwarded, Some(s), 0)
  {
    if req.authToken.Some? {
      WalkFailOpen(c, s, KeyTuples(c, req.verb, req.authToken.value, req.action), nowM);
    }
  }
}
