# Glance rate limiting, property protections and image memberships in Dafny

This project models four pieces of the Glance image service (2013 era,
Python 2) and proves properties of them:

- **The per-token rate limiter** (`glance/api/middleware/ratelimit.py`).
  It is a leaky bucket implemented by virtual scheduling. `__init__` reads
  the configuration. `get_ratelimitable_key_tuples` and
  `_get_limit_for_action` choose the buckets of a request: the account
  bucket `ratelimit/<token>`, then the action bucket
  `ratelimit/<token>/<action>`. `_get_sleep_time` reserves a slot in one
  bucket by an atomic `incr`. It then forgives an idle bucket, computes a
  wait, or undoes the reservation and rejects. `handle_ratelimit` walks the
  buckets in order, sleeps after each one, and stops with 429 "Slow down"
  at the first rejection. With a `clock_accuracy` of 0, formatting the
  rejection's message divides by zero, and that `ZeroDivisionError` escapes
  the middleware instead. `__call__` bypasses the limiter when there is no
  store client or no `x-auth-token`.
- **The counter store the limiter is tested against**: `FakeMemcache`, with
  its failure switches `error_on_incr` and `init_incr_return_neg`. The
  test's `_run` oracle issues the same request `n` times while a mocked
  clock advances only by the sleeps asked for.
- **Property protections** (`glance/common/property_utils.py`). Loading
  turns the sections of the protection file into ordered rules. Each rule
  is a pattern plus, for each of create/read/update/delete, a comma-separated
  role list, stripped. `check_property_rules` is a first-match decision over
  those rules. `@` grants, `!` denies, both together is an error, and
  sharing a role grants. A rule that says nothing falls through to the
  next; the default is deny, and an empty rule list allows everything.
- **Image memberships in the registry** (`glance/registry/api/v1/members.py`).
  `update_all` reconciles the memberships of an image with the body's list:
  mentioned existing members are updated, unmentioned ones deleted, and new
  ones created. `update` upserts one membership. Both sit behind the same
  guards: 401 when there is no user, 404 for a missing or hidden image, 403
  for an image the caller may not share. `delete` removes one membership. `make_member_list` filters and
  projects database rows.

Modelling choices:

- The clock is an integer `nowM` in clock units (`clock_accuracy` per
  second), and sleeps are returned in clock units.
- Float settings are exact `real`s. Python 2's `round` (halves away from
  zero) and `int()` (truncation) are written out.
- The store and the membership table are immutable maps threaded through
  pure functions.
- Regular-expression compilation and matching are parameters
  (`compiles`, `matches`).
- The parsed sections of the protection file are an input.
- Image lookup and the sharability test are an input (`ImageLookup`).

Each bucket's sleep happens before the next bucket is consulted, and
sleeps taken for earlier buckets are not undone when a later bucket
rejects. `Walk` and `WalkFrom` model it that way, and `CallResult.sleptM`
reports the time slept before a rejection. The next bucket is asked at
the time the previous sleep ended, as under the tests' mocked clock.

Files:

- `wrappers.dfy`: `Option` and `Result`.
- `counter_store.dfy`: `FakeMemcache`.
- `rate_limit.dfy`: configuration, buckets, `_get_sleep_time`, `handle_ratelimit`, `__call__`.
- `rate_limit_timing.dfy`: the `_run` timing scenarios.
- `role_lists.dfy`: `split(',')` and `strip()` of role lists.
- `property_rules.dfy`: rule loading and `check_property_rules`.
- `members.dfy`: the membership controller.

## Model

| member | source | states |
|---|---|---|
| CounterStore.Fresh | glance/tests/unit/test_ratelimit.py:36-39 | a new fake store holds no key and both failure switches are off |
| CounterStore.Get | glance/tests/unit/test_ratelimit.py:41-42 | `get` returns a value exactly for stored keys, and that value is the stored one |
| CounterStore.Set | glance/tests/unit/test_ratelimit.py:44-46 | `set` makes the key hold the value, leaves every other key and both switches as they were |
| CounterStore.Incr | glance/tests/unit/test_ratelimit.py:48-58 | with `error_on_incr` the call fails and the store is unchanged; with `init_incr_return_neg` it answers -10000000 once, clears the switch and stores nothing; otherwise the reply is the old value (0 when absent) plus delta, clamped at 0, it is what the key now holds, and no other key changes |
| CounterStore.Decr | glance/tests/unit/test_ratelimit.py:60-61 | `decr` is `incr` of the negated delta: it fails like `incr`, answers -10000000 once and clears that switch like `incr`, and otherwise subtracts with the same clamp at 0, stores the reply, touches no other key and keeps both switches |
| CounterStore.Delete | glance/tests/unit/test_ratelimit.py:67-72 | the key is gone afterwards, nothing else changes, and deleting an absent key is a no-op |
| CounterStore.IncrThenDecrRestores | glance/tests/unit/test_ratelimit.py:48-61 | `decr(k, d)` after `incr(k, d)` restores a non-negative value and leaves other keys and switches untouched |
| CounterStore.IncrAdditive | glance/tests/unit/test_ratelimit.py:55-58 | two unclamped increments equal one increment by their sum |
| CounterStore.IncrMissingAsZero | glance/tests/unit/test_ratelimit.py:55 | an absent key is incremented as though it held 0 |
| RateLimit.Truncate | glance/api/middleware/ratelimit.py:44-47 | `int()` of a float rounds toward zero: the result is within one of the input, on the input's side of zero |
| RateLimit.Round | glance/api/middleware/ratelimit.py:166-167 | Python 2 `round` lands within one half of the input, with halves going away from zero |
| RateLimit.FromConf | glance/api/middleware/ratelimit.py:41-100 | the clock accuracy and the buffer are `int()` of the configured values, or 1000 units per second and 5 s; the ceiling, the logging threshold and the account limit are the configured values or 60 s, 0 and 0; each of the five actions' limits is its configured value or 0 |
| RateLimit.LimitForAction | glance/api/middleware/ratelimit.py:133-154 | a limit is found exactly for the five actions `image_list`, `image_download`, `image_register`, `image_upload`, `image_update`; anything else, `None` included, is the ValueError |
| RateLimit.EffectiveActionLimit | glance/api/middleware/ratelimit.py:122-129 | a known action's limit is its configured rate; an unknown or missing action is absorbed as limit 0 |
| RateLimit.KeyTuples | glance/api/middleware/ratelimit.py:105-131 | the account bucket is present exactly for a limitable method with a non-zero account limit; the action bucket is present exactly for a positive action limit; the account bucket comes first |
| RateLimit.AccountBucketPrecedesActionBucket | glance/tests/unit/test_ratelimit.py:175-192 | with an account limit of 10 and each action at 5, a GET of any of the five actions gives the account bucket then the action bucket with those rates |
| RateLimit.AccountAndActionKeysDiffer | glance/api/middleware/ratelimit.py:120-129 | the account key and an action key of the same token never collide |
| RateLimit.TimePerRequest | glance/api/middleware/ratelimit.py:167 | the spacing is `clock_accuracy / rate` rounded, so within half a clock unit of it, and never negative for a non-negative clock accuracy and a positive rate |
| RateLimit.GetSleepTime | glance/api/middleware/ratelimit.py:156-191 | a connection error admits at once and changes nothing; only the bucket's own key changes; the request is rejected exactly when the wait reaches the ceiling within 1 % of a second and `clock_accuracy` is not 0; with a `clock_accuracy` of 0 every wait reaches the ceiling and the rejection is a division by zero; an admitted bucket's value does not exceed now plus wait plus one spacing, and equals it whenever there is a wait |
| RateLimit.SleepIsBacklog | glance/api/middleware/ratelimit.py:170-178 | the wait is how far the bucket's due time lies ahead of now (never negative), or 0 for a bucket idle past the buffer |
| RateLimit.IdleBucketResets | glance/api/middleware/ratelimit.py:171-175 | an idle bucket is reset to now plus one spacing and the request does not wait |
| RateLimit.RejectIsNetZero | glance/api/middleware/ratelimit.py:180-186 | a rejected request leaves a busy bucket's value exactly as it found it |
| RateLimit.WalkFrom | glance/api/middleware/ratelimit.py:208-224 | a walk that passes examined every remaining bucket; one that rejects answers 429 "Slow down" after at least one bucket; one that raises the division by zero also stops after at least one bucket; an empty walk passes without sleeping or touching the store |
| RateLimit.Walk | glance/api/middleware/ratelimit.py:207-224 | the same for a whole bucket list walked with `_get_sleep_time`; a walk raises the division by zero only when `clock_accuracy` is 0 |
| RateLimit.WalkFromRaisesOnlyWithoutAccuracy | glance/api/middleware/ratelimit.py:184-186 | a walk with `_get_sleep_time` ends in the division by zero only when `clock_accuracy` is 0 |
| RateLimit.WalkFromOne | glance/api/middleware/ratelimit.py:208-224 | a single rejecting bucket answers 429 "Slow down" (or raises the division by zero) without sleeping; a single admitting bucket passes after exactly its wait, leaving the store the bucket left |
| RateLimit.WalkFromPair | glance/api/middleware/ratelimit.py:208-224 | with two buckets, a rejecting first bucket answers 429 (or raises) at once; otherwise the second bucket is asked after the first one's wait and answers 429 (or raises) having slept that wait, or passes having slept both waits |
| RateLimit.WalkFromShift | glance/api/middleware/ratelimit.py:208 | walking a concatenated list from inside its second part is walking that part alone |
| RateLimit.WalkFromShortCircuit | glance/api/middleware/ratelimit.py:217-223 | once a bucket rejects or raises, buckets appended after it change nothing |
| RateLimit.WalkShortCircuit | glance/api/middleware/ratelimit.py:217-223 | the first rejection or exception ends `handle_ratelimit`: a bucket list that does not pass answers the same with any buckets appended |
| RateLimit.WalkFromAppend | glance/api/middleware/ratelimit.py:208-216 | when every bucket of a first list admits, the walk of a longer list continues from the store and clock that list left, and the sleeps add up |
| RateLimit.WalkFromFailOpen | glance/api/middleware/ratelimit.py:189-191 | with a failing store every remaining bucket admits at once and the store is untouched |
| RateLimit.WalkFailOpen | glance/api/middleware/ratelimit.py:189-191 | with a failing store the whole walk passes at once with the store untouched |
| RateLimit.BucketStepKeeps | glance/api/middleware/ratelimit.py:168-183 | one `_get_sleep_time` call writes only its own bucket's key |
| RateLimit.WalkFromFrame | glance/api/middleware/ratelimit.py:208-216 | a walk whose steps keep a key outside the bucket list keeps that key |
| RateLimit.WalkFrame | glance/api/middleware/ratelimit.py:207-224 | `handle_ratelimit` never touches a key outside its bucket list |
| RateLimit.HandleRateLimit | glance/api/middleware/ratelimit.py:193-224 | a pass examined every selected bucket; a rejection is 429 "Slow down"; a request with no bucket passes without sleeping or touching the store |
| RateLimit.HandleAccountThenAction | glance/api/middleware/ratelimit.py:193-224 | a request counted against both its account and its action asks the account bucket first and the action bucket after the account bucket's wait; it is rejected (or raises) exactly when one of them rejects (or raises), and passes having slept both waits |
| RateLimit.Call | glance/api/middleware/ratelimit.py:226-258 | without a store client or without a token the request is forwarded at once with the client untouched; otherwise the request is rejected exactly when `handle_ratelimit` rejects it, always with 429 "Slow down", the exception escapes exactly when `handle_ratelimit` raises it, and the store and the time slept are those `handle_ratelimit` left |
| RateLimit.CallFailOpen | glance/api/middleware/ratelimit.py:189-191 | a store whose every `incr` fails forwards every request at once and is left as it was |
| RateLimitTiming.RunWith | glance/tests/unit/test_ratelimit.py:162-167 | over back-to-back calls the mocked clock advances by exactly the time slept |
| RateLimitTiming.RunCalls | glance/tests/unit/test_ratelimit.py:162-167 | the same for `n` calls of `__call__` on one request |
| RateLimitTiming.QuietRun | glance/tests/unit/test_ratelimit.py:165-166 | a call that forwards at once and changes nothing does so over any number of repetitions |
| RateLimitTiming.UnlimitedRun | glance/tests/unit/test_ratelimit.py:319-333 | without a store client (or without a token) a run never sleeps |
| RateLimitTiming.UniformRun | glance/tests/unit/test_ratelimit.py:162-172 | a call that sleeps one spacing from each steady state and returns to one sleeps `n` spacings over `n` calls |
| RateLimitTiming.SingleBucketCall | glance/api/middleware/ratelimit.py:207-224 | a request limited by exactly one bucket sleeps that bucket's wait, or is rejected or raises without sleeping, and leaves the store `_get_sleep_time` left |
| RateLimitTiming.ZeroAccuracyRaises | glance/api/middleware/ratelimit.py:180-186 | with a `clock_accuracy` of 0 and a working store, every request counted against at least one bucket ends in the escaping division by zero, without sleeping |
| RateLimitTiming.SteadyCall | glance/api/middleware/ratelimit.py:166-188 | when the bucket is due one spacing from now, a call waits exactly one spacing and leaves the bucket due one spacing after it proceeds |
| RateLimitTiming.SteadyCalls | glance/api/middleware/ratelimit.py:166-188 | every call from a steady state waits one spacing and lands in a steady state |
| RateLimitTiming.SteadyRun | glance/tests/unit/test_ratelimit.py:162-172 | from the steady state `n` calls sleep `n` spacings in total |
| RateLimitTiming.FreshRun | glance/api/middleware/ratelimit.py:171-175 | from a fresh store, starting at clock 0 or at any later clock at which a bucket due one spacing after 0 is idle, `n >= 1` calls sleep `n - 1` spacings: the first request is not limited |
| RateLimitTiming.FreshRunSeconds | glance/tests/unit/test_ratelimit.py:168-172 | from the same starting clocks, with an exact spacing the total is `(n - 1) / rate` seconds |
| RateLimitTiming.RestartedStoreRun | glance/tests/unit/test_ratelimit.py:215-230 | a store whose first `incr` answers -10000000 gives the same total: the answer reads as an idle bucket, which is reset |
| RateLimitTiming.AccountRateFiftyCalls | glance/tests/unit/test_ratelimit.py:194-213 | 50 calls at 5 per second sleep 9800 units of 1/1000 s, 9.8 s, for DELETE, GET, POST and PUT |
| RateLimitTiming.RestartedStoreFiftyCalls | glance/tests/unit/test_ratelimit.py:215-230 | the same 9.8 s against a store that starts by answering -10000000 |
| RateLimitTiming.FailingStoreRun | glance/tests/unit/test_ratelimit.py:335-351 | with a store that fails every `incr` no call of a run sleeps, and the store is left as it was |
| RoleLists.Strip | glance/common/property_utils.py:72 | the stripped entry has no whitespace at either end, and it is the piece of the entry between its leading and its trailing whitespace |
| RoleLists.StripClean | glance/common/property_utils.py:72 | an entry without whitespace at its ends is left as it is |
| RoleLists.StripIdempotent | glance/common/property_utils.py:72 | stripping twice is stripping once |
| RoleLists.StripPadded | glance/common/property_utils.py:72 | a name padded with whitespace strips back to the name |
| RoleLists.Split | glance/common/property_utils.py:72 | `split(',')` gives at least one piece, no piece holds a ',', and joining the pieces with ',' gives the input back |
| RoleLists.SplitJoin | glance/common/property_utils.py:72 | splitting a ','-join of comma-free pieces gives the pieces back |
| RoleLists.ParseRoles | glance/common/property_utils.py:70-75 | an empty option gives no roles; otherwise role `i` is piece `i` of `split(',')`, stripped |
| RoleLists.ParseJoinedRoles | glance/common/property_utils.py:70-75 | clean, comma-free role names written with ',' between them parse back to the same names |
| RoleLists.ParseRolesPair | glance/common/property_utils.py:72 | two comma-free pieces around one ',' parse as the two pieces, stripped |
| RoleLists.PaddedRolePair | glance/tests/unit/common/test_property_utils.py:89-103 | whitespace around the entries does not matter: "member ,fake-role" and "fake-role,   member" give the two names |
| PropertyRules.IsPropertyProtectionEnabled | glance/common/property_utils.py:41-44 | protection is on exactly when a non-empty protection file name is configured |
| PropertyRules.ParseOperation | glance/common/property_utils.py:97-98 | an action is an operation exactly when it is one of create, read, update, delete, and then it names that operation |
| PropertyRules.ParseOperationName | glance/common/property_utils.py:63 | naming an operation and reading the name back gives the operation |
| PropertyRules.RuleOf | glance/common/property_utils.py:66-82 | a loaded rule keeps the section name as its pattern, and each operation's roles are the parsed option value |
| PropertyRules.SectionError | glance/common/property_utils.py:63-70 | a section fails on its pattern first, and only then on the first of create, read, update, delete that has no option; the error names the section |
| PropertyRules.FindUnloadable | glance/common/property_utils.py:65-70 | the scan finds the first section that does not load, or reports that all of them load |
| PropertyRules.LoadSections | glance/common/property_utils.py:63-82 | loading succeeds exactly when every section loads, and then gives one rule per section in section order; otherwise the error is that of the first section that fails |
| PropertyRules.LoadRules | glance/common/property_utils.py:53-82 | a protection file that cannot be found is an error; otherwise its sections are loaded |
| PropertyRules.ScanFrom | glance/common/property_utils.py:100-114 | the first rule that decides, decides |
| PropertyRules.ScanFromNoneDecisive | glance/common/property_utils.py:114 | when no rule decides, the answer is deny |
| PropertyRules.CheckPropertyRules | glance/common/property_utils.py:93-114 | no rules allow everything; an action that is not one of the four operations is denied; otherwise the first matching rule that decides, decides |
| PropertyRules.UndecidedIsDenied | glance/common/property_utils.py:100-114 | a property no matching rule decides is denied whenever there are rules |
| PropertyRules.RuleVerdictCases | glance/common/property_utils.py:101-113 | a matching rule is an error exactly with both '@' and '!'; it grants exactly with '@' alone, or with neither marker and a shared role; it denies exactly with '!' alone; otherwise it passes on |
| PropertyRules.EmptyRoleListNeverDecides | glance/common/property_utils.py:70-80 | a rule whose option for the operation is empty never decides it; a later rule or the default deny does |
| PropertyRules.EmptyOptionDefersToLaterRule | glance/common/property_utils.py:100-113 | a rule with an empty option does not forbid the operation: a later matching rule that decides still decides |
| PropertyRules.ScanFromShift | glance/common/property_utils.py:100 | scanning with one rule put in front, one index further on, is scanning the original list |
| PropertyRules.ScanFromAgreeingJudges | glance/common/property_utils.py:100-113 | two ways of judging rules that agree on every rule give the same answer |
| PropertyRules.InertRuleIsSkipped | glance/common/property_utils.py:100-113 | a rule that does not match, or matches and says nothing, can be removed from the front without changing any answer |
| PropertyRules.FirstMatchDecides | glance/common/property_utils.py:100-111 | a matching rule that decides answers whatever rules follow it |
| PropertyRules.UnlistedRoleIrrelevant | glance/common/property_utils.py:112-113 | holding one more role that no rule lists for the operation does not change the answer |
| Members.Guard | glance/registry/api/v1/members.py:74-95 | 401 exactly for a caller with neither an owner nor admin; else 404 exactly for a missing or hidden image; else 403 exactly for an image the caller may not share; no error otherwise |
| Members.HiddenImageLooksMissing | glance/registry/api/v1/members.py:83-90 | an image hidden from the caller answers like a missing one, never 403 |
| Members.Partition | glance/registry/api/v1/members.py:105-141 | the walk fails, with 400, exactly when an entry names no member; otherwise the updates are the mentioned existing members and the additions the mentioned new ones |
| Members.ApplyAdds | glance/registry/api/v1/members.py:159-161 | creating memberships adds exactly the new members and keeps every other membership |
| Members.ApplyPlan | glance/registry/api/v1/members.py:146-161 | after applying, the memberships are the updated plus the added ones; an existing membership without an update is deleted; an updated one holds its new value |
| Members.ApplyAddsSetOther | glance/registry/api/v1/members.py:159-161 | creating other members commutes with setting one member |
| Members.ApplyPlanUpdateStep | glance/registry/api/v1/members.py:148-153 | one more in-place update sets that member in the outcome |
| Members.ApplyPlanAddStep | glance/registry/api/v1/members.py:159-161 | one more creation sets that member in the outcome |
| Members.PartitionSnoc | glance/registry/api/v1/members.py:118-141 | one more named entry becomes an update when the member exists and an addition otherwise, with the resolved `can_share` |
| Members.ApplyPlanStep | glance/registry/api/v1/members.py:118-161 | one more named entry sets that member, with its resolved `can_share`, in the outcome |
| Members.ReconciledStep | glance/registry/api/v1/members.py:105-161 | setting the member of one more entry keeps the reconciliation promise for the longer list |
| Members.PartitionApplyReconciles | glance/registry/api/v1/members.py:105-161 | walking and then applying gives exactly the mentioned members, each with the `can_share` of its last entry: the given value, else the existing one, else False |
| Members.UpdateAll | glance/registry/api/v1/members.py:63-164 | the guards answer first; a body without `memberships` is 400; it succeeds exactly when every entry names a member (else 400); on success the memberships are reconciled with the body |
| Members.UpdateAllOutcomes | glance/registry/api/v1/members.py:146-161 | an existing member not mentioned is deleted, and every mentioned member is present |
| Members.LastMentionExists | glance/registry/api/v1/members.py:108-141 | every mentioned member has a last entry naming it |
| Members.ReconciledUnique | glance/registry/api/v1/members.py:105-161 | the reconciliation promise pins the outcome down to one table |
| Members.UpdateAllIdempotent | glance/registry/api/v1/members.py:63-164 | sending the same `update_all` body twice changes nothing the second time |
| Members.Update | glance/registry/api/v1/members.py:166-228 | the guards answer first; a body without `member.can_share` is 400; on success the member is present and no other membership changes; with no body an existing membership is unchanged and a new one gets False; a given `can_share` is set |
| Members.UpdateResolvesLikeUpdateAll | glance/registry/api/v1/members.py:201-226 | `update` settles `can_share` the same way `update_all` does for one entry |
| Members.UpdateIdempotent | glance/registry/api/v1/members.py:211-226 | repeating an `update` changes nothing |
| Members.DeleteMember | glance/registry/api/v1/members.py:230-270 | the guards answer first; removal succeeds exactly when the member has a membership, and an absent one is a 500 from the uncaught IndexError; on success exactly that member is gone and every other membership is unchanged |
| Members.DeleteUndoesNewMember | glance/registry/api/v1/members.py:222-226 | adding a new member with `update` and then removing it with `delete` gives the memberships back as they were |
| Members.DeleteTwiceFails | glance/registry/api/v1/members.py:256-266 | a second `delete` of the same member finds no membership and answers 500 |
| Members.FetchMember | glance/registry/api/v1/members.py:294-296 | a row becomes a dict holding exactly the output names whose mapped attribute the row has, each with that attribute's value |
| Members.MakeMemberList | glance/registry/api/v1/members.py:287-300 | deleted rows are dropped and each kept row is projected; with no deleted row the list is all rows projected in order, with all rows deleted it is empty |
| Members.MakeMemberListAppend | glance/registry/api/v1/members.py:299-300 | listing two runs of rows one after the other lists each run in turn, so order is kept |
| Members.MakeMemberListSingle | glance/registry/api/v1/members.py:299-300 | a single row is listed exactly when it is not deleted |

## Left out

- The `routes.Mapper` request classification is not modelled, because it belongs to the routing library. The action is an optional input.
- WSGI and webob request and response objects are not modelled. A response is `Forwarded`, `Rejected(429, "Slow down")` or `Raised`.
- Logging is not modelled, including the `log_sleep_time_seconds` warning, because it has no effect on any outcome. The `MaxSleepTimeHitError` message text is not modelled either, except that computing it divides by `clock_accuracy`: with a `clock_accuracy` of 0 that division raises, and the model answers `Raised`.
- What the WSGI server makes of the `ZeroDivisionError` escaping `__call__` is not modelled: the response is `Raised`.
- `eventlet.sleep` and `time.time` are not modelled: the clock is the integer `nowM` and a sleep is a returned number of clock units. Rounding `time.time() * clock_accuracy` to `nowM` happens outside the model.
- RateLimit.WalkFrom: a sleep advances the clock by exactly its length and no other time passes between buckets. The source re-reads `time.time()` for every bucket (ratelimit.py:166), so a later bucket may see a later clock than the model gives it.
- Floating-point rounding is not modelled: settings and rates are exact reals, so `clock_accuracy / max_rate` is exact before Python 2's `round` is applied.
- `filter_factory`, `item_from_env` and `cache_from_env` are not modelled, because they are configuration plumbing. The store client is an optional input.
- The multi-threaded test is not modelled: the model has no concurrency.
- `test_ratelimit_max_rate_double` is skipped in the source and not modelled.
- FakeMemcache's string values are not modelled: the limiter sets the string form of an integer (ratelimit.py:174), which `FakeMemcache.incr` reads back with `int()`; the model folds both into plain integers.
- The real memcache client is not modelled. A connection error is `FakeMemcache`'s `error_on_incr`, and `set` never fails, as in the fake.
- The branch where `decr` fails after `incr` succeeded is modelled, but the fake never reaches it: both calls test the same switch.
- A rate of 0 is excluded by the `Rate` type. The source never builds such a bucket: the account bucket needs a non-zero rate and the action bucket a positive one.
- ConfigParser file reading is not modelled. This covers the `DEFAULT` section, value interpolation, and the module-level parser keeping sections across loads. The sections of the file are an input, and a file that cannot be found is `None`.
- `str(property_name)` is not modelled: names are strings, and the UnicodeEncodeError it raises for a non-ASCII unicode name has no counterpart.
- Regular expressions are not modelled. Compiling is the `compiles` parameter and `search` is the `matches` parameter.
- PropertyRules.Section: only the options named after the four operations are represented, because no other option is read.
- PropertyRules.CheckPropertyRules: a rule holding both '@' and '!' gives the `MalformedRule` decision instead of raising `HTTPInternalServerError`.
- The database API and sessions are not modelled. The memberships of the one image concerned are a map from member id to `can_share`, and one image has at most one membership per member.
- Members.UpdateAll: a new member named twice in one body is created twice by the source (two `add` entries). The model has one membership per member, holding the value of the last entry.
- Members.Entry: `can_share` is a `bool`; Python's `bool()` of arbitrary JSON values is not modelled.
- Members.Update: `MemberBody(None)` stands for every non-empty body that lacks `member.can_share`, all of which the source answers with 400.
- `index` and `index_shared_images` are not modelled, because they are database lookups. Their `make_member_list` step is modelled.
- Members.DeleteMember: `image_member_find` is taken to return an empty list for a missing membership, never to raise NotFound; the database API is not part of this model.
- The module-level `action` function is not modelled, because it refers to undefined names and is dead code.
- `utils.mutating` is not part of this model.
