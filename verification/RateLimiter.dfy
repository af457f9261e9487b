/** The in-memory sliding-window rate limiter with its background purge (common/rate-limit.go). */
module RateLimiter {

  /** key -> admission times, oldest first. */
  type Store = map<string, seq<int>>

  datatype Verdict = Verdict(admitted: bool, queue: seq<int>)

  /** One request against the key's queue; an absent key has the empty queue. */
  function Admit(queue: seq<int>, limit: nat, window: int, now: int): Verdict {
    if queue == [] || |queue| < limit then Verdict(true, queue + [now])
    else if now - queue[0] >= window then Verdict(true, queue[1..] + [now])
    else Verdict(false, queue)
  }

  function QueueOf(store: Store, key: string): seq<int> {
    if key in store then store[key] else []
  }

  /** The purge age in whole seconds, of an expiration in nanoseconds. */
  function Expiry(expiration: int): int {
    if expiration > 0 then expiration / 1_000_000_000 else 0
  }

  /** Whole seconds, rounded down. */
  lemma ExpiryMeaning(expiration: int)
    requires expiration > 0
    ensures Expiry(expiration) * 1_000_000_000 <= expiration < (Expiry(expiration) + 1) * 1_000_000_000
  {
  }

  predicate Stale(queue: seq<int>, expiry: int, now: int) {
    queue == [] || now - queue[|queue| - 1] > expiry
  }

  function AfterPurge(store: Store, expiry: int, now: int): Store {
    map key | key in store && !Stale(store[key], expiry, now) :: store[key]
  }

  class InMemoryRateLimiter {
    var store: Store
    const expiration: int

    /** Stored queues are never empty. */
    ghost predicate Valid()
      reads this
    {
      forall key :: key in store ==> store[key] != []
    }

    constructor (expiration: int)
      ensures Valid() && store == map[] && this.expiration == expiration
    {
      store := map[];
      this.expiration := expiration;
    }

    /** `Request`. */
    method Request(key: string, limit: nat, window: int, now: int) returns (ok: bool)
      requires Valid()
      modifies this
      ensures Valid()
      ensures var v := Admit(QueueOf(old(store), key), limit, window, now);
              && ok == v.admitted
              && store == old(store)[key := v.queue]
    {
      if key in store {
        var queue := store[key];
        if |queue| < limit {
          store := store[key := queue + [now]];
          return true;
        } else if now - queue[0] >= window {
          store := store[key := queue[1..] + [now]];
          return true;
        } else {
          assert store == store[key := queue];
          return false;
        }
      }
      assert QueueOf(store, key) + [now] == [now];
      store := store[key := [now]];
      return true;
    }

    /** One round of `clearExpiredItems`, which `Init` starts for a positive expiration only. */
    method ClearExpired(now: int)
      requires Valid()
      modifies this
      ensures Valid()
      ensures store == AfterPurge(old(store), Expiry(expiration), now)
    {
      var expiry := Expiry(expiration);
      var keys := store.Keys;
      while keys != {}
        invariant keys <= store.Keys <= old(store).Keys
        invariant forall k :: k in store ==> store[k] == old(store)[k]
        invariant forall k :: k in store && k !in keys ==> !Stale(store[k], expiry, now)
        invariant forall k :: k in old(store) && k !in store ==> Stale(old(store)[k], expiry, now)
        decreases |keys|
      {
        var key :| key in keys;
        keys := keys - {key};
        var queue := store[key];
        if |queue| == 0 || now - queue[|queue| - 1] > expiry {
          store := store - {key};
        }
      }
    }
  }

  // ----- runs

  datatype Event = Ask(key: string, at: int) | Purge(at: int)

  /** The fixed configuration of a run: a limit and a window for every key, and the expiration. */
  datatype Config = Config(limit: string -> nat, window: string -> int, expiration: int)

  /** A purge round; there are none unless the expiration is positive. */
  function AfterRound(cfg: Config, store: Store, at: int): Store {
    if cfg.expiration > 0 then AfterPurge(store, Expiry(cfg.expiration), at) else store
  }

  function Answers(cfg: Config, store: Store, events: seq<Event>): seq<bool>
    decreases |events|
  {
    if events == [] then []
    else match events[0]
      case Ask(key, at) =>
        var v := Admit(QueueOf(store, key), cfg.limit(key), cfg.window(key), at);
        [v.admitted] + Answers(cfg, store[key := v.queue], events[1..])
      case Purge(at) =>
        Answers(cfg, AfterRound(cfg, store, at), events[1..])
  }

  /** The times at which each key was admitted, in order. */
  type History = map<string, seq<int>>

  function Young(times: seq<int>, window: int, now: int): nat {
    if times == [] then 0
    else (if now - times[0] < window then 1 else 0) + Young(times[1..], window, now)
  }

  /** The reference: a key is admitted while fewer than `limit` (at least one) of its admitted
      requests are younger than its window. Purges do nothing. */
  predicate Allowed(cfg: Config, past: History, key: string, now: int) {
    Young(QueueOf(past, key), cfg.window(key), now) < Effective(cfg.limit(key))
  }

  function Effective(limit: nat): nat {
    if limit == 0 then 1 else limit
  }

  function AfterAsk(cfg: Config, past: History, key: string, now: int): History {
    if Allowed(cfg, past, key, now) then past[key := QueueOf(past, key) + [now]] else past
  }

  function Reference(cfg: Config, past: History, events: seq<Event>): seq<bool>
    decreases |events|
  {
    if events == [] then []
    else match events[0]
      case Ask(key, at) =>
        [Allowed(cfg, past, key, at)] + Reference(cfg, AfterAsk(cfg, past, key, at), events[1..])
      case Purge(_) => Reference(cfg, past, events[1..])
  }

  predicate Sorted(times: seq<int>) {
    forall i, j :: 0 <= i < j < |times| ==> times[i] <= times[j]
  }

  /** The clock never runs backwards. */
  predicate Monotone(from: int, events: seq<Event>)
    decreases |events|
  {
    events == [] || (from <= events[0].at && Monotone(events[0].at, events[1..]))
  }

  // ----- counting young admissions

  lemma {:induction false} YoungConcat(a: seq<int>, b: seq<int>, window: int, now: int)
    ensures Young(a + b, window, now) == Young(a, window, now) + Young(b, window, now)
  {
    if a == [] {
      assert a + b == b;
    } else {
      YoungConcat(a[1..], b, window, now);
      assert (a + b)[1..] == a[1..] + b;
    }
  }

  lemma {:induction false} YoungNone(times: seq<int>, window: int, now: int)
    requires forall i :: 0 <= i < |times| ==> now - times[i] >= window
    ensures Young(times, window, now) == 0
  {
    if times != [] { YoungNone(times[1..], window, now); }
  }

  lemma {:induction false} YoungAll(times: seq<int>, window: int, now: int)
    ensures Young(times, window, now) <= |times|
    ensures Young(times, window, now) == |times| <==> forall i :: 0 <= i < |times| ==> now - times[i] < window
  {
    if times != [] {
      YoungAll(times[1..], window, now);
      assert forall i :: 0 < i < |times| ==> times[i] == times[1..][i - 1];
    }
  }

  /** The queue answers for the whole past: it is the past's tail, and all it has forgotten is
      outside the window for good. */
  ghost predicate Stands(queue: seq<int>, past: seq<int>, limit: nat, window: int, now: int) {
    && |queue| <= Effective(limit)
    && |queue| <= |past| && queue == past[|past| - |queue|..]
    && Sorted(past)
    && (forall i :: 0 <= i < |past| ==> past[i] <= now)
    && (forall i :: 0 <= i < |past| - |queue| ==> now - past[i] >= window)
  }

  /** A standing queue decides exactly as the count over the whole past does. */
  lemma AdmitIsAllowed(queue: seq<int>, past: seq<int>, limit: nat, window: int, before: int, now: int)
    requires Stands(queue, past, limit, window, before) && before <= now
    ensures Admit(queue, limit, window, now).admitted <==> Young(past, window, now) < Effective(limit)
  {
    var forgotten := past[..|past| - |queue|];
    assert past == forgotten + queue;
    YoungConcat(forgotten, queue, window, now);
    YoungNone(forgotten, window, now);
    YoungAll(queue, window, now);
    if queue != [] {
      assert forall i :: 0 <= i < |queue| ==> queue[0] <= queue[i];
    }
  }

  lemma AdmitStands(queue: seq<int>, past: seq<int>, limit: nat, window: int, before: int, now: int)
    requires Stands(queue, past, limit, window, before) && before <= now
    ensures var v := Admit(queue, limit, window, now);
            Stands(v.queue, if v.admitted then past + [now] else past, limit, window, now)
  {
  }

  lemma PurgeStands(queue: seq<int>, past: seq<int>, limit: nat, window: int, before: int, now: int, expiry: int)
    requires Stands(queue, past, limit, window, before) && before <= now
    requires window <= expiry + 1
    ensures Stands(if Stale(queue, expiry, now) then [] else queue, past, limit, window, now)
  {
    if queue != [] && Stale(queue, expiry, now) {
      assert forall i :: 0 <= i < |past| ==> past[i] <= past[|past| - 1];
    }
  }

  ghost predicate AllStand(cfg: Config, store: Store, past: History, now: int) {
    forall key :: StandsAt(cfg, store, past, now, key)
  }

  /** There are no purges, or the expiration, in nanoseconds, is at least one second short of the window. */
  predicate Covers(cfg: Config, window: int) {
    cfg.expiration <= 0 || (window - 1) * 1_000_000_000 <= cfg.expiration
  }

  /** Then nothing is purged before it leaves the window. */
  lemma CoversMeaning(cfg: Config, window: int)
    requires cfg.expiration > 0
    ensures Covers(cfg, window) <==> window <= Expiry(cfg.expiration) + 1
  {
    ExpiryMeaning(cfg.expiration);
  }

  ghost predicate WindowsCovered(cfg: Config) {
    forall key :: Covers(cfg, cfg.window(key))
  }

  ghost predicate StandsAt(cfg: Config, store: Store, past: History, now: int, key: string) {
    Stands(QueueOf(store, key), QueueOf(past, key), cfg.limit(key), cfg.window(key), now)
  }

  /** The asked key: one queue against its own past. */
  lemma AskedQueue(queue: seq<int>, past: seq<int>, limit: nat, window: int, before: int, now: int)
    requires Stands(queue, past, limit, window, before) && before <= now
    ensures var v := Admit(queue, limit, window, now);
            var allowed := Young(past, window, now) < Effective(limit);
            && v.admitted == allowed
            && Stands(v.queue, if allowed then past + [now] else past, limit, window, now)
  {
    AdmitIsAllowed(queue, past, limit, window, before, now);
    AdmitStands(queue, past, limit, window, before, now);
  }

  /** After an ask the queue and the past of the asked key are extended, all others are as before. */
  lemma AskQueues(cfg: Config, store: Store, past: History, key: string, at: int, queue: seq<int>, k: string)
    ensures QueueOf(store[key := queue], k) == if k == key then queue else QueueOf(store, k)
    ensures QueueOf(AfterAsk(cfg, past, key, at), k) ==
              if k == key && Allowed(cfg, past, key, at) then QueueOf(past, key) + [at] else QueueOf(past, k)
  {
  }

  lemma AskStandsAt(cfg: Config, store: Store, past: History, now: int, key: string, at: int, k: string)
    requires StandsAt(cfg, store, past, now, k) && now <= at
    ensures var v := Admit(QueueOf(store, key), cfg.limit(key), cfg.window(key), at);
            && (k == key ==> v.admitted == Allowed(cfg, past, key, at))
            && StandsAt(cfg, store[key := v.queue], AfterAsk(cfg, past, key, at), at, k)
  {
    var v := Admit(QueueOf(store, key), cfg.limit(key), cfg.window(key), at);
    AskQueues(cfg, store, past, key, at, v.queue, k);
    if k == key {
      AskedQueue(QueueOf(store, k), QueueOf(past, k), cfg.limit(k), cfg.window(k), now, at);
    } else {
      StandsLater(QueueOf(store, k), QueueOf(past, k), cfg.limit(k), cfg.window(k), now, at);
    }
  }

  lemma AskStands(cfg: Config, store: Store, past: History, now: int, key: string, at: int)
    requires AllStand(cfg, store, past, now) && now <= at
    ensures var v := Admit(QueueOf(store, key), cfg.limit(key), cfg.window(key), at);
            && v.admitted == Allowed(cfg, past, key, at)
            && AllStand(cfg, store[key := v.queue], AfterAsk(cfg, past, key, at), at)
  {
    AskStandsAt(cfg, store, past, now, key, at, key);
    var v := Admit(QueueOf(store, key), cfg.limit(key), cfg.window(key), at);
    var store', past' := store[key := v.queue], AfterAsk(cfg, past, key, at);
    forall k
      ensures StandsAt(cfg, store', past', at, k)
    {
      assert StandsAt(cfg, store, past, now, k);
      AskStandsAt(cfg, store, past, now, key, at, k);
    }
  }

  lemma StandsLater(queue: seq<int>, past: seq<int>, limit: nat, window: int, before: int, now: int)
    requires Stands(queue, past, limit, window, before) && before <= now
    ensures Stands(queue, past, limit, window, now)
  {
  }

  lemma PurgeStandsAt(cfg: Config, store: Store, past: History, now: int, at: int, k: string)
    requires Covers(cfg, cfg.window(k)) && StandsAt(cfg, store, past, now, k) && now <= at
    ensures StandsAt(cfg, AfterRound(cfg, store, at), past, at, k)
  {
    RoundQueue(cfg, store, at, k);
    if cfg.expiration > 0 {
      CoversMeaning(cfg, cfg.window(k));
      PurgeStands(QueueOf(store, k), QueueOf(past, k), cfg.limit(k), cfg.window(k), now, at, Expiry(cfg.expiration));
    } else {
      StandsLater(QueueOf(store, k), QueueOf(past, k), cfg.limit(k), cfg.window(k), now, at);
    }
  }

  /** A purge round empties the stale queues and leaves the others. */
  lemma RoundQueue(cfg: Config, store: Store, at: int, k: string)
    ensures QueueOf(AfterRound(cfg, store, at), k) ==
              if cfg.expiration > 0 && Stale(QueueOf(store, k), Expiry(cfg.expiration), at) then [] else QueueOf(store, k)
  {
  }

  lemma PurgeAllStand(cfg: Config, store: Store, past: History, now: int, at: int)
    requires WindowsCovered(cfg) && AllStand(cfg, store, past, now) && now <= at
    ensures AllStand(cfg, AfterRound(cfg, store, at), past, at)
  {
    forall k
      ensures StandsAt(cfg, AfterRound(cfg, store, at), past, at, k)
    {
      assert StandsAt(cfg, store, past, now, k) && Covers(cfg, cfg.window(k));
      PurgeStandsAt(cfg, store, past, now, at, k);
    }
  }

  /** The limiter with its purge answers every run as the reference does. */
  lemma {:induction false} RunAgrees(cfg: Config, store: Store, past: History, events: seq<Event>, now: int)
    requires WindowsCovered(cfg) && Monotone(now, events) && AllStand(cfg, store, past, now)
    ensures Answers(cfg, store, events) == Reference(cfg, past, events)
    decreases |events|
  {
    if events != [] {
      var at := events[0].at;
      match events[0]
      case Ask(key, _) =>
        var v := Admit(QueueOf(store, key), cfg.limit(key), cfg.window(key), at);
        AskStands(cfg, store, past, now, key, at);
        RunAgrees(cfg, store[key := v.queue], AfterAsk(cfg, past, key, at), events[1..], at);
      case Purge(_) =>
        PurgeAllStand(cfg, store, past, now, at);
        RunAgrees(cfg, AfterRound(cfg, store, at), past, events[1..], at);
    }
  }

  ghost predicate AlwaysAgrees(cfg: Config) {
    forall events: seq<Event>, start: int ::
      Monotone(start, events) ==> Answers(cfg, map[], events) == Reference(cfg, map[], events)
  }

  // ----- a purge that comes too early

  function Asks(key: string, n: nat): seq<Event> {
    if n == 0 then [] else [Ask(key, 0)] + Asks(key, n - 1)
  }

  function Trues(n: nat): seq<bool> {
    if n == 0 then [] else [true] + Trues(n - 1)
  }

  predicate AllZero(times: seq<int>) {
    forall i :: 0 <= i < |times| ==> times[i] == 0
  }

  lemma TruesCons(n: nat, rest: seq<bool>)
    requires n > 0
    ensures Trues(n) + rest == [true] + (Trues(n - 1) + rest)
  {
  }

  lemma AsksCons(key: string, n: nat, rest: seq<Event>)
    requires n > 0
    ensures Asks(key, n) + rest == [Ask(key, 0)] + (Asks(key, n - 1) + rest)
  {
  }

  lemma AnswersAsk(cfg: Config, store: Store, key: string, at: int, rest: seq<Event>)
    ensures var v := Admit(QueueOf(store, key), cfg.limit(key), cfg.window(key), at);
            Answers(cfg, store, [Ask(key, at)] + rest) == [v.admitted] + Answers(cfg, store[key := v.queue], rest)
  {
    assert ([Ask(key, at)] + rest)[1..] == rest;
  }

  lemma AnswersPurge(cfg: Config, store: Store, at: int, rest: seq<Event>)
    ensures Answers(cfg, store, [Purge(at)] + rest) == Answers(cfg, AfterRound(cfg, store, at), rest)
  {
    assert ([Purge(at)] + rest)[1..] == rest;
  }

  lemma ReferenceCons(cfg: Config, past: History, e: Event, rest: seq<Event>)
    ensures Reference(cfg, past, [e] + rest) ==
              if e.Purge? then Reference(cfg, past, rest)
              else [Allowed(cfg, past, e.key, e.at)] + Reference(cfg, AfterAsk(cfg, past, e.key, e.at), rest)
  {
    assert ([e] + rest)[1..] == rest;
  }

  /** Up to the limit, the limiter admits every request at time 0. */
  lemma {:induction false} BurstAnswers(cfg: Config, key: string, store: Store, n: nat, tail: seq<Event>)
    returns (store': Store)
    requires AllZero(QueueOf(store, key)) && |QueueOf(store, key)| + n <= Effective(cfg.limit(key))
    ensures AllZero(QueueOf(store', key)) && |QueueOf(store', key)| == |QueueOf(store, key)| + n
    ensures Answers(cfg, store, Asks(key, n) + tail) == Trues(n) + Answers(cfg, store', tail)
    decreases n
  {
    if n == 0 {
      assert Asks(key, n) + tail == tail;
      store' := store;
    } else {
      AsksCons(key, n, tail);
      AnswersAsk(cfg, store, key, 0, Asks(key, n - 1) + tail);
      var next := store[key := QueueOf(store, key) + [0]];
      store' := BurstAnswers(cfg, key, next, n - 1, tail);
      TruesCons(n, Answers(cfg, store', tail));
    }
  }

  /** ... and so does the reference. */
  lemma {:induction false} BurstReference(cfg: Config, key: string, past: History, n: nat, tail: seq<Event>)
    returns (past': History)
    requires AllZero(QueueOf(past, key)) && |QueueOf(past, key)| + n <= Effective(cfg.limit(key))
    ensures AllZero(QueueOf(past', key)) && |QueueOf(past', key)| == |QueueOf(past, key)| + n
    ensures Reference(cfg, past, Asks(key, n) + tail) == Trues(n) + Reference(cfg, past', tail)
    decreases n
  {
    if n == 0 {
      assert Asks(key, n) + tail == tail;
      past' := past;
    } else {
      AsksCons(key, n, tail);
      YoungAll(QueueOf(past, key), cfg.window(key), 0);
      ReferenceCons(cfg, past, Ask(key, 0), Asks(key, n - 1) + tail);
      var next := past[key := QueueOf(past, key) + [0]];
      past' := BurstReference(cfg, key, next, n - 1, tail);
      TruesCons(n, Reference(cfg, past', tail));
    }
  }

  lemma {:induction false} AsksMonotone(key: string, n: nat, tail: seq<Event>)
    requires Monotone(0, tail)
    ensures Monotone(0, Asks(key, n) + tail)
  {
    if n == 0 {
      assert Asks(key, n) + tail == tail;
    } else {
      AsksMonotone(key, n - 1, tail);
      AsksCons(key, n, tail);
    }
  }

  /** A window longer than the purge age plus one second is cut short by a purge. */
  lemma EarlyPurgeAdmits(cfg: Config, key: string)
    requires !Covers(cfg, cfg.window(key))
    ensures !AlwaysAgrees(cfg)
  {
    CoversMeaning(cfg, cfg.window(key));
    var n, late := Effective(cfg.limit(key)), Expiry(cfg.expiration) + 1;
    var asks := [Ask(key, late)] + [];
    var tail := [Purge(late)] + asks;
    assert tail[1..] == asks && asks[1..] == [];
    AsksMonotone(key, n, tail);
    var store := BurstAnswers(cfg, key, map[], n, tail);
    var past := BurstReference(cfg, key, map[], n, tail);
    YoungAll(QueueOf(past, key), cfg.window(key), late);
    ReferenceCons(cfg, past, Purge(late), asks);
    ReferenceCons(cfg, past, Ask(key, late), []);
    assert Reference(cfg, past, tail) == [false];
    AnswersPurge(cfg, store, late, asks);
    AnswersAsk(cfg, AfterRound(cfg, store, late), key, late, []);
    assert Answers(cfg, store, tail) == [true];
    assert (Trues(n) + [true])[|Trues(n)|] != (Trues(n) + [false])[|Trues(n)|];
  }

  /** The limiter is the sliding window on every run exactly when there are no purges or every
      window is at most the purge age plus one second. */
  lemma SlidingWindowIff(cfg: Config)
    ensures AlwaysAgrees(cfg) <==>
              cfg.expiration <= 0 || forall key :: (cfg.window(key) - 1) * 1_000_000_000 <= cfg.expiration
  {
    assert WindowsCovered(cfg) <==>
             cfg.expiration <= 0 || forall key :: (cfg.window(key) - 1) * 1_000_000_000 <= cfg.expiration by {
      if WindowsCovered(cfg) {
        forall key | cfg.expiration > 0 ensures (cfg.window(key) - 1) * 1_000_000_000 <= cfg.expiration {
          assert Covers(cfg, cfg.window(key));
        }
      }
    }
    if WindowsCovered(cfg) {
      forall events: seq<Event>, start: int | Monotone(start, events)
        ensures Answers(cfg, map[], events) == Reference(cfg, map[], events)
      {
        RunAgrees(cfg, map[], map[], events, start);
      }
    } else {
      var key :| !Covers(cfg, cfg.window(key));
      EarlyPurgeAdmits(cfg, key);
    }
  }

  // ----- consequences

  function WithoutPurges(events: seq<Event>): seq<Event> {
    if events == [] then []
    else (if events[0].Purge? then [] else [events[0]]) + WithoutPurges(events[1..])
  }

  lemma {:induction false} ReferenceSkipsPurges(cfg: Config, past: History, events: seq<Event>, now: int)
    requires Monotone(now, events)
    ensures Reference(cfg, past, WithoutPurges(events)) == Reference(cfg, past, events)
    ensures Monotone(now, WithoutPurges(events))
    decreases |events|
  {
    if events != [] {
      var rest := WithoutPurges(events[1..]);
      var at := events[0].at;
      match events[0]
      case Ask(key, _) =>
        assert WithoutPurges(events)[1..] == rest;
        ReferenceSkipsPurges(cfg, AfterAsk(cfg, past, key, at), events[1..], at);
      case Purge(_) =>
        ReferenceSkipsPurges(cfg, past, events[1..], at);
        assert WithoutPurges(events) == rest;
    }
  }

  /** Purging never changes an answer. */
  lemma PurgeInvisible(cfg: Config, events: seq<Event>, start: int)
    requires WindowsCovered(cfg) && Monotone(start, events)
    ensures Answers(cfg, map[], events) == Answers(cfg, map[], WithoutPurges(events))
  {
    ReferenceSkipsPurges(cfg, map[], events, start);
    RunAgrees(cfg, map[], map[], events, start);
    RunAgrees(cfg, map[], map[], WithoutPurges(events), start);
  }

  /** The times at which a key was admitted, read off the answers. */
  function Admissions(key: string, events: seq<Event>, answers: seq<bool>): seq<int> {
    if events == [] || answers == [] then []
    else if events[0].Purge? then Admissions(key, events[1..], answers)
    else (if events[0].key == key && answers[0] then [events[0].at] else [])
         + Admissions(key, events[1..], answers[1..])
  }

  /** Any limit+1 consecutive admissions span at least the window. */
  ghost predicate Spaced(times: seq<int>, limit: nat, window: int) {
    forall i :: 0 <= i && i + limit < |times| ==> times[i + limit] - times[i] >= window
  }

  /** If fewer than `limit` are young, the limit-th admission from the end is old. */
  lemma LimitthIsOld(past: seq<int>, limit: nat, window: int, now: int)
    requires Sorted(past) && 1 <= limit <= |past| && Young(past, window, now) < limit
    ensures now - past[|past| - limit] >= window
  {
    var cut := |past| - limit;
    assert past == past[..cut] + past[cut..];
    YoungConcat(past[..cut], past[cut..], window, now);
    if now - past[cut] < window {
      YoungFrom(past[cut..], window, now);
    }
  }

  /** If the first of a sorted list is young, all are. */
  lemma YoungFrom(times: seq<int>, window: int, now: int)
    requires Sorted(times) && times != [] && now - times[0] < window
    ensures Young(times, window, now) == |times|
  {
    YoungAll(times, window, now);
    assert forall i :: 0 <= i < |times| ==> times[0] <= times[i];
  }

  lemma SpacedSnoc(past: seq<int>, limit: nat, window: int, now: int)
    requires Sorted(past) && (forall i :: 0 <= i < |past| ==> past[i] <= now)
    requires limit >= 1 && Spaced(past, limit, window) && Young(past, window, now) < limit
    ensures Spaced(past + [now], limit, window) && Sorted(past + [now])
  {
    if |past| >= limit {
      LimitthIsOld(past, limit, window, now);
    }
    var next := past + [now];
    forall i | 0 <= i && i + limit < |next| ensures next[i + limit] - next[i] >= window {
      if i + limit < |past| {
        assert past[i + limit] - past[i] >= window;
      }
    }
  }

  lemma {:induction false} ReferenceSpaced(cfg: Config, past: History, events: seq<Event>, now: int, key: string)
    requires Monotone(now, events)
    requires Sorted(QueueOf(past, key)) && (forall i :: 0 <= i < |QueueOf(past, key)| ==> QueueOf(past, key)[i] <= now)
    requires Spaced(QueueOf(past, key), Effective(cfg.limit(key)), cfg.window(key))
    ensures Spaced(QueueOf(past, key) + Admissions(key, events, Reference(cfg, past, events)), Effective(cfg.limit(key)), cfg.window(key))
    decreases |events|
  {
    if events == [] {
      assert QueueOf(past, key) + [] == QueueOf(past, key);
    } else {
      var at := events[0].at;
      match events[0]
      case Purge(_) =>
        ReferenceSpaced(cfg, past, events[1..], at, key);
        var answers := Reference(cfg, past, events);
        assert Admissions(key, events, answers) == Admissions(key, events[1..], answers);
      case Ask(k, _) =>
        AskSpaced(cfg, past, k, at, now, key);
        ReferenceSpaced(cfg, AfterAsk(cfg, past, k, at), events[1..], at, key);
        AdmissionsAsk(cfg, past, events, key);
    }
  }

  lemma AdmissionsAsk(cfg: Config, past: History, events: seq<Event>, key: string)
    requires events != [] && events[0].Ask?
    ensures var past' := AfterAsk(cfg, past, events[0].key, events[0].at);
            QueueOf(past, key) + Admissions(key, events, Reference(cfg, past, events))
            == QueueOf(past', key) + Admissions(key, events[1..], Reference(cfg, past', events[1..]))
  {
    var k, at := events[0].key, events[0].at;
    var past' := AfterAsk(cfg, past, k, at);
    var later := Reference(cfg, past', events[1..]);
    assert events == [Ask(k, at)] + events[1..];
    ReferenceCons(cfg, past, events[0], events[1..]);
    AdmissionsCons(key, events, Allowed(cfg, past, k, at), later);
    AskQueues(cfg, past, past, k, at, [], key);
    Regroup(QueueOf(past, key), at, Admissions(key, events[1..], later));
  }

  lemma AdmissionsCons(key: string, events: seq<Event>, answer: bool, later: seq<bool>)
    requires events != [] && events[0].Ask?
    ensures Admissions(key, events, [answer] + later) ==
              (if events[0].key == key && answer then [events[0].at] else []) + Admissions(key, events[1..], later)
  {
    assert ([answer] + later)[1..] == later;
  }

  lemma Regroup(a: seq<int>, x: int, b: seq<int>)
    ensures a + ([x] + b) == (a + [x]) + b && a + ([] + b) == a + b
  {
    assert [] + b == b;
  }

  lemma AskSpaced(cfg: Config, past: History, k: string, at: int, now: int, key: string)
    requires now <= at
    requires Sorted(QueueOf(past, key)) && (forall i :: 0 <= i < |QueueOf(past, key)| ==> QueueOf(past, key)[i] <= now)
    requires Spaced(QueueOf(past, key), Effective(cfg.limit(key)), cfg.window(key))
    ensures var times := QueueOf(AfterAsk(cfg, past, k, at), key);
            && Sorted(times) && (forall i :: 0 <= i < |times| ==> times[i] <= at)
            && Spaced(times, Effective(cfg.limit(key)), cfg.window(key))
  {
    if k == key && Allowed(cfg, past, k, at) {
      SpacedSnoc(QueueOf(past, key), Effective(cfg.limit(key)), cfg.window(key), at);
    }
  }

  /** No run admits more than the limit within one window. */
  lemma LimitHolds(cfg: Config, events: seq<Event>, start: int, key: string)
    requires WindowsCovered(cfg) && Monotone(start, events)
    ensures Spaced(Admissions(key, events, Answers(cfg, map[], events)), Effective(cfg.limit(key)), cfg.window(key))
  {
    RunAgrees(cfg, map[], map[], events, start);
    ReferenceSpaced(cfg, map[], events, start, key);
    var times := Admissions(key, events, Answers(cfg, map[], events));
    assert [] + times == times;
  }
}
