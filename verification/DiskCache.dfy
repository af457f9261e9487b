/** The disk cache under concurrency: the check-then-commit admission race, the usage counter
    with its two-step clamp, and the age-based cleanup (common/body_storage.go,
    common/disk_cache_config.go, common/disk_cache.go). */
module DiskCache {
  import opened Bytes
  import opened BodyStorage
  import opened StorageLedger

  function Sum(xs: seq<nat>): nat {
    if xs == [] then 0 else xs[0] + Sum(xs[1..])
  }

  function Drop(xs: seq<nat>, j: nat): seq<nat>
    requires j < |xs|
  {
    xs[..j] + xs[j + 1..]
  }

  lemma {:induction false} SumConcat(a: seq<nat>, b: seq<nat>)
    ensures Sum(a + b) == Sum(a) + Sum(b)
  {
    if a == [] {
      assert a + b == b;
    } else {
      SumConcat(a[1..], b);
      assert (a + b)[1..] == a[1..] + b;
    }
  }

  lemma SumSnoc(xs: seq<nat>, x: nat)
    ensures Sum(xs + [x]) == Sum(xs) + x
  {
    SumConcat(xs, [x]);
    assert [x][1..] == [];
  }

  lemma {:induction false} SumDrop(xs: seq<nat>, j: nat)
    requires j < |xs|
    ensures Sum(Drop(xs, j)) == Sum(xs) - xs[j]
  {
    if j == 0 {
      assert Drop(xs, j) == xs[1..];
    } else {
      SumDrop(xs[1..], j - 1);
      assert Drop(xs, j)[1..] == Drop(xs[1..], j - 1);
    }
  }

  predicate AtMost(xs: seq<nat>, bound: nat) {
    forall i :: 0 <= i < |xs| ==> xs[i] <= bound
  }

  lemma {:induction false} SumAtMost(xs: seq<nat>, bound: nat)
    requires AtMost(xs, bound)
    ensures Sum(xs) <= |xs| * bound
  {
    if xs != [] {
      SumAtMost(xs[1..], bound);
      assert |xs| * bound == (|xs| - 1) * bound + bound;
    }
  }

  // ----- admission

  /** Counted usage, the sizes of creators between check and commit, the sizes of open storages,
      and how many updates saw a negative usage and will store zero. */
  datatype Race = Race(usage: int, inflight: seq<nat>, open: seq<nat>, clamping: nat)

  /** A creator checks with its declared size and later commits what it has written, or gives up;
      a close or a cleanup subtracts, and clamps in a later step. */
  datatype Move =
    | Check(declared: nat, actual: nat)
    | Commit(j: nat)
    | Abort(j: nat)
    | CloseOne(j: nat)
    | Cleanup(size: nat)
    | ClampUsage

  /** The atomic subtraction of `DecrementDiskFiles`. */
  function Take(s: Race, size: nat): Race {
    s.(usage := s.usage - size, clamping := s.clamping + (if s.usage < size then 1 else 0))
  }

  function Next(cfg: Config, s: Race, m: Move): Race {
    match m
    case Check(declared, actual) =>
      if Available(cfg, s.usage, declared) then s.(inflight := s.inflight + [actual]) else s
    case Commit(j) =>
      if j >= |s.inflight| then s
      else s.(usage := s.usage + s.inflight[j], inflight := Drop(s.inflight, j), open := s.open + [s.inflight[j]])
    case Abort(j) =>
      if j >= |s.inflight| then s else s.(inflight := Drop(s.inflight, j))
    case CloseOne(j) =>
      if j >= |s.open| then s else Take(s, s.open[j]).(open := Drop(s.open, j))
    case Cleanup(size) => Take(s, size)
    case ClampUsage =>
      if s.clamping == 0 then s else s.(usage := 0, clamping := s.clamping - 1)
  }

  function Play(cfg: Config, s: Race, moves: seq<Move>): Race
    decreases |moves|
  {
    if moves == [] then s else Play(cfg, Next(cfg, s, moves[0]), moves[1..])
  }

  /** A creator that writes at most b bytes, at most e of them undeclared. */
  predicate Modest(m: Move, b: nat, e: nat) {
    m.Check? ==> m.actual <= b && m.actual <= m.declared + e
  }

  /** At most k creators are between check and commit, and all are modest. */
  predicate Fits(cfg: Config, s: Race, moves: seq<Move>, k: nat, b: nat, e: nat)
    decreases |moves|
  {
    moves == [] ||
    (&& (moves[0].Check? ==> |s.inflight| < k) && Modest(moves[0], b, e)
     && Fits(cfg, Next(cfg, s, moves[0]), moves[1..], k, b, e))
  }

  function Max(x: int, y: int): int {
    if x < y then y else x
  }

  /** What the cache holds or is about to hold. */
  function Load(s: Race): int {
    Max(s.usage, 0) + Sum(s.inflight)
  }

  /** What k - 1 creators besides the last one may write. */
  function Others(k: nat, b: nat): (r: nat)
    requires k >= 1
  {
    (k - 1) * b
  }

  ghost predicate Within(s: Race, k: nat, b: nat, bound: int) {
    |s.inflight| <= k && AtMost(s.inflight, b) && Load(s) <= bound
  }

  lemma {:induction false} OthersBound(inflight: seq<nat>, k: nat, b: nat)
    requires AtMost(inflight, b) && |inflight| < k
    ensures Sum(inflight) <= Others(k, b)
  {
    SumAtMost(inflight, b);
    Scale(|inflight|, k - 1, b);
  }

  lemma {:induction false} CheckWithin(cfg: Config, s: Race, declared: nat, actual: nat, k: nat, b: nat, e: nat, bound: int)
    requires k >= 1 && Within(s, k, b, bound) && |s.inflight| < k && actual <= b && actual <= declared + e
    requires cfg.maxBytes + e + Others(k, b) <= bound && (s.usage >= 0 || b + Others(k, b) <= bound)
    ensures Within(Next(cfg, s, Check(declared, actual)), k, b, bound)
  {
    SumSnoc(s.inflight, actual);
    OthersBound(s.inflight, k, b);
  }

  /** A check that reads a counter below zero admits a body of any size up to b; otherwise the
      body stays within the maximum but for its undeclared bytes. */
  lemma {:induction false} NextWithin(cfg: Config, s: Race, m: Move, k: nat, b: nat, e: nat, bound: int)
    requires k >= 1 && Within(s, k, b, bound)
    requires cfg.maxBytes + e + Others(k, b) <= bound && (s.usage >= 0 || b + Others(k, b) <= bound)
    requires (m.Check? ==> |s.inflight| < k) && Modest(m, b, e)
    ensures Within(Next(cfg, s, m), k, b, bound)
  {
    match m
    case Check(declared, actual) =>
      CheckWithin(cfg, s, declared, actual, k, b, e, bound);
    case Commit(j) =>
      if j < |s.inflight| { SumDrop(s.inflight, j); }
    case Abort(j) =>
      if j < |s.inflight| { SumDrop(s.inflight, j); }
    case _ =>
  }

  lemma {:induction false} Scale(x: nat, y: nat, b: nat)
    requires x <= y
    ensures x * b <= y * b
  {
  }

  lemma {:induction false} RaceBounded(cfg: Config, s: Race, moves: seq<Move>, k: nat, b: nat, e: nat, bound: int)
    requires k >= 1 && Within(s, k, b, bound) && Fits(cfg, s, moves, k, b, e)
    requires cfg.maxBytes + e + Others(k, b) <= bound && b + Others(k, b) <= bound
    ensures Within(Play(cfg, s, moves), k, b, bound)
    decreases |moves|
  {
    if moves != [] {
      NextWithin(cfg, s, moves[0], k, b, e, bound);
      RaceBounded(cfg, Next(cfg, s, moves[0]), moves[1..], k, b, e, bound);
    }
  }

  /** The counter is what the open storages hold, and no clamp is pending. */
  ghost predicate UsageExact(s: Race) {
    s.usage == Sum(s.open) && s.clamping == 0
  }

  lemma {:induction false} NextExact(cfg: Config, s: Race, m: Move)
    requires UsageExact(s) && !m.Cleanup?
    ensures UsageExact(Next(cfg, s, m))
  {
    match m
    case Commit(j) =>
      if j < |s.inflight| { SumSnoc(s.open, s.inflight[j]); }
    case CloseOne(j) =>
      if j < |s.open| { SumDrop(s.open, j); }
    case _ =>
  }

  /** Conservation: a check adds the bytes it lets in, a commit moves them, an abort or a close takes
      them away again. */
  lemma {:induction false} LoadStep(cfg: Config, s: Race, m: Move)
    requires UsageExact(s)
    ensures m.Check? ==> Load(Next(cfg, s, m)) == Load(s) + (if Available(cfg, s.usage, m.declared) then m.actual else 0)
    ensures m.Commit? ==> Load(Next(cfg, s, m)) == Load(s)
    ensures m.Commit? && m.j < |s.inflight| ==> Next(cfg, s, m).usage == s.usage + s.inflight[m.j]
    ensures m.Abort? && m.j < |s.inflight| ==> Load(Next(cfg, s, m)) == Load(s) - s.inflight[m.j]
    ensures m.CloseOne? && m.j < |s.open| ==> Load(Next(cfg, s, m)) == Load(s) - s.open[m.j]
  {
    match m
    case Check(declared, actual) => SumSnoc(s.inflight, actual);
    case Commit(j) => if j < |s.inflight| { SumDrop(s.inflight, j); }
    case Abort(j) => if j < |s.inflight| { SumDrop(s.inflight, j); }
    case CloseOne(j) => if j < |s.open| { SumDrop(s.open, j); }
    case _ =>
  }

  predicate NoCleanups(moves: seq<Move>) {
    forall i :: 0 <= i < |moves| ==> !moves[i].Cleanup?
  }

  lemma {:induction false} ExactBounded(cfg: Config, s: Race, moves: seq<Move>, k: nat, b: nat, e: nat)
    requires k >= 1 && UsageExact(s) && Within(s, k, b, cfg.maxBytes + e + Others(k, b))
    requires Fits(cfg, s, moves, k, b, e) && NoCleanups(moves)
    ensures UsageExact(Play(cfg, s, moves)) && Within(Play(cfg, s, moves), k, b, cfg.maxBytes + e + Others(k, b))
    decreases |moves|
  {
    if moves != [] {
      NextWithin(cfg, s, moves[0], k, b, e, cfg.maxBytes + e + Others(k, b));
      NextExact(cfg, s, moves[0]);
      ExactBounded(cfg, Next(cfg, s, moves[0]), moves[1..], k, b, e);
    }
  }

  const IDLE := Race(0, [], [], 0)

  /** The same from any state in which nobody is between check and commit. */
  lemma {:induction false} RaceFromRest(cfg: Config, s: Race, moves: seq<Move>, k: nat, b: nat, e: nat)
    requires k >= 1 && s.inflight == [] && s.usage <= Max(cfg.maxBytes + e, b) + Others(k, b)
    requires Fits(cfg, s, moves, k, b, e)
    ensures Load(Play(cfg, s, moves)) <= Max(cfg.maxBytes + e, b) + Others(k, b)
  {
    RaceBounded(cfg, s, moves, k, b, e, Max(cfg.maxBytes + e, b) + Others(k, b));
  }

  lemma {:induction false} RestWithoutCleanups(cfg: Config, s: Race, moves: seq<Move>, k: nat, b: nat, e: nat)
    requires k >= 1 && s.inflight == [] && UsageExact(s) && s.usage <= cfg.maxBytes + e + Others(k, b)
    requires Fits(cfg, s, moves, k, b, e) && NoCleanups(moves)
    ensures UsageExact(Play(cfg, s, moves)) && Load(Play(cfg, s, moves)) <= cfg.maxBytes + e + Others(k, b)
  {
    ExactBounded(cfg, s, moves, k, b, e);
  }

  /** In every interleaving of creators, closes, cleanups and their late clamps, counted plus
      under-way bytes stay within the greater of maximum plus e and b, plus (k-1)*b. A decompressed
      upload declares its compressed length, so e is not zero in general. */
  lemma {:induction false} RaceFromIdle(cfg: Config, moves: seq<Move>, k: nat, b: nat, e: nat)
    requires k >= 1 && Fits(cfg, IDLE, moves, k, b, e)
    ensures Load(Play(cfg, IDLE, moves)) <= Max(cfg.maxBytes + e, b) + Others(k, b)
  {
    RaceFromRest(cfg, IDLE, moves, k, b, e);
  }

  /** Without cleanups the counter is exact, no check reads it below zero, and the overshoot is at
      most (k-1)*b+e whatever b is. */
  lemma {:induction false} RaceWithoutCleanups(cfg: Config, moves: seq<Move>, k: nat, b: nat, e: nat)
    requires cfg.maxBytes >= 0 && k >= 1 && Fits(cfg, IDLE, moves, k, b, e) && NoCleanups(moves)
    ensures var s := Play(cfg, IDLE, moves);
            UsageExact(s) && Load(s) <= cfg.maxBytes + e + Others(k, b)
  {
    RestWithoutCleanups(cfg, IDLE, moves, k, b, e);
  }

  /** One creator at a time exceeds the maximum by no more than its undeclared bytes, except that a
      body admitted on a counter below zero may take its whole size. */
  lemma {:induction false} OneAtATimeNeverExceeds(cfg: Config, s: Race, moves: seq<Move>, b: nat, e: nat)
    requires s.inflight == [] && UsageExact(s) && s.usage <= cfg.maxBytes && Fits(cfg, s, moves, 1, b, e)
    ensures Load(Play(cfg, s, moves)) <= Max(cfg.maxBytes + e, b)
    ensures NoCleanups(moves) ==> Load(Play(cfg, s, moves)) <= cfg.maxBytes + e
  {
    assert Others(1, b) == 0;
    RaceFromRest(cfg, s, moves, 1, b, e);
    if NoCleanups(moves) { RestWithoutCleanups(cfg, s, moves, 1, b, e); }
  }

  /** Nobody is between check and commit, and the usage is exact and within the limit. */
  ghost predicate InLimit(cfg: Config, s: Race) {
    s.inflight == [] && UsageExact(s) && s.usage <= cfg.maxBytes
  }

  /** One creator that checks and commits. */
  function CreateOne(cfg: Config, s: Race, declared: nat, actual: nat): Race {
    Next(cfg, Next(cfg, s, Check(declared, actual)), Commit(0))
  }

  /** From any state within the limit, one creator overshoots exactly when its declared size
      fits and its actual size does not. */
  lemma {:induction false} UndeclaredBytesOvershoot(cfg: Config, s: Race, declared: nat, actual: nat)
    requires InLimit(cfg, s)
    ensures CreateOne(cfg, s, declared, actual).usage > cfg.maxBytes <==>
              cfg.enabled && s.usage + declared <= cfg.maxBytes < s.usage + actual
    ensures InLimit(cfg, CreateOne(cfg, s, declared, actual)) <==> CreateOne(cfg, s, declared, actual).usage <= cfg.maxBytes
  {
    assert s.inflight + [actual] == [actual];
    assert Drop([actual], 0) == [];
    SumSnoc(s.open, actual);
  }

  /** A creator keeps every state within the limit exactly when it writes no more than it declared. */
  lemma {:induction false} OneCreatorSafeIff(cfg: Config, declared: nat, actual: nat)
    requires cfg.enabled && declared <= cfg.maxBytes
    ensures (forall s :: InLimit(cfg, s) ==> InLimit(cfg, CreateOne(cfg, s, declared, actual))) <==> actual <= declared
  {
    forall s | InLimit(cfg, s) && actual <= declared ensures InLimit(cfg, CreateOne(cfg, s, declared, actual)) {
      UndeclaredBytesOvershoot(cfg, s, declared, actual);
    }
    var rest: nat := cfg.maxBytes - declared;
    var full := Race(rest, [], [rest], 0);
    assert Sum([rest]) == rest by { assert [rest][1..] == []; }
    assert InLimit(cfg, full);
    UndeclaredBytesOvershoot(cfg, full, declared, actual);
  }

  // ----- the bound is reached

  function Checks(n: nat, declared: nat, actual: nat): seq<Move> {
    if n == 0 then [] else [Check(declared, actual)] + Checks(n - 1, declared, actual)
  }

  function Fill(n: nat, b: nat): seq<Move> {
    if n == 0 then [] else [Check(b, b), Commit(0)] + Fill(n - 1, b)
  }

  lemma {:induction false} PlayConcat(cfg: Config, s: Race, a: seq<Move>, b: seq<Move>)
    ensures Play(cfg, s, a + b) == Play(cfg, Play(cfg, s, a), b)
    decreases |a|
  {
    if a == [] {
      assert a + b == b;
    } else {
      PlayConcat(cfg, Next(cfg, s, a[0]), a[1..], b);
      assert (a + b)[1..] == a[1..] + b;
    }
  }

  /** Creators that check before any of them commits are all let in. */
  lemma {:induction false} ChecksPass(cfg: Config, s: Race, n: nat, k: nat, declared: nat, e: nat)
    requires Available(cfg, s.usage, declared) && |s.inflight| + n <= k
    ensures var t := Play(cfg, s, Checks(n, declared, declared + e));
            && t.usage == s.usage && t.clamping == s.clamping
            && Sum(t.inflight) == Sum(s.inflight) + n * (declared + e)
    ensures Fits(cfg, s, Checks(n, declared, declared + e), k, declared + e, e)
    decreases n
  {
    if n > 0 {
      var b := declared + e;
      var s' := Next(cfg, s, Check(declared, b));
      assert Checks(n, declared, b)[1..] == Checks(n - 1, declared, b);
      SumSnoc(s.inflight, b);
      ChecksPass(cfg, s', n - 1, k, declared, e);
      assert n * b == (n - 1) * b + b;
    }
  }

  lemma {:induction false} FillUses(cfg: Config, s: Race, n: nat, size: nat, k: nat, b: nat, e: nat)
    requires cfg.enabled && s.inflight == [] && s.usage + n * size <= cfg.maxBytes && k >= 1 && size <= b
    ensures var t := Play(cfg, s, Fill(n, size)); t.usage == s.usage + n * size && t.inflight == []
    ensures Fits(cfg, s, Fill(n, size), k, b, e)
    decreases n
  {
    if n > 0 {
      var moves := Fill(n, size);
      var s1 := Next(cfg, s, Check(size, size));
      var s2 := Next(cfg, s1, Commit(0));
      assert moves[1..][1..] == Fill(n - 1, size) && moves[1..][0] == Commit(0);
      assert n * size == (n - 1) * size + size && (n - 1) * size >= 0;
      FillUses(cfg, s2, n - 1, size, k, b, e);
      assert Play(cfg, s, moves) == Play(cfg, s2, Fill(n - 1, size));
      assert Fits(cfg, s1, moves[1..], k, b, e);
    }
  }

  lemma {:induction false} FitsConcat(cfg: Config, s: Race, a: seq<Move>, c: seq<Move>, k: nat, b: nat, e: nat)
    requires Fits(cfg, s, a, k, b, e) && Fits(cfg, Play(cfg, s, a), c, k, b, e)
    ensures Fits(cfg, s, a + c, k, b, e)
    decreases |a|
  {
    if a == [] {
      assert a + c == c;
    } else {
      FitsConcat(cfg, Next(cfg, s, a[0]), a[1..], c, k, b, e);
      assert (a + c)[1..] == a[1..] + c;
    }
  }

  /** Storages of at most d bytes each that leave room for exactly d more. */
  function FillUpTo(maxBytes: nat, d: nat): seq<Move>
    requires 1 <= d <= maxBytes
  {
    Fill(1, maxBytes % d) + Fill(maxBytes / d - 1, d)
  }

  lemma {:induction false} Divided(m: nat, d: nat)
    requires 1 <= d <= m
    ensures m % d + (m / d - 1) * d + d == m && (m / d - 1) * d >= 0 && 0 <= m % d < d
  {
    assert m == m / d * d + m % d;
    assert m / d * d == (m / d - 1) * d + d;
    Scale(0, m / d - 1, d);
  }

  lemma {:induction false} FillUpToUses(cfg: Config, k: nat, d: nat, e: nat)
    requires cfg.enabled && k >= 1 && 1 <= d <= cfg.maxBytes
    ensures var t := Play(cfg, IDLE, FillUpTo(cfg.maxBytes, d)); t.usage == cfg.maxBytes - d && t.inflight == []
    ensures Fits(cfg, IDLE, FillUpTo(cfg.maxBytes, d), k, d + e, e)
  {
    var rest, n := cfg.maxBytes % d, cfg.maxBytes / d - 1;
    Divided(cfg.maxBytes, d);
    FillUses(cfg, IDLE, 1, rest, k, d + e, e);
    FillUses(cfg, Play(cfg, IDLE, Fill(1, rest)), n, d, k, d + e, e);
    PlayConcat(cfg, IDLE, Fill(1, rest), Fill(n, d));
    FitsConcat(cfg, IDLE, Fill(1, rest), Fill(n, d), k, d + e, e);
  }

  /** Whenever a declared size d can be admitted at all, some run of k creators that each write e
      bytes more reaches the bound exactly. */
  lemma {:induction false} BoundReached(cfg: Config, k: nat, d: nat, e: nat)
    requires cfg.enabled && k >= 1 && 1 <= d <= cfg.maxBytes
    ensures var moves, b := FillUpTo(cfg.maxBytes, d) + Checks(k, d, d + e), d + e;
            var s := Play(cfg, IDLE, moves);
            Fits(cfg, IDLE, moves, k, b, e) && Load(s) == cfg.maxBytes + e + Others(k, b)
  {
    var fill, b := FillUpTo(cfg.maxBytes, d), d + e;
    assert k * b == Others(k, b) + b;
    FillUpToUses(cfg, k, d, e);
    ChecksPass(cfg, Play(cfg, IDLE, fill), k, k, d, e);
    PlayConcat(cfg, IDLE, fill, Checks(k, d, b));
    FitsConcat(cfg, IDLE, fill, Checks(k, d, b), k, b, e);
  }

  /** A cleanup of a file nobody counted, and k creators that check before the clamp. */
  function Surprise(cfg: Config, k: nat, d: nat, b: nat): seq<Move> {
    [Cleanup(Max(d - cfg.maxBytes, 0))] + Checks(k, d, b)
  }

  /** Where the bound of runs without cleanups fails: bodies larger than the maximum are let in
      while the counter is below zero, and all of them are under way once it is clamped. */
  lemma {:induction false} CleanupAdmitsLarge(cfg: Config, k: nat, d: nat, e: nat)
    requires cfg.enabled && d > cfg.maxBytes >= 0
    ensures var moves, b := Surprise(cfg, k, d, d + e) + [ClampUsage], d + e;
            var s := Play(cfg, IDLE, moves);
            Fits(cfg, IDLE, moves, k, b, e) && s.usage == 0 && s.clamping == 0 && Load(s) == k * b
  {
    SurpriseFromRest(cfg, IDLE, k, d, e);
  }

  lemma {:induction false} SurpriseFromRest(cfg: Config, s: Race, k: nat, d: nat, e: nat)
    requires cfg.enabled && d > cfg.maxBytes >= 0 && s.inflight == [] && s.usage == s.clamping == 0
    ensures var moves, b := Surprise(cfg, k, d, d + e) + [ClampUsage], d + e;
            var t := Play(cfg, s, moves);
            Fits(cfg, s, moves, k, b, e) && t.usage == 0 && t.clamping == 0 && Load(t) == k * b
  {
    var b, first := d + e, Cleanup(d - cfg.maxBytes);
    var below, checks := Next(cfg, s, first), Checks(k, d, b);
    ChecksPass(cfg, below, k, k, d, e);
    OneMove(cfg, Play(cfg, below, checks), ClampUsage, k, b, e);
    PlayConcat(cfg, below, checks, [ClampUsage]);
    FitsConcat(cfg, below, checks, [ClampUsage], k, b, e);
    OneMove(cfg, s, first, k, b, e);
    PlayConcat(cfg, s, [first], checks + [ClampUsage]);
    FitsConcat(cfg, s, [first], checks + [ClampUsage], k, b, e);
    assert Surprise(cfg, k, d, b) + [ClampUsage] == [first] + (checks + [ClampUsage]);
  }

  lemma OneMove(cfg: Config, s: Race, m: Move, k: nat, b: nat, e: nat)
    requires !m.Check?
    ensures Play(cfg, s, [m]) == Next(cfg, s, m) && Fits(cfg, s, [m], k, b, e)
  {
    assert [m][1..] == [];
  }

  ghost predicate AlwaysWithin(cfg: Config, k: nat, b: nat, e: nat)
    requires k >= 1
  {
    forall moves :: Fits(cfg, IDLE, moves, k, b, e) ==> Load(Play(cfg, IDLE, moves)) <= cfg.maxBytes + e + Others(k, b)
  }

  /** The overshoot is at most (k-1)*b+e on every run, cleanups included, exactly when no body
      exceeds the maximum plus its undeclared bytes. */
  lemma {:induction false} RaceBoundIff(cfg: Config, k: nat, b: nat, e: nat)
    requires cfg.enabled && cfg.maxBytes >= 0 && k >= 1
    ensures AlwaysWithin(cfg, k, b, e) <==> b <= cfg.maxBytes + e
  {
    if b <= cfg.maxBytes + e {
      forall moves | Fits(cfg, IDLE, moves, k, b, e)
        ensures Load(Play(cfg, IDLE, moves)) <= cfg.maxBytes + e + Others(k, b)
      {
        RaceFromIdle(cfg, moves, k, b, e);
      }
    } else {
      var d: nat := b - e;
      CleanupAdmitsLarge(cfg, k, d, e);
      assert k * b == Others(k, b) + b;
      assert Fits(cfg, IDLE, Surprise(cfg, k, d, b) + [ClampUsage], k, b, e);
    }
  }

  // ----- the usage counter under interleaved removals

  /** One usage counter (files or bytes), updated atomically but clamped in a second step.
      `counted` and `uncounted` are the amounts of files on disk whose creator has or has not
      counted them yet, `stray` those left by an earlier process, `missing` the counted amounts
      of open storages whose file a cleanup removed, `lost` the uncounted ones removed (a creator
      goes on writing into either kind of uncounted file), `removing` the amounts of removed files not subtracted yet, and `clamping` how many updates saw a
      negative value and will store zero. */
  datatype Meter = Meter(
    counter: int, counted: seq<nat>, uncounted: seq<nat>, stray: seq<nat>,
    missing: seq<nat>, lost: seq<nat>, removing: seq<nat>, clamping: nat)

  datatype Tick =
    | Write(amount: nat)
    | Grow(j: nat, more: nat)
    | GrowLost(j: nat, more: nat)
    | Count(j: nat)
    | CountLost(j: nat)
    | CloseFile(j: nat)
    | CloseMissing(j: nat)
    | CleanCounted(j: nat)
    | CleanStray(j: nat)
    | CleanUncounted(j: nat)
    | Subtract(j: nat)
    | Clamp

  function Advance(s: Meter, t: Tick): Meter {
    match t
    case Write(a) => s.(uncounted := s.uncounted + [a])
    case Grow(j, more) =>
      if j >= |s.uncounted| then s else s.(uncounted := s.uncounted[j := s.uncounted[j] + more])
    case GrowLost(j, more) =>
      if j >= |s.lost| then s else s.(lost := s.lost[j := s.lost[j] + more])
    case Count(j) =>
      if j >= |s.uncounted| then s
      else s.(uncounted := Drop(s.uncounted, j), counted := s.counted + [s.uncounted[j]], counter := s.counter + s.uncounted[j])
    case CountLost(j) =>
      if j >= |s.lost| then s
      else s.(lost := Drop(s.lost, j), missing := s.missing + [s.lost[j]], counter := s.counter + s.lost[j])
    case CloseFile(j) =>
      if j >= |s.counted| then s
      else s.(counted := Drop(s.counted, j), removing := s.removing + [s.counted[j]])
    case CloseMissing(j) =>
      if j >= |s.missing| then s
      else s.(missing := Drop(s.missing, j), removing := s.removing + [s.missing[j]])
    case CleanCounted(j) =>
      if j >= |s.counted| then s
      else s.(counted := Drop(s.counted, j), missing := s.missing + [s.counted[j]], removing := s.removing + [s.counted[j]])
    case CleanStray(j) =>
      if j >= |s.stray| then s
      else s.(stray := Drop(s.stray, j), removing := s.removing + [s.stray[j]])
    case CleanUncounted(j) =>
      if j >= |s.uncounted| then s
      else s.(uncounted := Drop(s.uncounted, j), lost := s.lost + [s.uncounted[j]], removing := s.removing + [s.uncounted[j]])
    case Subtract(j) =>
      if j >= |s.removing| then s
      else
        var c := s.counter - s.removing[j];
        s.(removing := Drop(s.removing, j), counter := c, clamping := s.clamping + (if c < 0 then 1 else 0))
    case Clamp => if s.clamping == 0 then s else s.(counter := 0, clamping := s.clamping - 1)
  }

  function Interleave(s: Meter, ticks: seq<Tick>): Meter
    decreases |ticks|
  {
    if ticks == [] then s else Interleave(Advance(s, ticks[0]), ticks[1..])
  }

  /** What is really on disk. */
  function DiskTotal(s: Meter): nat {
    Sum(s.counted) + Sum(s.uncounted) + Sum(s.stray)
  }

  /** No update is under way. */
  predicate Quiet(s: Meter) {
    s.removing == [] && s.clamping == 0
  }

  /** Never above what open storages have counted plus what is still to be subtracted, and below
      zero only while a clamp is pending. */
  ghost predicate Sound(s: Meter) {
    && s.counter <= Sum(s.counted) + Sum(s.missing) + Sum(s.removing)
    && (s.counter < 0 ==> s.clamping > 0)
  }

  lemma AdvanceSound(s: Meter, t: Tick)
    requires Sound(s)
    ensures Sound(Advance(s, t))
  {
    match t
    case Count(j) =>
      if j < |s.uncounted| { SumSnoc(s.counted, s.uncounted[j]); }
    case CountLost(j) =>
      if j < |s.lost| { SumSnoc(s.missing, s.lost[j]); }
    case CloseFile(j) =>
      if j < |s.counted| { SumDrop(s.counted, j); SumSnoc(s.removing, s.counted[j]); }
    case CloseMissing(j) =>
      if j < |s.missing| { SumDrop(s.missing, j); SumSnoc(s.removing, s.missing[j]); }
    case CleanCounted(j) =>
      if j < |s.counted| {
        SumDrop(s.counted, j);
        SumSnoc(s.missing, s.counted[j]);
        SumSnoc(s.removing, s.counted[j]);
      }
    case CleanStray(j) =>
      if j < |s.stray| { SumSnoc(s.removing, s.stray[j]); }
    case CleanUncounted(j) =>
      if j < |s.uncounted| { SumSnoc(s.removing, s.uncounted[j]); }
    case Subtract(j) =>
      if j < |s.removing| { SumDrop(s.removing, j); }
    case _ =>
  }

  predicate Removes(t: Tick) {
    t.CloseFile? || t.CleanCounted? || t.CleanStray? || t.CleanUncounted?
  }

  /** Conservation: whatever is removed from the disk, by a close or a cleanup, is exactly what is
      still to be subtracted. */
  lemma {:induction false} RemovalScheduled(s: Meter, t: Tick)
    requires Removes(t)
    ensures DiskTotal(Advance(s, t)) + Sum(Advance(s, t).removing) == DiskTotal(s) + Sum(s.removing)
  {
    match t
    case CloseFile(j) => if j < |s.counted| { SumDrop(s.counted, j); SumSnoc(s.removing, s.counted[j]); }
    case CleanCounted(j) => if j < |s.counted| { SumDrop(s.counted, j); SumSnoc(s.removing, s.counted[j]); }
    case CleanStray(j) => if j < |s.stray| { SumDrop(s.stray, j); SumSnoc(s.removing, s.stray[j]); }
    case CleanUncounted(j) => if j < |s.uncounted| { SumDrop(s.uncounted, j); SumSnoc(s.removing, s.uncounted[j]); }
  }

  /** Only writing adds to the disk, and the close of a storage without its file schedules a
      subtraction all the same. */
  lemma {:induction false} OnlyWritesAdd(s: Meter, t: Tick)
    requires !Removes(t)
    ensures t.CloseMissing? && t.j < |s.missing| ==> Sum(Advance(s, t).removing) == Sum(s.removing) + s.missing[t.j]
    ensures t.Write? ==> DiskTotal(Advance(s, t)) == DiskTotal(s) + t.amount
    ensures t.Grow? && t.j < |s.uncounted| ==> DiskTotal(Advance(s, t)) == DiskTotal(s) + t.more
    ensures t.Count? || t.CountLost? || t.GrowLost? || t.CloseMissing? || t.Subtract? || t.Clamp? ==>
              DiskTotal(Advance(s, t)) == DiskTotal(s)
  {
    match t
    case Write(a) => SumSnoc(s.uncounted, a);
    case Grow(j, more) => if j < |s.uncounted| { SumUpdate(s.uncounted, j, more); }
    case Count(j) => if j < |s.uncounted| { SumDrop(s.uncounted, j); SumSnoc(s.counted, s.uncounted[j]); }
    case CloseMissing(j) => if j < |s.missing| { SumSnoc(s.removing, s.missing[j]); }
    case _ =>
  }

  lemma {:induction false} SumUpdate(xs: seq<nat>, j: nat, more: nat)
    requires j < |xs|
    ensures Sum(xs[j := xs[j] + more]) == Sum(xs) + more
  {
    var ys := xs[j := xs[j] + more];
    if j > 0 {
      SumUpdate(xs[1..], j - 1, more);
      assert ys[1..] == xs[1..][j - 1 := xs[j] + more];
    } else {
      assert ys[1..] == xs[1..];
    }
  }

  /** In every interleaving of creators, closes and cleanups the counter of a quiet cache lies
      between zero and what is on disk plus what open storages lost to a cleanup; once those are
      closed it lies between zero and what is on disk. */
  lemma {:induction false} CounterBetween(s: Meter, ticks: seq<Tick>)
    requires Sound(s)
    ensures var t := Interleave(s, ticks);
            && Sound(t)
            && (Quiet(t) ==> 0 <= t.counter <= DiskTotal(t) + Sum(t.missing))
            && (Quiet(t) && t.missing == [] ==> 0 <= t.counter <= DiskTotal(t))
    decreases |ticks|
  {
    if ticks != [] {
      AdvanceSound(s, ticks[0]);
      CounterBetween(Advance(s, ticks[0]), ticks[1..]);
    }
  }

  /** ... and as long as no file is removed before it is counted, never above what is counted on
      disk and still to be subtracted. */
  ghost predicate Tight(s: Meter) {
    s.lost == [] && s.counter <= Sum(s.counted) + Sum(s.removing)
  }

  lemma AdvanceTight(s: Meter, t: Tick)
    requires Tight(s) && !t.CleanUncounted?
    ensures Tight(Advance(s, t))
  {
    match t
    case Count(j) =>
      if j < |s.uncounted| { SumSnoc(s.counted, s.uncounted[j]); }
    case CloseFile(j) =>
      if j < |s.counted| { SumDrop(s.counted, j); SumSnoc(s.removing, s.counted[j]); }
    case CleanCounted(j) =>
      if j < |s.counted| { SumDrop(s.counted, j); SumSnoc(s.removing, s.counted[j]); }
    case CloseMissing(j) =>
      if j < |s.missing| { SumSnoc(s.removing, s.missing[j]); }
    case CleanStray(j) =>
      if j < |s.stray| { SumSnoc(s.removing, s.stray[j]); }
    case Subtract(j) =>
      if j < |s.removing| { SumDrop(s.removing, j); }
    case _ =>
  }

  /** If files are removed only after they are counted, the counter of a quiet cache lies between
      zero and what is on disk even while storages whose file is gone are open. */
  lemma {:induction false} LateCleanupsNeverOvercount(s: Meter, ticks: seq<Tick>)
    requires Sound(s) && Tight(s) && forall i :: 0 <= i < |ticks| ==> !ticks[i].CleanUncounted?
    ensures Tight(Interleave(s, ticks))
    ensures Quiet(Interleave(s, ticks)) ==> 0 <= Interleave(s, ticks).counter <= DiskTotal(Interleave(s, ticks))
    decreases |ticks|
  {
    if ticks != [] {
      AdvanceSound(s, ticks[0]);
      AdvanceTight(s, ticks[0]);
      LateCleanupsNeverOvercount(Advance(s, ticks[0]), ticks[1..]);
    }
  }

  /** A cleanup removes the file at j before its creator counts it; the creator writes `more`
      bytes after that, and both finish. */
  function EarlyCleanup(s: Meter, j: nat, more: nat): seq<Tick>
    requires j < |s.uncounted|
  {
    [CleanUncounted(j), Subtract(0)] + (if s.counter < s.uncounted[j] then [Clamp] else []) + [GrowLost(0, more), CountLost(0)]
  }

  lemma Regroup(a: Tick, b: Tick, c: seq<Tick>, rest: seq<Tick>)
    ensures [a, b] + c + rest == [a] + ([b] + (c + rest))
  {
  }

  /** The cleanup's part: the file is gone, and its bytes are off the counter as far as there were any. */
  lemma {:induction false} EarlyTaken(s: Meter, j: nat, rest: seq<Tick>)
    requires Quiet(s) && s.lost == [] && s.counter >= 0 && j < |s.uncounted|
    ensures var p := s.uncounted[j];
            var head := [CleanUncounted(j), Subtract(0)] + (if s.counter < p then [Clamp] else []);
            Interleave(s, head + rest) ==
              Interleave(s.(uncounted := Drop(s.uncounted, j), lost := [p], counter := Max(s.counter, p) - p), rest)
  {
    var p := s.uncounted[j];
    var s1 := Advance(s, CleanUncounted(j));
    var s2 := Advance(s1, Subtract(0));
    var clamp := if s.counter < p then [Clamp] else [];
    TakenState(s, j);
    Regroup(CleanUncounted(j), Subtract(0), clamp, rest);
    FirstTick(s, CleanUncounted(j), [Subtract(0)] + (clamp + rest));
    FirstTick(s1, Subtract(0), clamp + rest);
    if s.counter < p {
      FirstTick(s2, Clamp, rest);
    } else {
      assert clamp + rest == rest;
    }
  }

  lemma TakenState(s: Meter, j: nat)
    requires Quiet(s) && s.lost == [] && s.counter >= 0 && j < |s.uncounted|
    ensures var p, s2 := s.uncounted[j], Advance(Advance(s, CleanUncounted(j)), Subtract(0));
            (if s.counter < p then Advance(s2, Clamp) else s2) ==
              s.(uncounted := Drop(s.uncounted, j), lost := [p], counter := Max(s.counter, p) - p)
  {
    var p, s1 := s.uncounted[j], Advance(s, CleanUncounted(j));
    assert s1.removing == [p] && s1.lost == [p] && Drop([p], 0) == [];
  }

  /** The creator's part: it writes on and counts everything. */
  lemma {:induction false} LostCounted(s: Meter, p: nat, more: nat)
    requires s.lost == [p]
    ensures Interleave(s, [GrowLost(0, more), CountLost(0)]) ==
              s.(lost := [], missing := s.missing + [p + more], counter := s.counter + p + more)
  {
    var s1 := Advance(s, GrowLost(0, more));
    assert [GrowLost(0, more), CountLost(0)] == [GrowLost(0, more)] + ([CountLost(0)] + []);
    FirstTick(s, GrowLost(0, more), [CountLost(0)] + []);
    FirstTick(s1, CountLost(0), []);
    assert [p][0 := p + more] == [p + more] && Drop([p + more], 0) == [];
  }

  /** The state such an early cleanup leaves. */
  lemma {:induction false} EarlyCleanupState(s: Meter, j: nat, more: nat)
    requires Quiet(s) && s.lost == [] && s.counter >= 0 && j < |s.uncounted|
    ensures var p := s.uncounted[j];
            Interleave(s, EarlyCleanup(s, j, more)) ==
              s.(uncounted := Drop(s.uncounted, j), missing := s.missing + [p + more], counter := Max(s.counter, p) + more)
  {
    var p := s.uncounted[j];
    EarlyTaken(s, j, [GrowLost(0, more), CountLost(0)]);
    LostCounted(s.(uncounted := Drop(s.uncounted, j), lost := [p], counter := Max(s.counter, p) - p), p, more);
  }

  /** From every quiet state, an early cleanup at p bytes raises the counter to the greater of its
      value and p, plus what is written later, while the disk loses p; the counter is then above
      the disk exactly when that sum is. */
  lemma {:induction false} EarlyCleanupIff(s: Meter, j: nat, more: nat)
    requires Quiet(s) && s.lost == [] && s.counter >= 0 && j < |s.uncounted|
    ensures var p, t := s.uncounted[j], Interleave(s, EarlyCleanup(s, j, more));
            && Quiet(t)
            && t.counter == Max(s.counter, p) + more
            && DiskTotal(t) == DiskTotal(s) - p
            && (t.counter > DiskTotal(t) <==> Max(s.counter, p) + more > DiskTotal(s) - p)
  {
    EarlyCleanupState(s, j, more);
    SumDrop(s.uncounted, j);
  }

  /** A stalled creator whose still empty file is removed counts all it writes afterwards. */
  lemma {:induction false} StalledCopyOvercounts(n: nat, more: nat)
    requires more > 0
    ensures var s := Meter(n, [n], [0], [], [], [], [], 0);
            var t := Interleave(s, EarlyCleanup(s, 0, more));
            Quiet(t) && s.counter == DiskTotal(s) == n && DiskTotal(t) == n && t.counter == n + more
  {
    var s := Meter(n, [n], [0], [], [], [], [], 0);
    assert [n][1..] == [] && [0][1..] == [];
    assert Sum([n]) == n && Sum([0]) == 0;
    EarlyCleanupIff(s, 0, more);
  }

  lemma FirstTick(s: Meter, t: Tick, rest: seq<Tick>)
    ensures Interleave(s, [t] + rest) == Interleave(Advance(s, t), rest)
  {
    assert ([t] + rest)[1..] == rest;
  }

  predicate NoCleanup(t: Tick) {
    t.Write? || t.Grow? || t.Count? || t.CloseFile? || t.Subtract? || t.Clamp?
  }

  ghost predicate Exact(s: Meter) {
    s.counter == Sum(s.counted) + Sum(s.removing) && s.clamping == 0
  }

  lemma AdvanceExact(s: Meter, t: Tick)
    requires Exact(s) && NoCleanup(t)
    ensures Exact(Advance(s, t))
  {
    match t
    case Count(j) =>
      if j < |s.uncounted| { SumSnoc(s.counted, s.uncounted[j]); }
    case CloseFile(j) =>
      if j < |s.counted| { SumDrop(s.counted, j); SumSnoc(s.removing, s.counted[j]); }
    case Subtract(j) =>
      if j < |s.removing| { SumDrop(s.removing, j); }
    case _ =>
  }

  /** Without cleanups every interleaving keeps the counter exact and the clamp is never reached. */
  lemma {:induction false} CounterExact(s: Meter, ticks: seq<Tick>)
    requires Exact(s) && forall i :: 0 <= i < |ticks| ==> NoCleanup(ticks[i])
    ensures Exact(Interleave(s, ticks))
    ensures Interleave(s, ticks).removing == [] ==> Interleave(s, ticks).counter == Sum(Interleave(s, ticks).counted)
    decreases |ticks|
  {
    if ticks != [] {
      AdvanceExact(s, ticks[0]);
      CounterExact(Advance(s, ticks[0]), ticks[1..]);
    }
  }

  /** A cleanup that removes a complete file before its creator counts it leaves the counter above
      the disk: the early subtraction is clamped away and the late count stays. */
  lemma {:induction false} EarlyCleanupOvercounts(a: nat)
    requires a > 0
    ensures var s := Meter(0, [], [a], [], [], [], [], 0);
            var t := Interleave(s, EarlyCleanup(s, 0, 0));
            Quiet(t) && DiskTotal(t) == 0 && t.counter == a
  {
    assert [a][1..] == [] && Sum([a]) == a;
    EarlyCleanupIff(Meter(0, [], [a], [], [], [], [], 0), 0, 0);
  }

  // ----- the cleanup loop

  /** A directory entry: `readable` is whether its info can be read, `removable` whether removal works. */
  datatype Entry = Entry(isDir: bool, readable: bool, age: int, size: nat, removable: bool)

  predicate Removed(e: Entry, maxAge: int) {
    !e.isDir && e.readable && e.age > maxAge && e.removable
  }

  function Remaining(entries: seq<Entry>, maxAge: int): seq<Entry> {
    if entries == [] then []
    else
      var init, e := Remaining(entries[..|entries| - 1], maxAge), entries[|entries| - 1];
      if Removed(e, maxAge) then init else init + [e]
  }

  datatype Counters = Counters(files: int, bytes: int)

  function CleanedCounters(entries: seq<Entry>, maxAge: int, c: Counters): Counters {
    if entries == [] then c
    else
      var d, e := CleanedCounters(entries[..|entries| - 1], maxAge, c), entries[|entries| - 1];
      if Removed(e, maxAge) then Counters(AtLeastZero(d.files - 1), AtLeastZero(d.bytes - e.size)) else d
  }

  /** The removals of a cleanup, as the ledger sees them. */
  function RemovalsOf(entries: seq<Entry>, maxAge: int): seq<Event> {
    if entries == [] then []
    else
      var n := |entries| - 1;
      RemovalsOf(entries[..n], maxAge) + (if Removed(entries[n], maxAge) then [Removal(entries[n].size)] else [])
  }

  lemma {:induction false} EventsSnoc(l: Ledger, events: seq<Event>, e: Event)
    ensures Events(l, events + [e]) == Step(Events(l, events), e)
    decreases |events|
  {
    if events == [] {
      assert [] + [e] == [e] && [e][1..] == [];
    } else {
      EventsSnoc(Step(l, events[0]), events[1..], e);
      assert (events + [e])[1..] == events[1..] + [e];
    }
  }

  /** The ledger after the removals holds the cleaned counters and is otherwise unchanged. */
  lemma {:induction false} CleanedIsRemovals(l: Ledger, entries: seq<Entry>, maxAge: int)
    ensures var c := CleanedCounters(entries, maxAge, Counters(l.diskFiles, l.diskBytes));
            Events(l, RemovalsOf(entries, maxAge)) == l.(diskFiles := c.files, diskBytes := c.bytes)
  {
    if entries != [] {
      var n := |entries| - 1;
      var init := RemovalsOf(entries[..n], maxAge);
      CleanedIsRemovals(l, entries[..n], maxAge);
      if Removed(entries[n], maxAge) {
        EventsSnoc(l, init, Removal(entries[n].size));
      } else {
        assert init + [] == init;
      }
    }
  }

  /** `CleanupOldDiskCacheFiles`. */
  method CleanupOld(entries: seq<Entry>, maxAge: int, stats: Stats) returns (left: seq<Entry>)
    modifies stats
    ensures left == Remaining(entries, maxAge)
    ensures Counters(stats.diskFiles, stats.diskBytes) == CleanedCounters(entries, maxAge, old(Counters(stats.diskFiles, stats.diskBytes)))
    ensures stats.memoryBuffers == old(stats.memoryBuffers) && stats.memoryBytes == old(stats.memoryBytes)
    ensures stats.slots == old(stats.slots)
  {
    left := [];
    for i := 0 to |entries|
      invariant left == Remaining(entries[..i], maxAge)
      invariant Counters(stats.diskFiles, stats.diskBytes) == CleanedCounters(entries[..i], maxAge, old(Counters(stats.diskFiles, stats.diskBytes)))
      invariant stats.memoryBuffers == old(stats.memoryBuffers) && stats.memoryBytes == old(stats.memoryBytes)
      invariant stats.slots == old(stats.slots)
    {
      var e := entries[i];
      assert entries[..i + 1][..i] == entries[..i];
      if !e.isDir && e.readable && e.age > maxAge && e.removable {
        stats.DecrementDisk(e.size);
      } else {
        left := left + [e];
      }
    }
    assert entries[..|entries|] == entries;
  }

  function FileCount(entries: seq<Entry>): nat {
    if entries == [] then 0
    else FileCount(entries[..|entries| - 1]) + (if entries[|entries| - 1].isDir then 0 else 1)
  }

  function FileBytes(entries: seq<Entry>): nat {
    if entries == [] then 0
    else FileBytes(entries[..|entries| - 1]) + (if entries[|entries| - 1].isDir then 0 else entries[|entries| - 1].size)
  }

  /** The places that a cleanup leaves, in order. */
  function KeptPlaces(entries: seq<Entry>, maxAge: int): seq<nat> {
    if entries == [] then []
    else
      var n := |entries| - 1;
      KeptPlaces(entries[..n], maxAge) + (if Removed(entries[n], maxAge) then [] else [n])
  }

  predicate PlacesWithin(places: seq<nat>, n: nat) {
    forall j :: 0 <= j < |places| ==> places[j] < n
  }

  lemma {:induction false} KeptPlacesWithin(entries: seq<Entry>, maxAge: int)
    ensures PlacesWithin(KeptPlaces(entries, maxAge), |entries|)
  {
    if entries != [] { KeptPlacesWithin(entries[..|entries| - 1], maxAge); }
  }

  predicate Ascending(places: seq<nat>) {
    forall j, k :: 0 <= j < k < |places| ==> places[j] < places[k]
  }

  lemma {:induction false} KeptPlacesAscend(entries: seq<Entry>, maxAge: int)
    ensures Ascending(KeptPlaces(entries, maxAge))
  {
    if entries != [] {
      var n := |entries| - 1;
      KeptPlacesAscend(entries[..n], maxAge);
      KeptPlacesWithin(entries[..n], maxAge);
    }
  }

  lemma {:induction false} KeptPlacesHold(entries: seq<Entry>, maxAge: int)
    ensures var p, left := KeptPlaces(entries, maxAge), Remaining(entries, maxAge);
            && |p| == |left| && PlacesWithin(p, |entries|)
            && forall j :: 0 <= j < |p| ==> left[j] == entries[p[j]]
  {
    KeptPlacesWithin(entries, maxAge);
    if entries != [] {
      KeptPlacesHold(entries[..|entries| - 1], maxAge);
      KeptPlacesWithin(entries[..|entries| - 1], maxAge);
    }
  }

  /** Which places are kept. */
  lemma {:induction false} RemainingMeaning(entries: seq<Entry>, maxAge: int, i: nat)
    requires i < |entries|
    ensures i in KeptPlaces(entries, maxAge) <==>
              entries[i].isDir || !entries[i].readable || entries[i].age <= maxAge || !entries[i].removable
  {
    var n := |entries| - 1;
    if i < n {
      assert entries[..n][i] == entries[i];
      RemainingMeaning(entries[..n], maxAge, i);
    } else {
      KeptPlacesWithin(entries[..n], maxAge);
    }
  }

  /** A cleanup leaves, in their order and each once, exactly the directories and the files that are
      unreadable, not older than `maxAge` or not removable. */
  lemma CleanupLeaves(entries: seq<Entry>, maxAge: int) returns (places: seq<nat>)
    ensures |places| == |Remaining(entries, maxAge)| && PlacesWithin(places, |entries|) && Ascending(places)
    ensures forall j :: 0 <= j < |places| ==> Remaining(entries, maxAge)[j] == entries[places[j]]
    ensures forall i: nat :: i < |entries| ==>
              (i in places <==>
                 entries[i].isDir || !entries[i].readable || entries[i].age <= maxAge || !entries[i].removable)
  {
    places := KeptPlaces(entries, maxAge);
    KeptPlacesHold(entries, maxAge);
    KeptPlacesAscend(entries, maxAge);
    forall i: nat | i < |entries|
      ensures i in places <==>
                entries[i].isDir || !entries[i].readable || entries[i].age <= maxAge || !entries[i].removable
    {
      RemainingMeaning(entries, maxAge, i);
    }
  }

  /** What the last entry adds to the files before and after a cleanup. */
  lemma {:induction false} LastEntryCounts(entries: seq<Entry>, maxAge: int)
    requires entries != []
    ensures var init, e := entries[..|entries| - 1], entries[|entries| - 1];
            var left, before := Remaining(entries, maxAge), Remaining(init, maxAge);
            && FileCount(entries) == FileCount(init) + (if e.isDir then 0 else 1)
            && FileBytes(entries) == FileBytes(init) + (if e.isDir then 0 else e.size)
            && FileCount(left) == FileCount(before) + (if e.isDir || Removed(e, maxAge) then 0 else 1)
            && FileBytes(left) == FileBytes(before) + (if e.isDir || Removed(e, maxAge) then 0 else e.size)
  {
    var init, e := entries[..|entries| - 1], entries[|entries| - 1];
    var before := Remaining(init, maxAge);
    if !Removed(e, maxAge) {
      assert (before + [e])[..|before|] == before;
    }
  }

  /** The counters go down by what was removed, and stop at zero. */
  lemma {:induction false} CleanedExactly(entries: seq<Entry>, maxAge: int, c: Counters)
    requires c.files >= 0 && c.bytes >= 0
    ensures var left := Remaining(entries, maxAge);
            && FileCount(left) <= FileCount(entries) && FileBytes(left) <= FileBytes(entries)
            && CleanedCounters(entries, maxAge, c) ==
                 Counters(Max(c.files - (FileCount(entries) - FileCount(left)), 0), Max(c.bytes - (FileBytes(entries) - FileBytes(left)), 0))
  {
    if entries != [] {
      var init, e := entries[..|entries| - 1], entries[|entries| - 1];
      CleanedExactly(init, maxAge, c);
      LastEntryCounts(entries, maxAge);
    }
  }

  /** A cleanup of a directory that holds all counted files keeps the counters between zero and
      the truth; `extra` is what lies on disk besides the entries listed. */
  lemma {:induction false} CleanupKeepsBetween(entries: seq<Entry>, maxAge: int, c: Counters, extraFiles: nat, extraBytes: nat)
    requires 0 <= c.files <= FileCount(entries) + extraFiles && 0 <= c.bytes <= FileBytes(entries) + extraBytes
    ensures var d := CleanedCounters(entries, maxAge, c);
            && 0 <= d.files <= FileCount(Remaining(entries, maxAge)) + extraFiles
            && 0 <= d.bytes <= FileBytes(Remaining(entries, maxAge)) + extraBytes
  {
    if entries != [] {
      var init, e := entries[..|entries| - 1], entries[|entries| - 1];
      var moreFiles, moreBytes := if e.isDir then 0 else 1, if e.isDir then 0 else e.size;
      CleanupKeepsBetween(init, maxAge, c, extraFiles + moreFiles, extraBytes + moreBytes);
      if !Removed(e, maxAge) {
        assert (Remaining(init, maxAge) + [e])[..|Remaining(init, maxAge)|] == Remaining(init, maxAge);
      }
    }
  }

  /** A file that survives is still in the directory. */
  lemma {:induction false} SurvivorCounted(entries: seq<Entry>, maxAge: int, i: nat)
    requires i < |entries| && !entries[i].isDir && !Removed(entries[i], maxAge)
    ensures var left := Remaining(entries, maxAge);
            FileCount(left) >= 1 && FileBytes(left) >= entries[i].size
  {
    var n := |entries| - 1;
    var init, e := entries[..n], entries[n];
    if !Removed(e, maxAge) {
      assert (Remaining(init, maxAge) + [e])[..|Remaining(init, maxAge)|] == Remaining(init, maxAge);
    }
    if i < n {
      assert init[i] == entries[i];
      SurvivorCounted(init, maxAge, i);
    }
  }

  /** What is on disk after the cleanup once the storage whose file was entry i has been closed. */
  function AfterClose(entries: seq<Entry>, maxAge: int, i: nat): Counters
    requires i < |entries|
  {
    var left := Remaining(entries, maxAge);
    if Removed(entries[i], maxAge) then Counters(FileCount(left), FileBytes(left))
    else Counters(FileCount(left) - 1, FileBytes(left) - entries[i].size)
  }

  /** The counters once a storage of that size has been closed. */
  function Closed(c: Counters, size: nat): Counters {
    Counters(AtLeastZero(c.files - 1), AtLeastZero(c.bytes - size))
  }

  /** Cleanup and close together keep the counters between zero and what is then on disk, whether
      or not the cleanup took the storage's file. */
  lemma CleanCloseBetween(entries: seq<Entry>, maxAge: int, i: nat, c: Counters)
    requires i < |entries| && !entries[i].isDir
    requires 0 <= c.files <= FileCount(entries) && 0 <= c.bytes <= FileBytes(entries)
    ensures var d, disk := Closed(CleanedCounters(entries, maxAge, c), entries[i].size), AfterClose(entries, maxAge, i);
            0 <= d.files <= disk.files && 0 <= d.bytes <= disk.bytes
  {
    CleanupKeepsBetween(entries, maxAge, c, 0, 0);
    if !Removed(entries[i], maxAge) { SurvivorCounted(entries, maxAge, i); }
  }

  /** A storage is created, an age-based cleanup runs over a directory that holds its file (entry i)
      and all other counted files, and the storage is closed: both disk counters then lie between
      zero and what is on disk, and the memory counters are untouched. */
  method CreateCleanClose(data: seq<Byte>, entries: seq<Entry>, i: nat, maxAge: int, stats: Stats)
    requires i < |entries| && !entries[i].isDir && entries[i].size == |data|
    requires 0 <= stats.diskFiles && stats.diskFiles + 1 <= FileCount(entries)
    requires 0 <= stats.diskBytes && stats.diskBytes + |data| <= FileBytes(entries)
    modifies stats
    ensures var c := Counters(old(stats.diskFiles) + 1, old(stats.diskBytes) + |data|);
            Counters(stats.diskFiles, stats.diskBytes) == Closed(CleanedCounters(entries, maxAge, c), |data|)
    ensures var disk := AfterClose(entries, maxAge, i);
            0 <= stats.diskFiles <= disk.files && 0 <= stats.diskBytes <= disk.bytes
    ensures stats.memoryBuffers == old(stats.memoryBuffers) && stats.memoryBytes == old(stats.memoryBytes)
    ensures stats.slots == old(stats.slots) + [Slot(true, |data|, true)]
  {
    CleanCloseBetween(entries, maxAge, i, Counters(stats.diskFiles + 1, stats.diskBytes + |data|));
    var d := new DiskStorage(data, stats);
    var left := CleanupOld(entries, maxAge, stats);
    d.Close(stats);
  }
}
