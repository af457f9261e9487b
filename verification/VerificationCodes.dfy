/** The in-memory store of verification codes with its size-triggered purge (common/verification.go). */
module VerificationCodes {
  import opened Options

  const EMAIL_VERIFICATION := "v"
  const PASSWORD_RESET := "r"
  const MAX_SIZE := 10
  const VALID_SECONDS := 10 * 60
  const NANOS := 1_000_000_000

  /** A code and its registration time in nanoseconds. */
  datatype Entry = Entry(code: string, at: int)

  /** purpose + key -> entry. */
  type Codes = map<string, Entry>

  /** `int(d.Seconds())` truncates toward zero. */
  function WholeSeconds(d: int): int {
    if d >= 0 then d / NANOS else -((-d) / NANOS)
  }

  predicate Expired(e: Entry, now: int) {
    WholeSeconds(now - e.at) >= VALID_SECONDS
  }

  function Live(codes: Codes, now: int): Codes {
    map slot | slot in codes && !Expired(codes[slot], now) :: codes[slot]
  }

  function AfterRegister(codes: Codes, slot: string, code: string, now: int): Codes {
    var next := codes[slot := Entry(code, now)];
    if |next| > MAX_SIZE then Live(next, now) else next
  }

  predicate Accepts(codes: Codes, slot: string, code: string, now: int) {
    slot in codes && !Expired(codes[slot], now) && code == codes[slot].code
  }

  class Store {
    var codes: Codes

    constructor ()
      ensures codes == map[]
    {
      codes := map[];
    }

    method Register(key: string, code: string, purpose: string, now: int)
      modifies this
      ensures codes == AfterRegister(old(codes), purpose + key, code, now)
    {
      codes := codes[purpose + key := Entry(code, now)];
      if |codes| > MAX_SIZE {
        RemoveExpired(now);
      }
    }

    method Verify(key: string, code: string, purpose: string, now: int) returns (ok: bool)
      ensures ok == Accepts(codes, purpose + key, code, now)
    {
      if purpose + key !in codes || WholeSeconds(now - codes[purpose + key].at) >= VALID_SECONDS {
        return false;
      }
      return code == codes[purpose + key].code;
    }

    method Delete(key: string, purpose: string)
      modifies this
      ensures codes == old(codes) - {purpose + key}
    {
      codes := codes - {purpose + key};
    }

    method RemoveExpired(now: int)
      modifies this
      ensures codes == Live(old(codes), now)
    {
      var slots := codes.Keys;
      while slots != {}
        invariant slots <= codes.Keys <= old(codes).Keys
        invariant forall s :: s in codes ==> codes[s] == old(codes)[s]
        invariant forall s :: s in codes && s !in slots ==> !Expired(codes[s], now)
        invariant forall s :: s in old(codes) && s !in codes ==> Expired(old(codes)[s], now)
        decreases |slots|
      {
        var slot :| slot in slots;
        slots := slots - {slot};
        if WholeSeconds(now - codes[slot].at) >= VALID_SECONDS {
          codes := codes - {slot};
        }
      }
    }
  }

  // ----- purposes share one map

  /** No purpose is a proper beginning of another. */
  predicate PrefixFree(purposes: set<string>) {
    forall p, q :: p in purposes && q in purposes && p <= q ==> p == q
  }

  ghost predicate NoCollision(purposes: set<string>) {
    forall p, q, k: string, l: string :: p in purposes && q in purposes && p + k == q + l ==> p == q && k == l
  }

  lemma SlotApart(p: string, k: string, q: string, l: string)
    requires p + k == q + l
    ensures p <= q || q <= p
    ensures p == q ==> k == l
  {
    var s := p + k;
    assert p == s[..|p|] && q == s[..|q|] && k == s[|p|..] && l == s[|q|..];
  }

  /** Concatenated keys of different purposes never meet exactly when the purposes are prefix-free. */
  lemma NoCollisionIff(purposes: set<string>)
    ensures NoCollision(purposes) <==> PrefixFree(purposes)
  {
    if PrefixFree(purposes) {
      forall p, q, k: string, l: string | p in purposes && q in purposes && p + k == q + l
        ensures p == q && k == l
      {
        SlotApart(p, k, q, l);
      }
    } else {
      var p, q :| p in purposes && q in purposes && p <= q && p != q;
      assert p + q[|p|..] == q + "";
      assert !NoCollision(purposes);
    }
  }

  lemma GatewayPurposesApart()
    ensures PrefixFree({EMAIL_VERIFICATION, PASSWORD_RESET})
  {
    assert EMAIL_VERIFICATION[0] != PASSWORD_RESET[0];
  }

  // ----- runs

  datatype Event =
    | Register(key: string, code: string, purpose: string, at: int)
    | Verify(key: string, code: string, purpose: string, at: int)
    | Delete(key: string, purpose: string, at: int)

  function Step(codes: Codes, e: Event): Codes {
    match e
    case Register(key, code, purpose, at) => AfterRegister(codes, purpose + key, code, at)
    case Verify(_, _, _, _) => codes
    case Delete(key, purpose, _) => codes - {purpose + key}
  }

  function Answers(codes: Codes, events: seq<Event>): seq<bool>
    decreases |events|
  {
    if events == [] then []
    else
      var e := events[0];
      (if e.Verify? then [Accepts(codes, e.purpose + e.key, e.code, e.at)] else [])
      + Answers(Step(codes, e), events[1..])
  }

  /** What the latest registration or deletion of this key and purpose left behind. */
  function Latest(past: seq<Event>, key: string, purpose: string): Option<Entry> {
    if past == [] then None
    else
      var e := past[|past| - 1];
      if e.Verify? || e.key != key || e.purpose != purpose then Latest(past[..|past| - 1], key, purpose)
      else if e.Register? then Some(Entry(e.code, e.at))
      else None
  }

  /** The reference: the latest registration carries this code and is younger than the validity. */
  predicate Valid(past: seq<Event>, key: string, code: string, purpose: string, now: int) {
    var latest := Latest(past, key, purpose);
    latest.Some? && latest.value.code == code && now - latest.value.at < 600 * 1_000_000_000
  }

  function Reference(past: seq<Event>, events: seq<Event>): seq<bool>
    decreases |events|
  {
    if events == [] then []
    else
      var e := events[0];
      (if e.Verify? then [Valid(past, e.key, e.code, e.purpose, e.at)] else [])
      + Reference(past + [e], events[1..])
  }

  predicate Monotone(from: int, events: seq<Event>)
    decreases |events|
  {
    events == [] || (from <= events[0].at && Monotone(events[0].at, events[1..]))
  }

  predicate Uses(purposes: set<string>, events: seq<Event>) {
    forall i :: 0 <= i < |events| ==> events[i].purpose in purposes
  }

  /** A slot either holds the latest registration or has rightly forgotten it. */
  ghost predicate SlotAgrees(codes: Codes, latest: Option<Entry>, slot: string, now: int) {
    match latest
    case None => slot !in codes
    case Some(e) => e.at <= now && (if slot in codes then codes[slot] == e else Expired(e, now))
  }

  ghost predicate Agrees(purposes: set<string>, codes: Codes, past: seq<Event>, now: int) {
    forall p, k :: p in purposes ==> SlotAgrees(codes, Latest(past, k, p), p + k, now)
  }

  lemma ExpiredMeaning(e: Entry, now: int)
    requires e.at <= now
    ensures Expired(e, now) <==> now - e.at >= 600 * 1_000_000_000
  {
  }

  /** A purge takes the entries of ten minutes and more, and no other. */
  lemma LiveMeaning(codes: Codes, now: int, slot: string)
    requires slot in codes && codes[slot].at <= now
    ensures slot in Live(codes, now) <==> now - codes[slot].at < 600 * 1_000_000_000
    ensures slot in Live(codes, now) ==> Live(codes, now)[slot] == codes[slot]
  {
    ExpiredMeaning(codes[slot], now);
  }

  /** A registration is always kept; another entry goes exactly when there are more than ten and it
      is ten minutes old. */
  lemma RegisterMeaning(codes: Codes, slot: string, code: string, now: int, other: string)
    requires other in codes ==> codes[other].at <= now
    ensures var next := AfterRegister(codes, slot, code, now);
            && slot in next && next[slot] == Entry(code, now)
            && (other != slot && other in next ==> other in codes && next[other] == codes[other])
            && (other != slot && other in codes ==>
                  (other !in next <==> |codes[slot := Entry(code, now)]| > 10 && now - codes[other].at >= 600 * 1_000_000_000))
  {
    ExpiredMeaning(Entry(code, now), now);
    if other in codes { ExpiredMeaning(codes[other], now); }
  }

  lemma LatestSnoc(past: seq<Event>, e: Event, key: string, purpose: string)
    ensures Latest(past + [e], key, purpose) ==
              if e.Verify? || e.key != key || e.purpose != purpose then Latest(past, key, purpose)
              else if e.Register? then Some(Entry(e.code, e.at))
              else None
  {
    assert (past + [e])[..|past|] == past;
  }

  lemma StepAgrees(purposes: set<string>, codes: Codes, past: seq<Event>, e: Event, now: int)
    requires PrefixFree(purposes) && e.purpose in purposes && now <= e.at
    requires Agrees(purposes, codes, past, now)
    ensures Agrees(purposes, Step(codes, e), past + [e], e.at)
  {
    forall p, k | p in purposes
      ensures SlotAgrees(Step(codes, e), Latest(past + [e], k, p), p + k, e.at)
    {
      assert SlotAgrees(codes, Latest(past, k, p), p + k, now);
      LatestSnoc(past, e, k, p);
      if p + k == e.purpose + e.key {
        SlotApart(p, k, e.purpose, e.key);
      }
      StepAtSlot(codes, e, p + k, Latest(past, k, p), now);
    }
  }

  /** A step replaces the touched slot and leaves the others, up to forgetting expired ones. */
  lemma StepAtSlot(codes: Codes, e: Event, slot: string, latest: Option<Entry>, now: int)
    requires now <= e.at && SlotAgrees(codes, latest, slot, now)
    ensures SlotAgrees(Step(codes, e),
              if e.Verify? || slot != e.purpose + e.key then latest
              else if e.Register? then Some(Entry(e.code, e.at))
              else None,
              slot, e.at)
  {
    if latest.Some? {
      ExpiredMeaning(latest.value, now);
      ExpiredMeaning(latest.value, e.at);
    }
  }

  lemma AcceptsIsValid(purposes: set<string>, codes: Codes, past: seq<Event>, e: Event, now: int)
    requires Agrees(purposes, codes, past, now) && e.Verify? && e.purpose in purposes && now <= e.at
    ensures Accepts(codes, e.purpose + e.key, e.code, e.at) == Valid(past, e.key, e.code, e.purpose, e.at)
  {
    var latest := Latest(past, e.key, e.purpose);
    assert SlotAgrees(codes, latest, e.purpose + e.key, now);
    if latest.Some? {
      ExpiredMeaning(latest.value, now);
      ExpiredMeaning(latest.value, e.at);
    }
  }

  /** Over every run with a clock that never runs backwards, and whatever the store has purged,
      a code is accepted exactly when the reference says so. */
  lemma {:induction false} RunAgrees(purposes: set<string>, codes: Codes, past: seq<Event>, events: seq<Event>, now: int)
    requires PrefixFree(purposes) && Uses(purposes, events) && Monotone(now, events)
    requires Agrees(purposes, codes, past, now)
    ensures Answers(codes, events) == Reference(past, events)
    decreases |events|
  {
    if events != [] {
      var e := events[0];
      StepAgrees(purposes, codes, past, e, now);
      if e.Verify? {
        AcceptsIsValid(purposes, codes, past, e, now);
      }
      assert Uses(purposes, events[1..]);
      RunAgrees(purposes, Step(codes, e), past + [e], events[1..], e.at);
    }
  }

  /** The gateway's two purposes, from the empty store. */
  lemma StoreMeetsReference(events: seq<Event>, start: int)
    requires Uses({EMAIL_VERIFICATION, PASSWORD_RESET}, events) && Monotone(start, events)
    ensures Answers(map[], events) == Reference([], events)
  {
    GatewayPurposesApart();
    RunAgrees({EMAIL_VERIFICATION, PASSWORD_RESET}, map[], [], events, start);
  }
}
