/** Reconciliation of a channel's model list with its upstream: detecting pending
    additions and removals, and applying a selection of them
    (controller/channel_upstream_update.go, model/channel.go). */
module UpstreamSync {
  import opened Text
  import opened NameLists
  import opened Options

  /** What the channel row holds: the comma-joined models and the update settings. */
  datatype State = State(
    models: string,
    detected: seq<string>,
    removed: seq<string>,
    ignored: seq<string>,
    checkedAt: int)

  /** What stays fixed: the redirect map, the auto-sync flag, the minimum check interval and
      the regular-expression engine (`matches(pattern, name)`, false on a bad pattern). */
  datatype Env = Env(
    mapping: map<string, string>,
    autoSync: bool,
    minInterval: int,
    matches: (string, string) -> bool)

  const REGEX_PREFIX := "regex:"

  function GetModels(models: string): seq<string> {
    if models == "" then [] else Split(TrimChar(models, ','), ',')
  }

  predicate IsLiteral(entry: string) {
    !StartsWith(entry, REGEX_PREFIX)
  }

  predicate EntryMatches(env: Env, entry: string, name: string) {
    if IsLiteral(entry) then entry == name
    else env.matches(TrimSpace(entry[|REGEX_PREFIX|..]), name)
  }

  predicate IsIgnored(env: Env, ignored: seq<string>, name: string) {
    exists i :: 0 <= i < |ignored| && EntryMatches(env, ignored[i], name)
  }

  /** `collectPendingUpstreamModelChangesFromModels`, the additions. */
  function PendingAdd(env: Env, local: seq<string>, upstream: seq<string>, ignored: seq<string>): seq<string> {
    var l, ig := Normalize(local), Normalize(ignored);
    Normalize(Filter(Normalize(upstream), x => x !in l && x !in env.mapping.Values && !IsIgnored(env, ig, x)))
  }

  /** `collectPendingUpstreamModelChangesFromModels`, the removals. */
  function PendingRemove(env: Env, local: seq<string>, upstream: seq<string>): seq<string> {
    var u := Normalize(upstream);
    Normalize(Filter(Normalize(local), x => x !in env.mapping.Keys && x !in u))
  }

  predicate TooSoon(st: State, env: Env, now: int, force: bool) {
    !force && st.checkedAt > 0 && now - st.checkedAt < env.minInterval
  }

  /** The row after `checkAndPersistChannelUpstreamModelUpdates`; `None` is a failed fetch. */
  function AfterDetect(st: State, env: Env, upstream: Option<seq<string>>, now: int, force: bool, allowAuto: bool): State {
    if TooSoon(st, env, now, force) then st
    else if upstream.None? then st.(checkedAt := now)
    else AfterFetch(st, env, upstream.value, allowAuto).(checkedAt := now)
  }

  function AfterFetch(st: State, env: Env, upstream: seq<string>, allowAuto: bool): State {
    var local := GetModels(st.models);
    var add := PendingAdd(env, local, upstream, st.ignored);
    var remove := PendingRemove(env, local, upstream);
    if allowAuto && env.autoSync && |add| > 0 then
      st.(models := Join(Merge(local, add), ','), detected := [], removed := remove)
    else
      st.(detected := add, removed := remove)
  }

  /** How many names auto-sync adopts: every pending addition, or none. */
  function AutoAdded(st: State, env: Env, upstream: Option<seq<string>>, now: int, force: bool, allowAuto: bool): nat {
    if TooSoon(st, env, now, force) || upstream.None? || !allowAuto || !env.autoSync then 0
    else |PendingAdd(env, GetModels(st.models), upstream.value, st.ignored)|
  }

  /** The pending additions a request selects. */
  function Added(st: State, add: seq<string>): seq<string> {
    Intersect(add, Normalize(st.detected))
  }

  function Dismissed(st: State, ignore: seq<string>): seq<string> {
    Intersect(ignore, Normalize(st.detected))
  }

  /** The pending removals a request selects; an addition wins. */
  function Dropped(st: State, add: seq<string>, remove: seq<string>): seq<string> {
    Subtract(Intersect(remove, Normalize(st.removed)), Added(st, add))
  }

  function NextModels(st: State, add: seq<string>, remove: seq<string>): seq<string> {
    ApplySelected(Normalize(GetModels(st.models)), Added(st, add), Dropped(st, add, remove))
  }

  function NextIgnored(st: State, add: seq<string>, ignore: seq<string>): seq<string> {
    var merged := Merge(st.ignored, Dismissed(st, ignore));
    if |Added(st, add)| > 0 then Subtract(merged, Added(st, add)) else merged
  }

  /** The row after `applyChannelUpstreamModelUpdates`. */
  function AfterApply(st: State, add: seq<string>, ignore: seq<string>, remove: seq<string>, now: int): State {
    var next := NextModels(st, add, remove);
    State(
      if next == Normalize(GetModels(st.models)) then st.models else Join(next, ','),
      Subtract(Normalize(st.detected), Added(st, add) + Dismissed(st, ignore)),
      Subtract(Normalize(st.removed), Dropped(st, add, remove)),
      NextIgnored(st, add, ignore),
      now)
  }

  /** The selections of an apply. */
  method SelectPending(st: State, add: seq<string>, ignore: seq<string>, remove: seq<string>)
    returns (added: seq<string>, dismissed: seq<string>, dropped: seq<string>)
    ensures added == Added(st, add) && dismissed == Dismissed(st, ignore) && dropped == Dropped(st, add, remove)
  {
    var pendingAdd, pendingRemove := Normalize(st.detected), Normalize(st.removed);
    added := Intersect(add, pendingAdd);
    dismissed := Intersect(ignore, pendingAdd);
    dropped := Intersect(remove, pendingRemove);
    dropped := Subtract(dropped, added);
  }

  /** The ignore list of an apply. */
  method UpdateIgnored(st: State, add: seq<string>, ignore: seq<string>) returns (ignored: seq<string>)
    ensures ignored == NextIgnored(st, add, ignore)
  {
    var added := Added(st, add);
    ignored := MergeNames(st.ignored, Dismissed(st, ignore));
    if |added| > 0 {
      ignored := Subtract(ignored, added);
    }
  }

  /** The changed row of an apply. */
  method ApplyTo(row: State, add: seq<string>, ignore: seq<string>, remove: seq<string>, now: int)
    returns (after: State, added: seq<string>, dropped: seq<string>, modelsChanged: bool)
    ensures after == AfterApply(row, add, ignore, remove, now)
    ensures added == Added(row, add) && dropped == Dropped(row, add, remove)
    ensures modelsChanged <==> NextModels(row, add, remove) != Normalize(GetModels(row.models))
  {
    var dismissed;
    added, dismissed, dropped := SelectPending(row, add, ignore, remove);
    var origin := Normalize(GetModels(row.models));
    var next := ApplySelected(origin, added, dropped);
    modelsChanged := origin != next;
    var models := if modelsChanged then Join(next, ',') else row.models;
    var ignored := UpdateIgnored(row, add, ignore);
    var remaining := Subtract(Normalize(row.detected), added + dismissed);
    var remainingRemove := Subtract(Normalize(row.removed), dropped);
    after := State(models, remaining, remainingRemove, ignored, now);
  }

  /** The models that auto-sync stores, and how many it adopts. */
  method AdoptPending(env: Env, local: seq<string>, upstream: seq<string>, ignored: seq<string>)
    returns (merged: seq<string>, adopted: nat)
    ensures var add := PendingAdd(env, local, upstream, ignored); merged == Merge(local, add) && adopted == |add|
  {
    var origin := Normalize(local);
    merged := MergeNames(origin, PendingAdd(env, local, upstream, ignored));
    AutoSyncGrows(env, local, upstream, ignored);
    adopted := |merged| - |origin|;
  }

  /** The changed row of a successful fetch, and how many names auto-sync adopted. */
  method Reconcile(row: State, env: Env, upstream: seq<string>, allowAuto: bool) returns (after: State, autoAdded: nat)
    ensures after == AfterFetch(row, env, upstream, allowAuto)
    ensures autoAdded == if allowAuto && env.autoSync then |PendingAdd(env, GetModels(row.models), upstream, row.ignored)| else 0
  {
    var local := GetModels(row.models);
    var pendingAdd := PendingAdd(env, local, upstream, row.ignored);
    var pendingRemove := PendingRemove(env, local, upstream);
    after, autoAdded := row, 0;
    if allowAuto && env.autoSync && |pendingAdd| > 0 {
      var merged, adopted := AdoptPending(env, local, upstream, row.ignored);
      if adopted > 0 {
        after := after.(models := Join(merged, ','));
        autoAdded := adopted;
      }
      after := after.(detected := []);
    } else {
      after := after.(detected := pendingAdd);
    }
    after := after.(removed := pendingRemove);
  }

  datatype Outcome = Done | FetchFailed | SaveFailed | AbilitiesFailed

  /** The database row after `updateChannelUpstreamModelSettings`; the models are written only if asked for. */
  function Persisted(stored: State, row: State, updateModels: bool): State {
    row.(models := if updateModels then row.models else stored.models)
  }

  /** A channel in memory together with its database row. */
  class Channel {
    var stored: State
    var models: string
    var detected: seq<string>
    var removed: seq<string>
    var ignored: seq<string>
    var checkedAt: int
    const env: Env

    constructor (row: State, env: Env)
      ensures Row() == row && stored == row && this.env == env
    {
      stored := row;
      models, detected, removed := row.models, row.detected, row.removed;
      ignored, checkedAt := row.ignored, row.checkedAt;
      this.env := env;
    }

    function Row(): State
      reads this
    {
      State(models, detected, removed, ignored, checkedAt)
    }

    /** Takes over all fields of a row. */
    method SetRow(row: State)
      modifies this`models, this`detected, this`removed, this`ignored, this`checkedAt
      ensures Row() == row
    {
      models, detected, removed, ignored, checkedAt := row.models, row.detected, row.removed, row.ignored, row.checkedAt;
    }

    /** `checkAndPersistChannelUpstreamModelUpdates`; `saves` is whether the database write succeeds,
        `rebuilds` whether the abilities are rebuilt after a change of the models. */
    method CheckAndPersist(upstream: Option<seq<string>>, now: int, force: bool, allowAuto: bool, saves: bool, rebuilds: bool)
      returns (modelsChanged: bool, autoAdded: nat, outcome: Outcome)
      modifies this
      ensures Row() == AfterDetect(old(Row()), env, upstream, now, force, allowAuto)
      ensures autoAdded == AutoAdded(old(Row()), env, upstream, now, force, allowAuto)
      ensures modelsChanged <==> autoAdded > 0 && outcome != SaveFailed
      ensures outcome == if TooSoon(old(Row()), env, now, force) then Done
                         else if !saves then SaveFailed
                         else if upstream.None? then FetchFailed
                         else if modelsChanged && !rebuilds then AbilitiesFailed else Done
      ensures stored == if TooSoon(old(Row()), env, now, force) || !saves then old(stored)
                        else Row().(models := if autoAdded > 0 then models else old(stored.models))
    {
      modelsChanged, autoAdded := false, 0;
      if !force && checkedAt > 0 && now - checkedAt < env.minInterval {
        return false, 0, Done;
      }
      if upstream.None? {
        checkedAt := now;
        if !saves { return false, 0, SaveFailed; }
        stored := Persisted(stored, Row(), false);
        return false, 0, FetchFailed;
      }
      var after;
      after, autoAdded := Reconcile(Row(), env, upstream.value, allowAuto);
      modelsChanged := autoAdded > 0;
      SetRow(after.(checkedAt := now));
      if !saves { return false, autoAdded, SaveFailed; }
      stored := Persisted(stored, Row(), modelsChanged);
      return modelsChanged, autoAdded, if modelsChanged && !rebuilds then AbilitiesFailed else Done;
    }

    /** `applyChannelUpstreamModelUpdates`, with the same two ways to fail. */
    method Apply(add: seq<string>, ignore: seq<string>, remove: seq<string>, now: int, saves: bool, rebuilds: bool)
      returns (added: seq<string>, dropped: seq<string>, remaining: seq<string>, remainingRemove: seq<string>,
               modelsChanged: bool, outcome: Outcome)
      modifies this
      ensures outcome == if !saves then SaveFailed else if modelsChanged && !rebuilds then AbilitiesFailed else Done
      ensures Row() == AfterApply(old(Row()), add, ignore, remove, now)
      ensures saves ==> added == Added(old(Row()), add) && dropped == Dropped(old(Row()), add, remove)
      ensures saves ==> remaining == detected && remainingRemove == removed
      ensures modelsChanged <==> saves && NextModels(old(Row()), add, remove) != Normalize(GetModels(old(models)))
      ensures !saves ==> added == dropped == remaining == remainingRemove == []
      ensures stored == if saves then Row().(models := if modelsChanged then models else old(stored.models)) else old(stored)
    {
      var after;
      after, added, dropped, modelsChanged := ApplyTo(Row(), add, ignore, remove, now);
      SetRow(after);
      if !saves { return [], [], [], [], false, SaveFailed; }
      remaining, remainingRemove := after.detected, after.removed;
      stored := Persisted(stored, after, modelsChanged);
      outcome := if modelsChanged && !rebuilds then AbilitiesFailed else Done;
    }
  }

  // ----- the database row

  /** Writing the models only when names were adopted still writes the whole row. */
  lemma DetectSaved(st: State, env: Env, upstream: Option<seq<string>>, now: int, force: bool, allowAuto: bool)
    ensures var after := AfterDetect(st, env, upstream, now, force, allowAuto);
            Persisted(st, after, AutoAdded(st, env, upstream, now, force, allowAuto) > 0) == after
  {
  }

  /** ... and so does writing them only when the list has changed. */
  lemma ApplySaved(st: State, add: seq<string>, ignore: seq<string>, remove: seq<string>, now: int)
    ensures var after := AfterApply(st, add, ignore, remove, now);
            Persisted(st, after, NextModels(st, add, remove) != Normalize(GetModels(st.models))) == after
  {
  }

  // ----- the stored model string

  lemma NormalizeFreeOf(xs: seq<string>, sep: char)
    requires FreeOf(xs, sep)
    ensures FreeOf(Normalize(xs), sep)
  {
    forall i | 0 <= i < |Normalize(xs)|
      ensures sep !in Normalize(xs)[i]
    {
      NormalizeMembers(xs, Normalize(xs)[i]);
      var j :| 0 <= j < |xs| && TrimSpace(xs[j]) == Normalize(xs)[i];
      TrimKeepsChars(xs[j], IsSpace);
    }
  }

  lemma {:induction false} SplitSnoc(s: string, sep: char)
    ensures Split(s + [sep], sep) == Split(s, sep) + [""]
  {
    if s != [] {
      SplitSnoc(s[1..], sep);
      assert (s + [sep])[1..] == s[1..] + [sep];
    } else {
      assert ([] + [sep])[1..] == [];
    }
  }

  lemma {:induction false} LeadingSeparators(s: string, cut: char -> bool, sep: char)
    requires forall c :: cut(c) <==> c == sep
    ensures TrimmedNames(Split(TrimLeft(s, cut), sep)) == TrimmedNames(Split(s, sep))
  {
    if s != [] && cut(s[0]) {
      LeadingSeparators(s[1..], cut, sep);
      assert ([""] + Split(s[1..], sep))[1..] == Split(s[1..], sep);
    }
  }

  lemma {:induction false} TrailingSeparators(s: string, cut: char -> bool, sep: char)
    requires forall c :: cut(c) <==> c == sep
    ensures TrimmedNames(Split(TrimRight(s, cut), sep)) == TrimmedNames(Split(s, sep))
  {
    if s != [] && cut(s[|s| - 1]) {
      var t := s[..|s| - 1];
      TrailingSeparators(t, cut, sep);
      assert s == t + [sep];
      SplitSnoc(t, sep);
      TrimmedNamesSnoc(Split(t, sep), "");
      assert TrimmedNames(Split(t, sep)) + [] == TrimmedNames(Split(t, sep));
    }
  }

  /** The models of a column are its comma-separated names, whatever commas surround them. */
  lemma GetModelsMeaning(models: string)
    ensures Normalize(GetModels(models)) == Normalize(Split(models, ','))
  {
    var cut := (c: char) => c == ',';
    LeadingSeparators(models, cut, ',');
    TrailingSeparators(TrimLeft(models, cut), cut, ',');
    assert TrimChar(models, ',') == TrimRight(TrimLeft(models, cut), cut);
  }

  /** Names read back from a stored list never hold a comma. */
  lemma StoredNamesFree(models: string)
    ensures FreeOf(Normalize(GetModels(models)), ',')
  {
    if models != "" {
      SplitPieces(TrimChar(models, ','), ',');
    }
    NormalizeFreeOf(GetModels(models), ',');
  }

  /** A normalised list survives the comma-joined column exactly when no name holds a comma. */
  lemma ModelsRoundTrip(xs: seq<string>)
    requires IsNormal(xs)
    ensures Normalize(GetModels(Join(xs, ','))) == xs <==> FreeOf(xs, ',')
  {
    StoredNamesFree(Join(xs, ','));
    NormalizeNormal(xs);
    if xs != [] && FreeOf(xs, ',') {
      StoredRoundTrip(xs, ',');
      if |xs| >= 2 { JoinEnds(xs, ','); }
    }
  }

  // ----- detection

  /** Pending additions: upstream names that are neither local, nor a redirect target, nor ignored. */
  lemma PendingAddMeaning(env: Env, local: seq<string>, upstream: seq<string>, ignored: seq<string>)
    ensures IsNormal(PendingAdd(env, local, upstream, ignored))
    ensures forall x :: x in PendingAdd(env, local, upstream, ignored) <==>
              && x in Normalize(upstream) && x !in Normalize(local)
              && x !in env.mapping.Values && !IsIgnored(env, Normalize(ignored), x)
    ensures IsSubsequence(PendingAdd(env, local, upstream, ignored), Normalize(upstream))
  {
    var l, ig := Normalize(local), Normalize(ignored);
    var p := x => x !in l && x !in env.mapping.Values && !IsIgnored(env, ig, x);
    NormalizeNormal(upstream);
    FilterMembers(Normalize(upstream), p);
    FilterInOrder(Normalize(upstream), p);
    NormalizeNormal(Filter(Normalize(upstream), p));
  }

  /** Pending removals: local names that are neither redirect sources nor offered upstream. */
  lemma PendingRemoveMeaning(env: Env, local: seq<string>, upstream: seq<string>)
    ensures IsNormal(PendingRemove(env, local, upstream))
    ensures forall x :: x in PendingRemove(env, local, upstream) <==>
              x in Normalize(local) && x !in env.mapping.Keys && x !in Normalize(upstream)
    ensures IsSubsequence(PendingRemove(env, local, upstream), Normalize(local))
  {
    var u := Normalize(upstream);
    var p := x => x !in env.mapping.Keys && x !in u;
    NormalizeNormal(local);
    FilterMembers(Normalize(local), p);
    FilterInOrder(Normalize(local), p);
    NormalizeNormal(Filter(Normalize(local), p));
  }

  /** Auto-sync never finds its pending names already present: the list grows by all of them. */
  lemma AutoSyncGrows(env: Env, local: seq<string>, upstream: seq<string>, ignored: seq<string>)
    ensures var add := PendingAdd(env, local, upstream, ignored);
            && Merge(Normalize(local), add) == Merge(local, add)
            && |Merge(local, add)| == |Normalize(local)| + |add|
  {
    var add := PendingAdd(env, local, upstream, ignored);
    PendingAddMeaning(env, local, upstream, ignored);
    NormalizeNormal(local);
    NormalizeNormal(add);
    FilterMembers(add, NotIn(Normalize(local)));
  }
}
