/** Laws of the detect/apply protocol: conservation of one apply, convergence of
    detect-apply-detect, and what every run keeps. */
module UpstreamLaws {
  import opened Text
  import opened NameLists
  import opened UpstreamSync
  import opened Options

  function Local(st: State): seq<string> {
    Normalize(GetModels(st.models))
  }

  // ----- one apply

  /** A selection reaches only what is pending, and an addition wins over a removal. */
  lemma SelectionMeaning(st: State, add: seq<string>, ignore: seq<string>, remove: seq<string>)
    ensures IsNormal(Added(st, add)) && IsNormal(Dismissed(st, ignore)) && IsNormal(Dropped(st, add, remove))
    ensures forall x :: x in Added(st, add) <==> x in Normalize(add) && x in Normalize(st.detected)
    ensures forall x :: x in Dismissed(st, ignore) <==> x in Normalize(ignore) && x in Normalize(st.detected)
    ensures forall x :: x in Dropped(st, add, remove) <==>
              x in Normalize(remove) && x in Normalize(st.removed) && x !in Added(st, add)
  {
    var r := Intersect(remove, Normalize(st.removed));
    NormalizeNormal(st.detected);
    NormalizeNormal(st.removed);
    IntersectMeaning(add, Normalize(st.detected));
    IntersectMeaning(ignore, Normalize(st.detected));
    IntersectMeaning(remove, Normalize(st.removed));
    NormalizeNormal(r);
    NormalizeNormal(Added(st, add));
    SubtractMeaning(r, Added(st, add));
  }

  /** The model list after an apply: old and added names, minus the dropped ones. */
  lemma NextModelsMeaning(st: State, add: seq<string>, remove: seq<string>)
    ensures IsNormal(NextModels(st, add, remove))
    ensures forall x :: x in NextModels(st, add, remove) <==>
              x in Added(st, add) || (x in Local(st) && x !in Dropped(st, add, remove))
    ensures IsSubsequence(NextModels(st, add, remove), Merge(Local(st), Added(st, add)))
  {
    SelectionMeaning(st, add, [], remove);
    NormalizeNormal(GetModels(st.models));
    NormalizeNormal(Added(st, add));
    NormalizeNormal(Dropped(st, add, remove));
    ApplySelectedMembers(Local(st), Added(st, add), Dropped(st, add, remove));
  }

  /** The ignore list after an apply gains the dismissed names and loses the added ones. */
  lemma NextIgnoredMeaning(st: State, add: seq<string>, ignore: seq<string>)
    ensures IsNormal(NextIgnored(st, add, ignore))
    ensures forall x :: x in NextIgnored(st, add, ignore) <==>
              (x in Normalize(st.ignored) || x in Dismissed(st, ignore)) && x !in Added(st, add)
    ensures IsSubsequence(NextIgnored(st, add, ignore), Merge(st.ignored, Dismissed(st, ignore)))
  {
    var merged := Merge(st.ignored, Dismissed(st, ignore));
    SelectionMeaning(st, add, ignore, []);
    NormalizeNormal(Dismissed(st, ignore));
    MergeMeaning(st.ignored, Dismissed(st, ignore));
    NormalizeNormal(merged);
    NormalizeNormal(Added(st, add));
    SubtractMeaning(merged, Added(st, add));
    SelfSubsequence(merged);
  }

  lemma {:induction false} SelfSubsequence(xs: seq<string>)
    ensures IsSubsequence(xs, xs)
  {
    if xs != [] { SelfSubsequence(xs[1..]); }
  }

  lemma RemainingMeaning(st: State, add: seq<string>, ignore: seq<string>, remove: seq<string>, now: int)
    ensures var s' := AfterApply(st, add, ignore, remove, now);
            && IsNormal(s'.detected)
            && IsSubsequence(s'.detected, Normalize(st.detected))
            && (forall x :: x in s'.detected <==>
                  x in Normalize(st.detected) && x !in Added(st, add) && x !in Dismissed(st, ignore))
  {
    var both := Added(st, add) + Dismissed(st, ignore);
    SelectionMeaning(st, add, ignore, remove);
    NormalizeNormal(st.detected);
    forall x
      ensures x in Normalize(both) <==> x in Added(st, add) || x in Dismissed(st, ignore)
    {
      NormalizeOfTrimmed(both, x);
    }
    SubtractMeaning(Normalize(st.detected), both);
  }

  /** The pending removals left: exactly those not selected, or selected as additions too, in order. */
  lemma RemainingRemovals(st: State, add: seq<string>, ignore: seq<string>, remove: seq<string>, now: int)
    ensures var s' := AfterApply(st, add, ignore, remove, now);
            && IsNormal(s'.removed)
            && IsSubsequence(s'.removed, Normalize(st.removed))
            && (forall x :: x in s'.removed <==>
                  && x in Normalize(st.removed)
                  && (x !in Normalize(remove) || (x in Normalize(add) && x in Normalize(st.detected))))
  {
    SelectionMeaning(st, add, ignore, remove);
    NormalizeNormal(st.removed);
    NormalizeNormal(Dropped(st, add, remove));
    SubtractMeaning(Normalize(st.removed), Dropped(st, add, remove));
  }

  /** An apply records its time, and touches the stored models only to change the list. */
  lemma ApplyRecords(st: State, add: seq<string>, ignore: seq<string>, remove: seq<string>, now: int)
    ensures var s' := AfterApply(st, add, ignore, remove, now);
            s'.checkedAt == now && (NextModels(st, add, remove) == Local(st) ==> s'.models == st.models)
  {
  }

  /** On trimmed, non-blank names normalisation only drops repetitions. */
  lemma NormalizeOfTrimmed(xs: seq<string>, x: string)
    requires AllTrimmed(xs)
    ensures x in Normalize(xs) <==> x in xs
  {
    TrimmedNamesSame(xs);
    UniqMeaning(xs);
  }

  /** Conservation: a pending addition ends up exactly one of added, ignored or still
      pending, adding wins over ignoring, and what stays pending keeps its order. */
  lemma ApplyAccountsForPending(st: State, add: seq<string>, ignore: seq<string>, remove: seq<string>, now: int, p: string)
    requires p in Normalize(st.detected)
    ensures var s' := AfterApply(st, add, ignore, remove, now);
            && IsSubsequence(s'.detected, Normalize(st.detected))
            && (p in Normalize(add) ==>
                  p in NextModels(st, add, remove) && p !in s'.ignored && p !in s'.detected)
            && (p !in Normalize(add) && p in Normalize(ignore) ==>
                  p in s'.ignored && p !in s'.detected && (p in NextModels(st, add, remove) ==> p in Local(st)))
            && (p !in Normalize(add) && p !in Normalize(ignore) ==>
                  p in s'.detected && (p in s'.ignored ==> p in Normalize(st.ignored)) && (p in NextModels(st, add, remove) ==> p in Local(st)))
  {
    SelectionMeaning(st, add, ignore, remove);
    RemainingMeaning(st, add, ignore, remove, now);
    NextModelsMeaning(st, add, remove);
    NextIgnoredMeaning(st, add, ignore);
  }

  /** Of names that are added or old, only the added ones can hold the separator. */
  lemma OnlyAddedHoldComma(next: seq<string>, added: seq<string>, before: seq<string>)
    requires FreeOf(before, ',')
    requires forall x :: x in added ==> x in next
    requires forall x :: x in next ==> x in added || x in before
    ensures FreeOf(next, ',') <==> FreeOf(added, ',')
  {
    forall i | 0 <= i < |added| && FreeOf(next, ',') ensures ',' !in added[i] {
      assert added[i] in next;
    }
    forall i | 0 <= i < |next| && FreeOf(added, ',') ensures ',' !in next[i] {
      assert next[i] in next;
    }
  }

  /** The stored list reads back as intended exactly when no added name holds a comma. */
  lemma ApplyStoresModels(st: State, add: seq<string>, ignore: seq<string>, remove: seq<string>, now: int)
    ensures Local(AfterApply(st, add, ignore, remove, now)) == NextModels(st, add, remove)
       <==> FreeOf(Added(st, add), ',')
  {
    var next := NextModels(st, add, remove);
    NextModelsMeaning(st, add, remove);
    StoredNamesFree(st.models);
    ModelsRoundTrip(next);
    OnlyAddedHoldComma(next, Added(st, add), Local(st));
  }

  // ----- one check

  /** A name is new: upstream, not local, no redirect target, not ignored. */
  ghost predicate IsNew(st: State, env: Env, upstream: seq<string>, x: string) {
    x in Normalize(upstream) && x !in Local(st) && x !in env.mapping.Values && !IsIgnored(env, Normalize(st.ignored), x)
  }

  /** The pending additions, by their meaning. */
  ghost predicate AreNew(st: State, env: Env, upstream: seq<string>, names: seq<string>) {
    IsNormal(names) && IsSubsequence(names, Normalize(upstream)) && forall x :: x in names <==> IsNew(st, env, upstream, x)
  }

  ghost predicate AreGone(st: State, env: Env, upstream: seq<string>, names: seq<string>) {
    && IsNormal(names) && IsSubsequence(names, Local(st))
    && forall x :: x in names <==> x in Local(st) && x !in env.mapping.Keys && x !in Normalize(upstream)
  }

  /** A successful fetch keeps the ignore list and finds the removals; the additions are left
      pending, or adopted behind the local models if auto-sync is on and allowed. */
  lemma FetchMeaning(st: State, env: Env, upstream: seq<string>, allowAuto: bool) returns (found: seq<string>)
    ensures AreNew(st, env, upstream, found)
    ensures var s' := AfterFetch(st, env, upstream, allowAuto);
            && s'.ignored == st.ignored && s'.checkedAt == st.checkedAt && AreGone(st, env, upstream, s'.removed)
            && (if allowAuto && env.autoSync && found != []
                then s'.detected == [] && s'.models == Join(Merge(GetModels(st.models), found), ',')
                else s'.detected == found && s'.models == st.models)
  {
    var local := GetModels(st.models);
    PendingAddMeaning(env, local, upstream, st.ignored);
    PendingRemoveMeaning(env, local, upstream);
    found := PendingAdd(env, local, upstream, st.ignored);
  }

  /** Within the minimum interval after the last check an unforced one does nothing. Otherwise the
      time is recorded; a failed fetch changes nothing else. */
  lemma CheckMeaning(st: State, env: Env, upstream: Option<seq<string>>, now: int, force: bool, allowAuto: bool)
    ensures AfterDetect(st, env, upstream, now, force, allowAuto) ==
              if !force && 0 < st.checkedAt && now < st.checkedAt + env.minInterval then st
              else if upstream.None? then st.(checkedAt := now)
              else AfterFetch(st, env, upstream.value, allowAuto).(checkedAt := now)
  {
  }

  /** Ignored means: listed literally, or matched by the body of a pattern entry. */
  lemma IgnoredMeaning(env: Env, ignored: seq<string>, name: string)
    ensures IsIgnored(env, ignored, name) <==>
              || (name in ignored && !("regex:" <= name))
              || (exists i :: 0 <= i < |ignored| && "regex:" <= ignored[i] && env.matches(TrimSpace(ignored[i][6..]), name))
  {
    LiteralHidesItself(env, ignored, name);
    assert REGEX_PREFIX == "regex:" && |REGEX_PREFIX| == 6;
    if i :| 0 <= i < |ignored| && "regex:" <= ignored[i] && env.matches(TrimSpace(ignored[i][6..]), name) {
      assert EntryMatches(env, ignored[i], name);
    }
    if IsIgnored(env, ignored, name) {
      var i :| 0 <= i < |ignored| && EntryMatches(env, ignored[i], name);
    }
  }

  // ----- convergence

  /** Every uncovered upstream name that an ignore entry hides stays hidden once the entries
      that are themselves pending additions are gone. */
  ghost predicate IgnoresOutlive(env: Env, st: State, upstream: seq<string>, pending: seq<string>) {
    forall x :: x in Normalize(upstream) && x !in Local(st) && x !in env.mapping.Values
             && IsIgnored(env, Normalize(st.ignored), x)
            ==> IsIgnored(env, Subtract(st.ignored, pending), x)
  }

  /** Detect, apply everything pending, detect again. */
  function SyncOnce(st: State, env: Env, upstream: seq<string>, now: int): State {
    var s1 := AfterDetect(st, env, Some(upstream), now, true, false);
    var s2 := AfterApply(s1, s1.detected, [], s1.removed, now);
    AfterDetect(s2, env, Some(upstream), now, true, false)
  }

  /** Applying everything pending selects all of it. */
  lemma ApplyAllSelects(s1: State)
    requires IsNormal(s1.detected) && IsNormal(s1.removed)
    requires forall x :: x in s1.detected ==> x !in s1.removed
    ensures Added(s1, s1.detected) == s1.detected
    ensures Dropped(s1, s1.detected, s1.removed) == s1.removed
    ensures Dismissed(s1, []) == []
  {
    NormalizeNormal(s1.detected);
    NormalizeNormal(s1.removed);
    IntersectMeaning(s1.detected, s1.detected);
    IntersectMeaning(s1.removed, s1.removed);
    SubtractMeaning(s1.removed, s1.detected);
  }

  lemma IgnoredMonotone(env: Env, small: seq<string>, big: seq<string>, x: string)
    requires forall e :: e in small ==> e in big
    ensures IsIgnored(env, small, x) ==> IsIgnored(env, big, x)
  {
    if IsIgnored(env, small, x) {
      var i :| 0 <= i < |small| && EntryMatches(env, small[i], x);
      assert small[i] in big;
      var j :| 0 <= j < |big| && big[j] == small[i];
      assert EntryMatches(env, big[j], x);
    }
  }

  lemma SameMembersSameIgnored(env: Env, a: seq<string>, b: seq<string>)
    requires forall e :: e in a <==> e in b
    ensures forall x :: IsIgnored(env, a, x) <==> IsIgnored(env, b, x)
  {
    forall x
      ensures IsIgnored(env, a, x) <==> IsIgnored(env, b, x)
    {
      IgnoredMonotone(env, a, b, x);
      IgnoredMonotone(env, b, a, x);
    }
  }

  /** After everything pending is applied: the ignore list lost exactly the entries that
      were pending, and the local list is the old one with the pending changes made. */
  lemma AfterApplyAll(st: State, env: Env, upstream: seq<string>, now: int)
    ensures var s1 := AfterDetect(st, env, Some(upstream), now, true, false);
            var s2 := AfterApply(s1, s1.detected, [], s1.removed, now);
            && (forall x :: IsIgnored(env, Normalize(s2.ignored), x) <==> IsIgnored(env, Subtract(st.ignored, s1.detected), x))
            && (FreeOf(s1.detected, ',') ==>
                  forall x :: x in Local(s2) <==> x in s1.detected || (x in Local(st) && x !in s1.removed))
            && FreeOf(Local(s2), ',')
  {
    var s1 := AfterDetect(st, env, Some(upstream), now, true, false);
    var s2 := AfterApply(s1, s1.detected, [], s1.removed, now);
    DetectMeaning(st, env, upstream, now);
    ApplyAllSelects(s1);
    NextIgnoredMeaning(s1, s1.detected, []);
    NormalizeNormal(s2.ignored);
    NormalizeNormal(s1.detected);
    SubtractMeaning(st.ignored, s1.detected);
    SameMembersSameIgnored(env, Normalize(s2.ignored), Subtract(st.ignored, s1.detected));
    NextModelsMeaning(s1, s1.detected, s1.removed);
    ApplyStoresModels(s1, s1.detected, [], s1.removed, now);
    StoredNamesFree(s2.models);
  }

  lemma DetectMeaning(st: State, env: Env, upstream: seq<string>, now: int)
    ensures var s1 := AfterDetect(st, env, Some(upstream), now, true, false);
            && s1.models == st.models && s1.ignored == st.ignored
            && IsNormal(s1.detected) && IsNormal(s1.removed)
            && (forall x :: x in s1.detected <==>
                  && x in Normalize(upstream) && x !in Local(st)
                  && x !in env.mapping.Values && !IsIgnored(env, Normalize(st.ignored), x))
            && (forall x :: x in s1.removed <==> x in Local(st) && x !in env.mapping.Keys && x !in Normalize(upstream))
  {
    PendingAddMeaning(env, GetModels(st.models), upstream, st.ignored);
    PendingRemoveMeaning(env, GetModels(st.models), upstream);
  }

  /** Detect-apply-detect settles exactly when no pending name holds a comma (the list
      separator) and no ignore pattern is lost because its own text was pending. */
  lemma ConvergesIff(st: State, env: Env, upstream: seq<string>, now: int)
    ensures var s1 := AfterDetect(st, env, Some(upstream), now, true, false);
            var s3 := SyncOnce(st, env, upstream, now);
            s3.detected == [] && s3.removed == [] <==>
              FreeOf(s1.detected, ',') && IgnoresOutlive(env, st, upstream, s1.detected)
  {
    var s1 := AfterDetect(st, env, Some(upstream), now, true, false);
    var s2 := AfterApply(s1, s1.detected, [], s1.removed, now);
    var s3 := SyncOnce(st, env, upstream, now);
    DetectMeaning(st, env, upstream, now);
    AfterApplyAll(st, env, upstream, now);
    DetectMeaning(s2, env, upstream, now);
    if !FreeOf(s1.detected, ',') {
      var i :| 0 <= i < |s1.detected| && ',' in s1.detected[i];
      CommaNeverSettles(st, env, upstream, now, s1.detected[i]);
    } else {
      NoMembers(s3.removed);
      NoMembers(s3.detected);
      if !IgnoresOutlive(env, st, upstream, s1.detected) {
        var x :| x in Normalize(upstream) && x !in Local(st) && x !in env.mapping.Values
              && IsIgnored(env, Normalize(st.ignored), x)
              && !IsIgnored(env, Subtract(st.ignored, s1.detected), x);
        LostIgnoreUnhides(st, env, upstream, now, x);
      }
    }
  }

  /** A pending name with a comma is pending again after being applied. */
  lemma CommaNeverSettles(st: State, env: Env, upstream: seq<string>, now: int, x: string)
    requires x in AfterDetect(st, env, Some(upstream), now, true, false).detected && ',' in x
    ensures x in SyncOnce(st, env, upstream, now).detected
  {
    var s1 := AfterDetect(st, env, Some(upstream), now, true, false);
    var s2 := AfterApply(s1, s1.detected, [], s1.removed, now);
    DetectMeaning(st, env, upstream, now);
    AfterApplyAll(st, env, upstream, now);
    DetectMeaning(s2, env, upstream, now);
    SubtractMeaning(st.ignored, s1.detected);
    IgnoredMonotone(env, Subtract(st.ignored, s1.detected), Normalize(st.ignored), x);
  }

  /** A hidden upstream name whose ignore entries were all pending is pending afterwards. */
  lemma LostIgnoreUnhides(st: State, env: Env, upstream: seq<string>, now: int, x: string)
    requires x in Normalize(upstream) && x !in Local(st) && x !in env.mapping.Values
    requires IsIgnored(env, Normalize(st.ignored), x)
    requires var s1 := AfterDetect(st, env, Some(upstream), now, true, false);
             FreeOf(s1.detected, ',') && !IsIgnored(env, Subtract(st.ignored, s1.detected), x)
    ensures x in SyncOnce(st, env, upstream, now).detected
  {
    var s1 := AfterDetect(st, env, Some(upstream), now, true, false);
    var s2 := AfterApply(s1, s1.detected, [], s1.removed, now);
    DetectMeaning(st, env, upstream, now);
    AfterApplyAll(st, env, upstream, now);
    DetectMeaning(s2, env, upstream, now);
  }

  lemma NoMembers(xs: seq<string>)
    ensures xs == [] <==> forall x :: x !in xs
  {
    if xs != [] { assert xs[0] in xs; }
  }

  lemma LiteralHidesItself(env: Env, ignored: seq<string>, x: string)
    ensures x in ignored && IsLiteral(x) ==> IsIgnored(env, ignored, x)
  {
    if x in ignored && IsLiteral(x) {
      var j :| 0 <= j < |ignored| && ignored[j] == x;
      assert EntryMatches(env, ignored[j], x);
    }
  }

  /** The usual case: comma-free upstream names, none of which is itself an ignore entry. */
  lemma Converges(st: State, env: Env, upstream: seq<string>, now: int)
    requires FreeOf(Normalize(upstream), ',')
    requires forall x :: x in Normalize(upstream) && !IsLiteral(x) ==> x !in Normalize(st.ignored)
    ensures var s3 := SyncOnce(st, env, upstream, now); s3.detected == [] && s3.removed == []
  {
    var s1 := AfterDetect(st, env, Some(upstream), now, true, false);
    DetectMeaning(st, env, upstream, now);
    ConvergesIff(st, env, upstream, now);
    forall i | 0 <= i < |s1.detected| ensures ',' !in s1.detected[i] {
      assert s1.detected[i] in Normalize(upstream);
    }
    forall e | e in Normalize(st.ignored) ensures e !in s1.detected {
      LiteralHidesItself(env, Normalize(st.ignored), e);
    }
    NormalizeNormal(s1.detected);
    SubtractMeaning(st.ignored, s1.detected);
  }

  /** Where convergence fails: upstream offers a model whose name is the text of an ignore
      pattern, such as "regex:^foo". Adopting it drops the pattern, and what it hid becomes pending. */
  lemma PatternNameUnhides(env: Env, pattern: string, name: string, now: int)
    requires env.mapping == map[]
    requires IsNormal([pattern, name]) && FreeOf([pattern, name], ',')
    requires !IsLiteral(pattern)
    requires var body := TrimSpace(pattern[|REGEX_PREFIX|..]); env.matches(body, name) && !env.matches(body, pattern)
    ensures var st := State("", [], [], [pattern], 0);
            && AfterDetect(st, env, Some([pattern, name]), now, true, false).detected == [pattern]
            && name in SyncOnce(st, env, [pattern, name], now).detected
  {
    var st, upstream := State("", [], [], [pattern], 0), [pattern, name];
    PatternDetected(env, pattern, name, now);
    NormalizeNormal(upstream);
    NormalizeNormal([pattern]);
    assert upstream[1] == name;
    SubtractMeaning(st.ignored, [pattern]);
    NoMembers(Subtract(st.ignored, [pattern]));
    LostIgnoreUnhides(st, env, upstream, now, name);
  }

  lemma PatternDetected(env: Env, pattern: string, name: string, now: int)
    requires env.mapping == map[]
    requires IsNormal([pattern, name]) && !IsLiteral(pattern)
    requires var body := TrimSpace(pattern[|REGEX_PREFIX|..]); env.matches(body, name) && !env.matches(body, pattern)
    ensures Normalize([pattern]) == [pattern] && IsIgnored(env, [pattern], name)
    ensures AfterDetect(State("", [], [], [pattern], 0), env, Some([pattern, name]), now, true, false).detected == [pattern]
  {
    var st, upstream := State("", [], [], [pattern], 0), [pattern, name];
    assert upstream[0] == pattern && upstream[1] == name;
    assert IsNormal([pattern]);
    NormalizeNormal(upstream);
    NormalizeNormal([pattern]);
    OnlyEntry(env, [pattern], pattern, name);
    OnlyEntry(env, [pattern], pattern, pattern);
    DetectMeaning(st, env, upstream, now);
    SingleMember(AfterDetect(st, env, Some(upstream), now, true, false).detected, pattern);
  }

  lemma OnlyEntry(env: Env, ignored: seq<string>, entry: string, name: string)
    requires ignored == [entry]
    ensures IsIgnored(env, ignored, name) <==> EntryMatches(env, entry, name)
  {
    assert ignored[0] == entry;
  }

  lemma SingleMember(xs: seq<string>, x: string)
    requires Distinct(xs) && x in xs && forall y :: y in xs ==> y == x
    ensures xs == [x]
  {
    assert xs[0] in xs && xs[|xs| - 1] in xs;
  }

  /** The local names after auto-sync adopted the pending ones. */
  lemma AutoSyncedLocal(st: State, pending: seq<string>)
    requires IsNormal(pending)
    ensures var models := Join(Merge(GetModels(st.models), pending), ',');
            && FreeOf(Normalize(GetModels(models)), ',')
            && (FreeOf(pending, ',') ==>
                  forall x :: x in Normalize(GetModels(models)) <==> x in Local(st) || x in pending)
  {
    var local := GetModels(st.models);
    var merged := Merge(local, pending);
    StoredNamesFree(Join(merged, ','));
    StoredNamesFree(st.models);
    NormalizeNormal(pending);
    MergeMeaning(local, pending);
    ModelsRoundTrip(merged);
    MergedFree(Normalize(local), pending, merged);
  }

  /** Auto-sync settles the additions in one detection exactly when no pending name holds a comma. */
  lemma AutoSyncSettlesIff(st: State, env: Env, upstream: seq<string>, now: int)
    requires env.autoSync
    ensures var pending := PendingAdd(env, GetModels(st.models), upstream, st.ignored);
            var s1 := AfterDetect(st, env, Some(upstream), now, true, true);
            PendingAdd(env, GetModels(s1.models), upstream, s1.ignored) == [] <==> FreeOf(pending, ',')
  {
    var pending := PendingAdd(env, GetModels(st.models), upstream, st.ignored);
    if |pending| > 0 {
      var models := Join(Merge(GetModels(st.models), pending), ',');
      var again := PendingAdd(env, GetModels(models), upstream, st.ignored);
      PendingAddMeaning(env, GetModels(st.models), upstream, st.ignored);
      PendingAddMeaning(env, GetModels(models), upstream, st.ignored);
      AutoSyncedLocal(st, pending);
      NoMembers(again);
      if !FreeOf(pending, ',') {
        var i :| 0 <= i < |pending| && ',' in pending[i];
        assert pending[i] in pending;
        assert pending[i] in again;
      }
    }
  }

  lemma MergedFree(base: seq<string>, extra: seq<string>, merged: seq<string>)
    requires FreeOf(base, ',') && forall x :: x in merged <==> x in base || x in extra
    ensures FreeOf(merged, ',') <==> FreeOf(extra, ',')
  {
    assert forall i :: 0 <= i < |merged| ==> merged[i] in merged;
    assert forall i :: 0 <= i < |extra| ==> extra[i] in merged;
  }

  // ----- every run

  datatype Event =
    | Detect(upstream: Option<seq<string>>, at: int, force: bool, allowAuto: bool)
    | Apply(add: seq<string>, ignore: seq<string>, remove: seq<string>, at: int)

  function Step(st: State, env: Env, e: Event): State {
    match e
    case Detect(upstream, at, force, allowAuto) => AfterDetect(st, env, upstream, at, force, allowAuto)
    case Apply(add, ignore, remove, at) => AfterApply(st, add, ignore, remove, at)
  }

  function Run(st: State, env: Env, events: seq<Event>): State
    decreases |events|
  {
    if events == [] then st else Run(Step(st, env, events[0]), env, events[1..])
  }

  /** No literally ignored name is pending. */
  ghost predicate Apart(st: State) {
    forall x :: x in Normalize(st.detected) && IsLiteral(x) ==> x !in Normalize(st.ignored)
  }

  /** One step keeps the lists apart and never frees a literally ignored name. */
  lemma StepKeepsApart(st: State, env: Env, e: Event)
    requires Apart(st)
    ensures Apart(Step(st, env, e))
    ensures forall x :: IsLiteral(x) && x in Normalize(st.ignored) ==> x in Normalize(Step(st, env, e).ignored)
  {
    match e
    case Detect(upstream, at, force, allowAuto) =>
      if !TooSoon(st, env, at, force) && upstream.Some? {
        FetchKeepsApart(st, env, upstream.value, allowAuto);
      }
    case Apply(add, ignore, remove, at) =>
      var s' := AfterApply(st, add, ignore, remove, at);
      SelectionMeaning(st, add, ignore, remove);
      RemainingMeaning(st, add, ignore, remove, at);
      NextIgnoredMeaning(st, add, ignore);
      NormalizeNormal(s'.detected);
      NormalizeNormal(s'.ignored);
  }

  lemma FetchKeepsApart(st: State, env: Env, upstream: seq<string>, allowAuto: bool)
    ensures Apart(AfterFetch(st, env, upstream, allowAuto))
  {
    var local := GetModels(st.models);
    var add := PendingAdd(env, local, upstream, st.ignored);
    PendingAddMeaning(env, local, upstream, st.ignored);
    NormalizeNormal(add);
    NormalizeNormal([]);
    forall x | x in add && IsLiteral(x) ensures x !in Normalize(st.ignored) {
      LiteralHidesItself(env, Normalize(st.ignored), x);
    }
  }

  /** Over every run of detections and applications the pending additions and the literal
      ignore entries stay disjoint, and a name once ignored is ignored and not pending ever after. */
  lemma {:induction false} RunKeepsApart(st: State, env: Env, events: seq<Event>)
    requires Apart(st)
    ensures Apart(Run(st, env, events))
    ensures forall x :: IsLiteral(x) && x in Normalize(st.ignored) ==>
              x in Normalize(Run(st, env, events).ignored) && x !in Normalize(Run(st, env, events).detected)
    decreases |events|
  {
    if events != [] {
      StepKeepsApart(st, env, events[0]);
      RunKeepsApart(Step(st, env, events[0]), env, events[1..]);
    }
  }

  /** Until the minimum interval after a recorded check is over, no run of unforced checks changes
      anything; the first one afterwards is carried out. */
  lemma {:induction false} RunWaits(st: State, env: Env, events: seq<Event>, e: Event)
    requires 0 < st.checkedAt
    requires forall i :: 0 <= i < |events| ==>
               events[i].Detect? && !events[i].force && events[i].at < st.checkedAt + env.minInterval
    requires e.Detect? && !e.force
    ensures Run(st, env, events) == st
    ensures e.at >= st.checkedAt + env.minInterval ==>
              Step(Run(st, env, events), env, e) == AfterDetect(st, env, e.upstream, e.at, true, e.allowAuto)
    decreases |events|
  {
    if events != [] {
      assert Step(st, env, events[0]) == st;
      RunWaits(st, env, events[1..], e);
    }
  }
}
