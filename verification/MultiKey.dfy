/** Multi-key channels: one key string holding many API keys, with status, disable time and
    disable reason kept per key index (controller/channel.go, model/channel.go). */
module MultiKey {
  import opened Text
  import opened Options
  import NameLists

  const ENABLED := 1
  const MANUALLY_DISABLED := 2
  const AUTO_DISABLED := 3

  /** The stored row. A missing status means enabled; nil and empty maps are the same. */
  datatype Row = Row(
    key: string,
    size: int,
    status: map<int, int>,
    times: map<int, int>,
    reasons: map<int, string>)

  /** Reads a JSON array as the raw text of its elements. */
  type ArrayReader = string -> Option<seq<string>>

  function ReadArray(read: ArrayReader, key: string): Option<seq<string>> {
    var t := TrimSpace(key);
    if StartsWith(t, "[") then read(t) else None
  }

  function Lines(key: string): seq<string> {
    Split(TrimChar(key, '\n'), '\n')
  }

  /** `Channel.GetKeys`. */
  function GetKeys(read: ArrayReader, key: string): seq<string> {
    if key == "" then []
    else if ReadArray(read, key).Some? then ReadArray(read, key).value
    else Lines(key)
  }

  /** The key count that `Channel.Update` recomputes; an empty array counts as one line. */
  function CountKeys(read: ArrayReader, key: string): nat {
    if key == "" then 0
    else
      var a := ReadArray(read, key);
      if a.Some? && a.value != [] then |a.value| else |Lines(key)|
  }

  /** `Channel.Update`: an empty key leaves the stored one in place. */
  function Save(read: ArrayReader, stored: Row, next: Row): Row {
    var text := if next.key != "" then next.key else stored.key;
    var size := CountKeys(read, text);
    Row(text, size, map i | i in next.status && i < size :: next.status[i], next.times, next.reasons)
  }

  function StatusOf(row: Row, i: int): int {
    if i in row.status then row.status[i] else ENABLED
  }

  // ----- renumbering

  /** The indices below n that are not dropped, ascending. */
  function Kept(n: nat, drop: int -> bool): seq<int> {
    if n == 0 then [] else Kept(n - 1, drop) + (if drop(n - 1) then [] else [n - 1])
  }

  function NonDefault(status: map<int, int>): map<int, int> {
    map i | i in status && status[i] != ENABLED :: status[i]
  }

  function Restrict<T>(m: map<int, T>, status: map<int, int>): map<int, T> {
    map i | i in m && i in status && status[i] != ENABLED :: m[i]
  }

  predicate InRange(idx: seq<int>, n: nat) {
    forall j :: 0 <= j < |idx| ==> 0 <= idx[j] < n
  }

  lemma {:induction false} KeptInRange(n: nat, drop: int -> bool, m: nat)
    requires n <= m
    ensures InRange(Kept(n, drop), m) && |Kept(n, drop)| <= n
  {
    if n > 0 { KeptInRange(n - 1, drop, m); }
  }

  lemma {:induction false} KeptMembers(n: nat, drop: int -> bool, i: int)
    ensures i in Kept(n, drop) <==> 0 <= i < n && !drop(i)
  {
    if n > 0 { KeptMembers(n - 1, drop, i); }
  }

  predicate Ascending(idx: seq<int>) {
    forall j, k :: 0 <= j < k < |idx| ==> idx[j] < idx[k]
  }

  lemma {:induction false} KeptAscending(n: nat, drop: int -> bool)
    ensures Ascending(Kept(n, drop))
  {
    if n > 0 {
      KeptAscending(n - 1, drop);
      KeptInRange(n - 1, drop, n - 1);
    }
  }

  lemma KeptStep(n: nat, drop: int -> bool)
    ensures Kept(n + 1, drop) == if drop(n) then Kept(n, drop) else Kept(n, drop) + [n]
  {
  }

  /** Keys with their per-index data. */
  datatype Table = Table(keys: seq<string>, status: map<int, int>, times: map<int, int>, reasons: map<int, string>)

  /** Position j of `to` takes over what position i of `from` has, if anything. */
  function Put<T>(to: map<int, T>, j: int, from: map<int, T>, i: int): map<int, T> {
    if i in from then to[j := from[i]] else to
  }

  /** The table with position i of another one behind it. */
  function Behind(t: Table, from: Table, i: int): Table
    requires 0 <= i < |from.keys|
  {
    var n := |t.keys|;
    Table(t.keys + [from.keys[i]], Put(t.status, n, from.status, i), Put(t.times, n, from.times, i), Put(t.reasons, n, from.reasons, i))
  }

  /** The first n positions of a table without the dropped ones, renumbered from zero. */
  function Collect(from: Table, drop: int -> bool, n: nat): Table
    requires n <= |from.keys|
  {
    if n == 0 then Table([], map[], map[], map[])
    else if drop(n - 1) then Collect(from, drop, n - 1)
    else Behind(Collect(from, drop, n - 1), from, n - 1)
  }

  /** Position j holds what position idx[j] held, and there are no other positions. */
  ghost predicate Follows<T>(part: map<int, T>, whole: map<int, T>, idx: seq<int>) {
    && (forall j :: j in part ==> 0 <= j < |idx|)
    && (forall j :: 0 <= j < |idx| ==> (j in part <==> idx[j] in whole))
    && (forall j :: 0 <= j < |idx| && idx[j] in whole && j in part ==> part[j] == whole[idx[j]])
  }

  lemma FollowsSnoc<T>(part: map<int, T>, whole: map<int, T>, idx: seq<int>, i: int)
    requires Follows(part, whole, idx)
    ensures Follows(Put(part, |idx|, whole, i), whole, idx + [i])
  {
  }

  /** The kept keys are those at the kept indices, in order. */
  lemma {:induction false} CollectKeys(from: Table, drop: int -> bool, n: nat)
    requires n <= |from.keys|
    ensures InRange(Kept(n, drop), |from.keys|)
    ensures var p, idx := Collect(from, drop, n), Kept(n, drop);
            |p.keys| == |idx| && forall j :: 0 <= j < |idx| ==> p.keys[j] == from.keys[idx[j]]
  {
    KeptInRange(n, drop, |from.keys|);
    if n > 0 { CollectKeys(from, drop, n - 1); }
  }

  lemma {:induction false} CollectLength(from: Table, drop: int -> bool, n: nat)
    requires n <= |from.keys|
    ensures |Collect(from, drop, n).keys| == |Kept(n, drop)|
  {
    if n > 0 { CollectLength(from, drop, n - 1); }
  }

  /** What is collected of one kind of data. */
  function CollectOne<T>(from: map<int, T>, drop: int -> bool, n: nat): map<int, T> {
    if n == 0 then map[]
    else if drop(n - 1) then CollectOne(from, drop, n - 1)
    else Put(CollectOne(from, drop, n - 1), |Kept(n - 1, drop)|, from, n - 1)
  }

  lemma {:induction false} CollectParts(from: Table, drop: int -> bool, n: nat)
    requires n <= |from.keys|
    ensures var p := Collect(from, drop, n);
            && p.status == CollectOne(from.status, drop, n)
            && p.times == CollectOne(from.times, drop, n)
            && p.reasons == CollectOne(from.reasons, drop, n)
  {
    if n > 0 {
      CollectLength(from, drop, n - 1);
      CollectParts(from, drop, n - 1);
    }
  }

  lemma {:induction false} CollectOneFollows<T>(from: map<int, T>, drop: int -> bool, n: nat)
    ensures Follows(CollectOne(from, drop, n), from, Kept(n, drop))
  {
    if n > 0 {
      CollectOneFollows(from, drop, n - 1);
      KeptStep(n - 1, drop);
      if !drop(n - 1) { FollowsSnoc(CollectOne(from, drop, n - 1), from, Kept(n - 1, drop), n - 1); }
    }
  }

  /** Every piece of per-key data follows its key. */
  lemma CollectMeaning(from: Table, drop: int -> bool, n: nat)
    requires n <= |from.keys|
    ensures InRange(Kept(n, drop), |from.keys|)
    ensures var p, idx := Collect(from, drop, n), Kept(n, drop);
            && |p.keys| == |idx|
            && (forall j :: 0 <= j < |idx| ==> p.keys[j] == from.keys[idx[j]])
            && Follows(p.status, from.status, idx) && Follows(p.times, from.times, idx) && Follows(p.reasons, from.reasons, idx)
  {
    CollectKeys(from, drop, n);
    CollectParts(from, drop, n);
    CollectOneFollows(from.status, drop, n);
    CollectOneFollows(from.times, drop, n);
    CollectOneFollows(from.reasons, drop, n);
  }

  /** What a single deletion carries over: explicit non-default statuses, all times and reasons. */
  function Carried(row: Row, keys: seq<string>): Table {
    Table(keys, NonDefault(row.status), row.times, row.reasons)
  }

  /** What the bulk deletion carries over: everything of keys that are not enabled. */
  function CarriedDisabled(row: Row, keys: seq<string>): Table {
    Table(keys, NonDefault(row.status), Restrict(row.times, row.status), Restrict(row.reasons, row.status))
  }

  // ----- the operations on the row

  function AfterDisable(read: ArrayReader, row: Row, i: int): Row {
    if 0 <= i < row.size then Save(read, row, row.(status := row.status[i := MANUALLY_DISABLED])) else row
  }

  function AfterEnable(read: ArrayReader, row: Row, i: int): Row {
    if 0 <= i < row.size
    then Save(read, row, row.(status := row.status - {i}, times := row.times - {i}, reasons := row.reasons - {i}))
    else row
  }

  function AfterEnableAll(read: ArrayReader, row: Row): Row {
    Save(read, row, row.(status := map[], times := map[], reasons := map[]))
  }

  /** How many of the first n keys are enabled. */
  function CountEnabled(row: Row, n: int): nat {
    if n <= 0 then 0 else CountEnabled(row, n - 1) + (if StatusOf(row, n - 1) == ENABLED then 1 else 0)
  }

  /** The status list with the enabled ones of the first n keys disabled. */
  function DisabledUpTo(row: Row, n: int): map<int, int> {
    if n <= 0 then row.status
    else
      var m := DisabledUpTo(row, n - 1);
      if StatusOf(row, n - 1) == ENABLED then m[n - 1 := MANUALLY_DISABLED] else m
  }

  function AfterDisableAll(read: ArrayReader, row: Row): Row {
    if CountEnabled(row, row.size) > 0 then Save(read, row, row.(status := DisabledUpTo(row, row.size))) else row
  }

  lemma {:induction false} DisabledUpToMeaning(row: Row, n: int, i: int)
    ensures i in DisabledUpTo(row, n) <==> i in row.status || (0 <= i < n && StatusOf(row, i) == ENABLED)
    ensures i in DisabledUpTo(row, n) ==>
              DisabledUpTo(row, n)[i] == if 0 <= i < n && StatusOf(row, i) == ENABLED then MANUALLY_DISABLED else row.status[i]
  {
    if n > 0 { DisabledUpToMeaning(row, n - 1, i); }
  }

  function DropAt(i: int): int -> bool {
    x => x == i
  }

  function DropDead(row: Row): int -> bool {
    x => StatusOf(row, x) == AUTO_DISABLED
  }

  /** The indices a deletion of key i keeps. */
  function KeptWithout(n: nat, i: int): seq<int> {
    Kept(n, DropAt(i))
  }

  function Replaced(read: ArrayReader, row: Row, t: Table): Row {
    Save(read, row, Row(Join(t.keys, '\n'), |t.keys|, t.status, t.times, t.reasons))
  }

  function Without(row: Row, keys: seq<string>, i: int): Table {
    Collect(Carried(row, keys), DropAt(i), |keys|)
  }

  function AfterDelete(read: ArrayReader, row: Row, i: int): Row {
    var t := Without(row, GetKeys(read, row.key), i);
    if 0 <= i < row.size && t.keys != [] then Replaced(read, row, t) else row
  }

  /** The indices that survive the deletion of auto-disabled keys. */
  function KeptAlive(row: Row, n: nat): seq<int> {
    Kept(n, DropDead(row))
  }

  function Alive(row: Row, keys: seq<string>): Table {
    Collect(CarriedDisabled(row, keys), DropDead(row), |keys|)
  }

  function AfterDeleteDisabled(read: ArrayReader, row: Row): Row {
    var keys := GetKeys(read, row.key);
    var t := Alive(row, keys);
    if |t.keys| < |keys| then Replaced(read, row, t) else row
  }

  /** The keys of the stored string as the append mode of `UpdateChannel` reads them. */
  function ExistingKeys(read: ArrayReader, key: string): seq<string> {
    if StartsWith(TrimSpace(key), "[") then
      (if ReadArray(read, key).Some? then ReadArray(read, key).value else [])
    else Lines(key)
  }

  /** The trimmed new keys that are neither blank, nor seen, nor repeated. */
  function Unseen(seen: set<string>, keys: seq<string>): seq<string>
    decreases |keys|
  {
    if keys == [] then []
    else
      var k := TrimSpace(keys[0]);
      if k == "" || k in seen then Unseen(seen, keys[1..])
      else [k] + Unseen(seen + {k}, keys[1..])
  }

  function TrimmedSet(keys: seq<string>): set<string> {
    if keys == [] then {}
    else
      var k := TrimSpace(keys[|keys| - 1]);
      TrimmedSet(keys[..|keys| - 1]) + (if k == "" then {} else {k})
  }

  function NewKeys(existing: seq<string>, offered: seq<string>): seq<string> {
    Unseen(TrimmedSet(existing), offered)
  }

  /** The keys in a request: lines, or for Vertex AI the entries of an array (`None` if it cannot
      be read) or the whole text. */
  function OfferedKeys(readVertex: ArrayReader, input: string, vertex: bool): Option<seq<string>> {
    if !vertex then Some(NameLists.TrimmedNames(Split(input, '\n')))
    else if StartsWith(TrimSpace(input), "[") then readVertex(input)
    else Some([input])
  }

  /** `UpdateChannel` in append mode; keys that cannot be read are refused. */
  function AfterAppend(read: ArrayReader, row: Row, input: string, offered: Option<seq<string>>): Row {
    if row.key == "" then AfterReplace(read, row, input)
    else if offered.None? then row
    else
      var existing := ExistingKeys(read, row.key);
      Save(read, row, row.(key := Join(existing + NewKeys(existing, offered.value), '\n')))
  }

  /** `UpdateChannel` in replace mode: the new text with the old per-index data. */
  function AfterReplace(read: ArrayReader, row: Row, input: string): Row {
    Save(read, row, row.(key := input))
  }

  function FirstIndex(keys: seq<string>, key: string): int {
    if keys == [] then -1
    else if keys[0] == key then 0
    else
      var i := FirstIndex(keys[1..], key);
      if i < 0 then -1 else i + 1
  }

  /** `handlerMultiKeyUpdate`: the status of one key, reported by its text. */
  function AfterReport(read: ArrayReader, row: Row, key: string, status: int, reason: string, now: int): Row {
    var i := FirstIndex(GetKeys(read, row.key), key);
    if i < 0 then row
    else if status == ENABLED then row.(status := row.status - {i})
    else row.(status := row.status[i := status], reasons := row.reasons[i := reason], times := row.times[i := now])
  }

  /** `hasEnabledMultiKey`. */
  predicate AnyEnabled(row: Row, n: nat) {
    exists i :: 0 <= i < n && StatusOf(row, i) == ENABLED
  }

  /** The channel's own status after `handlerMultiKeyUpdate`. */
  function ChannelAfterReport(read: ArrayReader, row: Row, channelStatus: int, key: string, status: int, reason: string, now: int): int {
    var keys := GetKeys(read, row.key);
    if keys == [] then status
    else if FirstIndex(keys, key) < 0 then (if key != "" then channelStatus else status)
    else if !AnyEnabled(AfterReport(read, row, key, status, reason, now), |keys|) then AUTO_DISABLED
    else if status == ENABLED then ENABLED
    else channelStatus
  }

  /** `hasEnabledMultiKey`. */
  method HasEnabledKey(keys: seq<string>, row: Row) returns (found: bool)
    ensures found == AnyEnabled(row, |keys|)
  {
    for i := 0 to |keys|
      invariant !AnyEnabled(row, i)
    {
      if i !in row.status || row.status[i] == ENABLED {
        assert StatusOf(row, i) == ENABLED;
        return true;
      }
    }
    return false;
  }

  /** The dedupe loop of the append mode. */
  method DropSeen(existing: seq<string>, newKeys: seq<string>) returns (deduped: seq<string>)
    ensures deduped == Unseen(TrimmedSet(existing), newKeys)
  {
    var seen := {};
    for i := 0 to |existing|
      invariant seen == TrimmedSet(existing[..i])
    {
      assert existing[..i + 1][..i] == existing[..i];
      var k := TrimSpace(existing[i]);
      if k != "" {
        seen := seen + {k};
      }
    }
    assert existing[..|existing|] == existing;
    deduped := [];
    ghost var all := Unseen(seen, newKeys);
    for i := 0 to |newKeys|
      invariant all == deduped + Unseen(seen, newKeys[i..])
    {
      var k := TrimSpace(newKeys[i]);
      assert newKeys[i..][0] == newKeys[i] && newKeys[i..][1..] == newKeys[i + 1..];
      if k != "" && k !in seen {
        seen := seen + {k};
        deduped := deduped + [k];
      }
    }
  }

  /** The table with one more kept key, as `delete_key` carries it over. */
  function Carry(t: Table, row: Row, key: string, at: int): Table {
    var n := |t.keys|;
    Table(
      t.keys + [key],
      if StatusOf(row, at) != ENABLED then t.status[n := StatusOf(row, at)] else t.status,
      Put(t.times, n, row.times, at),
      Put(t.reasons, n, row.reasons, at))
  }

  /** ... and as `delete_disabled_keys` does: nothing but the key if it is enabled. */
  function CarryAlive(t: Table, row: Row, key: string, at: int): Table {
    if StatusOf(row, at) != ENABLED then Carry(t, row, key, at) else t.(keys := t.keys + [key])
  }

  lemma CarryIsBehind(t: Table, row: Row, keys: seq<string>, at: nat)
    requires at < |keys|
    ensures Carry(t, row, keys[at], at) == Behind(t, Carried(row, keys), at)
  {
  }

  lemma CarryAliveIsBehind(t: Table, row: Row, keys: seq<string>, at: nat)
    requires at < |keys|
    ensures CarryAlive(t, row, keys[at], at) == Behind(t, CarriedDisabled(row, keys), at)
  {
  }

  /** The loop of `delete_key`. */
  method KeepOthers(row: Row, keys: seq<string>, i: int) returns (t: Table)
    ensures t == Without(row, keys, i)
  {
    var remaining: seq<string> := [];
    var status: map<int, int>, times: map<int, int>, reasons: map<int, string> := map[], map[], map[];
    var newIndex := 0;
    for at := 0 to |keys|
      invariant newIndex == |remaining|
      invariant Table(remaining, status, times, reasons) == Collect(Carried(row, keys), DropAt(i), at)
    {
      CarryIsBehind(Table(remaining, status, times, reasons), row, keys, at);
      if at != i {
        remaining := remaining + [keys[at]];
        var s := if at in row.status then row.status[at] else ENABLED;
        if s != ENABLED {
          status := status[newIndex := s];
        }
        times := Put(times, newIndex, row.times, at);
        reasons := Put(reasons, newIndex, row.reasons, at);
        newIndex := newIndex + 1;
      }
    }
    t := Table(remaining, status, times, reasons);
  }

  /** The loop of `delete_disabled_keys`. */
  method KeepAliveKeys(row: Row, keys: seq<string>) returns (t: Table, deleted: nat)
    ensures t == Alive(row, keys)
    ensures deleted == |keys| - |t.keys|
  {
    var remaining: seq<string> := [];
    var status: map<int, int>, times: map<int, int>, reasons: map<int, string> := map[], map[], map[];
    var newIndex := 0;
    deleted := 0;
    for at := 0 to |keys|
      invariant newIndex == |remaining| && newIndex + deleted == at
      invariant Table(remaining, status, times, reasons) == Collect(CarriedDisabled(row, keys), DropDead(row), at)
    {
      CarryAliveIsBehind(Table(remaining, status, times, reasons), row, keys, at);
      var s := if at in row.status then row.status[at] else ENABLED;
      if s == AUTO_DISABLED {
        deleted := deleted + 1;
      } else {
        remaining := remaining + [keys[at]];
        if s != ENABLED {
          status := status[newIndex := s];
          times := Put(times, newIndex, row.times, at);
          reasons := Put(reasons, newIndex, row.reasons, at);
        }
        newIndex := newIndex + 1;
      }
    }
    t := Table(remaining, status, times, reasons);
  }

  class Channel {
    var key: string
    var size: int
    var status: map<int, int>
    var times: map<int, int>
    var reasons: map<int, string>
    var channelStatus: int
    const read: ArrayReader
    const readVertex: ArrayReader

    constructor (row: Row, channelStatus: int, read: ArrayReader, readVertex: ArrayReader)
      ensures Stored() == row && this.channelStatus == channelStatus
      ensures this.read == read && this.readVertex == readVertex
    {
      key, size, status, times, reasons := row.key, row.size, row.status, row.times, row.reasons;
      this.channelStatus, this.read, this.readVertex := channelStatus, read, readVertex;
    }

    function Stored(): Row
      reads this
    {
      Row(key, size, status, times, reasons)
    }

    /** `Channel.Update` on fields a handler has just changed, `stored` being the row so far. */
    method Update(stored: Row)
      modifies this`key, this`size, this`status
      ensures Stored() == Save(read, stored, old(Stored()))
    {
      var text := if key != "" then key else stored.key;
      size := CountKeys(read, text);
      status := map i | i in status && i < size :: status[i];
      key := text;
    }

    method DisableKey(i: int) returns (ok: bool)
      modifies this`key, this`size, this`status, this`times, this`reasons
      ensures Stored() == AfterDisable(read, old(Stored()), i)
      ensures ok <==> 0 <= i < old(size)
    {
      if i < 0 || i >= size { return false; }
      var row := Stored();
      status := status[i := MANUALLY_DISABLED];
      Update(row);
      return true;
    }

    method EnableKey(i: int) returns (ok: bool)
      modifies this`key, this`size, this`status, this`times, this`reasons
      ensures Stored() == AfterEnable(read, old(Stored()), i)
      ensures ok <==> 0 <= i < old(size)
    {
      if i < 0 || i >= size { return false; }
      var row := Stored();
      status, times, reasons := status - {i}, times - {i}, reasons - {i};
      Update(row);
      return true;
    }

    method EnableAll() returns (enabled: nat)
      modifies this`key, this`size, this`status, this`times, this`reasons
      ensures Stored() == AfterEnableAll(read, old(Stored()))
      ensures enabled == |old(status)|
    {
      var row := Stored();
      enabled := |status|;
      status, times, reasons := map[], map[], map[];
      Update(row);
    }

    method DisableAll() returns (disabled: nat)
      modifies this`key, this`size, this`status, this`times, this`reasons
      ensures Stored() == AfterDisableAll(read, old(Stored()))
      ensures disabled == CountEnabled(old(Stored()), old(size))
    {
      var row, next := Stored(), status;
      disabled := 0;
      var i := 0;
      while i < size
        invariant i == 0 || 0 <= i <= size
        invariant Stored() == row
        invariant next == DisabledUpTo(row, i)
        invariant disabled == CountEnabled(row, i)
      {
        DisabledUpToMeaning(row, i, i);
        var s := if i in next then next[i] else ENABLED;
        if s == ENABLED {
          next := next[i := MANUALLY_DISABLED];
          disabled := disabled + 1;
        }
        i := i + 1;
      }
      assert size <= 0 || i == size;
      assert CountEnabled(row, size) == disabled && DisabledUpTo(row, size) == next;
      if disabled == 0 { return; }
      status := next;
      Update(row);
    }

    method DeleteKey(i: int) returns (ok: bool)
      modifies this`key, this`size, this`status, this`times, this`reasons
      ensures Stored() == AfterDelete(read, old(Stored()), i)
      ensures ok <==> 0 <= i < old(size) && Without(old(Stored()), GetKeys(read, old(key)), i).keys != []
    {
      if i < 0 || i >= size { return false; }
      var row := Stored();
      var t := KeepOthers(row, GetKeys(read, key), i);
      if |t.keys| == 0 { return false; }
      key, size := Join(t.keys, '\n'), |t.keys|;
      status, times, reasons := t.status, t.times, t.reasons;
      Update(row);
      return true;
    }

    method AppendKeys(input: string, vertex: bool) returns (ok: bool)
      modifies this`key, this`size, this`status
      ensures Stored() == AfterAppend(read, old(Stored()), input, OfferedKeys(readVertex, input, vertex))
      ensures ok <==> old(key) == "" || OfferedKeys(readVertex, input, vertex).Some?
    {
      var row := Stored();
      if key == "" {
        key := input;
      } else {
        var existing := ExistingKeys(read, key);
        var offered := OfferedKeys(readVertex, input, vertex);
        if offered.None? { return false; }
        var deduped := DropSeen(existing, offered.value);
        key := Join(existing + deduped, '\n');
      }
      Update(row);
      return true;
    }

    method ReplaceKeys(input: string)
      modifies this`key, this`size, this`status
      ensures Stored() == AfterReplace(read, old(Stored()), input)
    {
      var row := Stored();
      key := input;
      Update(row);
    }

    method ReportKey(usingKey: string, newStatus: int, reason: string, now: int)
      modifies this
      ensures Stored() == AfterReport(read, old(Stored()), usingKey, newStatus, reason, now)
      ensures channelStatus == ChannelAfterReport(read, old(Stored()), old(channelStatus), usingKey, newStatus, reason, now)
    {
      var keys := GetKeys(read, key);
      if |keys| == 0 {
        channelStatus := newStatus;
        return;
      }
      var i := FirstIndex(keys, usingKey);
      if i < 0 {
        if usingKey == "" { channelStatus := newStatus; }
        return;
      }
      if newStatus == ENABLED {
        status := status - {i};
      } else {
        status := status[i := newStatus];
        reasons := reasons[i := reason];
        times := times[i := now];
      }
      var enabled := HasEnabledKey(keys, Stored());
      if !enabled {
        channelStatus := AUTO_DISABLED;
      } else if newStatus == ENABLED {
        channelStatus := ENABLED;
      }
    }

    method DeleteDisabled() returns (deleted: nat)
      modifies this`key, this`size, this`status, this`times, this`reasons
      ensures Stored() == AfterDeleteDisabled(read, old(Stored()))
      ensures deleted == |GetKeys(read, old(key))| - |Alive(old(Stored()), GetKeys(read, old(key))).keys|
    {
      var row := Stored();
      var t;
      t, deleted := KeepAliveKeys(row, GetKeys(read, key));
      if deleted == 0 { return; }
      key, size := Join(t.keys, '\n'), |t.keys|;
      status, times, reasons := t.status, t.times, t.reasons;
      Update(row);
    }
  }
}
