/** Laws of multi-key management: when deletion keeps every surviving key with its own
    status, and what every run of operations keeps. */
module MultiKeyLaws {
  import opened Text
  import opened Options
  import opened MultiKey
  import NameLists

  /** Array text is longer than its elements on separate lines: it has the two brackets besides. */
  ghost predicate ReadsArrays(read: ArrayReader) {
    forall s :: read(s).Some? ==> |Join(read(s).value, '\n')| + 2 <= |s|
  }

  /** The size is the number of keys. */
  ghost predicate Counted(read: ArrayReader, row: Row) {
    row.size == |GetKeys(read, row.key)|
  }

  /** Size and all per-index data agree with the key list. */
  ghost predicate Consistent(read: ArrayReader, row: Row) {
    && Counted(read, row)
    && Within(row.status, row.size) && DataWithin(row, row.size)
  }

  /** No time or reason lies beyond the first n keys. */
  ghost predicate DataWithin(row: Row, n: int) {
    Within(row.times, n) && Within(row.reasons, n)
  }

  predicate Within<T>(m: map<int, T>, n: int) {
    forall i :: i in m ==> 0 <= i < n
  }

  /** Key lists that can be stored as lines and read back. */
  ghost predicate Writable(read: ArrayReader, keys: seq<string>) {
    && Join(keys, '\n') != ""
    && Storable(keys, '\n')
    && ReadArray(read, Join(keys, '\n')).None?
  }

  // ----- reading and saving

  /** The keys are those of the array if the text is one, otherwise its lines without the outer
      newlines; the empty text has none. */
  lemma GetKeysMeaning(read: ArrayReader, key: string)
    ensures key == "" ==> GetKeys(read, key) == []
    ensures var t, keys := TrimSpace(key), GetKeys(read, key);
            key != "" ==>
              if t != "" && t[0] == '[' && read(t).Some? then keys == read(t).value
              else |keys| >= 1 && FreeOf(keys, '\n') && Join(keys, '\n') == TrimChar(key, '\n')
  {
    SplitPieces(TrimChar(key, '\n'), '\n');
  }

  /** A save keeps the stored text if the new one is empty, recounts the keys (an empty array counts
      by its lines), cuts the statuses to them and takes times and reasons as they are. */
  lemma SaveMeaning(read: ArrayReader, stored: Row, next: Row, i: int)
    ensures var row := Save(read, stored, next);
            && row.key == (if next.key == "" then stored.key else next.key)
            && row.size == (if row.key == "" then 0
                            else if ReadArray(read, row.key) == Some([]) then |Split(TrimChar(row.key, '\n'), '\n')|
                            else |GetKeys(read, row.key)|)
            && (i in row.status <==> i in next.status && i < row.size) && (i in row.status ==> row.status[i] == next.status[i])
            && row.times == next.times && row.reasons == next.reasons
  {
  }

  // ----- storing key lists

  lemma TrimShortens(s: string)
    ensures |TrimSpace(s)| <= |s|
  {
    TrimLeftStops(s, IsSpace);
    TrimRightStops(TrimLeft(s, IsSpace), IsSpace);
  }

  /** A key list is read back as written exactly when it is writable. */
  lemma WrittenKeysIff(read: ArrayReader, keys: seq<string>)
    requires ReadsArrays(read) && keys != [] && Join(keys, '\n') != ""
    ensures GetKeys(read, Join(keys, '\n')) == keys <==> Writable(read, keys)
    ensures Writable(read, keys) ==> CountKeys(read, Join(keys, '\n')) == |keys|
  {
    var text := Join(keys, '\n');
    TrimShortens(text);
    StoredRoundTrip(keys, '\n');
  }

  /** An ordinary key: one non-blank line that does not look like an array. */
  predicate Clean(key: string) {
    '\n' !in key && TrimSpace(key) != "" && TrimSpace(key)[0] != '['
  }

  predicate AllClean(keys: seq<string>) {
    forall i :: 0 <= i < |keys| ==> Clean(keys[i])
  }

  lemma {:induction false} TrimLeftAppend(a: string, b: string)
    requires TrimLeft(a, IsSpace) != []
    ensures TrimLeft(a + b, IsSpace) == TrimLeft(a, IsSpace) + b
  {
    if IsSpace(a[0]) {
      TrimLeftAppend(a[1..], b);
      assert (a + b)[1..] == a[1..] + b;
    }
  }

  /** Trimming shows the first non-space character. */
  lemma TrimHead(s: string)
    ensures TrimSpace(s) != "" <==> TrimLeft(s, IsSpace) != ""
    ensures TrimSpace(s) != "" ==> TrimSpace(s)[0] == TrimLeft(s, IsSpace)[0]
  {
    var t := TrimLeft(s, IsSpace);
    TrimLeftStops(s, IsSpace);
    TrimRightStops(t, IsSpace);
    if t != "" { TrimRightKeepsHead(t); }
  }

  lemma {:induction false} TrimRightKeepsHead(t: string)
    requires t != "" && !IsSpace(t[0])
    ensures TrimRight(t, IsSpace) != ""
  {
    if IsSpace(t[|t| - 1]) { TrimRightKeepsHead(t[..|t| - 1]); }
  }

  lemma TrimHeadAppend(a: string, b: string)
    requires TrimSpace(a) != ""
    ensures a != "" && TrimSpace(a + b) != "" && TrimSpace(a + b)[0] == TrimSpace(a)[0]
  {
    TrimShortens(a);
    TrimHead(a);
    TrimLeftAppend(a, b);
    TrimHead(a + b);
  }

  lemma StartsClean(first: string, rest: string)
    requires Clean(first)
    ensures first + rest != "" && !StartsWith(TrimSpace(first + rest), "[")
  {
    TrimHeadAppend(first, rest);
    assert TrimSpace(first + rest)[0] != '[';
  }

  lemma JoinFirst(keys: seq<string>) returns (rest: string)
    requires keys != []
    ensures Join(keys, '\n') == keys[0] + rest
  {
    rest := if |keys| == 1 then "" else ['\n'] + Join(keys[1..], '\n');
  }

  /** The text of ordinary keys does not look like an array. */
  lemma CleanNotArray(keys: seq<string>)
    requires keys != [] && AllClean(keys)
    ensures keys[0] != "" && keys[|keys| - 1] != "" && Join(keys, '\n') != ""
    ensures !StartsWith(TrimSpace(Join(keys, '\n')), "[")
  {
    assert Clean(keys[0]) && Clean(keys[|keys| - 1]);
    TrimShortens(keys[0]);
    TrimShortens(keys[|keys| - 1]);
    var rest := JoinFirst(keys);
    StartsClean(keys[0], rest);
  }

  /** Ordinary keys can always be stored. */
  lemma CleanWritable(read: ArrayReader, keys: seq<string>)
    requires keys != [] && AllClean(keys)
    ensures Writable(read, keys)
    ensures GetKeys(read, Join(keys, '\n')) == keys && CountKeys(read, Join(keys, '\n')) == |keys|
  {
    CleanNotArray(keys);
    assert FreeOf(keys, '\n');
    StoredRoundTrip(keys, '\n');
  }

  // ----- switching keys

  /** Index j of both rows holds the same data, or in the first none beyond its size. */
  ghost predicate SameAt(a: Row, b: Row, j: int) {
    && (j in a.status <==> j in b.status && j < a.size) && (j in a.status ==> a.status[j] == b.status[j])
    && (j in a.times <==> j in b.times) && (j in a.times ==> a.times[j] == b.times[j])
    && (j in a.reasons <==> j in b.reasons) && (j in a.reasons ==> a.reasons[j] == b.reasons[j])
  }

  /** Disabling a key sets its status to 2 and leaves its time and reason and all other keys alone;
      outside the range nothing happens. */
  lemma DisableMeaning(read: ArrayReader, row: Row, i: int, j: int)
    requires row.size == CountKeys(read, row.key)
    ensures var after := AfterDisable(read, row, i);
            && (i < 0 || i >= row.size ==> after == row)
            && (0 <= i < row.size ==>
                  && after.key == row.key && after.size == row.size && StatusOf(after, i) == 2
                  && after.times == row.times && after.reasons == row.reasons
                  && (j != i ==> SameAt(after, row, j)))
  {
  }

  /** Enabling a key forgets its status, time and reason and leaves all other keys alone. */
  lemma EnableMeaning(read: ArrayReader, row: Row, i: int, j: int)
    requires row.size == CountKeys(read, row.key)
    ensures var after := AfterEnable(read, row, i);
            && (i < 0 || i >= row.size ==> after == row)
            && (0 <= i < row.size ==>
                  && after.key == row.key && after.size == row.size
                  && StatusOf(after, i) == 1 && i !in after.times && i !in after.reasons
                  && (j != i ==> SameAt(after, row, j)))
  {
  }

  /** Enabling all keys forgets everything about them. */
  lemma EnableAllMeaning(read: ArrayReader, row: Row, i: int)
    ensures var after := AfterEnableAll(read, row);
            after.key == row.key && StatusOf(after, i) == 1 && i !in after.times && i !in after.reasons
  {
  }

  /** How many keys are enabled. */
  lemma {:induction false} CountEnabledMeaning(row: Row, n: nat)
    ensures CountEnabled(row, n) == |set i | 0 <= i < n && StatusOf(row, i) == 1|
  {
    var all := set i | 0 <= i < n && StatusOf(row, i) == 1;
    if n > 0 {
      CountEnabledMeaning(row, n - 1);
      var init := set i | 0 <= i < n - 1 && StatusOf(row, i) == 1;
      assert all == if StatusOf(row, n - 1) == 1 then init + {n - 1} else init;
    } else {
      assert all == {};
    }
  }

  /** Disabling all keys leaves none enabled, the disabled ones as they were, and all times and reasons. */
  lemma DisableAllMeaning(read: ArrayReader, row: Row, i: int)
    requires row.size == CountKeys(read, row.key) && 0 <= i < row.size
    ensures var after := AfterDisableAll(read, row);
            && after.key == row.key && after.size == row.size && after.times == row.times && after.reasons == row.reasons
            && StatusOf(after, i) == (if StatusOf(row, i) == 1 then 2 else StatusOf(row, i))
  {
    DisabledUpToMeaning(row, row.size, i);
    NoneEnabled(row, row.size, i);
  }

  lemma {:induction false} NoneEnabled(row: Row, n: int, i: int)
    ensures CountEnabled(row, n) == 0 && 0 <= i < n ==> StatusOf(row, i) != 1
  {
    if n > 0 { NoneEnabled(row, n - 1, i); }
  }

  /** A report for a key the channel has changes the data at its first place and nowhere else:
      enabled forgets the status, anything else is recorded with reason and time. */
  lemma ReportMeaning(read: ArrayReader, row: Row, key: string, status: int, reason: string, now: int, j: int)
    ensures var keys, after := GetKeys(read, row.key), AfterReport(read, row, key, status, reason, now);
            && after.key == row.key && after.size == row.size
            && (key !in keys ==> after == row)
            && (key in keys && 0 <= j < |keys| && keys[j] == key && key !in keys[..j] ==>
                  && (status == 1 ==> j !in after.status && after.times == row.times && after.reasons == row.reasons)
                  && (status != 1 ==>
                        && j in after.status && after.status[j] == status
                        && j in after.reasons && after.reasons[j] == reason
                        && j in after.times && after.times[j] == now))
            && (key in keys && (j < 0 || j >= |keys| || keys[j] != key || key in keys[..j]) ==>
                  && (j in after.status <==> j in row.status) && (j in after.status ==> after.status[j] == row.status[j])
                  && (j in after.times <==> j in row.times) && (j in after.times ==> after.times[j] == row.times[j])
                  && (j in after.reasons <==> j in row.reasons) && (j in after.reasons ==> after.reasons[j] == row.reasons[j]))
  {
    var keys := GetKeys(read, row.key);
    FirstIndexRange(keys, key);
    if key in keys && 0 <= j < |keys| && keys[j] == key {
      var i := FirstIndex(keys, key);
      assert i < j ==> keys[..j][i] == key;
    }
  }

  /** The channel's status after a report for one of its keys: auto-disabled without an enabled key,
      enabled if that was reported, otherwise as before. Without keys, or without a key in the
      report, it is the reported one; for an unknown key it stays. */
  lemma ChannelMeaning(read: ArrayReader, row: Row, cs: int, key: string, status: int, reason: string, now: int)
    ensures key !in GetKeys(read, row.key) ==>
              ChannelAfterReport(read, row, cs, key, status, reason, now) ==
                if key != "" && GetKeys(read, row.key) != [] then cs else status
    ensures key in GetKeys(read, row.key) ==>
            var n, after := |GetKeys(read, row.key)|, AfterReport(read, row, key, status, reason, now);
            ChannelAfterReport(read, row, cs, key, status, reason, now) ==
              if forall i :: 0 <= i < n ==> StatusOf(after, i) != 1 then 3
              else if status == 1 then 1
              else cs
  {
    FirstIndexRange(GetKeys(read, row.key), key);
  }

  // ----- deleting one key

  /** The old position of the key that ends up at j when position i is deleted. */
  function OldIndex(i: int, j: int): int {
    if j < i then j else j + 1
  }

  lemma {:induction false} KeptWithoutMeaning(n: nat, i: nat)
    ensures |KeptWithout(n, i)| == if i < n then n - 1 else n
    ensures forall j :: 0 <= j < |KeptWithout(n, i)| ==> KeptWithout(n, i)[j] == OldIndex(i, j)
  {
    if n > 0 {
      KeptStep(n - 1, DropAt(i));
      KeptWithoutMeaning(n - 1, i);
    }
  }

  /** Per-key data at j equals what position o had. */
  ghost predicate SameData(a: Row, j: int, b: Row, o: int) {
    && StatusOf(a, j) == StatusOf(b, o)
    && (j in a.times <==> o in b.times) && (j in a.times && o in b.times ==> a.times[j] == b.times[o])
    && (j in a.reasons <==> o in b.reasons) && (j in a.reasons && o in b.reasons ==> a.reasons[j] == b.reasons[o])
  }

  lemma WithoutKeys(row: Row, keys: seq<string>, i: nat)
    requires i < |keys|
    ensures Without(row, keys, i).keys == keys[..i] + keys[i + 1..]
  {
    KeptWithoutMeaning(|keys|, i);
    CollectMeaning(Carried(row, keys), DropAt(i), |keys|);
  }

  /** The data of a table, seen as a row. */
  function DataOf(t: Table): Row {
    Row("", 0, t.status, t.times, t.reasons)
  }

  lemma WithoutData(row: Row, keys: seq<string>, i: nat)
    requires i < |keys|
    ensures var t := Without(row, keys, i);
            && |t.keys| == |keys| - 1
            && Within(t.status, |t.keys|) && Within(t.times, |t.keys|) && Within(t.reasons, |t.keys|)
            && (forall j :: 0 <= j < |t.keys| ==> SameData(DataOf(t), j, row, OldIndex(i, j)))
            && (forall j :: j in t.status ==> t.status[j] != 1)
  {
    var idx := KeptWithout(|keys|, i);
    KeptWithoutMeaning(|keys|, i);
    CollectMeaning(Carried(row, keys), DropAt(i), |keys|);
    var t := Without(row, keys, i);
    forall j | 0 <= j < |idx| ensures SameData(DataOf(t), j, row, OldIndex(i, j)) {
      assert idx[j] == OldIndex(i, j);
    }
  }

  /** The stored row after its keys are replaced by a writable list. */
  lemma ReplacedMeaning(read: ArrayReader, row: Row, t: Table)
    requires ReadsArrays(read) && t.keys != [] && Writable(read, t.keys)
    requires Within(t.status, |t.keys|) && Within(t.times, |t.keys|) && Within(t.reasons, |t.keys|)
    ensures Replaced(read, row, t) == Row(Join(t.keys, '\n'), |t.keys|, t.status, t.times, t.reasons)
    ensures GetKeys(read, Replaced(read, row, t).key) == t.keys
  {
    WrittenKeysIff(read, t.keys);
    var kept := map i | i in t.status && i < |t.keys| :: t.status[i];
    assert kept == t.status;
  }

  /** Deleting one of several keys leaves the list without it exactly when the rest is writable. */
  lemma DeleteKeyIff(read: ArrayReader, row: Row, i: nat)
    requires ReadsArrays(read) && Counted(read, row) && i < row.size && row.size > 1
    ensures var keys := GetKeys(read, row.key);
            var rest := keys[..i] + keys[i + 1..];
            GetKeys(read, AfterDelete(read, row, i).key) == rest <==> Writable(read, rest)
  {
    var keys := GetKeys(read, row.key);
    var t := Without(row, keys, i);
    WithoutKeys(row, keys, i);
    if Join(t.keys, '\n') != "" {
      WrittenKeysIff(read, t.keys);
    }
  }

  /** When it does, every other key keeps its status, time and reason, and nothing stale is left,
      even if the row held some before. */
  lemma DeleteKeyKeepsData(read: ArrayReader, row: Row, i: nat)
    requires ReadsArrays(read) && Counted(read, row) && i < row.size && row.size > 1
    requires var keys := GetKeys(read, row.key); Writable(read, keys[..i] + keys[i + 1..])
    ensures var row' := AfterDelete(read, row, i);
            && Consistent(read, row') && row'.size == row.size - 1
            && (forall j :: 0 <= j < row'.size ==> SameData(row', j, row, OldIndex(i, j)))
            && (forall j :: j in row'.status ==> row'.status[j] != 1)
  {
    var keys := GetKeys(read, row.key);
    WithoutKeys(row, keys, i);
    WithoutData(row, keys, i);
    ReplacedMeaning(read, row, Without(row, keys, i));
  }

  /** Reading back a key behind a blank line loses the blank line. */
  lemma BlankThenKey(read: ArrayReader, b: string)
    requires Clean(b)
    ensures Join(["", b], '\n') != "" && GetKeys(read, Join(["", b], '\n')) == [b]
    ensures CountKeys(read, Join(["", b], '\n')) == 1
  {
    var text := Join(["", b], '\n');
    assert ["", b][1..] == [b];
    assert text == ['\n'] + b && text[1..] == b;
    TrimShortens(b);
    TrimHead(b);
    TrimHead(text);
    assert TrimLeft(text, IsSpace) == TrimLeft(b, IsSpace);
    var cut := (c: char) => c == '\n';
    TrimByMeaning(b, cut);
    assert b[0] in b && b[|b| - 1] in b;
    assert TrimBy(text, cut) == TrimBy(b, cut) == b;
    SplitPieces(b, '\n');
  }

  /** Where deletion goes wrong: with a blank line between two keys, deleting the first key
      shifts the second onto an index that has no status, so an auto-disabled key is live again. */
  lemma BlankLineFreesKey(read: ArrayReader, a: string, b: string)
    requires Clean(a) && Clean(b)
    ensures var row := Row(Join([a, "", b], '\n'), 3, map[2 := AUTO_DISABLED], map[], map[]);
            var row' := AfterDelete(read, row, 0);
            && GetKeys(read, row.key) == [a, "", b] && StatusOf(row, 2) == AUTO_DISABLED
            && GetKeys(read, row'.key) == [b] && StatusOf(row', 0) == ENABLED
  {
    var keys := [a, "", b];
    var row := Row(Join(keys, '\n'), 3, map[2 := AUTO_DISABLED], map[], map[]);
    KeyBlankKey(read, a, b, keys);
    DeleteBeforeBlank(read, row, keys, b);
  }

  lemma KeyBlankKey(read: ArrayReader, a: string, b: string, keys: seq<string>)
    requires Clean(a) && Clean(b) && keys == [a, "", b]
    ensures GetKeys(read, Join(keys, '\n')) == keys
  {
    TrimShortens(b);
    var rest := ['\n'] + Join(keys[1..], '\n');
    TrimHeadAppend(a, rest);
    assert Join(keys, '\n') == a + rest;
    StoredRoundTrip(keys, '\n');
  }

  lemma DeleteBeforeBlank(read: ArrayReader, row: Row, keys: seq<string>, b: string)
    requires GetKeys(read, row.key) == keys && |keys| == 3 && keys[1..] == ["", b] && Clean(b)
    requires row.size == 3 && 1 !in row.status
    ensures var row' := AfterDelete(read, row, 0);
            GetKeys(read, row'.key) == [b] && StatusOf(row', 0) == ENABLED
  {
    WithoutKeys(row, keys, 0);
    WithoutData(row, keys, 0);
    BlankThenKey(read, b);
    var t := Without(row, keys, 0);
    assert t.keys == ["", b];
    assert SameData(DataOf(t), 0, row, OldIndex(0, 0));
  }

  /** Outside the range nothing is deleted; inside, the other keys are written as lines unless that
      text is blank. */
  lemma DeleteKeyText(read: ArrayReader, row: Row, i: int)
    requires Counted(read, row)
    ensures i < 0 || i >= row.size ==> AfterDelete(read, row, i) == row
    ensures var keys := GetKeys(read, row.key);
            0 <= i < row.size && row.size > 1 ==>
              var text := Join(keys[..i] + keys[i + 1..], '\n');
              AfterDelete(read, row, i).key == if text == "" then row.key else text
  {
    if 0 <= i < row.size { WithoutKeys(row, GetKeys(read, row.key), i); }
  }

  /** The last key cannot be deleted. */
  lemma LastKeyStays(read: ArrayReader, row: Row, i: nat)
    requires Counted(read, row) && row.size == 1
    ensures AfterDelete(read, row, i) == row
  {
    var keys := GetKeys(read, row.key);
    if i < row.size { WithoutKeys(row, keys, i); }
  }

  // ----- deleting the auto-disabled keys

  lemma {:induction false} KeptCount(n: nat, drop: int -> bool)
    ensures |Kept(n, drop)| <= n
    ensures Kept(n, drop) == [] <==> forall i :: 0 <= i < n ==> drop(i)
    ensures |Kept(n, drop)| == n <==> forall i :: 0 <= i < n ==> !drop(i)
    ensures |Kept(n, drop)| == n ==> forall j :: 0 <= j < n ==> Kept(n, drop)[j] == j
  {
    if n > 0 {
      KeptStep(n - 1, drop);
      KeptCount(n - 1, drop);
    }
  }

  /** The kept indices are exactly the ones that are not auto-disabled, in order. */
  lemma KeptAliveMeaning(row: Row, n: nat)
    ensures var idx := KeptAlive(row, n);
            && InRange(idx, n)
            && (forall j :: 0 <= j < |idx| ==> StatusOf(row, idx[j]) != AUTO_DISABLED)
            && (forall i :: 0 <= i < n && StatusOf(row, i) != AUTO_DISABLED ==> i in idx)
            && (forall j, k :: 0 <= j < k < |idx| ==> idx[j] < idx[k])
  {
    KeptInRange(n, DropDead(row), n);
    KeptAscending(n, DropDead(row));
    forall i ensures i in KeptAlive(row, n) <==> 0 <= i < n && StatusOf(row, i) != AUTO_DISABLED {
      KeptMembers(n, DropDead(row), i);
    }
    var idx := KeptAlive(row, n);
    forall j | 0 <= j < |idx| ensures StatusOf(row, idx[j]) != AUTO_DISABLED {
      assert idx[j] in idx;
    }
  }

  /** What the survivors carry over: the key, its status and, unless it is enabled, its time and reason. */
  lemma AliveMeaning(row: Row, keys: seq<string>)
    ensures InRange(KeptAlive(row, |keys|), |keys|)
    ensures var t, idx := Alive(row, keys), KeptAlive(row, |keys|);
            && |t.keys| == |idx|
            && Within(t.status, |idx|) && Within(t.times, |idx|) && Within(t.reasons, |idx|)
            && (forall j :: 0 <= j < |idx| ==> t.keys[j] == keys[idx[j]])
            && (forall j :: 0 <= j < |idx| ==> Carries(DataOf(t), j, row, idx[j]))
  {
    var idx := KeptAlive(row, |keys|);
    CollectMeaning(CarriedDisabled(row, keys), DropDead(row), |keys|);
  }

  /** What a bulk deletion carries over: the data of a disabled key, nothing of an enabled one. */
  ghost predicate Carries(a: Row, j: int, b: Row, o: int) {
    if StatusOf(b, o) != 1 then SameData(a, j, b, o)
    else j !in a.status && j !in a.times && j !in a.reasons
  }

  predicate AnyAlive(row: Row, n: nat) {
    exists i :: 0 <= i < n && StatusOf(row, i) != AUTO_DISABLED
  }

  predicate AnyDead(row: Row, n: nat) {
    exists i :: 0 <= i < n && StatusOf(row, i) == AUTO_DISABLED
  }

  lemma KeptAliveCounts(row: Row, n: nat)
    ensures |KeptAlive(row, n)| <= n
    ensures KeptAlive(row, n) == [] <==> !AnyAlive(row, n)
    ensures |KeptAlive(row, n)| == n <==> !AnyDead(row, n)
    ensures !AnyDead(row, n) ==> forall j :: 0 <= j < n ==> KeptAlive(row, n)[j] == j
  {
    KeptCount(n, DropDead(row));
    assert forall i :: 0 <= i < n ==> DropDead(row)(i) == (StatusOf(row, i) == AUTO_DISABLED);
    assert AnyAlive(row, n) <==> exists i :: 0 <= i < n && !DropDead(row)(i);
    assert AnyDead(row, n) <==> exists i :: 0 <= i < n && DropDead(row)(i);
  }

  lemma AliveCounts(row: Row, keys: seq<string>)
    ensures |Alive(row, keys).keys| <= |keys|
    ensures Alive(row, keys).keys == [] <==> !AnyAlive(row, |keys|)
    ensures |Alive(row, keys).keys| == |keys| <==> !AnyDead(row, |keys|)
    ensures !AnyDead(row, |keys|) ==> Alive(row, keys).keys == keys
    ensures AllClean(keys) ==> AllClean(Alive(row, keys).keys)
  {
    KeptAliveCounts(row, |keys|);
    AliveMeaning(row, keys);
  }

  /** Bulk deletion leaves exactly the keys that are not auto-disabled, if and only if there is
      nothing to delete or those keys are writable. */
  lemma DeleteDisabledIff(read: ArrayReader, row: Row)
    requires ReadsArrays(read) && Counted(read, row)
    ensures var alive := Alive(row, GetKeys(read, row.key)).keys;
            GetKeys(read, AfterDeleteDisabled(read, row).key) == alive <==> !AnyDead(row, row.size) || Writable(read, alive)
  {
    var keys := GetKeys(read, row.key);
    var alive := Alive(row, keys).keys;
    AliveCounts(row, keys);
    if AnyDead(row, row.size) && Join(alive, '\n') != "" {
      WrittenKeysIff(read, alive);
    }
  }

  /** Of ordinary keys it leaves exactly the ones that are not auto-disabled, unless there is none. */
  lemma DeleteOrdinaryDisabledIff(read: ArrayReader, row: Row)
    requires Counted(read, row) && AllClean(GetKeys(read, row.key)) && row.size > 0
    ensures var keys := GetKeys(read, row.key);
            GetKeys(read, AfterDeleteDisabled(read, row).key) == Alive(row, keys).keys <==> AnyAlive(row, |keys|)
  {
    var keys := GetKeys(read, row.key);
    AliveCounts(row, keys);
    if AnyAlive(row, |keys|) && AnyDead(row, |keys|) {
      CleanWritable(read, Alive(row, keys).keys);
    }
  }

  /** The survivors of a bulk deletion keep their place in line and their status, and nothing
      stale is left. */
  lemma DeleteDisabledKeepsStatus(read: ArrayReader, row: Row)
    requires ReadsArrays(read) && Counted(read, row) && AnyDead(row, row.size)
    requires Writable(read, Alive(row, GetKeys(read, row.key)).keys)
    ensures InRange(KeptAlive(row, row.size), row.size)
    ensures var row', idx := AfterDeleteDisabled(read, row), KeptAlive(row, row.size);
            && Consistent(read, row') && row'.size == |idx| < row.size
            && (forall j :: 0 <= j < row'.size ==> GetKeys(read, row'.key)[j] == GetKeys(read, row.key)[idx[j]])
            && (forall j :: 0 <= j < row'.size ==> Carries(row', j, row, idx[j]))
  {
    var keys := GetKeys(read, row.key);
    var t := Alive(row, keys);
    AliveCounts(row, keys);
    AliveMeaning(row, keys);
    ReplacedMeaning(read, row, t);
  }

  /** Without an auto-disabled key the bulk deletion does nothing; otherwise the others are written
      as lines unless that text is blank. */
  lemma DeleteDisabledText(read: ArrayReader, row: Row)
    requires Counted(read, row)
    ensures !AnyDead(row, row.size) ==> AfterDeleteDisabled(read, row) == row
    ensures AnyDead(row, row.size) ==>
              var text := Join(Alive(row, GetKeys(read, row.key)).keys, '\n');
              AfterDeleteDisabled(read, row).key == if text == "" then row.key else text
  {
    AliveCounts(row, GetKeys(read, row.key));
  }

  /** When every key is auto-disabled the bulk deletion deletes none and enables them all. */
  lemma AllDeadRevive(read: ArrayReader, row: Row)
    requires Counted(read, row) && row.size > 0 && !AnyAlive(row, row.size)
    ensures var row' := AfterDeleteDisabled(read, row);
            row'.key == row.key && forall i :: StatusOf(row', i) == ENABLED
  {
    var keys := GetKeys(read, row.key);
    AliveCounts(row, keys);
    AliveMeaning(row, keys);
  }

  // ----- appending keys

  /** The accepted new keys are trimmed, distinct, not seen before, and nothing offered is lost. */
  lemma {:induction false} UnseenMeaning(seen: set<string>, keys: seq<string>)
    ensures var r := Unseen(seen, keys);
            && (forall j :: 0 <= j < |r| ==> r[j] !in seen && r[j] != "" && exists i :: 0 <= i < |keys| && r[j] == TrimSpace(keys[i]))
            && (forall j, k :: 0 <= j < k < |r| ==> r[j] != r[k])
            && (forall i :: 0 <= i < |keys| ==> TrimSpace(keys[i]) == "" || TrimSpace(keys[i]) in seen || TrimSpace(keys[i]) in r)
    decreases |keys|
  {
    if keys != [] {
      var k, rest := TrimSpace(keys[0]), keys[1..];
      var seen' := if k == "" || k in seen then seen else seen + {k};
      UnseenMeaning(seen', rest);
      var r, q := Unseen(seen, keys), Unseen(seen', rest);
      assert forall i :: 0 < i < |keys| ==> keys[i] == rest[i - 1];
      forall j | 0 <= j < |q| ensures exists i :: 0 <= i < |keys| && q[j] == TrimSpace(keys[i]) {
        var i :| 0 <= i < |rest| && q[j] == TrimSpace(rest[i]);
        assert q[j] == TrimSpace(keys[i + 1]);
      }
      if k == "" || k in seen {
        assert r == q;
      } else {
        assert r == [k] + q;
        assert r[0] == TrimSpace(keys[0]);
      }
    }
  }

  /** Every offered key that is not blank is an ordinary one. */
  predicate CleanOffer(offered: seq<string>) {
    forall i :: 0 <= i < |offered| ==> TrimSpace(offered[i]) == "" || Clean(TrimSpace(offered[i]))
  }

  /** Lines are ordinary keys unless one looks like an array. */
  lemma LinesClean(input: string)
    ensures var lines := NameLists.TrimmedNames(Split(input, '\n'));
            CleanOffer(lines) <==> forall i :: 0 <= i < |lines| ==> lines[i] != "" && lines[i][0] != '['
  {
    var pieces := Split(input, '\n');
    var lines := NameLists.TrimmedNames(pieces);
    NameLists.TrimmedNamesTrimmed(pieces);
    SplitPieces(input, '\n');
    forall i | 0 <= i < |lines| ensures lines[i] != "" && TrimSpace(lines[i]) == lines[i] && '\n' !in lines[i] {
      TrimByMeaning(lines[i], IsSpace);
      assert lines[i] in lines;
      NameLists.TrimmedNamesMembers(pieces, lines[i]);
      var p :| 0 <= p < |pieces| && TrimSpace(pieces[p]) == lines[i];
      TrimKeepsChars(pieces[p], IsSpace);
    }
  }

  lemma NewKeysClean(existing: seq<string>, offered: seq<string>)
    requires CleanOffer(offered)
    ensures AllClean(NewKeys(existing, offered))
  {
    var r := NewKeys(existing, offered);
    UnseenMeaning(TrimmedSet(existing), offered);
    forall j | 0 <= j < |r| ensures Clean(r[j]) {
      var i :| 0 <= i < |offered| && r[j] == TrimSpace(offered[i]);
    }
  }

  /** The keys taken as seen are the trimmed non-blank ones. */
  lemma {:induction false} TrimmedSetMeaning(keys: seq<string>, k: string)
    ensures k in TrimmedSet(keys) <==> k != "" && exists i :: 0 <= i < |keys| && TrimSpace(keys[i]) == k
  {
    if keys != [] {
      var n := |keys| - 1;
      var init := keys[..n];
      TrimmedSetMeaning(init, k);
      assert forall i :: 0 <= i < n ==> init[i] == keys[i];
      if k in TrimmedSet(init) {
        var i :| 0 <= i < |init| && TrimSpace(init[i]) == k;
        assert TrimSpace(keys[i]) == k;
      }
    }
  }

  /** The new keys are the normalised offered ones without those already there: none is appended
      twice, none is lost, and the order is that of the offer. */
  lemma NewKeysMeaning(existing: seq<string>, offered: seq<string>)
    ensures NewKeys(existing, offered) ==
              NameLists.Filter(NameLists.Normalize(offered), NameLists.NotIn(NameLists.TrimmedNames(existing)))
    ensures forall i, j :: 0 <= i < |existing| && 0 <= j < |NewKeys(existing, offered)| ==>
              NewKeys(existing, offered)[j] != TrimSpace(existing[i])
    ensures forall j :: 0 <= j < |offered| ==>
              || TrimSpace(offered[j]) == "" || TrimSpace(offered[j]) in NewKeys(existing, offered)
              || exists i :: 0 <= i < |existing| && TrimSpace(existing[i]) == TrimSpace(offered[j])
  {
    var seen, r := TrimmedSet(existing), NewKeys(existing, offered);
    UnseenMeaning(seen, offered);
    UnseenIsFilter(seen, offered);
    forall x ensures x in seen <==> x in NameLists.TrimmedNames(existing) {
      TrimmedSetMeaning(existing, x);
      NameLists.TrimmedNamesMembers(existing, x);
    }
    SameFilter(NameLists.Normalize(offered), NotSeen(seen), NameLists.NotIn(NameLists.TrimmedNames(existing)));
    forall i, j | 0 <= i < |existing| && 0 <= j < |r| ensures r[j] != TrimSpace(existing[i]) {
      TrimmedSetMeaning(existing, r[j]);
    }
    forall j | 0 <= j < |offered|
      ensures || TrimSpace(offered[j]) == "" || TrimSpace(offered[j]) in r
              || exists i :: 0 <= i < |existing| && TrimSpace(existing[i]) == TrimSpace(offered[j])
    {
      TrimmedSetMeaning(existing, TrimSpace(offered[j]));
    }
  }

  function NotSeen(seen: set<string>): string -> bool {
    x => x !in seen
  }

  lemma {:induction false} SameFilter(xs: seq<string>, p: string -> bool, q: string -> bool)
    requires forall x :: p(x) == q(x)
    ensures NameLists.Filter(xs, p) == NameLists.Filter(xs, q)
  {
    if xs != [] { SameFilter(xs[1..], p, q); }
  }

  lemma {:induction false} UnseenSnoc(seen: set<string>, keys: seq<string>, k: string)
    ensures var r, t := Unseen(seen, keys), TrimSpace(k);
            Unseen(seen, keys + [k]) == if t == "" || t in seen || t in r then r else r + [t]
    decreases |keys|
  {
    if keys == [] {
      assert [] + [k] == [k] && [k][1..] == [];
    } else {
      var h, rest := TrimSpace(keys[0]), keys[1..];
      assert (keys + [k])[0] == keys[0] && (keys + [k])[1..] == rest + [k];
      var seen' := if h == "" || h in seen then seen else seen + {h};
      UnseenSnoc(seen', rest, k);
    }
  }

  lemma {:induction false} UnseenIsFilter(seen: set<string>, keys: seq<string>)
    ensures Unseen(seen, keys) == NameLists.Filter(NameLists.Normalize(keys), NotSeen(seen))
  {
    if keys != [] {
      var init, last := keys[..|keys| - 1], keys[|keys| - 1];
      var n, t := NameLists.Normalize(init), TrimSpace(last);
      assert keys == init + [last];
      UnseenIsFilter(seen, init);
      UnseenSnoc(seen, init, last);
      NameLists.NormalizeSnoc(init, last);
      NameLists.FilterSnoc(n, t, NotSeen(seen));
      NameLists.FilterKeeps(n, NotSeen(seen));
    }
  }

  /** What a request offers: the trimmed non-blank lines in order, or for Vertex AI what the array
      holds, or the whole text. */
  lemma OfferedMeaning(readVertex: ArrayReader, input: string, vertex: bool)
    ensures !vertex ==> OfferedKeys(readVertex, input, vertex) == Some(NameLists.TrimmedNames(Split(input, '\n')))
    ensures vertex && TrimSpace(input) != "" && TrimSpace(input)[0] == '[' ==>
              OfferedKeys(readVertex, input, vertex) == readVertex(input)
    ensures vertex && (TrimSpace(input) == "" || TrimSpace(input)[0] != '[') ==>
              OfferedKeys(readVertex, input, vertex) == Some([input])
  {
  }

  /** The stored text can be read as an array if it looks like one. */
  predicate Readable(read: ArrayReader, key: string) {
    StartsWith(TrimSpace(key), "[") ==> ReadArray(read, key).Some?
  }

  /** Appending starts from the keys of the channel exactly when its text is readable. */
  lemma ExistingKeysIff(read: ArrayReader, key: string)
    requires key != ""
    ensures ExistingKeys(read, key) == GetKeys(read, key) <==> Readable(read, key)
  {
  }

  lemma BlankJoin(a: seq<string>, b: seq<string>)
    requires Join(a + b, '\n') == "" && forall j :: 0 <= j < |b| ==> b[j] != ""
    ensures b == []
  {
    if |a + b| >= 2 {
      JoinEnds(a + b, '\n');
    }
  }

  lemma NewKeysNonBlank(existing: seq<string>, offered: seq<string>)
    ensures var r := NewKeys(existing, offered); forall j :: 0 <= j < |r| ==> r[j] != ""
  {
    forall j | 0 <= j < |NewKeys(existing, offered)| ensures NewKeys(existing, offered)[j] != "" {
      UnseenNonBlank(TrimmedSet(existing), offered, j);
    }
  }

  lemma {:induction false} UnseenNonBlank(seen: set<string>, keys: seq<string>, j: nat)
    requires j < |Unseen(seen, keys)|
    ensures Unseen(seen, keys)[j] != ""
    decreases |keys|
  {
    var k, rest := TrimSpace(keys[0]), keys[1..];
    if k == "" || k in seen {
      UnseenNonBlank(seen, rest, j);
    } else if j > 0 {
      UnseenNonBlank(seen + {k}, rest, j - 1);
    }
  }

  /** Appending to readable text leaves the old keys followed by the unseen new ones if and only if
      that list is writable, or is blank and so nothing is written. */
  lemma AppendIff(read: ArrayReader, row: Row, input: string, offered: seq<string>)
    requires ReadsArrays(read) && row.key != "" && Readable(read, row.key)
    ensures var keys := GetKeys(read, row.key);
            var all := keys + NewKeys(keys, offered);
            GetKeys(read, AfterAppend(read, row, input, Some(offered)).key) == all <==> Join(all, '\n') == "" || Writable(read, all)
  {
    var keys := GetKeys(read, row.key);
    var added := NewKeys(keys, offered);
    ExistingKeysIff(read, row.key);
    if Join(keys + added, '\n') == "" {
      NewKeysNonBlank(keys, offered);
      BlankJoin(keys, added);
      assert keys + added == keys;
    } else {
      WrittenKeysIff(read, keys + added);
    }
  }

  /** Keys that cannot be read are refused, a channel without keys takes the text as it is, and
      otherwise old and new keys are written as lines. */
  lemma AppendText(read: ArrayReader, row: Row, input: string, offered: Option<seq<string>>)
    ensures row.key == "" ==> AfterAppend(read, row, input, offered) == AfterReplace(read, row, input)
    ensures row.key != "" && offered.None? ==> AfterAppend(read, row, input, offered) == row
    ensures row.key != "" && offered.Some? && Readable(read, row.key) ==>
              var keys := GetKeys(read, row.key);
              var text := Join(keys + NewKeys(keys, offered.value), '\n');
              AfterAppend(read, row, input, offered).key == if text == "" then row.key else text
  {
    if row.key != "" { ExistingKeysIff(read, row.key); }
  }

  /** A replacement takes the new text, or keeps the old one for an empty text, and carries the data
      at every index over, statuses as far as there are keys. */
  lemma ReplaceMeaning(read: ArrayReader, row: Row, input: string, j: int)
    ensures var after := AfterReplace(read, row, input);
            after.key == (if input == "" then row.key else input) && after.size == CountKeys(read, after.key) && SameAt(after, row, j)
  {
  }

  /** Then the old keys keep their data, whatever they look like. */
  lemma AppendKeepsData(read: ArrayReader, row: Row, input: string, offered: seq<string>)
    requires ReadsArrays(read) && row.key != "" && Readable(read, row.key)
    requires Counted(read, row) && Within(row.status, row.size)
    requires var keys := GetKeys(read, row.key); Writable(read, keys + NewKeys(keys, offered))
    ensures var row' := AfterAppend(read, row, input, Some(offered));
            && row'.status == row.status && row'.times == row.times && row'.reasons == row.reasons
            && Counted(read, row') && row.size <= row'.size
  {
    var keys := GetKeys(read, row.key);
    var all := keys + NewKeys(keys, offered);
    ExistingKeysIff(read, row.key);
    WrittenKeysIff(read, all);
    var kept := map i | i in row.status && i < |all| :: row.status[i];
    assert kept == row.status;
  }

  /** Appending to text that is not readable leaves only the new keys, if they are writable. */
  lemma UnreadableAppendIff(read: ArrayReader, row: Row, input: string, offered: seq<string>)
    requires ReadsArrays(read) && row.key != "" && !Readable(read, row.key) && NewKeys([], offered) != []
    ensures var added := NewKeys([], offered);
            GetKeys(read, AfterAppend(read, row, input, Some(offered)).key) == added <==> Writable(read, added)
  {
    var added := NewKeys([], offered);
    NewKeysNonBlank([], offered);
    assert [] + added == added;
    if Join(added, '\n') == "" { BlankJoin([], added); }
    WrittenKeysIff(read, added);
  }

  /** Where appending loses keys: the only key is a line that starts like an array and is none. */
  lemma BrokenArrayIsLost(read: ArrayReader, broken: string, b: string, input: string)
    requires '\n' !in broken && StartsWith(TrimSpace(broken), "[") && ReadArray(read, broken).None? && Clean(b)
    ensures var row := Row(broken, 1, map[], map[], map[]);
            && GetKeys(read, row.key) == [broken]
            && GetKeys(read, AfterAppend(read, row, input, Some([b])).key) == [TrimSpace(b)]
  {
    var row := Row(broken, 1, map[], map[], map[]);
    var cut := (c: char) => c == '\n';
    TrimShortens(broken);
    TrimByMeaning(broken, cut);
    SplitPieces(broken, '\n');
    assert Lines(broken) == [broken];
    TrimmedClean(b);
    var t := TrimSpace(b);
    assert NewKeys([], [b]) == [t] by {
      assert [b][0] == b && [b][1..] == [] && TrimmedSet([]) == {};
      assert Unseen({}, [b]) == [t] + Unseen({} + {t}, []);
    }
    assert [] + [t] == [t] && Join([t], '\n') == t;
    CleanWritable(read, [t]);
  }

  lemma TrimmedClean(b: string)
    requires Clean(b)
    ensures Clean(TrimSpace(b))
  {
    TrimByMeaning(b, IsSpace);
    TrimByMeaning(TrimSpace(b), IsSpace);
    TrimKeepsChars(b, IsSpace);
  }

  /** Appending keeps the old keys in place with their data and adds the unseen ones behind them. */
  lemma AppendMeaning(read: ArrayReader, row: Row, input: string, offered: seq<string>)
    requires Good(read, row) && CleanOffer(offered)
    ensures var row', keys := AfterAppend(read, row, input, Some(offered)), GetKeys(read, row.key);
            && GetKeys(read, row'.key) == keys + NewKeys(keys, offered)
            && row'.status == row.status && row'.times == row.times && row'.reasons == row.reasons
            && Good(read, row') && row.size <= row'.size
  {
    var keys := GetKeys(read, row.key);
    assert ExistingKeys(read, row.key) == keys;
    NewKeysClean(keys, offered);
    var all := keys + NewKeys(keys, offered);
    CleanWritable(read, all);
    CleanNotArray(all);
    var kept := map i | i in row.status && i < |all| :: row.status[i];
    assert kept == row.status;
  }

  // ----- replacing keys

  /** Text that holds ordinary keys. */
  ghost predicate CleanText(read: ArrayReader, text: string) {
    && GetKeys(read, text) != [] && AllClean(GetKeys(read, text))
    && (StartsWith(TrimSpace(text), "[") ==> ReadArray(read, text).Some?)
  }

  /** Saving leaves size, status, times and reasons in agreement exactly when the text is not an
      empty array and no time or reason lies beyond its keys; statuses are cut to size anyway. */
  lemma SaveConsistentIff(read: ArrayReader, stored: Row, next: Row)
    requires forall i :: i in next.status ==> 0 <= i
    ensures var text := if next.key != "" then next.key else stored.key;
            Consistent(read, Save(read, stored, next)) <==>
              (text == "" || ReadArray(read, text) != Some([])) && DataWithin(next, CountKeys(read, text))
  {
    SizeIsCountIff(read, if next.key != "" then next.key else stored.key);
  }

  /** Replacing the keys of a row leaves it in agreement exactly when no time or reason lies
      beyond the new keys. */
  lemma ReplaceConsistentIff(read: ArrayReader, row: Row, input: string)
    requires Good(read, row) && (input == "" || CleanText(read, input))
    ensures var n := if input == "" then row.size else |GetKeys(read, input)|;
            Consistent(read, AfterReplace(read, row, input)) <==> DataWithin(row, n)
    ensures Good(read, AfterReplace(read, row, input))
    ensures input != "" ==> GetKeys(read, AfterReplace(read, row, input).key) == GetKeys(read, input)
    ensures AfterReplace(read, row, input).times == row.times && AfterReplace(read, row, input).reasons == row.reasons
  {
    SaveConsistentIff(read, row, row.(key := input));
    SizeIsCountIff(read, input);
    SizeIsCountIff(read, row.key);
  }

  /** Where the law fails: two ordinary keys, the second disabled at some time, replaced by one
      leave the time at an index that no key has. */
  lemma ReplaceLeavesStale(read: ArrayReader, a: string, b: string, c: string, at: int)
    requires Clean(a) && Clean(b) && Clean(c)
    ensures var row := Row(Join([a, b], '\n'), 2, map[1 := AUTO_DISABLED], map[1 := at], map[]);
            var row' := AfterReplace(read, row, c);
            && Good(read, row) && Consistent(read, row)
            && GetKeys(read, row'.key) == [c] && 1 in row'.times && !Consistent(read, row')
  {
    var row := Row(Join([a, b], '\n'), 2, map[1 := AUTO_DISABLED], map[1 := at], map[]);
    CleanWritable(read, [a, b]);
    CleanNotArray([a, b]);
    assert Join([c], '\n') == c;
    CleanWritable(read, [c]);
    CleanNotArray([c]);
    ReplaceConsistentIff(read, row, c);
    assert 1 in row.times && !Within(row.times, 1);
  }

  // ----- every run

  /** A row of ordinary keys whose size and statuses agree with them. */
  ghost predicate Good(read: ArrayReader, row: Row) {
    && row.key != "" && row.size > 0
    && Counted(read, row) && Within(row.status, row.size)
    && AllClean(GetKeys(read, row.key))
    && (StartsWith(TrimSpace(row.key), "[") ==> ReadArray(read, row.key).Some?)
  }

  datatype Action =
    | DisableKey(i: int)
    | EnableKey(i: int)
    | EnableAll
    | DisableAll
    | DeleteKey(i: int)
    | DeleteDisabled
    | AppendKeys(input: string, offered: Option<seq<string>>)
    | ReplaceKeys(input: string)
    | ReportKey(key: string, status: int, reason: string, at: int)

  function Perform(read: ArrayReader, row: Row, a: Action): Row {
    match a
    case DisableKey(i) => AfterDisable(read, row, i)
    case EnableKey(i) => AfterEnable(read, row, i)
    case EnableAll => AfterEnableAll(read, row)
    case DisableAll => AfterDisableAll(read, row)
    case DeleteKey(i) => AfterDelete(read, row, i)
    case DeleteDisabled => AfterDeleteDisabled(read, row)
    case AppendKeys(input, offered) => AfterAppend(read, row, input, offered)
    case ReplaceKeys(input) => AfterReplace(read, row, input)
    case ReportKey(key, status, reason, at) => AfterReport(read, row, key, status, reason, at)
  }

  function Run(read: ArrayReader, row: Row, actions: seq<Action>): Row
    decreases |actions|
  {
    if actions == [] then row else Run(read, Perform(read, row, actions[0]), actions[1..])
  }

  /** Only ordinary keys are brought in. */
  ghost predicate CleanAction(read: ArrayReader, a: Action) {
    && (a.AppendKeys? && a.offered.Some? ==> CleanOffer(a.offered.value))
    && (a.ReplaceKeys? ==> a.input == "" || CleanText(read, a.input))
  }

  ghost predicate CleanActions(read: ArrayReader, actions: seq<Action>) {
    forall i :: 0 <= i < |actions| ==> CleanAction(read, actions[i])
  }

  /** What an action may leave behind: a row that is good, and free of stale data if it was. */
  ghost predicate StaysGood(read: ArrayReader, row: Row, after: Row) {
    Good(read, after) && (DataWithin(row, row.size) ==> DataWithin(after, after.size))
  }

  /** Saving with the key unchanged keeps a good row good. */
  lemma SaveGood(read: ArrayReader, row: Row, next: Row)
    requires Good(read, row) && (next.key == row.key || next.key == "")
    requires Within(next.status, row.size)
    ensures Good(read, Save(read, row, next))
    ensures Save(read, row, next) == next.(key := row.key, size := row.size)
  {
    var kept := map i | i in next.status && i < row.size :: next.status[i];
    assert kept == next.status;
  }

  lemma DeleteGood(read: ArrayReader, row: Row, i: int)
    requires ReadsArrays(read) && Good(read, row)
    ensures StaysGood(read, row, AfterDelete(read, row, i))
  {
    var keys := GetKeys(read, row.key);
    if 0 <= i < row.size {
      var t := Without(row, keys, i);
      WithoutKeys(row, keys, i);
      WithoutData(row, keys, i);
      if t.keys != [] {
        CleanWritable(read, t.keys);
        CleanNotArray(t.keys);
        ReplacedMeaning(read, row, t);
      }
    }
  }

  lemma DeleteDisabledGood(read: ArrayReader, row: Row)
    requires ReadsArrays(read) && Good(read, row)
    ensures StaysGood(read, row, AfterDeleteDisabled(read, row))
  {
    var keys := GetKeys(read, row.key);
    var t := Alive(row, keys);
    AliveCounts(row, keys);
    AliveMeaning(row, keys);
    if t.keys == [] {
      SaveGood(read, row, Row("", 0, t.status, t.times, t.reasons));
    } else if AnyDead(row, |keys|) {
      CleanWritable(read, t.keys);
      CleanNotArray(t.keys);
      ReplacedMeaning(read, row, t);
    }
  }

  lemma {:induction false} FirstIndexRange(keys: seq<string>, key: string)
    ensures FirstIndex(keys, key) < |keys|
    ensures FirstIndex(keys, key) < 0 <==> key !in keys
    ensures key in keys ==> keys[FirstIndex(keys, key)] == key && key !in keys[..FirstIndex(keys, key)]
  {
    if keys != [] {
      FirstIndexRange(keys[1..], key);
      assert keys == [keys[0]] + keys[1..];
    }
  }

  lemma DisableGood(read: ArrayReader, row: Row, i: int)
    requires Good(read, row)
    ensures StaysGood(read, row, AfterDisable(read, row, i))
  {
    if 0 <= i < row.size { SaveGood(read, row, row.(status := row.status[i := MANUALLY_DISABLED])); }
  }

  lemma EnableGood(read: ArrayReader, row: Row, i: int)
    requires Good(read, row)
    ensures StaysGood(read, row, AfterEnable(read, row, i))
  {
    if 0 <= i < row.size {
      SaveGood(read, row, row.(status := row.status - {i}, times := row.times - {i}, reasons := row.reasons - {i}));
    }
  }

  lemma DisableAllGood(read: ArrayReader, row: Row)
    requires Good(read, row)
    ensures StaysGood(read, row, AfterDisableAll(read, row))
  {
    forall i | i in DisabledUpTo(row, row.size) ensures 0 <= i < row.size { DisabledUpToMeaning(row, row.size, i); }
    SaveGood(read, row, row.(status := DisabledUpTo(row, row.size)));
  }

  /** A row stays good when only its per-index data changes within range. */
  lemma SameKeyGood(read: ArrayReader, row: Row, after: Row)
    requires Good(read, row) && after.key == row.key && after.size == row.size && Within(after.status, row.size)
    ensures Good(read, after)
  {
  }

  lemma ReportGood(read: ArrayReader, row: Row, key: string, status: int, reason: string, now: int)
    requires Good(read, row)
    ensures StaysGood(read, row, AfterReport(read, row, key, status, reason, now))
  {
    FirstIndexRange(GetKeys(read, row.key), key);
    SameKeyGood(read, row, AfterReport(read, row, key, status, reason, now));
  }

  lemma EnableAllGood(read: ArrayReader, row: Row)
    requires Good(read, row)
    ensures StaysGood(read, row, AfterEnableAll(read, row))
  {
    SaveGood(read, row, row.(status := map[], times := map[], reasons := map[]));
  }

  lemma AppendGood(read: ArrayReader, row: Row, input: string, offered: Option<seq<string>>)
    requires Good(read, row) && (offered.Some? ==> CleanOffer(offered.value))
    ensures StaysGood(read, row, AfterAppend(read, row, input, offered))
  {
    if offered.Some? { AppendMeaning(read, row, input, offered.value); }
  }

  /** Every action but a replacement keeps a good row good and adds nothing stale. */
  lemma PerformGood(read: ArrayReader, row: Row, a: Action)
    requires ReadsArrays(read) && Good(read, row) && CleanAction(read, a) && !a.ReplaceKeys?
    ensures StaysGood(read, row, Perform(read, row, a))
  {
    match a
    case DisableKey(i) => DisableGood(read, row, i);
    case EnableKey(i) => EnableGood(read, row, i);
    case EnableAll => EnableAllGood(read, row);
    case DisableAll => DisableAllGood(read, row);
    case DeleteKey(i) => DeleteGood(read, row, i);
    case DeleteDisabled => DeleteDisabledGood(read, row);
    case AppendKeys(input, offered) => AppendGood(read, row, input, offered);
    case ReportKey(key, status, reason, at) => ReportGood(read, row, key, status, reason, at);
  }

  /** A replacement leaves no time or reason beyond its keys. */
  ghost predicate ReplacementFits(read: ArrayReader, row: Row, a: Action) {
    a.ReplaceKeys? && a.input != "" ==> DataWithin(row, |GetKeys(read, a.input)|)
  }

  /** A good row is in agreement exactly when nothing stale is left in it. */
  lemma GoodConsistent(read: ArrayReader, row: Row)
    requires Good(read, row)
    ensures Consistent(read, row) <==> DataWithin(row, row.size)
  {
  }

  lemma OtherConsistent(read: ArrayReader, row: Row, a: Action)
    requires ReadsArrays(read) && Good(read, row) && CleanAction(read, a) && !a.ReplaceKeys?
    ensures Good(read, Perform(read, row, a))
    ensures Consistent(read, row) ==> Consistent(read, Perform(read, row, a))
  {
    PerformGood(read, row, a);
    GoodConsistent(read, row);
    GoodConsistent(read, Perform(read, row, a));
  }

  lemma ReplaceFits(read: ArrayReader, row: Row, a: Action)
    requires Good(read, row) && CleanAction(read, a) && a.ReplaceKeys?
    ensures Good(read, Perform(read, row, a))
    ensures Consistent(read, row) ==> (Consistent(read, Perform(read, row, a)) <==> ReplacementFits(read, row, a))
  {
    ReplaceConsistentIff(read, row, a.input);
    GoodConsistent(read, row);
  }

  /** Any action keeps a good row good, and a consistent one consistent exactly when it is not a
      replacement that does not fit. */
  lemma PerformConsistentIff(read: ArrayReader, row: Row, a: Action)
    requires ReadsArrays(read) && Good(read, row) && CleanAction(read, a)
    ensures Good(read, Perform(read, row, a))
    ensures Consistent(read, row) ==> (Consistent(read, Perform(read, row, a)) <==> ReplacementFits(read, row, a))
  {
    if a.ReplaceKeys? {
      ReplaceFits(read, row, a);
    } else {
      OtherConsistent(read, row, a);
    }
  }

  lemma CleanRest(read: ArrayReader, actions: seq<Action>)
    requires CleanActions(read, actions) && actions != []
    ensures CleanAction(read, actions[0]) && CleanActions(read, actions[1..])
  {
    var rest := actions[1..];
    assert forall i :: 0 <= i < |rest| ==> rest[i] == actions[i + 1];
  }

  /** In every reachable state of a channel with ordinary keys the size is the number of keys and
      every status belongs to one. */
  lemma {:induction false} RunGood(read: ArrayReader, row: Row, actions: seq<Action>)
    requires ReadsArrays(read) && Good(read, row) && CleanActions(read, actions)
    ensures Good(read, Run(read, row, actions))
    decreases |actions|
  {
    if actions != [] {
      CleanRest(read, actions);
      PerformConsistentIff(read, row, actions[0]);
      RunGood(read, Perform(read, row, actions[0]), actions[1..]);
    }
  }

  /** Times and reasons agree with the keys in every state of the run. */
  ghost predicate AlwaysConsistent(read: ArrayReader, row: Row, actions: seq<Action>)
    decreases |actions|
  {
    Consistent(read, row) && (actions != [] ==> AlwaysConsistent(read, Perform(read, row, actions[0]), actions[1..]))
  }

  /** Every replacement of the run fits what is there when it happens. */
  ghost predicate ReplacementsFit(read: ArrayReader, row: Row, actions: seq<Action>)
    decreases |actions|
  {
    actions != [] ==>
      ReplacementFits(read, row, actions[0]) && ReplacementsFit(read, Perform(read, row, actions[0]), actions[1..])
  }

  /** Times and reasons too stay in range along a run exactly when every replacement fits. */
  lemma {:induction false} RunConsistentIff(read: ArrayReader, row: Row, actions: seq<Action>)
    requires ReadsArrays(read) && Good(read, row) && Consistent(read, row) && CleanActions(read, actions)
    ensures AlwaysConsistent(read, row, actions) <==> ReplacementsFit(read, row, actions)
    decreases |actions|
  {
    if actions != [] {
      CleanRest(read, actions);
      PerformConsistentIff(read, row, actions[0]);
      if ReplacementFits(read, row, actions[0]) {
        RunConsistentIff(read, Perform(read, row, actions[0]), actions[1..]);
      }
    }
  }

  // ----- every run, whatever the keys look like

  /** What `Channel.Update` guarantees about any row: the recomputed size, and statuses within it. */
  ghost predicate Sized(read: ArrayReader, row: Row) {
    row.size == CountKeys(read, row.key) && Within(row.status, row.size)
  }

  /** The recomputed size is the number of keys unless the stored text is an empty array. */
  lemma SizeIsCountIff(read: ArrayReader, key: string)
    ensures CountKeys(read, key) == |GetKeys(read, key)| <==> key == "" || ReadArray(read, key) != Some([])
    ensures |GetKeys(read, key)| <= CountKeys(read, key)
  {
    SplitPieces(TrimChar(key, '\n'), '\n');
  }

  /** Over every run, for any key text and any input, the size is the number of keys exactly when
      the text it ends with is not an empty array. */
  lemma RunCountedIff(read: ArrayReader, row: Row, actions: seq<Action>)
    requires Sized(read, row)
    ensures var after := Run(read, row, actions);
            Counted(read, after) <==> after.key == "" || ReadArray(read, after.key) != Some([])
  {
    RunSized(read, row, actions);
    SizeIsCountIff(read, Run(read, row, actions).key);
  }

  lemma ReportSized(read: ArrayReader, row: Row, key: string, status: int, reason: string, now: int)
    requires Sized(read, row)
    ensures Sized(read, AfterReport(read, row, key, status, reason, now))
  {
    FirstIndexRange(GetKeys(read, row.key), key);
    SizeIsCountIff(read, row.key);
  }

  lemma DeletionsSized(read: ArrayReader, row: Row, i: int)
    requires Sized(read, row)
    ensures Sized(read, AfterDelete(read, row, i)) && Sized(read, AfterDeleteDisabled(read, row))
  {
    var keys := GetKeys(read, row.key);
    CollectMeaning(Carried(row, keys), DropAt(i), |keys|);
    AliveMeaning(row, keys);
  }

  lemma DisableAllSized(read: ArrayReader, row: Row)
    requires Sized(read, row)
    ensures Sized(read, AfterDisableAll(read, row))
  {
    forall i | i in DisabledUpTo(row, row.size) ensures 0 <= i { DisabledUpToMeaning(row, row.size, i); }
  }

  lemma PerformSized(read: ArrayReader, row: Row, a: Action)
    requires Sized(read, row)
    ensures Sized(read, Perform(read, row, a))
  {
    match a
    case DisableAll => DisableAllSized(read, row);
    case DeleteKey(i) => DeletionsSized(read, row, i);
    case DeleteDisabled => DeletionsSized(read, row, 0);
    case ReportKey(key, status, reason, at) => ReportSized(read, row, key, status, reason, at);
    case _ =>
  }

  /** Over every run, for any key text and any input, the size stays the recomputed one and no
      status lies outside it. */
  lemma {:induction false} RunSized(read: ArrayReader, row: Row, actions: seq<Action>)
    requires Sized(read, row)
    ensures Sized(read, Run(read, row, actions))
    decreases |actions|
  {
    if actions != [] {
      PerformSized(read, row, actions[0]);
      RunSized(read, Perform(read, row, actions[0]), actions[1..]);
    }
  }

  // ----- the channel's own status

  /** The channel is enabled while some key is, and auto-disabled otherwise. */
  ghost predicate InStep(read: ArrayReader, row: Row, channelStatus: int) {
    var n := |GetKeys(read, row.key)|;
    n > 0 && channelStatus == if AnyEnabled(row, n) then ENABLED else AUTO_DISABLED
  }

  /** A report keeps the channel in step exactly when it names a key, or names nothing and brings
      the status the channel has. */
  lemma ReportInStepIff(read: ArrayReader, row: Row, channelStatus: int, key: string, status: int, reason: string, now: int)
    requires InStep(read, row, channelStatus)
    ensures InStep(read, AfterReport(read, row, key, status, reason, now),
                   ChannelAfterReport(read, row, channelStatus, key, status, reason, now)) <==>
              key != "" || key in GetKeys(read, row.key) || status == channelStatus
  {
    var keys := GetKeys(read, row.key);
    FirstIndexRange(keys, key);
    if key in keys {
      var i, after := FirstIndex(keys, key), AfterReport(read, row, key, status, reason, now);
      if status == ENABLED {
        assert StatusOf(after, i) == ENABLED;
      } else if AnyEnabled(after, |keys|) {
        var j :| 0 <= j < |keys| && StatusOf(after, j) == ENABLED;
        assert StatusOf(row, j) == ENABLED;
      }
    }
  }

  datatype Report = Report(key: string, status: int, reason: string, at: int)

  datatype Reported = Reported(row: Row, channelStatus: int)

  function Reports(read: ArrayReader, s: Reported, reports: seq<Report>): Reported
    decreases |reports|
  {
    if reports == [] then s
    else
      var r := reports[0];
      Reports(read, Reported(AfterReport(read, s.row, r.key, r.status, r.reason, r.at),
                             ChannelAfterReport(read, s.row, s.channelStatus, r.key, r.status, r.reason, r.at)), reports[1..])
  }

  /** Over every run of reports that name a key, the channel is auto-disabled exactly while all
      its keys are disabled. */
  lemma {:induction false} ReportsKeepStep(read: ArrayReader, s: Reported, reports: seq<Report>)
    requires InStep(read, s.row, s.channelStatus)
    requires forall i :: 0 <= i < |reports| ==> reports[i].key != ""
    ensures InStep(read, Reports(read, s, reports).row, Reports(read, s, reports).channelStatus)
    decreases |reports|
  {
    if reports != [] {
      var r := reports[0];
      ReportInStepIff(read, s.row, s.channelStatus, r.key, r.status, r.reason, r.at);
      ReportsKeepStep(read, Reported(AfterReport(read, s.row, r.key, r.status, r.reason, r.at),
                                     ChannelAfterReport(read, s.row, s.channelStatus, r.key, r.status, r.reason, r.at)), reports[1..]);
    }
  }
}
