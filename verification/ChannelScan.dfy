/** The keyset-paged scan over enabled channels: batches ordered by id, each starting after
    the last id seen (controller/channel_upstream_update.go). */
module ChannelScan {

  const CHANNEL_STATUS_ENABLED := 1

  datatype Row = Row(id: int, status: int)

  /** The channel table in primary-key order. */
  predicate KeyOrdered(table: seq<Row>) {
    forall i, j :: 0 <= i < j < |table| ==> table[i].id < table[j].id
  }

  /** `status = enabled AND (lastID <= 0 OR id > lastID) ORDER BY id`. */
  function Select(table: seq<Row>, lastID: int): seq<int> {
    if table == [] then []
    else
      var r := table[0];
      (if r.status == CHANNEL_STATUS_ENABLED && (lastID <= 0 || r.id > lastID) then [r.id] else [])
      + Select(table[1..], lastID)
  }

  /** All enabled ids, in order. */
  function Enabled(table: seq<Row>): seq<int> {
    Select(table, 0)
  }

  /** `findEnabledChannelsAfterID`. */
  function FindAfter(table: seq<Row>, lastID: int, batchSize: nat): seq<int> {
    var rows := Select(table, lastID);
    if |rows| <= batchSize then rows else rows[..batchSize]
  }

  function CountNonPositive(ids: seq<int>): nat {
    if ids == [] then 0 else (if ids[0] <= 0 then 1 else 0) + CountNonPositive(ids[1..])
  }

  predicate Ascending(ids: seq<int>) {
    forall i, j :: 0 <= i < j < |ids| ==> ids[i] < ids[j]
  }

  lemma {:induction false} SelectMeaning(table: seq<Row>, lastID: int)
    requires KeyOrdered(table)
    ensures Ascending(Select(table, lastID))
    ensures forall id :: id in Select(table, lastID) <==>
              (lastID <= 0 || id > lastID) && Row(id, CHANNEL_STATUS_ENABLED) in table
  {
    if table != [] {
      SelectMeaning(table[1..], lastID);
      var rest := Select(table[1..], lastID);
      assert forall r :: r in table <==> r == table[0] || r in table[1..];
      forall i | 0 <= i < |rest| ensures table[0].id < rest[i] {
        assert rest[i] in rest;
        assert Row(rest[i], CHANNEL_STATUS_ENABLED) in table[1..];
      }
    }
  }

  function Above(ids: seq<int>, last: int): seq<int> {
    if ids == [] then [] else (if ids[0] > last then [ids[0]] else []) + Above(ids[1..], last)
  }

  lemma {:induction false} SelectIsAbove(table: seq<Row>, last: int)
    requires last > 0
    ensures Select(table, last) == Above(Enabled(table), last)
  {
    if table != [] {
      SelectIsAbove(table[1..], last);
      if table[0].status == CHANNEL_STATUS_ENABLED {
        assert Enabled(table)[1..] == Enabled(table[1..]);
      } else {
        assert Enabled(table) == Enabled(table[1..]);
      }
    }
  }

  lemma {:induction false} AboveAll(ids: seq<int>, last: int)
    requires forall i :: 0 <= i < |ids| ==> ids[i] > last
    ensures Above(ids, last) == ids
  {
    if ids != [] { AboveAll(ids[1..], last); }
  }

  lemma {:induction false} AboveTail(ids: seq<int>, k: nat)
    requires Ascending(ids) && 1 <= k <= |ids|
    ensures Above(ids, ids[k - 1]) == ids[k..]
  {
    if k == 1 {
      AboveAll(ids[1..], ids[0]);
    } else {
      AboveTail(ids[1..], k - 1);
      assert ids[1..][k - 2] == ids[k - 1];
    }
  }

  /** Restarting after the k-th enabled id yields exactly the ids behind it. */
  lemma SelectBehind(table: seq<Row>, k: nat)
    requires KeyOrdered(table)
    requires 1 <= k <= |Enabled(table)| && Enabled(table)[k - 1] > 0
    ensures Select(table, Enabled(table)[k - 1]) == Enabled(table)[k..]
  {
    SelectMeaning(table, 0);
    SelectIsAbove(table, Enabled(table)[k - 1]);
    AboveTail(Enabled(table), k);
  }

  /** The first n ids are non-positive exactly when at least n ids are. */
  lemma {:induction false} NonPositiveFirst(ids: seq<int>, n: nat)
    requires Ascending(ids) && 1 <= n <= |ids|
    ensures ids[n - 1] <= 0 <==> CountNonPositive(ids) >= n
  {
    if ids[0] > 0 {
      NonePositive(ids);
    } else if n > 1 {
      NonPositiveFirst(ids[1..], n - 1);
    }
  }

  lemma {:induction false} NonePositive(ids: seq<int>)
    requires forall i :: 0 <= i < |ids| ==> ids[i] > 0
    ensures CountNonPositive(ids) == 0
  {
    if ids != [] { NonePositive(ids[1..]); }
  }

  lemma {:induction false} CountAtMost(ids: seq<int>)
    ensures CountNonPositive(ids) <= |ids|
  {
    if ids != [] { CountAtMost(ids[1..]); }
  }

  /** The loop state: last id seen, ids visited, whether the loop has ended. */
  datatype Scan = Scan(lastID: int, visited: seq<int>, done: bool)

  /** One turn of the scan loop. */
  function Turn(s: Scan, table: seq<Row>, batchSize: nat): Scan {
    if s.done then s else Visit(s, FindAfter(table, s.lastID, batchSize), batchSize)
  }

  function Visit(s: Scan, batch: seq<int>, batchSize: nat): Scan {
    if |batch| == 0 then s.(done := true)
    else Scan(batch[|batch| - 1], s.visited + batch, |batch| < batchSize)
  }

  function Turns(table: seq<Row>, batchSize: nat, n: nat): Scan {
    if n == 0 then Scan(0, [], false) else Turn(Turns(table, batchSize, n - 1), table, batchSize)
  }

  /** A scan under way stands after the k-th enabled id; a finished one has visited them all. */
  ghost predicate OnTrack(s: Scan, table: seq<Row>) {
    Along(s, Enabled(table))
  }

  ghost predicate Along(s: Scan, all: seq<int>) {
    && s.visited <= all
    && (s.done ==> s.visited == all)
    && (!s.done && s.visited == [] ==> s.lastID == 0)
    && (!s.done && s.visited != [] ==> s.lastID == s.visited[|s.visited| - 1] && s.lastID > 0)
  }

  /** The next batch continues where the visited ids end. */
  lemma NextBatch(s: Scan, table: seq<Row>, batchSize: nat)
    requires KeyOrdered(table) && OnTrack(s, table) && !s.done
    ensures var all, k := Enabled(table), |s.visited|;
            FindAfter(table, s.lastID, batchSize) == if |all| <= k + batchSize then all[k..] else all[k..k + batchSize]
  {
    var all, k := Enabled(table), |s.visited|;
    if k > 0 {
      assert s.lastID == all[k - 1];
      SelectBehind(table, k);
    } else {
      assert all[0..] == all;
    }
  }

  /** A full batch ends on a positive id. */
  lemma FullBatchPositive(table: seq<Row>, k: nat, batchSize: nat)
    requires KeyOrdered(table) && CountNonPositive(Enabled(table)) < batchSize && k + batchSize <= |Enabled(table)|
    ensures Enabled(table)[k + batchSize - 1] > 0
  {
    var all := Enabled(table);
    SelectMeaning(table, 0);
    NonPositiveFirst(all, batchSize);
    assert all[batchSize - 1] <= all[k + batchSize - 1];
  }

  lemma Extend(all: seq<int>, visited: seq<int>, batch: seq<int>)
    requires visited <= all && batch <= all[|visited|..]
    ensures visited + batch <= all && |visited| + |batch| <= |all|
    ensures |visited| + |batch| == |all| ==> visited + batch == all
    ensures batch != [] ==> batch[|batch| - 1] == all[|visited| + |batch| - 1]
  {
    assert visited + all[|visited|..] == all;
    assert |batch| <= |all[|visited|..]|;
  }

  lemma VisitAlong(s: Scan, all: seq<int>, batch: seq<int>, batchSize: nat)
    requires Along(s, all) && !s.done && batchSize >= 1
    requires batch <= all[|s.visited|..] && |batch| <= batchSize
    requires |batch| < batchSize ==> batch == all[|s.visited|..]
    requires |batch| == batchSize ==> batch[batchSize - 1] > 0
    ensures Along(Visit(s, batch, batchSize), all)
    ensures Visit(s, batch, batchSize).done || |Visit(s, batch, batchSize).visited| > |s.visited|
  {
    Extend(all, s.visited, batch);
    assert |batch| == 0 ==> s.visited + batch == s.visited;
  }

  lemma TurnOnTrack(s: Scan, table: seq<Row>, batchSize: nat)
    requires KeyOrdered(table) && OnTrack(s, table) && !s.done
    requires CountNonPositive(Enabled(table)) < batchSize
    ensures OnTrack(Turn(s, table, batchSize), table)
    ensures Turn(s, table, batchSize).done || |Turn(s, table, batchSize).visited| > |s.visited|
  {
    var all, k, batch := Enabled(table), |s.visited|, FindAfter(table, s.lastID, batchSize);
    NextBatch(s, table, batchSize);
    if |batch| == batchSize {
      FullBatchPositive(table, k, batchSize);
      assert batch[batchSize - 1] == all[k + batchSize - 1];
    }
    VisitAlong(s, all, batch, batchSize);
  }

  lemma {:induction false} TurnsOnTrack(table: seq<Row>, batchSize: nat, n: nat)
    requires KeyOrdered(table) && CountNonPositive(Enabled(table)) < batchSize
    ensures OnTrack(Turns(table, batchSize, n), table)
    ensures Turns(table, batchSize, n).done || |Turns(table, batchSize, n).visited| >= n
  {
    if n > 0 {
      TurnsOnTrack(table, batchSize, n - 1);
      if !Turns(table, batchSize, n - 1).done {
        TurnOnTrack(Turns(table, batchSize, n - 1), table, batchSize);
      }
    }
  }

  /** With a batch full of non-positive ids every turn reads the same first batch again. */
  lemma {:induction false} TurnsStuck(table: seq<Row>, batchSize: nat, n: nat)
    requires KeyOrdered(table) && 1 <= batchSize <= CountNonPositive(Enabled(table))
    ensures !Turns(table, batchSize, n).done && Turns(table, batchSize, n).lastID <= 0
  {
    if n > 0 {
      TurnsStuck(table, batchSize, n - 1);
      TurnStuck(table, batchSize, Turns(table, batchSize, n - 1));
    }
  }

  lemma TurnStuck(table: seq<Row>, batchSize: nat, s: Scan)
    requires KeyOrdered(table) && 1 <= batchSize <= CountNonPositive(Enabled(table))
    requires !s.done && s.lastID <= 0
    ensures !Turn(s, table, batchSize).done && Turn(s, table, batchSize).lastID <= 0
  {
    var all := Enabled(table);
    UnfilteredSelect(table, s.lastID);
    SelectMeaning(table, 0);
    CountAtMost(all);
    NonPositiveFirst(all, batchSize);
    assert FindAfter(table, s.lastID, batchSize) == all[..batchSize];
  }

  lemma {:induction false} UnfilteredSelect(table: seq<Row>, lastID: int)
    requires lastID <= 0
    ensures Select(table, lastID) == Enabled(table)
  {
    if table != [] { UnfilteredSelect(table[1..], lastID); }
  }

  /** The scan ends exactly when fewer than a batch of enabled channels have an id of zero or
      below; whenever it ends it has visited every enabled channel. */
  lemma ScanEndsIff(table: seq<Row>, batchSize: nat)
    requires KeyOrdered(table) && batchSize >= 1
    ensures (exists n: nat :: Turns(table, batchSize, n).done) <==> CountNonPositive(Enabled(table)) < batchSize
    ensures forall n: nat :: Turns(table, batchSize, n).done ==> Turns(table, batchSize, n).visited == Enabled(table)
  {
    if CountNonPositive(Enabled(table)) < batchSize {
      TurnsOnTrack(table, batchSize, |Enabled(table)| + 1);
      assert Turns(table, batchSize, |Enabled(table)| + 1).done;
      forall n: nat ensures OnTrack(Turns(table, batchSize, n), table) { TurnsOnTrack(table, batchSize, n); }
    } else {
      forall n: nat ensures !Turns(table, batchSize, n).done { TurnsStuck(table, batchSize, n); }
    }
  }

  /** The scan loop on a table that does not change meanwhile: every enabled channel exactly
      once, in ascending id order. */
  method ScanEnabled(table: seq<Row>, batchSize: nat) returns (visited: seq<int>)
    requires KeyOrdered(table)
    requires CountNonPositive(Enabled(table)) < batchSize
    ensures forall id :: id in visited <==> Row(id, CHANNEL_STATUS_ENABLED) in table
    ensures Ascending(visited)
  {
    visited := [];
    var lastID := 0;
    SelectMeaning(table, 0);
    while true
      invariant OnTrack(Scan(lastID, visited, false), table)
      decreases |Enabled(table)| - |visited|
    {
      var batch := FindAfter(table, lastID, batchSize);
      TurnOnTrack(Scan(lastID, visited, false), table, batchSize);
      if |batch| == 0 {
        break;
      }
      lastID := batch[|batch| - 1];
      visited := visited + batch;
      if |batch| < batchSize {
        break;
      }
    }
  }
}
