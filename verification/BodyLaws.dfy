/** What callers of a body storage rely on, over any sequence of operations. */
module BodyLaws {
  import opened Bytes
  import opened Options
  import opened BodyStorage
  import StorageLedger

  datatype Op = Read(n: nat) | Seek(offset: int, whence: int) | ReadBytes | Get

  /** The abstract file after one operation; `Get` is a hand-out by the request context. */
  function After(v: View, op: Op): View {
    match op
    case Read(n) => if n == 0 then v else ReadView(v, n).after
    case Seek(offset, whence) => SeekView(v, offset, whence).after
    case ReadBytes => v
    case Get => SeekView(v, 0, 0).after
  }

  function Run(v: View, ops: seq<Op>): View
    decreases |ops|
  {
    if ops == [] then v else Run(After(v, ops[0]), ops[1..])
  }

  /** The bytes a caller gets by reading up to the end in pieces of the given sizes. */
  function Drain(v: View, chunk: nat): seq<Byte>
    requires chunk > 0 && !v.closed
    decreases |v.content| - v.pos
  {
    if v.pos >= |v.content| then []
    else ReadView(v, chunk).result.bytes + Drain(ReadView(v, chunk).after, chunk)
  }

  /** What lies behind the position. */
  function Rest(v: View): seq<Byte> {
    if v.pos <= |v.content| then v.content[v.pos..] else []
  }

  lemma RestStep(v: View, chunk: nat)
    requires chunk > 0 && !v.closed
    ensures var o := ReadView(v, chunk);
            && o.after.content == v.content && !o.after.closed && !o.result.ReadClosed?
            && (o.result.Data? ==> Rest(v) == o.result.bytes + Rest(o.after) && v.pos < o.after.pos <= |v.content|)
            && (o.result.Data? ==> |o.result.bytes| == if chunk <= |Rest(v)| then chunk else |Rest(v)|)
            && (o.result.EndOfFile? ==> Rest(v) == [] && o.after == v)
  {
  }

  /** Reading in pieces of any size yields exactly what lies behind the position. */
  lemma {:induction false} DrainMeaning(v: View, chunk: nat)
    requires chunk > 0 && !v.closed
    ensures Drain(v, chunk) == Rest(v)
    decreases |v.content| - v.pos
  {
    RestStep(v, chunk);
    if v.pos < |v.content| { DrainMeaning(ReadView(v, chunk).after, chunk); }
  }

  /** Where a seek leads: an offset counted from the start, from the position or from the end. What
      is read afterwards is the content behind that place; a place before the start, or an unknown
      way of counting, is refused and changes nothing. */
  lemma SeekMeaning(v: View, offset: int, whence: int)
    requires !v.closed
    ensures var o := SeekView(v, offset, whence);
            && (whence == 0 && offset >= 0 ==> o.result == At(offset))
            && (whence == 1 && v.pos + offset >= 0 ==> o.result == At(v.pos + offset))
            && (whence == 2 && |v.content| + offset >= 0 ==> o.result == At(|v.content| + offset))
            && (whence == 2 && -|v.content| <= offset <= 0 ==> Rest(o.after) == v.content[|v.content| + offset..])
            && (whence == 1 && 0 <= offset <= |Rest(v)| ==> Rest(o.after) == Rest(v)[offset..])
            && (o.result.At? ==> o.after == v.(pos := o.result.pos))
            && (o.result.BadSeek? <==>
                  || whence < 0 || whence > 2
                  || offset + (if whence == 0 then 0 else if whence == 1 then v.pos else |v.content|) < 0)
            && (!o.result.At? ==> o.after == v)
  {
  }

  lemma {:induction false} RunKeepsContent(v: View, ops: seq<Op>)
    ensures Run(v, ops).content == v.content && Run(v, ops).closed == v.closed
    decreases |ops|
  {
    if ops != [] { RunKeepsContent(After(v, ops[0]), ops[1..]); }
  }

  /** Whatever was read or sought before, the next hand-out gives the whole original body again. */
  lemma GetYieldsWholeBody(body: seq<Byte>, ops: seq<Op>, chunk: nat)
    requires chunk > 0
    ensures var v := After(Run(View(body, 0, false), ops), Get);
            !v.closed && v.pos == 0 && Drain(v, chunk) == body
  {
    RunKeepsContent(View(body, 0, false), ops);
    var v := After(Run(View(body, 0, false), ops), Get);
    DrainMeaning(v, chunk);
    assert body[0..] == body;
  }

  // ----- the same on the objects

  /** One piece: some bytes off the front of what is left, or the end. */
  method ReadPiece(s: Storage, chunk: nat) returns (piece: seq<Byte>)
    requires chunk > 0 && !LookAt(s).closed
    modifies Cursor(s)
    ensures Rest(old(LookAt(s))) == piece + Rest(LookAt(s)) && (piece == [] ==> Rest(LookAt(s)) == [])
    ensures LookAt(s).content == old(LookAt(s)).content && !LookAt(s).closed
  {
    RestStep(LookAt(s), chunk);
    var r := ReadStorage(s, chunk);
    piece := if r.Data? then r.bytes else [];
  }

  lemma Moved(whole: seq<Byte>, done: seq<Byte>, piece: seq<Byte>, rest: seq<Byte>)
    requires whole == done + (piece + rest)
    ensures whole == (done + piece) + rest && |rest| == |piece + rest| - |piece|
  {
  }

  /** A caller that reads up to the end in pieces. */
  method ReadToEnd(s: Storage, chunk: nat) returns (bytes: seq<Byte>)
    requires chunk > 0 && !LookAt(s).closed
    modifies Cursor(s)
    ensures bytes == Rest(old(LookAt(s)))
    ensures LookAt(s).content == old(LookAt(s)).content && !LookAt(s).closed
  {
    bytes := [];
    ghost var whole, rest := Rest(LookAt(s)), Rest(LookAt(s));
    while true
      invariant LookAt(s).content == old(LookAt(s)).content && !LookAt(s).closed
      invariant Rest(LookAt(s)) == rest && whole == bytes + rest
      decreases |rest|
    {
      var piece := ReadPiece(s, chunk);
      if |piece| == 0 { break; }
      Moved(whole, bytes, piece, Rest(LookAt(s)));
      rest := Rest(LookAt(s));
      bytes := bytes + piece;
    }
  }

  /** Any sequence of calls on the context's storage moves it as the abstract file moves; the
      ledger, the cache and the unread body stay as they are. */
  method Perform(ctx: RequestContext, cfg: Config, stats: Stats, diskWorks: bool, ops: seq<Op>)
    requires ctx.storage.Some? && Sized(ctx.storage.value) && OnRecord(ctx.storage.value, stats)
    modifies ctx, stats, ctx.Footprint()
    ensures ctx.storage == old(ctx.storage) && ctx.body == old(ctx.body)
    ensures LookAt(ctx.storage.value) == Run(old(LookAt(ctx.storage.value)), ops)
    ensures stats.Books() == old(stats.Books()) && OnRecord(ctx.storage.value, stats)
  {
    var s := ctx.storage.value;
    for i := 0 to |ops|
      invariant ctx.storage == Some(s) && ctx.body == old(ctx.body)
      invariant Run(LookAt(s), ops[i..]) == Run(old(LookAt(s)), ops)
      invariant stats.Books() == old(stats.Books()) && OnRecord(s, stats)
    {
      assert ops[i..][0] == ops[i] && ops[i..][1..] == ops[i + 1..];
      match ops[i] {
        case Read(n) => var r := ReadStorage(s, n);
        case Seek(offset, whence) => var r := SeekStorage(s, offset, whence);
        case ReadBytes => var r := StorageBytes(s);
        case Get => var r := ctx.GetBodyStorage(cfg, stats, diskWorks);
      }
    }
  }

  /** A later user of the context: any calls, a second hand-out read to the end, the cleanup. */
  method UseAgain(ctx: RequestContext, cfg: Config, stats: Stats, diskWorks: bool, ops: seq<Op>, chunk: nat)
    returns (bytes: seq<Byte>)
    requires chunk > 0 && ctx.storage.Some? && Sized(ctx.storage.value) && OnRecord(ctx.storage.value, stats)
    requires !LookAt(ctx.storage.value).closed
    modifies ctx, stats, ctx.Footprint()
    ensures bytes == old(LookAt(ctx.storage.value).content)
    ensures stats.Books() == StorageLedger.Step(old(stats.Books()), StorageLedger.Close(SlotOf(old(ctx.storage.value))))
  {
    var s := ctx.storage.value;
    ghost var v := LookAt(s);
    Perform(ctx, cfg, stats, diskWorks, ops);
    RunKeepsContent(v, ops);
    var got := ctx.GetBodyStorage(cfg, stats, diskWorks);
    assert v.content[0..] == v.content;
    bytes := ReadToEnd(s, chunk);
    ctx.Cleanup(stats);
  }

  /** The life of a request body: handed out, read to the end, used in any way, handed out and
      read again, cleaned up. If it can be stored at all, both readers get the whole body, and the
      ledger records one creation and one close, which leave the counters as they were; otherwise
      nothing is recorded. */
  method Lifecycle(body: seq<Byte>, replacement: Option<seq<Byte>>, contentLength: int, maxBytes: int,
                   cfg: Config, stats: Stats, diskWorks: bool, ops: seq<Op>, chunk: nat)
    returns (first: Option<seq<Byte>>, second: Option<seq<Byte>>)
    requires chunk > 0
    modifies stats
    ensures first == second
    ensures first ==
              if replacement.Some? then replacement
              else if |body| <= maxBytes && (diskWorks || !StreamsToDisk(cfg, old(stats.diskBytes), contentLength)) then Some(body)
              else None
    ensures first.None? ==> stats.Books() == old(stats.Books())
    ensures first.Some? ==> exists disk ::
              stats.Books() == StorageLedger.Step(StorageLedger.Step(old(stats.Books()), StorageLedger.Create(disk, |first.value|)),
                                                  StorageLedger.Close(|old(stats.slots)|))
    ensures StorageLedger.Balanced(old(stats.Books())) ==> stats.Books() == old(stats.Books()).(slots := stats.slots)
  {
    var ctx := new RequestContext(body, replacement, contentLength, maxBytes);
    var got := ctx.GetBodyStorage(cfg, stats, diskWorks);
    if !got.Body? {
      ctx.Cleanup(stats);
      return None, None;
    }
    var s := got.s;
    ghost var whole := LookAt(s).content;
    assert whole[0..] == whole;
    var bytes := ReadToEnd(s, chunk);
    first := Some(bytes);
    bytes := UseAgain(ctx, cfg, stats, diskWorks, ops, chunk);
    second := Some(bytes);
    assert stats.Books() == StorageLedger.Step(StorageLedger.Step(old(stats.Books()), StorageLedger.Create(s.OnDisk?, |whole|)),
                                               StorageLedger.Close(|old(stats.slots)|));
    if StorageLedger.Balanced(old(stats.Books())) {
      StorageLedger.LifeLeavesNothing(old(stats.Books()), s.OnDisk?, |whole|);
    }
  }
}
