/** Request bodies kept in memory or in a disk cache file behind one interface
    (common/body_storage.go, common/disk_cache_config.go, common/gin.go). */
module BodyStorage {
  import opened Bytes
  import opened Options
  import opened StorageLedger

  // ----- the abstract file

  datatype View = View(content: seq<Byte>, pos: nat, closed: bool)

  datatype ReadResult = Data(bytes: seq<Byte>) | EndOfFile | ReadClosed

  datatype SeekResult = At(pos: nat) | BadSeek | SeekClosed

  datatype ReadOutcome = ReadOutcome(result: ReadResult, after: View)

  datatype SeekOutcome = SeekOutcome(result: SeekResult, after: View)

  /** Reading up to n > 0 bytes. */
  function ReadView(v: View, n: nat): ReadOutcome {
    if v.closed then ReadOutcome(ReadClosed, v)
    else if v.pos >= |v.content| then ReadOutcome(EndOfFile, v)
    else
      var end := if v.pos + n <= |v.content| then v.pos + n else |v.content|;
      ReadOutcome(Data(v.content[v.pos..end]), v.(pos := end))
  }

  /** Seeking from the start (0), the position (1) or the end (2); past the end is allowed. */
  function SeekView(v: View, offset: int, whence: int): SeekOutcome {
    if v.closed then SeekOutcome(SeekClosed, v)
    else
      var target := offset + (if whence == 0 then 0 else if whence == 1 then v.pos else |v.content|);
      if whence < 0 || whence > 2 || target < 0 then SeekOutcome(BadSeek, v)
      else SeekOutcome(At(target), v.(pos := target))
  }

  // ----- the usage counters

  /** The global counters; `slots` records every storage ever created. */
  class Stats {
    ghost var slots: seq<Slot>
    var diskFiles: int
    var diskBytes: int
    var memoryBuffers: int
    var memoryBytes: int

    constructor ()
      ensures Books() == Ledger([], 0, 0, 0, 0)
    {
      slots, diskFiles, diskBytes, memoryBuffers, memoryBytes := [], 0, 0, 0, 0;
    }

    ghost function Books(): Ledger
      reads this
    {
      Ledger(slots, diskFiles, diskBytes, memoryBuffers, memoryBytes)
    }

    method IncrementDisk(size: int)
      modifies this
      ensures diskFiles == old(diskFiles) + 1 && diskBytes == old(diskBytes) + size
      ensures memoryBuffers == old(memoryBuffers) && memoryBytes == old(memoryBytes) && slots == old(slots)
    {
      diskFiles := diskFiles + 1;
      diskBytes := diskBytes + size;
    }

    /** Clamps at zero. */
    method DecrementDisk(size: int)
      modifies this
      ensures diskFiles == AtLeastZero(old(diskFiles) - 1) && diskBytes == AtLeastZero(old(diskBytes) - size)
      ensures memoryBuffers == old(memoryBuffers) && memoryBytes == old(memoryBytes) && slots == old(slots)
    {
      diskFiles := diskFiles - 1;
      if diskFiles < 0 { diskFiles := 0; }
      diskBytes := diskBytes - size;
      if diskBytes < 0 { diskBytes := 0; }
    }

    method IncrementMemory(size: int)
      modifies this
      ensures memoryBuffers == old(memoryBuffers) + 1 && memoryBytes == old(memoryBytes) + size
      ensures diskFiles == old(diskFiles) && diskBytes == old(diskBytes) && slots == old(slots)
    {
      memoryBuffers := memoryBuffers + 1;
      memoryBytes := memoryBytes + size;
    }

    method DecrementMemory(size: int)
      modifies this
      ensures memoryBuffers == old(memoryBuffers) - 1 && memoryBytes == old(memoryBytes) - size
      ensures diskFiles == old(diskFiles) && diskBytes == old(diskBytes) && slots == old(slots)
    {
      memoryBuffers := memoryBuffers - 1;
      memoryBytes := memoryBytes - size;
    }
  }

  // ----- the memory storage

  class MemoryStorage {
    const data: seq<Byte>
    var index: nat
    var closed: bool
    ghost const slot: nat

    constructor (data: seq<Byte>, stats: Stats)
      modifies stats
      ensures Look() == View(data, 0, false) && Registered(stats) && slot == |old(stats.slots)|
      ensures stats.Books() == Step(old(stats.Books()), Create(false, |data|))
    {
      this.data := data;
      index, closed := 0, false;
      slot := |stats.slots|;
      new;
      stats.IncrementMemory(|data|);
      stats.slots := stats.slots + [Slot(false, |data|, false)];
    }

    /** The ledger has this storage on record. */
    ghost predicate Registered(stats: Stats)
      reads this, stats
    {
      slot < |stats.slots| && stats.slots[slot] == Slot(false, |data|, closed)
    }

    function Look(): View
      reads this
    {
      View(data, index, closed)
    }

    /** `bytes.Reader.Read` behind the closed check; reading nothing at the end is still the end. */
    method Read(n: nat) returns (r: ReadResult)
      modifies this
      ensures n > 0 ==> ReadOutcome(r, Look()) == ReadView(old(Look()), n)
      ensures n == 0 ==> Look() == old(Look()) && (r == EndOfFile <==> !closed && index >= |data|)
    {
      if closed { return ReadClosed; }
      if index >= |data| { return EndOfFile; }
      var end := if index + n <= |data| then index + n else |data|;
      r := Data(data[index..end]);
      index := end;
    }

    method Seek(offset: int, whence: int) returns (r: SeekResult)
      modifies this
      ensures SeekOutcome(r, Look()) == SeekView(old(Look()), offset, whence)
    {
      if closed { return SeekClosed; }
      var target: int;
      if whence == 0 { target := offset; }
      else if whence == 1 { target := index + offset; }
      else if whence == 2 { target := |data| + offset; }
      else { return BadSeek; }
      if target < 0 { return BadSeek; }
      index := target;
      return At(target);
    }

    method ReadBytes() returns (r: Option<seq<Byte>>)
      ensures r == if closed then None else Some(data)
    {
      if closed { return None; }
      return Some(data);
    }

    /** Only the first close counts. */
    method Close(stats: Stats)
      requires Registered(stats)
      modifies this, stats
      ensures Look() == old(Look()).(closed := true) && Registered(stats)
      ensures stats.Books() == Step(old(stats.Books()), StorageLedger.Close(slot))
    {
      if !closed {
        closed := true;
        stats.DecrementMemory(|data|);
        stats.slots := stats.slots[slot := Slot(false, |data|, true)];
      }
    }
  }

  // ----- the disk storage

  /** An open file of the operating system. */
  class OsFile {
    const content: seq<Byte>
    var offset: nat

    constructor (content: seq<Byte>)
      ensures this.content == content && offset == 0
    {
      this.content := content;
      offset := 0;
    }

    method Read(n: nat) returns (r: ReadResult)
      modifies this
      ensures n > 0 ==> ReadOutcome(r, View(content, offset, false)) == ReadView(View(content, old(offset), false), n)
      ensures n == 0 ==> r == Data([]) && offset == old(offset)
    {
      if n == 0 { return Data([]); }
      if offset >= |content| { return EndOfFile; }
      var end := if offset + n <= |content| then offset + n else |content|;
      r := Data(content[offset..end]);
      offset := end;
    }

    method Seek(at: int, whence: int) returns (r: SeekResult)
      modifies this
      ensures SeekOutcome(r, View(content, offset, false)) == SeekView(View(content, old(offset), false), at, whence)
    {
      if whence < 0 || whence > 2 { return BadSeek; }
      var target := at + (if whence == 0 then 0 else if whence == 1 then offset else |content|);
      if target < 0 { return BadSeek; }
      offset := target;
      return At(target);
    }
  }

  class DiskStorage {
    const file: OsFile
    const size: nat
    var closed: bool
    ghost const slot: nat

    constructor (data: seq<Byte>, stats: Stats)
      modifies stats
      ensures fresh(file) && Look() == View(data, 0, false) && size == |data|
      ensures Registered(stats) && slot == |old(stats.slots)|
      ensures stats.Books() == Step(old(stats.Books()), Create(true, |data|))
    {
      file := new OsFile(data);
      size, closed := |data|, false;
      slot := |stats.slots|;
      new;
      stats.IncrementDisk(|data|);
      stats.slots := stats.slots + [Slot(true, |data|, false)];
    }

    ghost predicate Registered(stats: Stats)
      reads this, stats
    {
      slot < |stats.slots| && stats.slots[slot] == Slot(true, size, closed)
    }

    function Look(): View
      reads this, file
    {
      View(file.content, file.offset, closed)
    }

    method Read(n: nat) returns (r: ReadResult)
      modifies file
      ensures n > 0 ==> ReadOutcome(r, Look()) == ReadView(old(Look()), n)
      ensures n == 0 ==> Look() == old(Look()) && r == if closed then ReadClosed else Data([])
    {
      if closed { return ReadClosed; }
      r := file.Read(n);
    }

    method Seek(offset: int, whence: int) returns (r: SeekResult)
      modifies file
      ensures SeekOutcome(r, Look()) == SeekView(old(Look()), offset, whence)
    {
      if closed { return SeekClosed; }
      r := file.Seek(offset, whence);
    }

    /** Reads the whole file and puts the position back. */
    method ReadBytes() returns (r: Option<seq<Byte>>)
      requires size == |file.content|
      modifies file
      ensures Look() == old(Look())
      ensures r == if closed then None else Some(file.content)
    {
      if closed { return None; }
      var current := file.Seek(0, 1);
      var back := file.Seek(0, 0);
      var data := file.Read(size);
      assert file.content[0..size] == file.content;
      r := if data.Data? then Some(data.bytes) else None;
      back := file.Seek(current.pos, 0);
    }

    method Close(stats: Stats)
      requires Registered(stats)
      modifies this, stats
      ensures Look() == old(Look()).(closed := true) && Registered(stats)
      ensures stats.Books() == Step(old(stats.Books()), StorageLedger.Close(slot))
    {
      if !closed {
        closed := true;
        stats.DecrementDisk(size);
        stats.slots := stats.slots[slot := Slot(true, size, true)];
      }
    }
  }

  // ----- choosing a storage

  datatype Config = Config(enabled: bool, threshold: int, maxBytes: int)

  datatype Storage = InMemory(m: MemoryStorage) | OnDisk(d: DiskStorage)

  function LookAt(s: Storage): View
    reads match s case InMemory(m) => {m} case OnDisk(d) => {d, d.file}
  {
    match s
    case InMemory(m) => m.Look()
    case OnDisk(d) => d.Look()
  }

  ghost predicate OnRecord(s: Storage, stats: Stats)
    reads stats, match s case InMemory(m) => {m} case OnDisk(d) => {d, d.file}
  {
    match s
    case InMemory(m) => m.Registered(stats)
    case OnDisk(d) => d.Registered(stats)
  }

  /** The storage's place in the ledger. */
  ghost function SlotOf(s: Storage): nat {
    match s
    case InMemory(m) => m.slot
    case OnDisk(d) => d.slot
  }

  /** The recorded size of a disk storage is that of its file. */
  ghost predicate Sized(s: Storage) {
    s.OnDisk? ==> s.d.size == |s.d.file.content|
  }

  predicate Available(cfg: Config, usage: int, size: int) {
    cfg.enabled && usage + size <= cfg.maxBytes
  }

  predicate UsesDisk(cfg: Config, usage: int, size: int) {
    cfg.enabled && size >= cfg.threshold && Available(cfg, usage, size)
  }

  /** `CreateBodyStorage`; `diskWorks` is whether the cache file can be created and written. */
  method CreateStorage(cfg: Config, stats: Stats, data: seq<Byte>, diskWorks: bool) returns (s: Storage)
    modifies stats
    ensures LookAt(s) == View(data, 0, false) && Fresh(s) && OnRecord(s, stats) && SlotOf(s) == |old(stats.slots)|
    ensures s.OnDisk? <==> cfg.enabled && |data| >= cfg.threshold && old(stats.diskBytes) + |data| <= cfg.maxBytes && diskWorks
    ensures s.OnDisk? ==> s.d.size == |data|
    ensures stats.Books() == Step(old(stats.Books()), Create(s.OnDisk?, |data|))
  {
    if cfg.enabled && |data| >= cfg.threshold && Available(cfg, stats.diskBytes, |data|) {
      if diskWorks {
        var d := new DiskStorage(data, stats);
        return OnDisk(d);
      }
    }
    var m := new MemoryStorage(data, stats);
    return InMemory(m);
  }

  twostate predicate Fresh(new s: Storage)
  {
    match s
    case InMemory(m) => fresh(m)
    case OnDisk(d) => fresh(d) && fresh(d.file)
  }

  datatype Created = Ok(s: Storage) | TooLarge | DiskFailed

  /** `io.LimitReader` drained. */
  function Limited(body: seq<Byte>, n: int): seq<Byte> {
    if n <= 0 then [] else if n >= |body| then body else body[..n]
  }

  predicate StreamsToDisk(cfg: Config, usage: int, contentLength: int) {
    contentLength > 0 && UsesDisk(cfg, usage, contentLength)
  }

  /** `CreateBodyStorageFromReader`: whatever the route, it succeeds exactly when the body is
      within the limit (and a disk it streams to works), with the whole body as content. */
  method CreateFromReader(cfg: Config, stats: Stats, body: seq<Byte>, contentLength: int, maxBytes: int, diskWorks: bool)
    returns (r: Created)
    modifies stats
    ensures r.DiskFailed? <==>
              && !diskWorks && cfg.enabled && contentLength > 0 && contentLength >= cfg.threshold
              && old(stats.diskBytes) + contentLength <= cfg.maxBytes
    ensures r.Ok? && r.s.OnDisk? ==>
              cfg.enabled && diskWorks && (contentLength >= cfg.threshold || |body| >= cfg.threshold)
    ensures r.TooLarge? <==> !r.DiskFailed? && |body| > maxBytes
    ensures r.Ok? ==> LookAt(r.s) == View(body, 0, false) && Fresh(r.s)
    ensures r.Ok? ==> OnRecord(r.s, stats) && SlotOf(r.s) == |old(stats.slots)|
    ensures r.Ok? && r.s.OnDisk? ==> r.s.d.size == |body|
    ensures stats.Books() == if r.Ok? then Step(old(stats.Books()), Create(r.s.OnDisk?, |body|)) else old(stats.Books())
  {
    var data := Limited(body, maxBytes + 1);
    if cfg.enabled && contentLength > 0 && contentLength >= cfg.threshold && Available(cfg, stats.diskBytes, contentLength) {
      if !diskWorks { return DiskFailed; }
      if |data| > maxBytes { return TooLarge; }
      var d := new DiskStorage(data, stats);
      return Ok(OnDisk(d));
    }
    if |data| > maxBytes { return TooLarge; }
    var s := CreateStorage(cfg, stats, data, diskWorks);
    return Ok(s);
  }

  // ----- the request context

  datatype Fetched = Body(s: Storage) | SeekFailed | NotCreated(why: Created) | BodyGone

  /** The per-request state: the cached storage, a body put in its place by a middleware, and the
      body until it has been read. */
  class RequestContext {
    var storage: Option<Storage>
    var replacement: Option<seq<Byte>>
    var body: Option<seq<Byte>>
    const contentLength: int
    const maxBytes: int

    constructor (body: seq<Byte>, replacement: Option<seq<Byte>>, contentLength: int, maxBytes: int)
      ensures storage == None && this.replacement == replacement && this.body == Some(body)
      ensures this.contentLength == contentLength && this.maxBytes == maxBytes
    {
      storage, this.replacement, this.body := None, replacement, Some(body);
      this.contentLength, this.maxBytes := contentLength, maxBytes;
    }

    ghost function Footprint(): set<object>
      reads this
    {
      match storage
      case None => {}
      case Some(InMemory(m)) => {m}
      case Some(OnDisk(d)) => {d, d.file}
    }

    /** `GetRequestBody`: a cached storage is rewound and handed back; otherwise the replacement,
        if there is one, or the body is stored once and cached. Either way the caller stands at offset 0 of the whole body. */
    method GetBodyStorage(cfg: Config, stats: Stats, diskWorks: bool) returns (r: Fetched)
      modifies this, stats, Footprint()
      ensures r.Body? ==> storage == Some(r.s)
      ensures !r.Body? ==> storage == old(storage)
      ensures body == (if old(storage).Some? || old(replacement).Some? then old(body) else None) && replacement == old(replacement)
      ensures old(storage).None? && r.Body? ==> OnRecord(r.s, stats) && SlotOf(r.s) == |old(stats.slots)| && Sized(r.s)
      ensures old(storage).Some? && old(OnRecord(storage.value, stats)) ==> OnRecord(storage.value, stats)
      ensures stats.Books() == if old(storage).None? && r.Body?
                then Step(old(stats.Books()), Create(r.s.OnDisk?, |LookAt(r.s).content|)) else old(stats.Books())
      ensures old(storage).Some? ==> storage == old(storage)
      ensures old(storage).Some? ==>
                var v := old(LookAt(storage.value));
                && LookAt(storage.value) == (if v.closed then v else v.(pos := 0))
                && r == if v.closed then SeekFailed else Body(storage.value)
      ensures old(storage).None? && old(replacement).Some? ==>
                r.Body? && LookAt(r.s) == View(old(replacement).value, 0, false) && Fresh(r.s)
      ensures old(storage).None? && old(replacement).None? && old(body).Some? ==>
                && (r.Body? ==> LookAt(r.s) == View(old(body).value, 0, false) && Fresh(r.s))
                && (r.Body? <==> |old(body).value| <= maxBytes && (diskWorks || !StreamsToDisk(cfg, old(stats.diskBytes), contentLength)))
                && (!r.Body? ==> r.NotCreated?)
      ensures old(storage).None? && old(replacement).None? && old(body).None? ==> r == BodyGone
    {
      if storage.Some? {
        var at := SeekStorage(storage.value, 0, 0);
        if !at.At? { return SeekFailed; }
        return Body(storage.value);
      }
      if replacement.Some? {
        var s := CreateStorage(cfg, stats, replacement.value, diskWorks);
        storage := Some(s);
        return Body(s);
      }
      if body.None? { return BodyGone; }
      var created := CreateFromReader(cfg, stats, body.value, contentLength, maxBytes, diskWorks);
      body := None;
      if !created.Ok? { return NotCreated(created); }
      storage := Some(created.s);
      return Body(created.s);
    }

    /** `CleanupBodyStorage`. */
    method Cleanup(stats: Stats)
      requires storage.Some? ==> OnRecord(storage.value, stats)
      modifies this, stats, Footprint()
      ensures storage == None && replacement == old(replacement) && body == old(body)
      ensures old(storage).Some? ==> LookAt(old(storage).value).closed
      ensures old(storage).None? ==> stats.Books() == old(stats.Books())
      ensures old(storage).Some? ==> stats.Books() == Step(old(stats.Books()), StorageLedger.Close(SlotOf(old(storage).value)))
    {
      if storage.Some? {
        match storage.value {
          case InMemory(m) => m.Close(stats);
          case OnDisk(d) => d.Close(stats);
        }
        storage := None;
      }
    }
  }

  /** What reading and seeking changes: the reader of a memory storage, the file of a disk storage. */
  ghost function Cursor(s: Storage): set<object> {
    match s
    case InMemory(m) => {m}
    case OnDisk(d) => {d.file}
  }

  method SeekStorage(s: Storage, offset: int, whence: int) returns (r: SeekResult)
    modifies Cursor(s)
    ensures SeekOutcome(r, LookAt(s)) == SeekView(old(LookAt(s)), offset, whence)
  {
    match s {
      case InMemory(m) => r := m.Seek(offset, whence);
      case OnDisk(d) => r := d.Seek(offset, whence);
    }
  }

  method ReadStorage(s: Storage, n: nat) returns (r: ReadResult)
    modifies Cursor(s)
    ensures n > 0 ==> ReadOutcome(r, LookAt(s)) == ReadView(old(LookAt(s)), n)
    ensures n == 0 ==> LookAt(s) == old(LookAt(s))
  {
    match s {
      case InMemory(m) => r := m.Read(n);
      case OnDisk(d) => r := d.Read(n);
    }
  }

  method StorageBytes(s: Storage) returns (r: Option<seq<Byte>>)
    requires Sized(s)
    modifies Cursor(s)
    ensures LookAt(s) == old(LookAt(s))
    ensures r == if LookAt(s).closed then None else Some(LookAt(s).content)
  {
    match s {
      case InMemory(m) => r := m.ReadBytes();
      case OnDisk(d) => r := d.ReadBytes();
    }
  }
}
