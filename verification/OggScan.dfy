/** The Opus duration scan over Ogg pages (`getOpusDuration`, common/audio.go); pages as in
    section 6 of RFC 3533, granule positions as in section 4 of RFC 7845. */
module OggScan {
  import opened Bytes
  import opened Options

  const CAPTURE: seq<Byte> := [0x4F, 0x67, 0x67, 0x53]
  const HEADER := 27
  const TWO_63 := 0x8000_0000_0000_0000
  const TWO_64 := 0x1_0000_0000_0000_0000
  const SAMPLE_RATE := 48000.0

  function LittleEndian(b: seq<Byte>): nat {
    if b == [] then 0 else b[0] + 256 * LittleEndian(b[1..])
  }

  /** `int64(binary.LittleEndian.Uint64(b))`. */
  function Signed64(b: seq<Byte>): int
    requires |b| == 8
  {
    var u := LittleEndian(b);
    if u >= TWO_63 then u - TWO_64 else u
  }

  function Sum(b: seq<Byte>): nat {
    if b == [] then 0 else b[0] + Sum(b[1..])
  }

  predicate CaptureAt(data: seq<Byte>, pos: nat) {
    pos + 4 <= |data| && data[pos..pos + 4] == CAPTURE
  }

  function GranuleAt(data: seq<Byte>, pos: nat): int
    requires pos + HEADER <= |data|
  {
    Signed64(data[pos + 6..pos + 14])
  }

  /** The segment table of the page at pos. */
  function TableAt(data: seq<Byte>, pos: nat): seq<Byte>
    requires pos + HEADER <= |data| && pos + HEADER + data[pos + 26] <= |data|
  {
    data[pos + HEADER..pos + HEADER + data[pos + 26]]
  }

  predicate TableCutOff(data: seq<Byte>, pos: nat)
    requires pos + HEADER <= |data|
  {
    pos + HEADER + data[pos + 26] > |data|
  }

  /** The position right behind the page at pos. */
  function PageEnd(data: seq<Byte>, pos: nat): (end: nat)
    requires pos + HEADER <= |data| && !TableCutOff(data, pos)
    ensures end > pos
  {
    pos + HEADER + data[pos + 26] + Sum(TableAt(data, pos))
  }

  /** The positions at which the scan recognises a page. A truncated segment table ends it. */
  function PageStarts(data: seq<Byte>, pos: nat): (starts: seq<nat>)
    ensures forall i :: 0 <= i < |starts| ==> starts[i] + HEADER <= |data|
    decreases |data| - pos
  {
    if pos + HEADER > |data| then []
    else if !CaptureAt(data, pos) then PageStarts(data, pos + 1)
    else if TableCutOff(data, pos) then [pos]
    else [pos] + PageStarts(data, PageEnd(data, pos))
  }

  /** The scan loop from a position with the highest granule so far. */
  function ScanFrom(data: seq<Byte>, pos: nat, total: int): int
    decreases |data| - pos
  {
    if pos + HEADER > |data| then total
    else if !CaptureAt(data, pos) then ScanFrom(data, pos + 1, total)
    else if TableCutOff(data, pos) then Max(total, GranuleAt(data, pos))
    else ScanFrom(data, PageEnd(data, pos), Max(total, GranuleAt(data, pos)))
  }

  /** The highest granule position at the given places, at least zero. */
  function Highest(data: seq<Byte>, starts: seq<nat>): (g: int)
    requires forall i :: 0 <= i < |starts| ==> starts[i] + HEADER <= |data|
    ensures g >= 0
    ensures forall i :: 0 <= i < |starts| ==> GranuleAt(data, starts[i]) <= g
    ensures g == 0 || exists i :: 0 <= i < |starts| && g == GranuleAt(data, starts[i])
  {
    if starts == [] then 0
    else
      var rest := Highest(data, starts[1..]);
      var g := GranuleAt(data, starts[0]);
      assert forall i :: 0 < i < |starts| ==> starts[i] == starts[1..][i - 1];
      if g > rest then g else rest
  }

  function Max(a: int, b: int): int {
    if b > a then b else a
  }

  /** The running maximum is the highest granule position of the recognised pages. */
  lemma {:induction false} ScanIsHighest(data: seq<Byte>, pos: nat, total: int)
    requires total >= 0
    ensures ScanFrom(data, pos, total) == Max(total, Highest(data, PageStarts(data, pos)))
    decreases |data| - pos
  {
    if pos + HEADER <= |data| {
      if !CaptureAt(data, pos) {
        ScanIsHighest(data, pos + 1, total);
      } else if !TableCutOff(data, pos) {
        ScanIsHighest(data, PageEnd(data, pos), Max(total, GranuleAt(data, pos)));
        assert PageStarts(data, pos)[1..] == PageStarts(data, PageEnd(data, pos));
      }
    }
  }

  lemma Subslice(data: seq<Byte>, pos: nat, e: seq<Byte>, i: nat, j: nat)
    requires pos + |e| <= |data| && data[pos..pos + |e|] == e && i <= j <= |e|
    ensures data[pos + i..pos + j] == e[i..j]
  {
    var a, b := data[pos + i..pos + j], e[i..j];
    forall k | 0 <= k < |a| ensures a[k] == b[k] {
      assert a[k] == data[pos + (i + k)] == data[pos..pos + |e|][i + k];
    }
  }

  lemma HeaderFields(data: seq<Byte>, pos: nat, header: seq<Byte>)
    requires pos + HEADER <= |data| && header == data[pos..pos + HEADER]
    ensures header[0..4] == CAPTURE <==> CaptureAt(data, pos)
    ensures Signed64(header[6..14]) == GranuleAt(data, pos)
    ensures header[26] == data[pos + 26]
  {
    Subslice(data, pos, header, 0, 4);
    Subslice(data, pos, header, 6, 14);
  }

  /** One read of the loop at pos: the granule position and the end of a page there. */
  method ReadPage(data: seq<Byte>, pos: nat) returns (found: bool, granule: int, end: Option<nat>)
    requires pos + HEADER <= |data|
    ensures found == CaptureAt(data, pos)
    ensures found ==> granule == GranuleAt(data, pos)
    ensures found ==> end == if TableCutOff(data, pos) then None else Some(PageEnd(data, pos))
  {
    var header := data[pos..pos + HEADER];
    HeaderFields(data, pos, header);
    if header[0..4] != CAPTURE {
      return false, 0, None;
    }
    granule := Signed64(header[6..14]);
    var numSegments := header[26];
    if pos + HEADER + numSegments > |data| {
      return true, granule, None;
    }
    var pageSize := SumSegments(data[pos + HEADER..pos + HEADER + numSegments]);
    return true, granule, Some(pos + HEADER + numSegments + pageSize);
  }

  /** The scan over any bytes: it ends, and yields the highest granule position of the pages it recognised. */
  method OpusDuration(data: seq<Byte>) returns (duration: real)
    ensures duration == Highest(data, PageStarts(data, 0)) as real / 48000.0
  {
    var pos: nat, total := 0, 0;
    while pos + HEADER <= |data|
      invariant ScanFrom(data, pos, total) == ScanFrom(data, 0, 0)
      decreases |data| - pos
    {
      var found, granule, end := ReadPage(data, pos);
      if !found {
        pos := pos + 1;
      } else {
        if granule > total {
          total := granule;
        }
        if end.None? {
          assert total == ScanFrom(data, 0, 0);
          break;
        }
        pos := end.value;
      }
    }
    ScanIsHighest(data, 0, 0);
    duration := total as real / SAMPLE_RATE;
  }

  method SumSegments(segments: seq<Byte>) returns (size: nat)
    ensures size == Sum(segments)
  {
    size := 0;
    for i := 0 to |segments|
      invariant size + Sum(segments[i..]) == Sum(segments)
    {
      assert segments[i..][0] == segments[i] && segments[i..][1..] == segments[i + 1..];
      size := size + segments[i];
    }
  }

  // ----- well-formed streams

  datatype Page = Page(version: Byte, flags: Byte, granule: int, middle: seq<Byte>, segments: seq<Byte>, body: seq<Byte>)

  predicate WellFormed(p: Page) {
    && -TWO_63 <= p.granule < TWO_63
    && |p.middle| == 12
    && |p.segments| <= 255
    && |p.body| == Sum(p.segments)
  }

  function EncodeLE(n: nat, width: nat): (b: seq<Byte>)
    ensures |b| == width
  {
    if width == 0 then [] else [n % 256] + EncodeLE(n / 256, width - 1)
  }

  function Unsigned(granule: int): nat
    requires -TWO_63 <= granule < TWO_63
  {
    if granule < 0 then granule + TWO_64 else granule
  }

  /** Header, segment table, body; serial number, sequence number and checksum are `middle`. */
  function EncodePage(p: Page): seq<Byte>
    requires WellFormed(p)
  {
    CAPTURE + [p.version, p.flags] + EncodeLE(Unsigned(p.granule), 8) + p.middle + [|p.segments|] + p.segments + p.body
  }

  predicate AllWellFormed(pages: seq<Page>) {
    forall i :: 0 <= i < |pages| ==> WellFormed(pages[i])
  }

  function EncodePages(pages: seq<Page>): seq<Byte>
    requires AllWellFormed(pages)
  {
    if pages == [] then [] else EncodePage(pages[0]) + EncodePages(pages[1..])
  }

  /** Where the pages begin. */
  function Offsets(pages: seq<Page>, base: nat): seq<nat>
    requires AllWellFormed(pages)
  {
    if pages == [] then [] else [base] + Offsets(pages[1..], base + |EncodePage(pages[0])|)
  }

  /** The highest granule position of the pages, at least zero. */
  function HighestGranule(pages: seq<Page>): int {
    if pages == [] then 0 else Max(HighestGranule(pages[1..]), pages[0].granule)
  }

  function Pow256(w: nat): nat {
    if w == 0 then 1 else 256 * Pow256(w - 1)
  }

  lemma {:induction false} LittleEndianRoundTrip(n: nat, width: nat)
    requires n < Pow256(width)
    ensures LittleEndian(EncodeLE(n, width)) == n
  {
    if width > 0 {
      LittleEndianRoundTrip(n / 256, width - 1);
      assert EncodeLE(n, width)[1..] == EncodeLE(n / 256, width - 1);
    }
  }

  lemma GranuleRoundTrip(granule: int)
    requires -TWO_63 <= granule < TWO_63
    ensures Signed64(EncodeLE(Unsigned(granule), 8)) == granule
  {
    assert Pow256(8) == TWO_64 by {
      assert Pow256(2) == 0x1_0000;
      assert Pow256(4) == 0x1_0000_0000;
      assert Pow256(6) == 0x1_0000_0000_0000;
    }
    LittleEndianRoundTrip(Unsigned(granule), 8);
  }

  /** Where the fields of an encoded page lie. */
  lemma PageLayout(p: Page)
    requires WellFormed(p)
    ensures var e, n := EncodePage(p), |p.segments|;
            && |e| == HEADER + n + Sum(p.segments)
            && e[0..4] == CAPTURE && e[26] == n
            && e[6..14] == EncodeLE(Unsigned(p.granule), 8)
            && e[HEADER..HEADER + n] == p.segments
  {
  }

  predicate NoCapture(b: seq<Byte>) {
    forall i :: 0 <= i < |b| ==> !CaptureAt(b, i)
  }

  /** No page is found in a rest without the capture pattern. */
  lemma {:induction false} NoPageInRest(data: seq<Byte>, pos: nat)
    requires forall i :: pos <= i < |data| ==> !CaptureAt(data, i)
    ensures PageStarts(data, pos) == []
    decreases |data| - pos
  {
    if pos + HEADER <= |data| { NoPageInRest(data, pos + 1); }
  }

  /** The bytes of e lie at pos. */
  predicate LiesAt(data: seq<Byte>, pos: nat, e: seq<Byte>) {
    pos + |e| <= |data| && data[pos..pos + |e|] == e
  }

  lemma PageHeader(data: seq<Byte>, p: Page, pos: nat)
    requires WellFormed(p) && LiesAt(data, pos, EncodePage(p))
    ensures pos + HEADER <= |data| && CaptureAt(data, pos) && data[pos + 26] == |p.segments|
    ensures GranuleAt(data, pos) == p.granule
  {
    var e := EncodePage(p);
    PageLayout(p);
    GranuleRoundTrip(p.granule);
    Subslice(data, pos, e, 0, 4);
    Subslice(data, pos, e, 6, 14);
    Subslice(data, pos, e, 26, 27);
    assert data[pos + 26] == data[pos + 26..pos + 27][0] == e[26..27][0];
  }

  /** A page with this segment table ends right behind its bytes. */
  lemma TablePlaced(data: seq<Byte>, e: seq<Byte>, pos: nat, segments: seq<Byte>)
    requires LiesAt(data, pos, e) && |e| == HEADER + |segments| + Sum(segments)
    requires e[HEADER..HEADER + |segments|] == segments && data[pos + 26] == |segments|
    ensures !TableCutOff(data, pos) && PageEnd(data, pos) == pos + |e|
  {
    Subslice(data, pos, e, HEADER, HEADER + |segments|);
    assert TableAt(data, pos) == segments;
  }

  lemma PageTable(data: seq<Byte>, p: Page, pos: nat)
    requires WellFormed(p) && LiesAt(data, pos, EncodePage(p))
    ensures pos + HEADER <= |data| && !TableCutOff(data, pos) && PageEnd(data, pos) == pos + |EncodePage(p)|
  {
    PageHeader(data, p, pos);
    PageLayout(p);
    TablePlaced(data, EncodePage(p), pos, p.segments);
  }

  /** One page at pos: the scan takes it and goes on right behind it. */
  lemma PageStep(data: seq<Byte>, p: Page, pos: nat)
    requires WellFormed(p) && LiesAt(data, pos, EncodePage(p))
    ensures PageStarts(data, pos) == [pos] + PageStarts(data, pos + |EncodePage(p)|)
  {
    PageHeader(data, p, pos);
    PageTable(data, p, pos);
  }

  /** The first page of several lies at pos, the others behind it. */
  lemma PagesApart(data: seq<Byte>, pages: seq<Page>, pos: nat)
    requires AllWellFormed(pages) && pages != [] && LiesAt(data, pos, EncodePages(pages))
    ensures LiesAt(data, pos, EncodePage(pages[0]))
    ensures LiesAt(data, pos + |EncodePage(pages[0])|, EncodePages(pages[1..]))
  {
    var e, first, rest := EncodePages(pages), EncodePage(pages[0]), EncodePages(pages[1..]);
    assert e == first + rest;
    assert e[0..|first|] == first && e[|first|..|e|] == rest;
    Subslice(data, pos, e, 0, |first|);
    Subslice(data, pos, e, |first|, |e|);
  }

  /** The beginnings of several pages: the first one's, then the others'. */
  lemma OffsetsCons(pages: seq<Page>, pos: nat, behind: seq<nat>)
    requires AllWellFormed(pages) && pages != []
    ensures Offsets(pages, pos) + behind == [pos] + (Offsets(pages[1..], pos + |EncodePage(pages[0])|) + behind)
    ensures |EncodePages(pages)| == |EncodePage(pages[0])| + |EncodePages(pages[1..])|
  {
  }

  /** Consecutive pages: the scan lands on exactly their beginnings. */
  lemma {:induction false} PagesScan(data: seq<Byte>, pages: seq<Page>, pos: nat, end: nat)
    requires AllWellFormed(pages) && LiesAt(data, pos, EncodePages(pages)) && end == pos + |EncodePages(pages)|
    ensures PageStarts(data, pos) == Offsets(pages, pos) + PageStarts(data, end)
  {
    var behind := PageStarts(data, end);
    if pages == [] {
      assert Offsets(pages, pos) + behind == behind;
    } else {
      var next := pos + |EncodePage(pages[0])|;
      OffsetsCons(pages, pos, behind);
      PagesApart(data, pages, pos);
      PageStep(data, pages[0], pos);
      PagesScan(data, pages[1..], next, end);
    }
  }

  /** The granule position found at a page's beginning is the page's own. */
  ghost predicate GranulesMatch(data: seq<Byte>, pages: seq<Page>, starts: seq<nat>) {
    && |starts| == |pages|
    && forall i :: 0 <= i < |pages| ==> starts[i] + HEADER <= |data| && GranuleAt(data, starts[i]) == pages[i].granule
  }

  lemma {:induction false} PagesGranules(data: seq<Byte>, pages: seq<Page>, pos: nat)
    requires AllWellFormed(pages) && LiesAt(data, pos, EncodePages(pages))
    ensures GranulesMatch(data, pages, Offsets(pages, pos))
  {
    if pages != [] {
      var next := pos + |EncodePage(pages[0])|;
      PagesApart(data, pages, pos);
      PageHeader(data, pages[0], pos);
      PagesGranules(data, pages[1..], next);
      GranulesCons(data, pages, pos, Offsets(pages[1..], next));
    }
  }

  lemma GranulesCons(data: seq<Byte>, pages: seq<Page>, pos: nat, rest: seq<nat>)
    requires pages != [] && GranulesMatch(data, pages[1..], rest)
    requires pos + HEADER <= |data| && GranuleAt(data, pos) == pages[0].granule
    ensures GranulesMatch(data, pages, [pos] + rest)
  {
  }

  /** Leading junk is skipped byte by byte; the pattern cannot start inside it, not even across its end. */
  lemma {:induction false} JunkSkipped(data: seq<Byte>, start: nat, pos: nat)
    requires pos <= start && start + HEADER <= |data| && CaptureAt(data, start)
    requires NoCapture(data[..start])
    ensures PageStarts(data, pos) == PageStarts(data, start)
    decreases start - pos
  {
    if pos < start {
      assert !CaptureAt(data[..start], pos);
      assert !CaptureAt(data, pos) by {
        var k := start - pos;
        if k < 4 {
          assert data[start] == data[start..start + 4][0] == 0x4F;
          assert pos + 4 <= |data| && data[pos..pos + 4][k] == data[start];
        } else {
          assert data[..start][pos..pos + 4] == data[pos..pos + 4];
        }
      }
      JunkSkipped(data, start, pos + 1);
    }
  }

  lemma {:induction false} HighestOfPages(data: seq<Byte>, pages: seq<Page>, starts: seq<nat>)
    requires GranulesMatch(data, pages, starts)
    ensures Highest(data, starts) == HighestGranule(pages)
  {
    if pages != [] {
      assert GranulesMatch(data, pages[1..], starts[1..]);
      HighestOfPages(data, pages[1..], starts[1..]);
    }
  }

  /** A stream of well-formed pages, with junk before and after that does not hold the capture
      pattern, is scanned page by page, and the duration is that of the highest granule position. */
  lemma WellFormedStream(junk: seq<Byte>, pages: seq<Page>, tail: seq<Byte>)
    requires AllWellFormed(pages) && pages != []
    requires NoCapture(junk) && NoCapture(tail)
    ensures var data := junk + EncodePages(pages) + tail;
            && PageStarts(data, 0) == Offsets(pages, |junk|)
            && Highest(data, PageStarts(data, 0)) == HighestGranule(pages)
  {
    var e := EncodePages(pages);
    var data, start, end := junk + e + tail, |junk|, |junk| + |e|;
    assert data[start..end] == e && data[..start] == junk && data[end..] == tail;
    StreamAt(data, start, end, pages);
  }

  lemma StreamAt(data: seq<Byte>, start: nat, end: nat, pages: seq<Page>)
    requires AllWellFormed(pages) && pages != []
    requires start <= end <= |data| && data[start..end] == EncodePages(pages)
    requires NoCapture(data[..start]) && NoCapture(data[end..])
    ensures PageStarts(data, 0) == Offsets(pages, start)
    ensures Highest(data, PageStarts(data, 0)) == HighestGranule(pages)
  {
    PagesScan(data, pages, start, end);
    PagesGranules(data, pages, start);
    PagesApart(data, pages, start);
    PageHeader(data, pages[0], start);
    JunkSkipped(data, start, 0);
    TailQuiet(data, end);
    HighestOfPages(data, pages, Offsets(pages, start));
  }

  lemma TailQuiet(data: seq<Byte>, end: nat)
    requires end <= |data| && NoCapture(data[end..])
    ensures PageStarts(data, end) == []
  {
    var tail := data[end..];
    forall i | end <= i < |data| ensures !CaptureAt(data, i) {
      assert !CaptureAt(tail, i - end);
      assert i + 4 <= |data| ==> data[i..i + 4] == tail[i - end..i - end + 4];
    }
    NoPageInRest(data, end);
  }
}
