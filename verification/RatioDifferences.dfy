/** The price comparison between the local settings and the upstream channels
    (`buildDifferences`, controller/ratio_sync.go). */
module RatioDifferences {
  import opened Floats
  import opened Options

  /** A decoded pricing value; `Whole` stands for Go's integer types. */
  datatype Value = Null | Num(f: Float) | Whole(i: int) | Text(s: string) | Flag(b: bool)

  /** The marker that replaces an upstream value equal to the local one. */
  const SAME := Text("same")

  /** field -> model -> value. */
  type Pricing = map<string, map<string, Value>>

  datatype Channel = Channel(name: string, data: Pricing)

  datatype Item = Item(current: Value, upstreams: map<string, Value>, confidence: map<string, bool>)

  const NUMERIC_FIELDS := [
    "model_ratio", "completion_ratio", "cache_ratio", "create_cache_ratio",
    "image_ratio", "audio_ratio", "audio_completion_ratio", "model_price"]

  const FIELDS := NUMERIC_FIELDS + ["billing_mode", "billing_expr"]

  function Column(p: Pricing, field: string): map<string, Value> {
    if field in p then p[field] else map[]
  }

  function AsFloat(v: Value): Option<Float> {
    match v
    case Num(f) => Some(f)
    case Whole(i) => Some(Fin(i as real))
    case _ => None
  }

  /** `normalizeSyncValue`. */
  function Normalize(field: string, v: Value): Value {
    if field in NUMERIC_FIELDS && AsFloat(v).Some? then Num(AsFloat(v).value) else v
  }

  /** `valuesEqual`. */
  predicate ValuesEqual(a: Value, b: Value) {
    if a.Num? && b.Num? then NearlyEqual(a.f, b.f) else a == b
  }

  function ValueAt(p: Pricing, f: string, m: string): Value {
    if m in Column(p, f) then Normalize(f, Column(p, f)[m]) else Null
  }

  predicate Reports(c: Channel, f: string, m: string) {
    m in Column(c.data, f)
  }

  /** What is listed for a channel: its value, the marker, or nothing. */
  function Entry(lv: Value, c: Channel, f: string, m: string): Value {
    var uv := ValueAt(c.data, f, m);
    var marked := if Reports(c, f, m) && ValuesEqual(lv, uv) then SAME else uv;
    if marked == Null && lv == Null then SAME else marked
  }

  /** The channel raises `hasDifference`. */
  predicate Flags(lv: Value, c: Channel, f: string, m: string) {
    if lv == Null then Entry(lv, c, f, m) != Null && Entry(lv, c, f, m) != SAME
    else Reports(c, f, m) && !ValuesEqual(lv, ValueAt(c.data, f, m))
  }

  predicate AnyReports(channels: seq<Channel>, f: string, m: string) {
    channels != [] && (AnyReports(channels[..|channels| - 1], f, m) || Reports(channels[|channels| - 1], f, m))
  }

  predicate AnyFlags(lv: Value, channels: seq<Channel>, f: string, m: string) {
    channels != [] && (AnyFlags(lv, channels[..|channels| - 1], f, m) || Flags(lv, channels[|channels| - 1], f, m))
  }

  predicate Included(local: Pricing, channels: seq<Channel>, f: string, m: string) {
    var lv := ValueAt(local, f, m);
    if lv == Null then AnyReports(channels, f, m) else AnyFlags(lv, channels, f, m)
  }

  /** A price of 37.5 with a completion ratio of 1 is a placeholder, not to be trusted. */
  predicate Confident(c: Channel, m: string) {
    var ratios, completions := Column(c.data, "model_ratio"), Column(c.data, "completion_ratio");
    !(|ratios| > 0 && |completions| > 0 && m in ratios && m in completions
      && AsFloat(ratios[m]).Some? && AsFloat(completions[m]).Some?
      && NearlyEqual(AsFloat(ratios[m]).value, Fin(37.5)) && NearlyEqual(AsFloat(completions[m]).value, Fin(1.0)))
  }

  /** The entries by channel name; of equal names the last one counts. */
  function Entries(lv: Value, channels: seq<Channel>, f: string, m: string): map<string, Value> {
    if channels == [] then map[]
    else
      var c := channels[|channels| - 1];
      Entries(lv, channels[..|channels| - 1], f, m)[c.name := Entry(lv, c, f, m)]
  }

  function Confidences(channels: seq<Channel>, m: string): map<string, bool> {
    if channels == [] then map[]
    else
      var c := channels[|channels| - 1];
      Confidences(channels[..|channels| - 1], m)[c.name := Confident(c, m)]
  }

  function RawItem(local: Pricing, channels: seq<Channel>, f: string, m: string): Item {
    var lv := ValueAt(local, f, m);
    Item(lv, Entries(lv, channels, f, m), Confidences(channels, m))
  }

  predicate IsModel(local: Pricing, channels: seq<Channel>, m: string) {
    || (exists k :: 0 <= k < |FIELDS| && m in Column(local, FIELDS[k]))
    || (exists i, k :: 0 <= i < |channels| && 0 <= k < |FIELDS| && Reports(channels[i], FIELDS[k], m))
  }

  predicate Real(v: Value) {
    v != Null && v != SAME
  }

  /** The pair is compared and found different in the first pass. */
  predicate Compared(local: Pricing, channels: seq<Channel>, f: string, m: string) {
    f in FIELDS && IsModel(local, channels, m) && Included(local, channels, f, m)
  }

  /** The name has a real difference somewhere in the comparison. */
  ghost predicate Differing(local: Pricing, channels: seq<Channel>, name: string) {
    exists f, m :: Compared(local, channels, f, m) && HasReal(RawItem(local, channels, f, m), name)
  }

  predicate HasReal(item: Item, name: string) {
    name in item.upstreams && Real(item.upstreams[name])
  }

  ghost function DifferingNames(local: Pricing, channels: seq<Channel>): iset<string> {
    iset n | Differing(local, channels, n)
  }

  /** A compared pair on which one of the names is listed with anything but the marker. */
  ghost predicate SurvivesAmong(local: Pricing, channels: seq<Channel>, f: string, m: string, names: iset<string>) {
    Compared(local, channels, f, m) && exists n :: n in names && Unlike(RawItem(local, channels, f, m), n)
  }

  ghost predicate Survives(local: Pricing, channels: seq<Channel>, f: string, m: string) {
    SurvivesAmong(local, channels, f, m, DifferingNames(local, channels))
  }

  predicate Unlike(item: Item, name: string) {
    name in item.upstreams && item.upstreams[name] != SAME
  }

  /** An item reduced to the given names. */
  ghost predicate Reduced(item: Item, raw: Item, names: iset<string>) {
    && item.current == raw.current
    && (forall n :: n in item.upstreams <==> n in raw.upstreams && n in names)
    && (forall n :: n in item.upstreams ==> item.upstreams[n] == raw.upstreams[n])
    && (forall n :: n in item.confidence <==> n in raw.confidence && n in names)
    && (forall n :: n in item.confidence ==> item.confidence[n] == raw.confidence[n])
  }

  type Differences = map<string, map<string, Item>>

  predicate Listed(d: Differences, f: string, m: string) {
    m in d && f in d[m]
  }

  // ----- first pass

  method CollectModels(local: Pricing, channels: seq<Channel>) returns (models: set<string>)
    ensures forall m :: m in models <==> IsModel(local, channels, m)
  {
    models := {};
    for j := 0 to |FIELDS|
      invariant forall m :: m in models <==> exists k :: 0 <= k < j && m in Column(local, FIELDS[k])
    {
      models := models + Column(local, FIELDS[j]).Keys;
    }
    ghost var localModels := models;
    for i := 0 to |channels|
      invariant forall m :: m in models <==> m in localModels || exists h, k :: 0 <= h < i && 0 <= k < |FIELDS| && Reports(channels[h], FIELDS[k], m)
    {
      var add := {};
      for j := 0 to |FIELDS|
        invariant forall m :: m in add <==> exists k :: 0 <= k < j && Reports(channels[i], FIELDS[k], m)
      {
        add := add + Column(channels[i].data, FIELDS[j]).Keys;
      }
      models := models + add;
    }
  }

  /** One channel's value against the local one. */
  method CompareChannel(lv: Value, c: Channel, f: string, m: string) returns (uv: Value, reported: bool, differs: bool)
    ensures uv == Entry(lv, c, f, m)
    ensures reported == Reports(c, f, m)
    ensures differs == Flags(lv, c, f, m)
  {
    uv, reported, differs := Null, false, false;
    if m in Column(c.data, f) {
      uv := Normalize(f, Column(c.data, f)[m]);
      reported := true;
      if lv != Null && !ValuesEqual(lv, uv) {
        differs := true;
      } else if ValuesEqual(lv, uv) {
        uv := SAME;
      }
    }
    if uv == Null && lv == Null {
      uv := SAME;
    }
    if lv == Null && uv != Null && uv != SAME {
      differs := true;
    }
  }

  /** What one more channel adds to an item and to the two flags. */
  lemma PairTurn(lv: Value, channels: seq<Channel>, f: string, m: string, i: nat)
    requires i < |channels|
    ensures var c, seen, next := channels[i], channels[..i], channels[..i + 1];
            && Entries(lv, next, f, m) == Entries(lv, seen, f, m)[c.name := Entry(lv, c, f, m)]
            && Confidences(next, m) == Confidences(seen, m)[c.name := Confident(c, m)]
            && AnyReports(next, f, m) == (AnyReports(seen, f, m) || Reports(c, f, m))
            && AnyFlags(lv, next, f, m) == (AnyFlags(lv, seen, f, m) || Flags(lv, c, f, m))
  {
    assert channels[..i + 1][..i] == channels[..i];
  }

  /** One (field, model) pair against all channels. */
  method ComparePair(local: Pricing, channels: seq<Channel>, f: string, m: string) returns (item: Option<Item>)
    ensures item == if Included(local, channels, f, m) then Some(RawItem(local, channels, f, m)) else None
  {
    var lv := ValueAt(local, f, m);
    var upstreams: map<string, Value>, confidence: map<string, bool> := map[], map[];
    var hasUpstream, hasDifference := false, false;
    for i := 0 to |channels|
      invariant upstreams == Entries(lv, channels[..i], f, m)
      invariant confidence == Confidences(channels[..i], m)
      invariant hasUpstream == AnyReports(channels[..i], f, m)
      invariant hasDifference == AnyFlags(lv, channels[..i], f, m)
    {
      var c := channels[i];
      PairTurn(lv, channels, f, m, i);
      var uv, reported, differs := CompareChannel(lv, c, f, m);
      hasUpstream, hasDifference := hasUpstream || reported, hasDifference || differs;
      upstreams := upstreams[c.name := uv];
      confidence := confidence[c.name := Confident(c, m)];
    }
    assert channels[..|channels|] == channels;
    var included := if lv != Null then hasDifference else hasUpstream;
    item := if included then Some(Item(lv, upstreams, confidence)) else None;
  }

  /** The fields of one model that are included, with their items. */
  ghost predicate ModelRow(local: Pricing, channels: seq<Channel>, m: string, row: map<string, Item>) {
    forall f :: (f in row <==> f in FIELDS && Included(local, channels, f, m))
             && (f in row ==> row[f] == RawItem(local, channels, f, m))
  }

  method CompareModel(local: Pricing, channels: seq<Channel>, m: string) returns (row: map<string, Item>)
    ensures ModelRow(local, channels, m, row)
  {
    row := map[];
    for j := 0 to |FIELDS|
      invariant forall f :: (f in row <==> f in FIELDS[..j] && Included(local, channels, f, m))
                         && (f in row ==> row[f] == RawItem(local, channels, f, m))
    {
      var field := FIELDS[j];
      var item := ComparePair(local, channels, field, m);
      assert FIELDS[..j + 1] == FIELDS[..j] + [field];
      if item.Some? {
        row := row[field := item.value];
      }
    }
    assert FIELDS[..|FIELDS|] == FIELDS;
  }

  /** The whole first pass: exactly the compared pairs, with no empty model. */
  ghost predicate FirstPass(local: Pricing, channels: seq<Channel>, d: Differences) {
    && (forall f, m :: Listed(d, f, m) <==> Compared(local, channels, f, m))
    && (forall f, m :: Listed(d, f, m) ==> d[m][f] == RawItem(local, channels, f, m))
  }

  function RowOf(d: Differences, m: string): map<string, Item> {
    if m in d then d[m] else map[]
  }

  method CompareAll(local: Pricing, channels: seq<Channel>) returns (d: Differences)
    ensures FirstPass(local, channels, d)
  {
    var models := CollectModels(local, channels);
    d := map[];
    var todo := models;
    while todo != {}
      invariant todo <= models
      invariant forall m :: m in d ==> m in models && m !in todo
      invariant forall m :: m in models && m !in todo ==> ModelRow(local, channels, m, RowOf(d, m))
      decreases |todo|
    {
      var m :| m in todo;
      todo := todo - {m};
      var row := CompareModel(local, channels, m);
      if row != map[] {
        d := d[m := row];
      }
    }
    RowsAreFirstPass(local, channels, models, d);
  }

  lemma RowsAreFirstPass(local: Pricing, channels: seq<Channel>, models: set<string>, d: Differences)
    requires forall m :: m in models <==> IsModel(local, channels, m)
    requires forall m :: m in d ==> m in models
    requires forall m :: m in models ==> ModelRow(local, channels, m, RowOf(d, m))
    ensures FirstPass(local, channels, d)
  {
    forall f, m
      ensures Listed(d, f, m) <==> Compared(local, channels, f, m)
      ensures Listed(d, f, m) ==> d[m][f] == RawItem(local, channels, f, m)
    {
      assert Listed(d, f, m) <==> f in RowOf(d, m);
      if m in models {
        assert ModelRow(local, channels, m, RowOf(d, m));
      }
    }
  }

  // ----- marking the channels with a real difference

  method MarkItem(item: Item) returns (marked: set<string>)
    ensures forall n :: n in marked <==> HasReal(item, n)
  {
    marked := {};
    var todo := item.upstreams.Keys;
    while todo != {}
      invariant todo <= item.upstreams.Keys
      invariant forall n :: n in marked <==> n !in todo && HasReal(item, n)
      decreases |todo|
    {
      var n :| n in todo;
      todo := todo - {n};
      if item.upstreams[n] != Null && item.upstreams[n] != SAME {
        marked := marked + {n};
      }
    }
  }

  ghost predicate RowHasReal(row: map<string, Item>, n: string) {
    exists f :: f in row && HasReal(row[f], n)
  }

  method MarkModel(row: map<string, Item>) returns (marked: set<string>)
    ensures forall n :: n in marked <==> RowHasReal(row, n)
  {
    marked := {};
    var todo := row.Keys;
    while todo != {}
      invariant todo <= row.Keys
      invariant forall n :: n in marked <==> exists f :: f in row && f !in todo && HasReal(row[f], n)
      decreases |todo|
    {
      var f :| f in todo;
      todo := todo - {f};
      var more := MarkItem(row[f]);
      marked := marked + more;
    }
  }

  ghost predicate AnyReal(d: Differences, n: string) {
    exists m :: m in d && RowHasReal(d[m], n)
  }

  method MarkChannels(d: Differences) returns (marked: set<string>)
    ensures forall n :: n in marked <==> AnyReal(d, n)
  {
    marked := {};
    var todo := d.Keys;
    while todo != {}
      invariant todo <= d.Keys
      invariant forall n :: n in marked <==> exists m :: m in d && m !in todo && RowHasReal(d[m], n)
      decreases |todo|
    {
      var m :| m in todo;
      todo := todo - {m};
      var more := MarkModel(d[m]);
      marked := marked + more;
    }
  }

  // ----- pruning

  /** An item without the unmarked channels. */
  function Cut(raw: Item, marked: set<string>): Item {
    Item(
      raw.current,
      map n | n in raw.upstreams && n in marked :: raw.upstreams[n],
      map n | n in raw.confidence && n in marked :: raw.confidence[n])
  }

  /** Something but the marker is left. */
  predicate Keep(raw: Item, marked: set<string>) {
    exists n :: n in marked && Unlike(raw, n)
  }

  method PruneItem(raw: Item, marked: set<string>) returns (item: Item, keep: bool)
    requires raw.confidence.Keys == raw.upstreams.Keys
    ensures item == Cut(raw, marked)
    ensures keep == Keep(raw, marked)
  {
    var upstreams, confidence := raw.upstreams, raw.confidence;
    var todo := raw.upstreams.Keys;
    while todo != {}
      invariant todo <= raw.upstreams.Keys
      invariant upstreams.Keys == confidence.Keys == set n | n in raw.upstreams && (n in todo || n in marked)
      invariant forall n :: n in upstreams ==> upstreams[n] == raw.upstreams[n]
      invariant forall n :: n in confidence ==> confidence[n] == raw.confidence[n]
      decreases |todo|
    {
      var n :| n in todo;
      todo := todo - {n};
      if n !in marked {
        upstreams, confidence := upstreams - {n}, confidence - {n};
      }
    }
    item := Item(raw.current, upstreams, confidence);
    assert upstreams == Cut(raw, marked).upstreams && confidence == Cut(raw, marked).confidence;
    keep := exists n :: n in upstreams && upstreams[n] != SAME;
    assert forall n :: n in upstreams && upstreams[n] != SAME <==> n in marked && Unlike(raw, n);
  }

  function CutRow(raw: map<string, Item>, marked: set<string>): map<string, Item> {
    map f | f in raw && Keep(raw[f], marked) :: Cut(raw[f], marked)
  }

  ghost predicate KeysMatch(row: map<string, Item>) {
    forall f :: f in row ==> row[f].confidence.Keys == row[f].upstreams.Keys
  }

  method PruneModel(raw: map<string, Item>, marked: set<string>) returns (row: map<string, Item>)
    requires KeysMatch(raw)
    ensures row == CutRow(raw, marked)
  {
    row := raw;
    var todo := raw.Keys;
    while todo != {}
      invariant todo <= raw.Keys
      invariant forall f :: f in row <==> f in raw && (f in todo || Keep(raw[f], marked))
      invariant forall f :: f in row ==> row[f] == if f in todo then raw[f] else Cut(raw[f], marked)
      decreases |todo|
    {
      var f :| f in todo;
      todo := todo - {f};
      var item, keep := PruneItem(row[f], marked);
      if !keep {
        row := row - {f};
      } else {
        row := row[f := item];
      }
    }
  }

  method PruneAll(raw: Differences, marked: set<string>) returns (d: Differences)
    requires forall m :: m in raw ==> KeysMatch(raw[m])
    ensures forall m :: m in raw ==> RowOf(d, m) == CutRow(raw[m], marked)
    ensures forall m :: m in d ==> m in raw && d[m] != map[]
  {
    d := raw;
    var todo := raw.Keys;
    while todo != {}
      invariant todo <= d.Keys <= raw.Keys
      invariant forall m :: m in raw ==> RowOf(d, m) == if m in todo then raw[m] else CutRow(raw[m], marked)
      invariant forall m :: m in d && m !in todo ==> d[m] != map[]
      decreases |todo|
    {
      var m :| m in todo;
      todo := todo - {m};
      var row := PruneModel(raw[m], marked);
      if row == map[] {
        d := d - {m};
      } else {
        d := d[m := row];
      }
    }
  }

  // ----- the whole comparison

  lemma {:induction false} RawKeysMatch(lv: Value, channels: seq<Channel>, f: string, m: string)
    ensures Entries(lv, channels, f, m).Keys == Confidences(channels, m).Keys
  {
    if channels != [] { RawKeysMatch(lv, channels[..|channels| - 1], f, m); }
  }

  /** `buildDifferences`: the surviving pairs are listed, each under the channels that differ
      anywhere in the comparison, and no model is left empty. */
  method BuildDifferences(local: Pricing, channels: seq<Channel>) returns (d: Differences)
    ensures forall f, m :: Listed(d, f, m) <==> Survives(local, channels, f, m)
    ensures forall f, m :: Listed(d, f, m) ==>
              Reduced(d[m][f], RawItem(local, channels, f, m), DifferingNames(local, channels))
    ensures forall m :: m in d ==> d[m] != map[]
  {
    var raw := CompareAll(local, channels);
    var marked := MarkChannels(raw);
    forall m, f | m in raw && f in raw[m] ensures raw[m][f].confidence.Keys == raw[m][f].upstreams.Keys {
      assert Listed(raw, f, m);
      RawKeysMatch(ValueAt(local, f, m), channels, f, m);
    }
    d := PruneAll(raw, marked);
    MarkedAreDiffering(local, channels, raw, marked);
    PrunedMeaning(local, channels, raw, marked, DifferingNames(local, channels), d);
  }

  lemma MarkedAreDiffering(local: Pricing, channels: seq<Channel>, raw: Differences, marked: set<string>)
    requires FirstPass(local, channels, raw)
    requires forall n :: n in marked <==> AnyReal(raw, n)
    ensures forall n :: n in marked <==> Differing(local, channels, n)
  {
    forall n
      ensures AnyReal(raw, n) <==> Differing(local, channels, n)
    {
      if AnyReal(raw, n) {
        var m :| m in raw && RowHasReal(raw[m], n);
        var f :| f in raw[m] && HasReal(raw[m][f], n);
        assert Listed(raw, f, m);
      }
      if Differing(local, channels, n) {
        var f, m :| Compared(local, channels, f, m) && HasReal(RawItem(local, channels, f, m), n);
        assert Listed(raw, f, m);
        assert RowHasReal(raw[m], n);
      }
    }
  }

  lemma CutReduced(raw: Item, marked: set<string>, names: iset<string>)
    requires forall n :: n in marked <==> n in names
    ensures Reduced(Cut(raw, marked), raw, names)
  {
  }

  lemma PrunedPair(local: Pricing, channels: seq<Channel>, raw: Differences, marked: set<string>, names: iset<string>, d: Differences, f: string, m: string)
    requires FirstPass(local, channels, raw)
    requires forall n :: n in marked <==> n in names
    requires m in raw ==> RowOf(d, m) == CutRow(raw[m], marked)
    requires m in d ==> m in raw
    ensures Listed(d, f, m) <==> SurvivesAmong(local, channels, f, m, names)
    ensures Listed(d, f, m) ==> d[m][f] == Cut(RawItem(local, channels, f, m), marked)
  {
    assert Listed(raw, f, m) <==> Compared(local, channels, f, m);
    if Listed(raw, f, m) {
      assert raw[m][f] == RawItem(local, channels, f, m);
      assert Listed(d, f, m) <==> f in CutRow(raw[m], marked);
    }
  }

  lemma PrunedMeaning(local: Pricing, channels: seq<Channel>, raw: Differences, marked: set<string>, names: iset<string>, d: Differences)
    requires FirstPass(local, channels, raw)
    requires forall n :: n in marked <==> n in names
    requires forall m :: m in raw ==> RowOf(d, m) == CutRow(raw[m], marked)
    requires forall m :: m in d ==> m in raw
    ensures forall f, m :: Listed(d, f, m) <==> SurvivesAmong(local, channels, f, m, names)
    ensures forall f, m :: Listed(d, f, m) ==> Reduced(d[m][f], RawItem(local, channels, f, m), names)
  {
    forall f, m
      ensures Listed(d, f, m) <==> SurvivesAmong(local, channels, f, m, names)
      ensures Listed(d, f, m) ==> Reduced(d[m][f], RawItem(local, channels, f, m), names)
    {
      PrunedPair(local, channels, raw, marked, names, d, f, m);
      CutReduced(RawItem(local, channels, f, m), marked, names);
    }
  }
}
