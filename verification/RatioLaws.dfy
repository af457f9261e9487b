/** What the price comparison means: which pairs survive and which channels are listed. */
module RatioLaws {
  import opened Floats
  import opened Options
  import opened RatioDifferences

  predicate DistinctNames(channels: seq<Channel>) {
    forall i, j :: 0 <= i < j < |channels| ==> channels[i].name != channels[j].name
  }

  /** No later channel has the same name: its entries are the ones that stay. */
  predicate IsLast(channels: seq<Channel>, i: nat) {
    i < |channels| && forall j :: i < j < |channels| ==> channels[j].name != channels[i].name
  }

  /** A missing local value differs from everything. */
  predicate Differs(lv: Value, uv: Value) {
    lv == Null || !ValuesEqual(lv, uv)
  }

  /** The channel reports a value that differs from the local one. */
  predicate ReportsDifference(local: Pricing, c: Channel, f: string, m: string) {
    Reports(c, f, m) && Differs(ValueAt(local, f, m), ValueAt(c.data, f, m))
  }

  /** ... and that value is neither null nor literally "same". */
  predicate RealDifference(local: Pricing, c: Channel, f: string, m: string) {
    ReportsDifference(local, c, f, m) && Real(ValueAt(c.data, f, m))
  }

  ghost predicate ChannelDiffers(local: Pricing, c: Channel) {
    exists f, m :: f in FIELDS && RealDifference(local, c, f, m)
  }

  predicate SomeReportsDifference(local: Pricing, channels: seq<Channel>, f: string, m: string) {
    exists i :: 0 <= i < |channels| && ReportsDifference(local, channels[i], f, m)
  }

  lemma EntryReal(local: Pricing, c: Channel, f: string, m: string)
    ensures var e := Entry(ValueAt(local, f, m), c, f, m);
            && (Real(e) <==> RealDifference(local, c, f, m))
            && (e == Null <==> ValueAt(local, f, m) != Null && ValueAt(c.data, f, m) == Null)
  {
  }

  /** The compared value: missing is null, integers in numeric fields become numbers, and everything
      else is taken as it is. */
  lemma ValueMeaning(p: Pricing, f: string, m: string)
    ensures f !in p || m !in p[f] ==> ValueAt(p, f, m) == Null
    ensures f in p && m in p[f] ==>
              ValueAt(p, f, m) == if f in NUMERIC_FIELDS && p[f][m].Whole? then Num(Fin(p[f][m].i as real)) else p[f][m]
  {
  }

  /** Two numbers are equal when less than 1e-9 apart, other values when identical. */
  lemma EqualMeaning(a: Value, b: Value)
    ensures ValuesEqual(a, b) <==>
              if a.Num? && b.Num? then a.f.Fin? && b.f.Fin? && -0.000000001 < a.f.r - b.f.r < 0.000000001 else a == b
  {
    if a.Num? && b.Num? { NearlyEqualMeaning(a.f, b.f); }
  }

  /** What is listed for a channel: its own value where it differs, the marker where it agrees or
      where neither side has a value, and null where only the local side has one. */
  lemma EntryMeaning(local: Pricing, c: Channel, f: string, m: string)
    ensures var lv, uv, e := ValueAt(local, f, m), ValueAt(c.data, f, m), Entry(ValueAt(local, f, m), c, f, m);
            && (RealDifference(local, c, f, m) ==> e == uv)
            && (lv != Null && uv == Null ==> e == Null)
            && (!RealDifference(local, c, f, m) && !(lv != Null && uv == Null) ==> e == SAME)
  {
  }

  /** A number within 1e-9 of x. */
  predicate NumberNear(v: Value, x: real) {
    || (v.Num? && v.f.Fin? && -0.000000001 < v.f.r - x < 0.000000001)
    || (v.Whole? && -0.000000001 < v.i as real - x < 0.000000001)
  }

  /** A channel is distrusted for a model exactly when it reports a model ratio of 37.5 together
      with a completion ratio of 1. */
  lemma ConfidentMeaning(c: Channel, m: string)
    ensures Confident(c, m) <==>
              !(&& "model_ratio" in c.data && m in c.data["model_ratio"] && NumberNear(c.data["model_ratio"][m], 37.5)
                && "completion_ratio" in c.data && m in c.data["completion_ratio"] && NumberNear(c.data["completion_ratio"][m], 1.0))
  {
    if "model_ratio" in c.data && m in c.data["model_ratio"] && "completion_ratio" in c.data && m in c.data["completion_ratio"] {
      var a, b := c.data["model_ratio"][m], c.data["completion_ratio"][m];
      NearMeaning(a, 37.5);
      NearMeaning(b, 1.0);
    }
  }

  lemma NearMeaning(v: Value, x: real)
    ensures NumberNear(v, x) <==> AsFloat(v).Some? && NearlyEqual(AsFloat(v).value, Fin(x))
  {
    if AsFloat(v).Some? { NearlyEqualMeaning(AsFloat(v).value, Fin(x)); }
  }

  lemma {:induction false} AnyReportsIff(channels: seq<Channel>, f: string, m: string)
    ensures AnyReports(channels, f, m) <==> exists i :: 0 <= i < |channels| && Reports(channels[i], f, m)
  {
    if channels != [] {
      var init := channels[..|channels| - 1];
      AnyReportsIff(init, f, m);
      assert forall i :: 0 <= i < |init| ==> init[i] == channels[i];
    }
  }

  lemma {:induction false} AnyFlagsIff(lv: Value, channels: seq<Channel>, f: string, m: string)
    ensures AnyFlags(lv, channels, f, m) <==> exists i :: 0 <= i < |channels| && Flags(lv, channels[i], f, m)
  {
    if channels != [] {
      var init := channels[..|channels| - 1];
      AnyFlagsIff(lv, init, f, m);
      assert forall i :: 0 <= i < |init| ==> init[i] == channels[i];
    }
  }

  /** The first pass compares exactly the pairs on which some channel reports a difference. */
  lemma ComparedIff(local: Pricing, channels: seq<Channel>, f: string, m: string)
    ensures Compared(local, channels, f, m) <==> f in FIELDS && SomeReportsDifference(local, channels, f, m)
  {
    var lv := ValueAt(local, f, m);
    assert Included(local, channels, f, m) <==> SomeReportsDifference(local, channels, f, m) by {
      if lv == Null {
        AnyReportsIff(channels, f, m);
        assert forall i :: 0 <= i < |channels| ==> (Reports(channels[i], f, m) <==> ReportsDifference(local, channels[i], f, m));
      } else {
        AnyFlagsIff(lv, channels, f, m);
        assert forall i :: 0 <= i < |channels| ==> (Flags(lv, channels[i], f, m) <==> ReportsDifference(local, channels[i], f, m));
      }
    }
    if f in FIELDS && SomeReportsDifference(local, channels, f, m) {
      var k :| 0 <= k < |FIELDS| && FIELDS[k] == f;
      var i :| 0 <= i < |channels| && ReportsDifference(local, channels[i], f, m);
      assert Reports(channels[i], FIELDS[k], m);
    }
  }

  lemma {:induction false} EntriesNamed(lv: Value, channels: seq<Channel>, f: string, m: string, n: string)
    ensures n in Entries(lv, channels, f, m) <==> exists i :: 0 <= i < |channels| && channels[i].name == n
  {
    if channels != [] {
      var init := channels[..|channels| - 1];
      EntriesNamed(lv, init, f, m, n);
      assert forall i :: 0 <= i < |init| ==> init[i] == channels[i];
      if n in Entries(lv, init, f, m) {
        var i :| 0 <= i < |init| && init[i].name == n;
        assert channels[i].name == n;
      }
    }
  }

  /** Every name has a last channel. */
  lemma {:induction false} LastNamed(channels: seq<Channel>, i: nat) returns (j: nat)
    requires i < |channels|
    ensures IsLast(channels, j) && channels[j].name == channels[i].name
    decreases |channels| - i
  {
    j := i;
    if !IsLast(channels, i) {
      var k :| i < k < |channels| && channels[k].name == channels[i].name;
      j := LastNamed(channels, k);
    }
  }

  lemma {:induction false} EntriesAt(lv: Value, channels: seq<Channel>, f: string, m: string, i: nat)
    requires IsLast(channels, i)
    ensures channels[i].name in Entries(lv, channels, f, m)
    ensures Entries(lv, channels, f, m)[channels[i].name] == Entry(lv, channels[i], f, m)
  {
    var n := |channels| - 1;
    if i < n {
      assert channels[..n][i] == channels[i];
      EntriesAt(lv, channels[..n], f, m, i);
    }
  }

  lemma {:induction false} ConfidencesAt(channels: seq<Channel>, m: string, i: nat)
    requires IsLast(channels, i)
    ensures channels[i].name in Confidences(channels, m) && Confidences(channels, m)[channels[i].name] == Confident(channels[i], m)
  {
    var n := |channels| - 1;
    var init, c := channels[..n], channels[n];
    assert Confidences(channels, m) == Confidences(init, m)[c.name := Confident(c, m)];
    if i < n {
      assert init[i] == channels[i] && IsLast(init, i);
      ConfidencesAt(init, m, i);
    }
  }

  /** Channel i's entry in an item. */
  lemma ItemAt(local: Pricing, channels: seq<Channel>, f: string, m: string, i: nat)
    requires IsLast(channels, i)
    ensures var item, c := RawItem(local, channels, f, m), channels[i];
            && c.name in item.upstreams
            && item.upstreams[c.name] == Entry(ValueAt(local, f, m), c, f, m)
            && (HasReal(item, c.name) <==> RealDifference(local, c, f, m))
            && (Unlike(item, c.name) <==>
                  RealDifference(local, c, f, m) || (ValueAt(local, f, m) != Null && ValueAt(c.data, f, m) == Null))
  {
    EntriesAt(ValueAt(local, f, m), channels, f, m, i);
    EntryReal(local, channels[i], f, m);
  }

  /** A name is listed as differing exactly when its last channel reports a real difference anywhere. */
  lemma DifferingIff(local: Pricing, channels: seq<Channel>, i: nat)
    requires IsLast(channels, i)
    ensures Differing(local, channels, channels[i].name) <==> ChannelDiffers(local, channels[i])
  {
    var c := channels[i];
    if Differing(local, channels, c.name) {
      var f, m :| Compared(local, channels, f, m) && HasReal(RawItem(local, channels, f, m), c.name);
      ItemAt(local, channels, f, m, i);
      assert f in FIELDS && RealDifference(local, c, f, m);
    }
    if ChannelDiffers(local, c) {
      var f, m :| f in FIELDS && RealDifference(local, c, f, m);
      ItemAt(local, channels, f, m, i);
      ComparedIff(local, channels, f, m);
      assert Compared(local, channels, f, m) && HasReal(RawItem(local, channels, f, m), c.name);
    }
  }

  /** Where a pair keeps its place: at the last channel of some name, a real difference there, or
      no value for a model priced locally although the channel differs elsewhere. */
  ghost predicate Anchored(local: Pricing, channels: seq<Channel>, f: string, m: string) {
    exists i :: 0 <= i < |channels| && IsLast(channels, i) && Anchors(local, channels[i], f, m)
  }

  ghost predicate Anchors(local: Pricing, c: Channel, f: string, m: string) {
    || RealDifference(local, c, f, m)
    || (ValueAt(local, f, m) != Null && ValueAt(c.data, f, m) == Null && ChannelDiffers(local, c))
  }

  /** The exact survivors on any input. */
  lemma SurvivesIff(local: Pricing, channels: seq<Channel>, f: string, m: string)
    ensures Survives(local, channels, f, m) <==>
              f in FIELDS && SomeReportsDifference(local, channels, f, m) && Anchored(local, channels, f, m)
  {
    var item, names := RawItem(local, channels, f, m), DifferingNames(local, channels);
    ComparedIff(local, channels, f, m);
    if Survives(local, channels, f, m) {
      var n :| n in names && Unlike(item, n);
      EntriesNamed(ValueAt(local, f, m), channels, f, m, n);
      var k :| 0 <= k < |channels| && channels[k].name == n;
      var i := LastNamed(channels, k);
      ItemAt(local, channels, f, m, i);
      DifferingIff(local, channels, i);
      assert Anchors(local, channels[i], f, m);
    }
    if f in FIELDS && Anchored(local, channels, f, m) {
      var i :| 0 <= i < |channels| && IsLast(channels, i) && Anchors(local, channels[i], f, m);
      ItemAt(local, channels, f, m, i);
      DifferingIff(local, channels, i);
      assert channels[i].name in names && Unlike(item, channels[i].name);
    }
  }

  /** No channel reports null or the literal text "same" in a compared field. */
  ghost predicate PlainReports(channels: seq<Channel>) {
    forall i, f, m :: 0 <= i < |channels| && f in FIELDS && Reports(channels[i], f, m) ==> Real(ValueAt(channels[i].data, f, m))
  }

  /** On plain reports a pair survives exactly when some channel reports a difference. */
  lemma SurvivorsExact(local: Pricing, channels: seq<Channel>, f: string, m: string)
    requires DistinctNames(channels) && PlainReports(channels)
    ensures Survives(local, channels, f, m) <==> f in FIELDS && SomeReportsDifference(local, channels, f, m)
  {
    SurvivesIff(local, channels, f, m);
    if f in FIELDS && SomeReportsDifference(local, channels, f, m) {
      var i :| 0 <= i < |channels| && ReportsDifference(local, channels[i], f, m);
      assert IsLast(channels, i) && Anchors(local, channels[i], f, m);
    }
  }

  /** On plain reports every listed item names exactly the channels (the last of each name) that
      report a difference somewhere, each with its entry and its confidence. */
  lemma ListedChannelsExact(local: Pricing, channels: seq<Channel>, f: string, m: string, item: Item, i: nat)
    requires PlainReports(channels) && IsLast(channels, i)
    requires Reduced(item, RawItem(local, channels, f, m), DifferingNames(local, channels))
    ensures var c := channels[i];
            && (c.name in item.upstreams <==> exists f', m' :: f' in FIELDS && ReportsDifference(local, c, f', m'))
            && (f in FIELDS && c.name in item.upstreams ==>
                  item.upstreams[c.name] ==
                    if ReportsDifference(local, c, f, m) then ValueAt(c.data, f, m)
                    else if ValueAt(local, f, m) != Null && !Reports(c, f, m) then Null
                    else SAME)
            && (c.name in item.upstreams <==> c.name in item.confidence)
            && (c.name in item.confidence ==> item.confidence[c.name] == Confident(c, m))
            && item.current == ValueAt(local, f, m)
  {
    var c := channels[i];
    EntryMeaning(local, c, f, m);
    ItemAt(local, channels, f, m, i);
    DifferingIff(local, channels, i);
    ConfidencesAt(channels, m, i);
    assert forall f', m' :: f' in FIELDS ==> (ReportsDifference(local, c, f', m') <==> RealDifference(local, c, f', m'));
  }

  // ----- where the rule fails

  /** A channel with a single report. */
  function Lone(name: string, f: string, m: string, v: Value): Channel {
    Channel(name, map[f := map[m := v]])
  }

  lemma LoneReport(local: Pricing, name: string, f: string, m: string, v: Value)
    ensures var c := Lone(name, f, m, v);
            && Reports(c, f, m) && ValueAt(c.data, f, m) == Normalize(f, v)
            && (ChannelDiffers(local, c) ==> RealDifference(local, c, f, m))
  {
    var c := Lone(name, f, m, v);
    forall f', m' | RealDifference(local, c, f', m') ensures RealDifference(local, c, f, m) {
      assert Reports(c, f', m') ==> f' == f && m' == m;
    }
  }

  /** A pair is dropped when the last channel of every name is without a real difference. */
  lemma NoAnchorVanishes(local: Pricing, channels: seq<Channel>, f: string, m: string)
    requires forall i :: 0 <= i < |channels| && IsLast(channels, i) ==> !ChannelDiffers(local, channels[i])
    ensures !Survives(local, channels, f, m)
  {
    SurvivesIff(local, channels, f, m);
  }

  /** A lone null report against a local price is a difference that is not listed. */
  lemma NullReportVanishes(local: Pricing, name: string, f: string, m: string)
    requires f in FIELDS && ValueAt(local, f, m) != Null
    ensures var channels := [Lone(name, f, m, Null)];
            SomeReportsDifference(local, channels, f, m) && !Survives(local, channels, f, m)
  {
    var channels := [Lone(name, f, m, Null)];
    LoneReport(local, name, f, m, Null);
    assert ReportsDifference(local, channels[0], f, m);
    NoAnchorVanishes(local, channels, f, m);
  }

  /** So is a lone report of the literal text "same". */
  lemma SameReportVanishes(local: Pricing, name: string, f: string, m: string)
    requires f in FIELDS && Differs(ValueAt(local, f, m), SAME)
    ensures var channels := [Lone(name, f, m, SAME)];
            SomeReportsDifference(local, channels, f, m) && !Survives(local, channels, f, m)
  {
    var channels := [Lone(name, f, m, SAME)];
    LoneReport(local, name, f, m, SAME);
    assert ReportsDifference(local, channels[0], f, m);
    NoAnchorVanishes(local, channels, f, m);
  }

  /** Of two channels with one name the last decides, and a difference of the first is not listed. */
  lemma EqualNamesHide(local: Pricing, name: string, f: string, m: string, v: Value, w: Value)
    requires f in FIELDS && ValueAt(local, f, m) != Null
    requires ValuesEqual(ValueAt(local, f, m), Normalize(f, v)) && !ValuesEqual(ValueAt(local, f, m), Normalize(f, w))
    ensures var channels := [Lone(name, f, m, w), Lone(name, f, m, v)];
            SomeReportsDifference(local, channels, f, m) && !Survives(local, channels, f, m)
  {
    LoneReport(local, name, f, m, w);
    LoneReport(local, name, f, m, v);
    SecondDecides(local, Lone(name, f, m, w), Lone(name, f, m, v), f, m);
  }

  lemma SecondDecides(local: Pricing, first: Channel, second: Channel, f: string, m: string)
    requires first.name == second.name && ReportsDifference(local, first, f, m) && !ChannelDiffers(local, second)
    ensures SomeReportsDifference(local, [first, second], f, m) && !Survives(local, [first, second], f, m)
  {
    var channels := [first, second];
    assert ReportsDifference(local, channels[0], f, m);
    assert channels[1].name == channels[0].name;
    NoAnchorVanishes(local, channels, f, m);
  }
}
