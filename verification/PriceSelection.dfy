/** Choosing one price per model among the models.dev providers
    (`convertModelsDevToRatioData`, controller/ratio_sync.go). */
module PriceSelection {
  import opened Floats
  import opened Options

  datatype Cost = Cost(input: Option<Float>, output: Option<Float>, cacheRead: Option<Float>)

  datatype Candidate = Candidate(provider: string, input: real, output: Option<real>, cacheRead: Option<real>)

  /** provider -> model -> cost. */
  type Catalogue = map<string, map<string, Cost>>

  predicate ValidCost(v: Float) {
    v.Fin? && v.r >= 0.0
  }

  /** `buildModelsDevCandidate`: an invalid input or output price, or an output price without an
      input price, disqualifies; an invalid cache price is dropped. */
  function BuildCandidate(provider: string, cost: Cost): Option<Candidate> {
    if cost.input.None? || !ValidCost(cost.input.value) then None
    else if cost.output.Some? && !ValidCost(cost.output.value) then None
    else if cost.input.value.r == 0.0 && cost.output.Some? && cost.output.value.r > 0.0 then None
    else Some(Candidate(
      provider,
      cost.input.value.r,
      if cost.output.Some? then Some(cost.output.value.r) else None,
      if cost.cacheRead.Some? && ValidCost(cost.cacheRead.value) then Some(cost.cacheRead.value.r) else None))
  }

  /** Go's string order. */
  predicate Less(a: string, b: string) {
    b != [] && (a == [] || a[0] < b[0] || (a[0] == b[0] && Less(a[1..], b[1..])))
  }

  /** `shouldReplaceModelsDevCandidate`. */
  predicate Replaces(current: Candidate, next: Candidate) {
    if (current.input > 0.0) != (next.input > 0.0) then next.input > 0.0
    else if next.input > 0.0 && !NearlyEqual(Fin(next.input), Fin(current.input)) then next.input < current.input
    else Less(next.provider, current.provider)
  }

  function Better(current: Option<Candidate>, next: Option<Candidate>): Option<Candidate> {
    if next.None? then current
    else if current.None? || Replaces(current.value, next.value) then next
    else current
  }

  function Offer(data: Catalogue, provider: string, model: string): Option<Candidate> {
    if provider in data && model in data[provider] then BuildCandidate(provider, data[provider][model]) else None
  }

  /** The candidate kept after the providers are visited in this order. */
  function Winner(data: Catalogue, order: seq<string>, model: string): Option<Candidate> {
    if order == [] then None
    else Better(Winner(data, order[..|order| - 1], model), Offer(data, order[|order| - 1], model))
  }

  function Lookup(m: map<string, Candidate>, model: string): Option<Candidate> {
    if model in m then Some(m[model]) else None
  }

  // ----- the string order

  lemma {:induction false} LessOrder(a: string, b: string)
    ensures !(Less(a, b) && Less(b, a))
    ensures a != b ==> Less(a, b) || Less(b, a)
    ensures a == b ==> !Less(a, b)
  {
    if a != [] && b != [] && a[0] == b[0] {
      LessOrder(a[1..], b[1..]);
      assert a == [a[0]] + a[1..] && b == [b[0]] + b[1..];
    }
  }

  lemma {:induction false} LessTransitive(a: string, b: string, c: string)
    requires Less(a, b) && Less(b, c)
    ensures Less(a, c)
  {
    if a != [] && a[0] == b[0] && b[0] == c[0] {
      LessTransitive(a[1..], b[1..], c[1..]);
    }
  }

  predicate Increasing(xs: seq<string>) {
    forall i, j :: 0 <= i < j < |xs| ==> Less(xs[i], xs[j])
  }

  function Insert(xs: seq<string>, x: string): seq<string> {
    if xs == [] || Less(x, xs[0]) then [x] + xs else [xs[0]] + Insert(xs[1..], x)
  }

  lemma {:induction false} InsertMeaning(xs: seq<string>, x: string)
    requires Increasing(xs) && x !in xs
    ensures Increasing(Insert(xs, x))
    ensures forall y :: y in Insert(xs, x) <==> y == x || y in xs
  {
    if xs == [] {
    } else if Less(x, xs[0]) {
      forall j | 0 < j < |xs| ensures Less(x, xs[j]) { LessTransitive(x, xs[0], xs[j]); }
    } else {
      LessOrder(x, xs[0]);
      var rest := Insert(xs[1..], x);
      InsertMeaning(xs[1..], x);
      assert forall y :: y in xs <==> y == xs[0] || y in xs[1..];
      forall j | 0 <= j < |rest| ensures Less(xs[0], rest[j]) { assert rest[j] in rest; }
    }
  }

  /** `sort.Strings` on the keys of a map. */
  method SortedKeys(keys: set<string>) returns (order: seq<string>)
    ensures Increasing(order) && forall k :: k in order <==> k in keys
  {
    order := [];
    var todo := keys;
    while todo != {}
      invariant todo <= keys && Increasing(order)
      invariant forall k :: k in order <==> k in keys && k !in todo
      decreases |todo|
    {
      var k :| k in todo;
      todo := todo - {k};
      InsertMeaning(order, k);
      order := Insert(order, k);
    }
  }

  // ----- the selection loop

  /** One provider: every model it prices is compared with what is kept so far. */
  method VisitProvider(data: Catalogue, provider: string, before: map<string, Candidate>) returns (chosen: map<string, Candidate>)
    requires provider in data
    ensures forall model :: Lookup(chosen, model) == Better(Lookup(before, model), Offer(data, provider, model))
  {
    chosen := before;
    var names := SortedKeys(data[provider].Keys);
    for j := 0 to |names|
      invariant forall model :: Lookup(chosen, model) ==
                  if model in names[..j] then Better(Lookup(before, model), Offer(data, provider, model)) else Lookup(before, model)
    {
      var model := names[j];
      assert model in names;
      LessDistinct(names, j);
      assert names[..j + 1] == names[..j] + [model];
      var candidate := BuildCandidate(provider, data[provider][model]);
      if candidate.Some? && (model !in chosen || Replaces(chosen[model], candidate.value)) {
        chosen := chosen[model := candidate.value];
      }
    }
    assert names[..|names|] == names;
  }

  lemma LessDistinct(xs: seq<string>, j: nat)
    requires Increasing(xs) && j < |xs|
    ensures xs[j] !in xs[..j]
  {
    forall i | 0 <= i < j ensures xs[i] != xs[j] { LessOrder(xs[i], xs[j]); }
  }

  // ----- what is kept

  /** The kept candidate against one offer: never a zero price over a non-zero one, and less
      than the tolerance above any non-zero price. */
  predicate NoWorse(c: Candidate, offer: Option<Candidate>) {
    offer.Some? && offer.value.input > 0.0 ==> c.input > 0.0 && c.input < offer.value.input + 0.000000001
  }

  lemma {:induction false} WinnerOffered(data: Catalogue, order: seq<string>, model: string)
    ensures var w := Winner(data, order, model);
            && (w.Some? ==> w.value.provider in order && w == Offer(data, w.value.provider, model))
            && (w.None? <==> forall i :: 0 <= i < |order| ==> Offer(data, order[i], model).None?)
  {
    if order != [] {
      var init := order[..|order| - 1];
      WinnerOffered(data, init, model);
      assert forall i :: 0 <= i < |init| ==> order[i] == init[i];
      assert forall p :: p in init ==> p in order;
    }
  }

  /** Against a candidate of a later provider, what is kept is no worse than before and no worse
      than the newcomer. */
  lemma BetterNoWorse(current: Candidate, next: Candidate, offer: Option<Candidate>)
    requires Less(current.provider, next.provider)
    ensures var kept := Better(Some(current), Some(next)).value;
            NoWorse(kept, Some(next)) && (NoWorse(current, offer) ==> NoWorse(kept, offer))
  {
    LessOrder(current.provider, next.provider);
    NearlyEqualMeaning(Fin(next.input), Fin(current.input));
  }

  lemma {:induction false} WinnerNoWorse(data: Catalogue, order: seq<string>, model: string, i: nat)
    requires Increasing(order) && i < |order|
    ensures Offer(data, order[i], model).Some? ==>
              Winner(data, order, model).Some? && NoWorse(Winner(data, order, model).value, Offer(data, order[i], model))
  {
    var n := |order| - 1;
    var init := order[..n];
    var before, next := Winner(data, init, model), Offer(data, order[n], model);
    WinnerOffered(data, init, model);
    if i < n {
      WinnerNoWorse(data, init, model, i);
    }
    if before.Some? && next.Some? {
      var k :| 0 <= k < n && order[k] == before.value.provider;
      assert next.value.provider == order[n];
      BetterNoWorse(before.value, next.value, Offer(data, order[i], model));
    }
  }

  /** When only zero prices are valid, the first provider by name is kept. */
  lemma {:induction false} WinnerAllFree(data: Catalogue, order: seq<string>, model: string, i: nat)
    requires Increasing(order) && i < |order| && Offer(data, order[i], model).Some?
    requires forall k :: 0 <= k < |order| && Offer(data, order[k], model).Some? ==> Offer(data, order[k], model).value.input == 0.0
    requires forall k :: 0 <= k < i ==> Offer(data, order[k], model).None?
    ensures Winner(data, order, model) == Offer(data, order[i], model)
  {
    var n := |order| - 1;
    var init := order[..n];
    assert forall k :: 0 <= k < n ==> init[k] == order[k];
    if i == n {
      WinnerOffered(data, init, model);
    } else {
      WinnerAllFree(data, init, model, i);
      LessOrder(order[i], order[n]);
    }
  }

  /** A price list entry that can be used: a finite non-negative input price, an output price that
      is missing or finite and non-negative, and no output price without an input price. */
  predicate Usable(cost: Cost) {
    && cost.input.Some? && cost.input.value.Fin? && cost.input.value.r >= 0.0
    && (cost.output.Some? ==> cost.output.value.Fin? && cost.output.value.r >= 0.0)
    && !(cost.input.value.r == 0.0 && cost.output.Some? && cost.output.value.r > 0.0)
  }

  predicate Offers(data: Catalogue, p: string, model: string) {
    p in data && model in data[p] && Usable(data[p][model])
  }

  /** The candidate carries exactly the prices of the entry; a cache price only if it is finite and
      non-negative. */
  predicate Describes(c: Candidate, cost: Cost) {
    && cost.input == Some(Fin(c.input)) && c.input >= 0.0
    && cost.output == (if c.output.Some? then Some(Fin(c.output.value)) else None)
    && (c.cacheRead.Some? <==> cost.cacheRead.Some? && cost.cacheRead.value.Fin? && cost.cacheRead.value.r >= 0.0)
    && (c.cacheRead.Some? ==> cost.cacheRead == Some(Fin(c.cacheRead.value)))
  }

  /** An offer exists exactly for a usable entry, names its provider and carries its prices. */
  lemma OfferMeaning(data: Catalogue, p: string, model: string)
    ensures Offer(data, p, model).Some? <==> Offers(data, p, model)
    ensures Offers(data, p, model) ==>
              Offer(data, p, model).value.provider == p && Describes(Offer(data, p, model).value, data[p][model])
  {
  }

  /** The promise about the candidate kept for a model: there is one exactly when a usable entry
      exists; it carries the prices of one, is non-zero whenever any usable entry is, and less than
      1e-9 above every usable non-zero price. */
  ghost predicate WellChosen(data: Catalogue, model: string, kept: Option<Candidate>) {
    && (kept.Some? <==> exists p :: Offers(data, p, model))
    && (kept.Some? ==>
          var c := kept.value;
          && Offers(data, c.provider, model) && Describes(c, data[c.provider][model])
          && forall p :: Offers(data, p, model) && data[p][model].input.value.r > 0.0 ==>
               c.input > 0.0 && c.input < data[p][model].input.value.r + 0.000000001)
  }

  /** Visiting the providers in the order of their names keeps the promise. */
  lemma SelectionSound(data: Catalogue, order: seq<string>, model: string)
    requires Increasing(order) && forall p :: p in order <==> p in data
    ensures WellChosen(data, model, Winner(data, order, model))
  {
    var w := Winner(data, order, model);
    WinnerOffered(data, order, model);
    if w.Some? { OfferMeaning(data, w.value.provider, model); }
    forall p | Offers(data, p, model)
      ensures w.Some? && (data[p][model].input.value.r > 0.0 ==>
                w.value.input > 0.0 && w.value.input < data[p][model].input.value.r + 0.000000001)
    {
      var i :| 0 <= i < |order| && order[i] == p;
      OfferMeaning(data, p, model);
      WinnerNoWorse(data, order, model, i);
    }
  }

  /** `chosen` keeps for every model what the providers visited in this order leave. */
  ghost predicate KeptOver(data: Catalogue, order: seq<string>, chosen: map<string, Candidate>) {
    forall model :: Lookup(chosen, model) == Winner(data, order, model)
  }

  /** The providers sorted by name. */
  ghost predicate SortedProviders(data: Catalogue, order: seq<string>) {
    Increasing(order) && forall p :: p in order <==> p in data
  }

  /** The selection of `convertModelsDevToRatioData`; `None` is the error for a catalogue without
      a single valid price. */
  method Select(data: Catalogue) returns (r: Option<map<string, Candidate>>)
    ensures r.None? <==> forall p, model :: !Offers(data, p, model)
    ensures r.Some? ==> exists order :: SortedProviders(data, order) && KeptOver(data, order, r.value)
    ensures r.Some? ==> forall model :: WellChosen(data, model, Lookup(r.value, model))
  {
    var chosen: map<string, Candidate> := map[];
    var order := SortedKeys(data.Keys);
    for i := 0 to |order|
      invariant KeptOver(data, order[..i], chosen)
    {
      assert order[i] in order;
      assert order[..i + 1][..i] == order[..i];
      chosen := VisitProvider(data, order[i], chosen);
    }
    assert order[..|order|] == order;
    assert SortedProviders(data, order) && KeptOver(data, order, chosen);
    forall model ensures WellChosen(data, model, Lookup(chosen, model)) { SelectionSound(data, order, model); }
    EmptySelection(data, chosen);
    r := if |chosen| == 0 then None else Some(chosen);
  }

  /** Nothing is chosen exactly when nothing valid is offered. */
  lemma EmptySelection(data: Catalogue, chosen: map<string, Candidate>)
    requires forall model :: WellChosen(data, model, Lookup(chosen, model))
    ensures |chosen| == 0 <==> forall p, model :: !Offers(data, p, model)
  {
    if |chosen| == 0 {
      forall p, model ensures !Offers(data, p, model) {
        assert WellChosen(data, model, Lookup(chosen, model));
      }
    } else {
      var model :| model in chosen;
      assert WellChosen(data, model, Lookup(chosen, model));
    }
  }

  /** The sorted order matters: visited from the last name to the first, nearly equal prices
      drift upwards past the tolerance. */
  lemma ReverseOrderDrifts(a: Candidate, b: Candidate, c: Candidate)
    requires Less(a.provider, b.provider) && Less(b.provider, c.provider)
    requires c.input == 1.0 && b.input == 1.0000000006 && a.input == 1.0000000012
    ensures var kept := Better(Better(Some(c), Some(b)), Some(a));
            kept == Some(a) && !NoWorse(a, Some(c))
  {
    NearlyEqualMeaning(Fin(b.input), Fin(c.input));
    NearlyEqualMeaning(Fin(a.input), Fin(b.input));
  }
}
