/** The ordered-list algebra on model names under the upstream reconciliation:
    normalise, merge, subtract, intersect (controller/channel_upstream_update.go). */
module NameLists {
  import opened Text

  function Filter(xs: seq<string>, p: string -> bool): seq<string> {
    if xs == [] then [] else (if p(xs[0]) then [xs[0]] else []) + Filter(xs[1..], p)
  }

  /** `lo.Uniq`: the first occurrence of every element, in order. */
  function Uniq(xs: seq<string>): seq<string> {
    if xs == [] then []
    else
      var init, last := Uniq(xs[..|xs| - 1]), xs[|xs| - 1];
      if last in init then init else init + [last]
  }

  /** The trimmed, non-blank entries, in order. */
  function TrimmedNames(xs: seq<string>): seq<string> {
    if xs == [] then []
    else
      var t := TrimSpace(xs[0]);
      (if t != "" then [t] else []) + TrimmedNames(xs[1..])
  }

  function Normalize(xs: seq<string>): seq<string> {
    Uniq(TrimmedNames(xs))
  }

  function In(xs: seq<string>): string -> bool {
    x => x in xs
  }

  function NotIn(xs: seq<string>): string -> bool {
    x => x !in xs
  }

  function Merge(base: seq<string>, appended: seq<string>): seq<string> {
    Normalize(base) + Filter(Normalize(appended), NotIn(Normalize(base)))
  }

  function Subtract(base: seq<string>, removed: seq<string>): seq<string> {
    Filter(Normalize(base), NotIn(Normalize(removed)))
  }

  function Intersect(base: seq<string>, allowed: seq<string>): seq<string> {
    Filter(Normalize(base), In(Normalize(allowed)))
  }

  /** `applySelectedModelChanges`: an addition wins over a removal of the same name. */
  function ApplySelected(origin: seq<string>, add: seq<string>, remove: seq<string>): seq<string> {
    var a := Normalize(add);
    Subtract(Merge(origin, a), Subtract(Normalize(remove), a))
  }

  predicate Distinct(xs: seq<string>) {
    forall i, j :: 0 <= i < j < |xs| ==> xs[i] != xs[j]
  }

  predicate AllTrimmed(xs: seq<string>) {
    forall i :: 0 <= i < |xs| ==> xs[i] != "" && IsTrimmed(xs[i], IsSpace)
  }

  /** A normalised list: distinct, trimmed, non-blank names. */
  predicate IsNormal(xs: seq<string>) {
    Distinct(xs) && AllTrimmed(xs)
  }

  /** `a` is `b` with some entries left out and the others in their order. */
  predicate IsSubsequence(a: seq<string>, b: seq<string>) {
    if a == [] then true
    else if b == [] then false
    else if a[0] == b[0] then IsSubsequence(a[1..], b[1..])
    else IsSubsequence(a, b[1..])
  }

  lemma {:induction false} FilterKeeps(xs: seq<string>, p: string -> bool)
    ensures forall x :: x in Filter(xs, p) <==> x in xs && p(x)
  {
    if xs != [] {
      FilterKeeps(xs[1..], p);
      assert forall x :: x in xs <==> x == xs[0] || x in xs[1..];
    }
  }

  lemma {:induction false} FilterNormal(xs: seq<string>, p: string -> bool)
    requires IsNormal(xs)
    ensures IsNormal(Filter(xs, p))
  {
    if xs != [] {
      var rest := Filter(xs[1..], p);
      FilterNormal(xs[1..], p);
      FilterKeeps(xs[1..], p);
      assert xs[0] !in xs[1..];
      forall i | 0 <= i < |rest| ensures rest[i] != xs[0] { assert rest[i] in rest; }
    }
  }

  lemma {:induction false} FilterAll(xs: seq<string>, p: string -> bool)
    requires forall x :: x in xs ==> p(x)
    ensures Filter(xs, p) == xs
  {
    if xs != [] {
      assert forall x :: x in xs[1..] ==> x in xs;
      FilterAll(xs[1..], p);
      assert xs[0] in xs;
    }
  }

  lemma FilterMembers(xs: seq<string>, p: string -> bool)
    ensures forall x :: x in Filter(xs, p) <==> x in xs && p(x)
    ensures IsNormal(xs) ==> IsNormal(Filter(xs, p))
    ensures (forall x :: x in xs ==> p(x)) ==> Filter(xs, p) == xs
  {
    FilterKeeps(xs, p);
    if IsNormal(xs) { FilterNormal(xs, p); }
    if forall x :: x in xs ==> p(x) { FilterAll(xs, p); }
  }

  lemma {:induction false} FilterInOrder(xs: seq<string>, p: string -> bool)
    ensures IsSubsequence(Filter(xs, p), xs)
  {
    if xs != [] {
      FilterInOrder(xs[1..], p);
      var r := Filter(xs[1..], p);
      if p(xs[0]) {
        assert Filter(xs, p)[1..] == r;
      } else {
        FilterKeeps(xs[1..], p);
        assert Filter(xs, p) == r;
        assert r != [] ==> r[0] in r;
      }
    }
  }

  lemma {:induction false} UniqMeaning(xs: seq<string>)
    ensures Distinct(Uniq(xs))
    ensures forall x :: x in Uniq(xs) <==> x in xs
    ensures Distinct(xs) ==> Uniq(xs) == xs
  {
    if xs != [] {
      var init := xs[..|xs| - 1];
      UniqMeaning(init);
      assert xs == init + [xs[|xs| - 1]];
    }
  }

  lemma {:induction false} TrimmedNamesTrimmed(xs: seq<string>)
    ensures AllTrimmed(TrimmedNames(xs))
  {
    if xs != [] {
      TrimmedNamesTrimmed(xs[1..]);
      TrimByMeaning(xs[0], IsSpace);
    }
  }

  lemma {:induction false} TrimmedNamesSame(xs: seq<string>)
    requires AllTrimmed(xs)
    ensures TrimmedNames(xs) == xs
  {
    if xs != [] {
      TrimByMeaning(xs[0], IsSpace);
      TrimmedNamesSame(xs[1..]);
    }
  }

  lemma {:induction false} TrimmedNamesMembers(xs: seq<string>, x: string)
    ensures x in TrimmedNames(xs) <==> x != "" && exists i :: 0 <= i < |xs| && TrimSpace(xs[i]) == x
  {
    if xs != [] {
      var rest := xs[1..];
      TrimmedNamesMembers(rest, x);
      if x != "" && x in TrimmedNames(rest) {
        var i :| 0 <= i < |rest| && TrimSpace(rest[i]) == x;
        assert TrimSpace(xs[i + 1]) == x;
      }
      assert forall i :: 0 < i < |xs| ==> xs[i] == rest[i - 1];
    }
  }

  /** Normalisation gives a normalised list and is the identity on one. */
  lemma NormalizeNormal(xs: seq<string>)
    ensures IsNormal(Normalize(xs))
    ensures IsNormal(xs) ==> Normalize(xs) == xs
    ensures Normalize(Normalize(xs)) == Normalize(xs)
  {
    NormalizeOnce(xs);
    NormalizeOnce(Normalize(xs));
  }

  lemma NormalizeOnce(xs: seq<string>)
    ensures IsNormal(Normalize(xs))
    ensures IsNormal(xs) ==> Normalize(xs) == xs
  {
    var t := TrimmedNames(xs);
    TrimmedNamesTrimmed(xs);
    if IsNormal(xs) { TrimmedNamesSame(xs); }
    UniqMeaning(t);
    forall i | 0 <= i < |Uniq(t)|
      ensures Uniq(t)[i] != "" && IsTrimmed(Uniq(t)[i], IsSpace)
    {
      assert Uniq(t)[i] in t;
    }
  }

  /** Normalisation keeps exactly the non-blank trimmed names. */
  lemma NormalizeMembers(xs: seq<string>, x: string)
    ensures x in Normalize(xs) <==> x != "" && exists i :: 0 <= i < |xs| && TrimSpace(xs[i]) == x
  {
    TrimmedNamesMembers(xs, x);
    UniqMeaning(TrimmedNames(xs));
  }

  /** The first place at which a name stands, or the length. */
  function FirstAt(xs: seq<string>, x: string): nat {
    if xs == [] then 0
    else if TrimSpace(xs[0]) == x then 0
    else 1 + FirstAt(xs[1..], x)
  }

  lemma {:induction false} FirstAtMeaning(xs: seq<string>, x: string)
    ensures FirstAt(xs, x) <= |xs|
    ensures FirstAt(xs, x) < |xs| ==> TrimSpace(xs[FirstAt(xs, x)]) == x
    ensures forall k :: 0 <= k < FirstAt(xs, x) ==> TrimSpace(xs[k]) != x
  {
    if xs != [] && TrimSpace(xs[0]) != x {
      FirstAtMeaning(xs[1..], x);
      assert forall k :: 0 < k < |xs| ==> xs[k] == xs[1..][k - 1];
    }
  }

  lemma {:induction false} TrimmedNamesSnoc(xs: seq<string>, x: string)
    ensures TrimmedNames(xs + [x]) == TrimmedNames(xs) + (if TrimSpace(x) == "" then [] else [TrimSpace(x)])
  {
    if xs != [] {
      TrimmedNamesSnoc(xs[1..], x);
      assert (xs + [x])[1..] == xs[1..] + [x];
    } else {
      assert ([] + [x])[1..] == [];
    }
  }

  lemma NormalizeSnoc(xs: seq<string>, x: string)
    ensures var n, t := Normalize(xs), TrimSpace(x);
            Normalize(xs + [x]) == if t == "" || t in n then n else n + [t]
  {
    TrimmedNamesSnoc(xs, x);
    var names := TrimmedNames(xs);
    if TrimSpace(x) == "" {
      assert names + [] == names;
    } else {
      assert (names + [TrimSpace(x)])[..|names|] == names;
    }
  }

  lemma {:induction false} FirstAtSnoc(xs: seq<string>, x: string, y: string)
    ensures FirstAt(xs + [x], y) == if FirstAt(xs, y) < |xs| then FirstAt(xs, y) else if TrimSpace(x) == y then |xs| else |xs| + 1
  {
    FirstAtMeaning(xs, y);
    if xs != [] {
      assert (xs + [x])[1..] == xs[1..] + [x];
      if TrimSpace(xs[0]) != y { FirstAtSnoc(xs[1..], x, y); }
    } else {
      assert ([] + [x])[1..] == [];
    }
  }

  /** A kept name stands somewhere, a name not kept nowhere. */
  lemma KeptStands(xs: seq<string>, x: string)
    requires x != ""
    ensures x in Normalize(xs) <==> FirstAt(xs, x) < |xs|
  {
    NormalizeMembers(xs, x);
    FirstAtMeaning(xs, x);
  }

  /** Normalisation keeps the names in the order of their first places. */
  lemma {:induction false} NormalizeOrder(xs: seq<string>, i: nat, j: nat)
    requires i < j < |Normalize(xs)|
    ensures FirstAt(xs, Normalize(xs)[i]) < FirstAt(xs, Normalize(xs)[j])
  {
    if xs != [] {
      var init, last := xs[..|xs| - 1], xs[|xs| - 1];
      var n, a, b := Normalize(init), Normalize(xs)[i], Normalize(xs)[j];
      assert xs == init + [last];
      NormalizeSnoc(init, last);
      NormalizeNormal(init);
      assert a == n[i] && a in n && a != "";
      KeptStands(init, a);
      FirstAtSnoc(init, last, a);
      FirstAtSnoc(init, last, b);
      if j < |n| {
        assert b == n[j] && b in n && b != "";
        NormalizeOrder(init, i, j);
        KeptStands(init, b);
      } else {
        KeptStands(init, b);
        FirstAtMeaning(init, b);
      }
    }
  }

  /** Union: the base first, then the new names in their order. */
  lemma MergeMeaning(base: seq<string>, other: seq<string>)
    ensures IsNormal(Merge(base, other))
    ensures forall x :: x in Merge(base, other) <==> x in Normalize(base) || x in Normalize(other)
    ensures Normalize(base) <= Merge(base, other)
    ensures IsSubsequence(Merge(base, other)[|Normalize(base)|..], Normalize(other))
    ensures (forall x :: x in Normalize(other) ==> x in Normalize(base)) ==> Merge(base, other) == Normalize(base)
  {
    var b, o := Normalize(base), Normalize(other);
    NormalizeNormal(base);
    NormalizeNormal(other);
    var unseen := Filter(o, NotIn(b));
    FilterMembers(o, NotIn(b));
    FilterInOrder(o, NotIn(b));
    assert Merge(base, other)[|b|..] == unseen;
    NormalConcat(b, unseen);
    if |unseen| > 0 { assert unseen[0] in unseen; }
  }

  lemma NormalConcat(a: seq<string>, b: seq<string>)
    requires IsNormal(a) && IsNormal(b)
    requires forall x :: x in b ==> x !in a
    ensures IsNormal(a + b)
  {
    forall i, j | 0 <= i < j < |a + b|
      ensures (a + b)[i] != (a + b)[j]
    {
      if i < |a| <= j { assert b[j - |a|] in b; }
    }
  }

  /** Difference, in the base's order. */
  lemma SubtractMeaning(base: seq<string>, other: seq<string>)
    ensures IsNormal(Subtract(base, other))
    ensures forall x :: x in Subtract(base, other) <==> x in Normalize(base) && x !in Normalize(other)
    ensures IsSubsequence(Subtract(base, other), Normalize(base))
    ensures (forall x :: x in Normalize(base) ==> x !in Normalize(other)) ==> Subtract(base, other) == Normalize(base)
  {
    var o := Normalize(other);
    NormalizeNormal(base);
    FilterMembers(Normalize(base), NotIn(o));
    FilterInOrder(Normalize(base), NotIn(o));
  }

  /** Intersection, in the base's order. */
  lemma IntersectMeaning(base: seq<string>, other: seq<string>)
    ensures IsNormal(Intersect(base, other))
    ensures forall x :: x in Intersect(base, other) <==> x in Normalize(base) && x in Normalize(other)
    ensures IsSubsequence(Intersect(base, other), Normalize(base))
    ensures (forall x :: x in Normalize(base) ==> x in Normalize(other)) ==> Intersect(base, other) == Normalize(base)
  {
    var o := Normalize(other);
    NormalizeNormal(base);
    FilterMembers(Normalize(base), In(o));
    FilterInOrder(Normalize(base), In(o));
  }

  /** What applying a selection leaves: the old and the added names, minus the removed ones
      that were not added. */
  lemma ApplySelectedMembers(origin: seq<string>, add: seq<string>, remove: seq<string>)
    ensures IsNormal(ApplySelected(origin, add, remove))
    ensures forall x :: x in ApplySelected(origin, add, remove) <==>
              x in Normalize(add) || (x in Normalize(origin) && x !in Normalize(remove))
    ensures IsSubsequence(ApplySelected(origin, add, remove), Merge(origin, add))
  {
    var a, r := Normalize(add), Normalize(remove);
    var merged, dropped := Merge(origin, a), Subtract(r, a);
    NormalizeNormal(add);
    NormalizeNormal(remove);
    MergeMeaning(origin, a);
    SubtractMeaning(r, a);
    NormalizeNormal(merged);
    NormalizeNormal(dropped);
    SubtractMeaning(merged, dropped);
  }

  lemma {:induction false} FilterSnoc(xs: seq<string>, x: string, p: string -> bool)
    ensures Filter(xs + [x], p) == Filter(xs, p) + (if p(x) then [x] else [])
  {
    if xs != [] {
      FilterSnoc(xs[1..], x, p);
      assert (xs + [x])[1..] == xs[1..] + [x];
    }
  }

  /** One turn of the merge loop: the next name is appended exactly when it is not seen yet. */
  lemma MergeTurn(b: seq<string>, extra: seq<string>, i: nat)
    requires Distinct(extra) && i < |extra|
    ensures extra[i] in b + Filter(extra[..i], NotIn(b)) <==> extra[i] in b
    ensures b + Filter(extra[..i + 1], NotIn(b)) ==
              b + Filter(extra[..i], NotIn(b)) + (if extra[i] in b then [] else [extra[i]])
  {
    FilterSnoc(extra[..i], extra[i], NotIn(b));
    FilterKeeps(extra[..i], NotIn(b));
    assert extra[..i + 1] == extra[..i] + [extra[i]];
  }

  /** `mergeModelNames` with its `seen` set. */
  method MergeNames(base: seq<string>, appended: seq<string>) returns (merged: seq<string>)
    ensures merged == Merge(base, appended)
  {
    merged := Normalize(base);
    var extra := Normalize(appended);
    NormalizeNormal(appended);
    ghost var b := merged;
    var seen := set x | x in merged;
    for i := 0 to |extra|
      invariant merged == b + Filter(extra[..i], NotIn(b))
      invariant forall x :: x in seen <==> x in merged
    {
      MergeTurn(b, extra, i);
      if extra[i] !in seen {
        seen := seen + {extra[i]};
        merged := merged + [extra[i]];
      }
    }
    assert extra[..|extra|] == extra;
  }
}
