/** Go's string helpers as the gateway uses them: `strings.TrimSpace`, `strings.Trim`,
    `strings.Split` and `strings.Join` with a one-character separator. */
module Text {

  /** `unicode.IsSpace`. */
  predicate IsSpace(c: char) {
    || '\t' <= c <= '\r'
    || c == ' ' || c == '\U{85}' || c == '\U{A0}' || c == '\U{1680}'
    || '\U{2000}' <= c <= '\U{200A}'
    || c == '\U{2028}' || c == '\U{2029}' || c == '\U{202F}' || c == '\U{205F}' || c == '\U{3000}'
  }

  function TrimLeft(s: string, cut: char -> bool): string {
    if s != [] && cut(s[0]) then TrimLeft(s[1..], cut) else s
  }

  function TrimRight(s: string, cut: char -> bool): string {
    if s != [] && cut(s[|s| - 1]) then TrimRight(s[..|s| - 1], cut) else s
  }

  function TrimBy(s: string, cut: char -> bool): string {
    TrimRight(TrimLeft(s, cut), cut)
  }

  function TrimSpace(s: string): string {
    TrimBy(s, IsSpace)
  }

  function TrimChar(s: string, sep: char): string {
    TrimBy(s, (c: char) => c == sep)
  }

  /** Nothing left to cut at either end. */
  predicate IsTrimmed(s: string, cut: char -> bool) {
    s == [] || (!cut(s[0]) && !cut(s[|s| - 1]))
  }

  predicate StartsWith(s: string, prefix: string) {
    prefix <= s
  }

  /** The pieces between separators; never empty, as in Go. */
  function Split(s: string, sep: char): (r: seq<string>)
    ensures |r| >= 1
  {
    if s == [] then [""]
    else if s[0] == sep then [""] + Split(s[1..], sep)
    else
      var r := Split(s[1..], sep);
      [[s[0]] + r[0]] + r[1..]
  }

  function Join(xs: seq<string>, sep: char): string {
    if |xs| == 0 then ""
    else if |xs| == 1 then xs[0]
    else xs[0] + [sep] + Join(xs[1..], sep)
  }

  predicate FreeOf(xs: seq<string>, sep: char) {
    forall i :: 0 <= i < |xs| ==> sep !in xs[i]
  }

  lemma {:induction false} TrimLeftStops(s: string, cut: char -> bool)
    ensures var t := TrimLeft(s, cut); t == [] || !cut(t[0])
    ensures |TrimLeft(s, cut)| <= |s| && TrimLeft(s, cut) == s[|s| - |TrimLeft(s, cut)|..]
  {
    if s != [] && cut(s[0]) {
      TrimLeftStops(s[1..], cut);
    }
  }

  lemma {:induction false} TrimRightStops(s: string, cut: char -> bool)
    ensures var t := TrimRight(s, cut); t <= s && (t == [] || !cut(t[|t| - 1]))
  {
    if s != [] && cut(s[|s| - 1]) {
      TrimRightStops(s[..|s| - 1], cut);
    }
  }

  /** Trimming leaves a trimmed string and is the identity on trimmed strings. */
  lemma TrimByMeaning(s: string, cut: char -> bool)
    ensures IsTrimmed(TrimBy(s, cut), cut)
    ensures IsTrimmed(s, cut) <==> TrimBy(s, cut) == s
  {
    TrimLeftStops(s, cut);
    var t := TrimLeft(s, cut);
    TrimRightStops(t, cut);
    if IsTrimmed(s, cut) {
      assert t == s;
      assert TrimRight(s, cut) == s;
    }
  }

  lemma {:induction false} TrimLeftCuts(s: string, cut: char -> bool)
    ensures forall k :: 0 <= k < |s| - |TrimLeft(s, cut)| ==> cut(s[k])
  {
    if s != [] && cut(s[0]) {
      TrimLeftCuts(s[1..], cut);
      TrimLeftStops(s[1..], cut);
      assert forall k :: 0 < k < |s| ==> s[k] == s[1..][k - 1];
    }
  }

  lemma {:induction false} TrimRightCuts(s: string, cut: char -> bool)
    ensures forall k :: |TrimRight(s, cut)| <= k < |s| ==> cut(s[k])
  {
    if s != [] && cut(s[|s| - 1]) {
      TrimRightCuts(s[..|s| - 1], cut);
      TrimRightStops(s[..|s| - 1], cut);
    }
  }

  /** Trimming takes a stretch of the string and leaves out nothing but characters to cut. */
  lemma TrimBySpan(s: string, cut: char -> bool) returns (i: nat, j: nat)
    ensures i <= j <= |s| && TrimBy(s, cut) == s[i..j]
    ensures forall k :: 0 <= k < i || j <= k < |s| ==> cut(s[k])
  {
    var t := TrimLeft(s, cut);
    TrimLeftStops(s, cut);
    TrimLeftCuts(s, cut);
    TrimRightStops(t, cut);
    TrimRightCuts(t, cut);
    i := |s| - |t|;
    j := i + |TrimRight(t, cut)|;
    assert TrimRight(t, cut) == t[..j - i] == s[i..j];
    forall k | j <= k < |s| ensures cut(s[k]) {
      assert s[k] == t[k - i];
    }
  }

  lemma TrimKeepsChars(s: string, cut: char -> bool)
    ensures forall c :: c in TrimBy(s, cut) ==> c in s
  {
    TrimLeftStops(s, cut);
    TrimRightStops(TrimLeft(s, cut), cut);
  }

  lemma {:induction false} SplitFree(s: string, sep: char)
    ensures FreeOf(Split(s, sep), sep)
  {
    if s != [] {
      SplitFree(s[1..], sep);
      var r := Split(s[1..], sep);
      if s[0] != sep {
        assert sep !in r[0] && sep !in [s[0]] + r[0];
      }
    }
  }

  lemma JoinCons(x: string, xs: seq<string>, sep: char)
    requires xs != []
    ensures Join([x] + xs, sep) == x + [sep] + Join(xs, sep)
  {
    assert ([x] + xs)[1..] == xs;
  }

  lemma JoinPrepend(c: char, xs: seq<string>, sep: char)
    requires xs != []
    ensures Join([[c] + xs[0]] + xs[1..], sep) == [c] + Join(xs, sep)
  {
    if |xs| > 1 {
      JoinCons([c] + xs[0], xs[1..], sep);
      assert [c] + xs[0] + [sep] + Join(xs[1..], sep) == [c] + (xs[0] + [sep] + Join(xs[1..], sep));
    } else {
      assert xs[1..] == [];
    }
  }

  lemma {:induction false} JoinSplit(s: string, sep: char)
    ensures Join(Split(s, sep), sep) == s
  {
    if s != [] {
      var r := Split(s[1..], sep);
      JoinSplit(s[1..], sep);
      assert s == [s[0]] + s[1..];
      if s[0] == sep {
        JoinCons("", r, sep);
      } else {
        JoinPrepend(s[0], r, sep);
      }
    }
  }

  lemma {:induction false} SplitWhole(s: string, sep: char)
    requires sep !in s
    ensures Split(s, sep) == [s]
  {
    if s != [] {
      SplitWhole(s[1..], sep);
      assert s == [s[0]] + s[1..];
    }
  }

  /** Splitting gives separator-free pieces that join back to the text. */
  lemma SplitPieces(s: string, sep: char)
    ensures FreeOf(Split(s, sep), sep)
    ensures Join(Split(s, sep), sep) == s
    ensures sep !in s ==> Split(s, sep) == [s]
  {
    SplitFree(s, sep);
    JoinSplit(s, sep);
    if sep !in s { SplitWhole(s, sep); }
  }

  lemma {:induction false} SplitCons(x: string, rest: string, sep: char)
    requires sep !in x
    ensures Split(x + [sep] + rest, sep) == [x] + Split(rest, sep)
  {
    var s := x + [sep] + rest;
    if x == [] {
      assert s[1..] == rest;
    } else {
      assert s[1..] == x[1..] + [sep] + rest;
      SplitCons(x[1..], rest, sep);
      assert x == [x[0]] + x[1..];
      assert ([x[1..]] + Split(rest, sep))[1..] == Split(rest, sep);
    }
  }

  /** Splitting undoes joining exactly when no piece holds the separator. */
  lemma {:induction false} SplitJoin(xs: seq<string>, sep: char)
    requires |xs| >= 1
    ensures Split(Join(xs, sep), sep) == xs <==> FreeOf(xs, sep)
  {
    SplitPieces(Join(xs, sep), sep);
    if FreeOf(xs, sep) {
      if |xs| == 1 {
        SplitPieces(xs[0], sep);
      } else {
        SplitJoin(xs[1..], sep);
        SplitCons(xs[0], Join(xs[1..], sep), sep);
        assert xs == [xs[0]] + xs[1..];
      }
    }
  }

  lemma {:induction false} JoinEnds(xs: seq<string>, sep: char)
    requires |xs| >= 2
    ensures Join(xs, sep) != ""
    ensures Join(xs, sep)[0] == if xs[0] == "" then sep else xs[0][0]
    ensures var z := xs[|xs| - 1]; Join(xs, sep)[|Join(xs, sep)| - 1] == if z == "" then sep else z[|z| - 1]
  {
    var rest := Join(xs[1..], sep);
    var j := Join(xs, sep);
    assert j == xs[0] + [sep] + rest;
    if |xs| > 2 {
      JoinEnds(xs[1..], sep);
    }
    assert rest != "" ==> j[|j| - 1] == rest[|rest| - 1];
    assert rest == "" ==> j[|j| - 1] == sep;
  }

  /** Lists that survive being written as one separated string and read back after the
      outer separators are trimmed: every entry is free of the separator and, unless there
      is only one entry, neither the first nor the last entry is blank. */
  predicate Storable(xs: seq<string>, sep: char) {
    && |xs| >= 1
    && FreeOf(xs, sep)
    && (|xs| == 1 || (xs[0] != "" && xs[|xs| - 1] != ""))
  }

  /** The exact round trip of `strings.Split(strings.Trim(strings.Join(xs)))`. */
  lemma StoredRoundTrip(xs: seq<string>, sep: char)
    requires |xs| >= 1
    ensures Split(TrimChar(Join(xs, sep), sep), sep) == xs <==> Storable(xs, sep)
  {
    var j := Join(xs, sep);
    var cut := (c: char) => c == sep;
    TrimByMeaning(j, cut);
    SplitJoin(xs, sep);
    SplitPieces(TrimChar(j, sep), sep);
    if |xs| >= 2 {
      JoinEnds(xs, sep);
    }
    if Storable(xs, sep) {
      assert IsTrimmed(j, cut) by {
        if |xs| == 1 { assert j == xs[0]; }
      }
    }
  }
}
