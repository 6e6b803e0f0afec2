/**
 * Masking of card numbers, src/waf/dlp.rs: thirteen to sixteen digits, each followed by any
 * spaces and dashes, between two word boundaries. The matcher tries the alternatives in the
 * order of the regex engine: as many digits as possible, as few separators as possible.
 */
module Card {
  import opened Prelude

  /** The engine's Unicode tables. What matters of them is in Proper. */
  datatype Classes = Classes(isDigit: char -> bool, isWord: char -> bool)

  ghost predicate Proper(cls: Classes) {
    && (forall c :: cls.isDigit(c) ==> cls.isWord(c))
    && !cls.isWord(' ') && !cls.isWord('-') && !cls.isWord('*')
  }

  const MASK := "****-****-****-****"

  predicate IsSeparator(c: char) {
    c == ' ' || c == '-'
  }

  predicate WordAt(cls: Classes, s: string, i: int) {
    0 <= i < |s| && cls.isWord(s[i])
  }

  predicate Boundary(cls: Classes, s: string, i: int) {
    WordAt(cls, s, i - 1) != WordAt(cls, s, i)
  }

  // What a card number is

  function DigitCount(cls: Classes, t: string): nat {
    if t == "" then 0 else (if cls.isDigit(t[0]) then 1 else 0) + DigitCount(cls, t[1..])
  }

  /** Only digits and separators, beginning with a digit unless empty. */
  predicate DigitGroups(cls: Classes, t: string) {
    && (t != "" ==> cls.isDigit(t[0]))
    && forall i :: 0 <= i < |t| ==> cls.isDigit(t[i]) || t[i] == ' ' || t[i] == '-'
  }

  /** The part of s from i to j matches the card pattern where it stands. */
  predicate IsCard(cls: Classes, s: string, i: nat, j: nat) {
    && i <= j <= |s|
    && DigitGroups(cls, s[i..j])
    && 13 <= DigitCount(cls, s[i..j]) <= 16
    && Boundary(cls, s, i) && Boundary(cls, s, j)
  }

  ghost predicate HasCard(cls: Classes, s: string) {
    exists i: nat, j: nat :: IsCard(cls, s, i, j)
  }

  // The matcher

  /** With n digits matched and their separators passed, up to position p. */
  function MatchGroup(cls: Classes, s: string, p: nat, n: nat): (r: Option<nat>)
    requires p <= |s|
    ensures r.Some? ==> p <= r.value <= |s| && (n < 13 ==> p < r.value)
    decreases |s| - p, 0
  {
    var more := if n < 16 && p < |s| && cls.isDigit(s[p]) then MatchSeparators(cls, s, p + 1, n + 1) else None;
    if more.Some? then more
    else if n >= 13 && Boundary(cls, s, p) then Some(p)
    else None
  }

  function MatchSeparators(cls: Classes, s: string, p: nat, n: nat): (r: Option<nat>)
    requires p <= |s|
    ensures r.Some? ==> p <= r.value <= |s|
    decreases |s| - p, 1
  {
    var here := MatchGroup(cls, s, p, n);
    if here.Some? then here
    else if p < |s| && IsSeparator(s[p]) then MatchSeparators(cls, s, p + 1, n)
    else None
  }

  function MatchAt(cls: Classes, s: string, i: nat): (r: Option<nat>)
    requires i <= |s|
    ensures r.Some? ==> i < r.value <= |s|
  {
    if Boundary(cls, s, i) then MatchGroup(cls, s, i, 0) else None
  }

  lemma PartGrows(cls: Classes, s: string, p: nat, j: nat)
    requires p < j <= |s|
    ensures DigitCount(cls, s[p..j]) == (if cls.isDigit(s[p]) then 1 else 0) + DigitCount(cls, s[p + 1..j])
  {
    assert s[p..j][1..] == s[p + 1..j];
  }

  /** Digits and separators only, from p to j. */
  predicate Groups(cls: Classes, s: string, p: nat, j: nat) {
    p <= j <= |s| && forall i :: p <= i < j ==> cls.isDigit(s[i]) || IsSeparator(s[i])
  }

  lemma {:induction false} GroupIsSound(cls: Classes, s: string, p: nat, n: nat)
    requires Proper(cls) && p <= |s| && n <= 16 && MatchGroup(cls, s, p, n).Some?
    ensures var j := MatchGroup(cls, s, p, n).value;
            && Groups(cls, s, p, j) && 13 <= n + DigitCount(cls, s[p..j]) <= 16 && Boundary(cls, s, j)
            && (p < j ==> cls.isDigit(s[p]))
    decreases |s| - p, 0
  {
    var j := MatchGroup(cls, s, p, n).value;
    if n < 16 && p < |s| && cls.isDigit(s[p]) && MatchSeparators(cls, s, p + 1, n + 1).Some? {
      SeparatorsAreSound(cls, s, p + 1, n + 1);
      PartGrows(cls, s, p, j);
    }
  }

  lemma {:induction false} SeparatorsAreSound(cls: Classes, s: string, p: nat, n: nat)
    requires Proper(cls) && p <= |s| && n <= 16 && MatchSeparators(cls, s, p, n).Some?
    ensures var j := MatchSeparators(cls, s, p, n).value;
            Groups(cls, s, p, j) && 13 <= n + DigitCount(cls, s[p..j]) <= 16 && Boundary(cls, s, j)
    decreases |s| - p, 1
  {
    if MatchGroup(cls, s, p, n).Some? {
      GroupIsSound(cls, s, p, n);
    } else {
      SeparatorsAreSound(cls, s, p + 1, n);
      PartGrows(cls, s, p, MatchSeparators(cls, s, p, n).value);
      assert !cls.isDigit(s[p]);
    }
  }

  lemma {:induction false} GroupIsComplete(cls: Classes, s: string, p: nat, n: nat, j: nat)
    requires Proper(cls) && n <= 16 && Groups(cls, s, p, j) && (p < j ==> cls.isDigit(s[p]))
    requires 13 <= n + DigitCount(cls, s[p..j]) <= 16 && Boundary(cls, s, j)
    ensures MatchGroup(cls, s, p, n).Some?
    decreases |s| - p, 0
  {
    if p < j {
      PartGrows(cls, s, p, j);
      SeparatorsAreComplete(cls, s, p + 1, n + 1, j);
    }
  }

  lemma {:induction false} SeparatorsAreComplete(cls: Classes, s: string, p: nat, n: nat, j: nat)
    requires Proper(cls) && n <= 16 && Groups(cls, s, p, j)
    requires 13 <= n + DigitCount(cls, s[p..j]) <= 16 && Boundary(cls, s, j)
    ensures MatchSeparators(cls, s, p, n).Some?
    decreases |s| - p, 1
  {
    if p == j || cls.isDigit(s[p]) {
      GroupIsComplete(cls, s, p, n, j);
    } else {
      PartGrows(cls, s, p, j);
      SeparatorsAreComplete(cls, s, p + 1, n, j);
    }
  }

  /** The matcher finds a card at a position if and only if one starts there, and what it finds is one. */
  lemma MatchAtIff(cls: Classes, s: string, i: nat)
    requires Proper(cls) && i <= |s|
    ensures MatchAt(cls, s, i).Some? <==> exists j: nat :: IsCard(cls, s, i, j)
    ensures MatchAt(cls, s, i).Some? ==> IsCard(cls, s, i, MatchAt(cls, s, i).value)
  {
    if MatchAt(cls, s, i).Some? {
      GroupIsSound(cls, s, i, 0);
      var j := MatchAt(cls, s, i).value;
      assert DigitGroups(cls, s[i..j]);
      assert IsCard(cls, s, i, j);
    }
    if j: nat :| IsCard(cls, s, i, j) {
      CardIsGroups(cls, s, i, j);
      GroupIsComplete(cls, s, i, 0, j);
    }
  }

  lemma {:induction false} GroupIsShortest(cls: Classes, s: string, p: nat, n: nat, k: nat)
    requires Proper(cls) && n <= 16 && Groups(cls, s, p, k) && (p < k ==> cls.isDigit(s[p]))
    requires n >= 13 ==> p > 0 && cls.isDigit(s[p - 1])
    requires 13 <= n + DigitCount(cls, s[p..k]) <= 16 && Boundary(cls, s, k)
    ensures MatchGroup(cls, s, p, n).Some? && MatchGroup(cls, s, p, n).value <= k
    decreases |s| - p, 0
  {
    if p < k {
      PartGrows(cls, s, p, k);
      SeparatorsAreShortest(cls, s, p + 1, n + 1, k);
    }
  }

  lemma {:induction false} SeparatorsAreShortest(cls: Classes, s: string, p: nat, n: nat, k: nat)
    requires Proper(cls) && n <= 16 && Groups(cls, s, p, k)
    requires n >= 13 ==> p > 0 && cls.isDigit(s[p - 1])
    requires 13 <= n + DigitCount(cls, s[p..k]) <= 16 && Boundary(cls, s, k)
    ensures MatchSeparators(cls, s, p, n).Some? && MatchSeparators(cls, s, p, n).value <= k
    decreases |s| - p, 1
  {
    if p == k || cls.isDigit(s[p]) {
      GroupIsShortest(cls, s, p, n, k);
    } else if n < 13 {
      PartGrows(cls, s, p, k);
      SeparatorsAreShortest(cls, s, p + 1, n, k);
    } else {
      // Between the thirteenth digit and a separator there is a boundary, where the engine stops.
      assert Boundary(cls, s, p);
      assert MatchGroup(cls, s, p, n) == Some(p);
    }
  }

  /** Although it repeats greedily, the engine takes the shortest card that starts at a position. */
  lemma MatchIsShortest(cls: Classes, s: string, i: nat, k: nat)
    requires Proper(cls) && IsCard(cls, s, i, k)
    ensures MatchAt(cls, s, i).Some? && MatchAt(cls, s, i).value <= k
  {
    CardIsGroups(cls, s, i, k);
    GroupIsShortest(cls, s, i, 0, k);
  }

  lemma CardIsGroups(cls: Classes, s: string, i: nat, j: nat)
    requires IsCard(cls, s, i, j)
    ensures Groups(cls, s, i, j) && (i < j ==> cls.isDigit(s[i]))
  {
    forall k | i <= k < j ensures cls.isDigit(s[k]) || IsSeparator(s[k]) {
      assert s[k] == s[i..j][k - i];
    }
    if i < j { assert s[i] == s[i..j][0]; }
  }

  // Replacing every match

  /** The leftmost match that starts at i or later. */
  function NextMatch(cls: Classes, s: string, i: nat): (r: Option<(nat, nat)>)
    requires i <= |s|
    ensures r.Some? ==> i <= r.value.0 <= |s| && MatchAt(cls, s, r.value.0) == Some(r.value.1)
    ensures forall k :: i <= k <= |s| && (r.Some? ==> k < r.value.0) ==> MatchAt(cls, s, k).None?
    decreases |s| - i
  {
    match MatchAt(cls, s, i)
    case Some(j) => Some((i, j))
    case None => if i < |s| then NextMatch(cls, s, i + 1) else None
  }

  /** The text from `from` on with every match replaced, each search starting where the last match ended. */
  function Masked(cls: Classes, s: string, from: nat): string
    requires from <= |s|
    decreases |s| - from
  {
    match NextMatch(cls, s, from)
    case None => s[from..]
    case Some((i, j)) => s[from..i] + MASK + Masked(cls, s, j)
  }

  function MaskCards(cls: Classes, s: string): string {
    Masked(cls, s, 0)
  }

  lemma MaskIsInert(cls: Classes, k: nat)
    requires Proper(cls) && k < |MASK|
    ensures !cls.isDigit(MASK[k])
    ensures MASK[0] == '*' && MASK[|MASK| - 1] == '*'
  {
    assert MASK[k] == '*' || MASK[k] == '-';
  }

  /** A card in the unmatched text in front of a match, or at the end, is a card of the original text. */
  lemma CardInGapIsCard(cls: Classes, s: string, from: nat, end: nat, out: string, a: nat, b: nat)
    requires Proper(cls) && from <= end <= |s| && (from == 0 || Boundary(cls, s, from))
    requires end - from <= |out| && out[..end - from] == s[from..end]
    requires if end < |s| then Boundary(cls, s, end) && cls.isDigit(s[end]) && end - from < |out| && out[end - from] == '*'
             else |out| == end - from
    requires IsCard(cls, out, a, b) && a < end - from
    ensures IsCard(cls, s, from + a, from + b) && from + a < end
  {
    var n := end - from;
    forall k | 0 <= k < n ensures out[k] == s[from + k] {
      assert out[k] == out[..n][k];
    }
    forall k | a <= k < b ensures out[k] != '*' {
      assert out[k] == out[a..b][k - a];
    }
    assert b <= n;
    assert out[a..b] == s[from + a..from + b];
    assert cls.isDigit(out[a]) by { assert out[a..b] != "" && out[a] == out[a..b][0]; }
    // After the gap stands a star, so a card ending there would end in a digit, right before the next match.
    assert WordAt(cls, out, n - 1) == WordAt(cls, s, end - 1);
    assert end < |s| ==> !WordAt(cls, out, n) && !WordAt(cls, s, end - 1);
    assert end < |s| ==> b < n;
  }

  lemma CardBehindMaskIsCard(cls: Classes, front: string, rest: string, a: nat, b: nat)
    requires Proper(cls) && IsCard(cls, front + MASK + rest, a, b) && a >= |front| + |MASK|
    ensures IsCard(cls, rest, a - |front| - |MASK|, b - |front| - |MASK|)
  {
    var out, k := front + MASK + rest, |front| + |MASK|;
    MaskIsInert(cls, 0);
    assert out[k - 1] == MASK[|MASK| - 1];
    forall i | k <= i < |out| ensures out[i] == rest[i - k] {
    }
    assert out[a..b] == rest[a - k..b - k];
    assert !WordAt(cls, out, k - 1) && !WordAt(cls, rest, -1);
    assert Boundary(cls, rest, a - k) by { assert WordAt(cls, out, a - 1) == WordAt(cls, rest, a - k - 1); }
    assert b > a by { assert out[a..b] != ""; }
    assert WordAt(cls, out, b - 1) == WordAt(cls, rest, b - k - 1) && WordAt(cls, out, b) == WordAt(cls, rest, b - k);
  }

  lemma NoCardBeforeFirstMatch(cls: Classes, s: string, from: nat, a: nat, b: nat)
    requires Proper(cls) && from <= |s| && (from == 0 || Boundary(cls, s, from)) && NextMatch(cls, s, from).None?
    ensures !IsCard(cls, s[from..], a, b)
  {
    var out := s[from..];
    if IsCard(cls, out, a, b) {
      assert a < |out| by { assert out[a..b] != ""; }
      CardInGapIsCard(cls, s, from, |s|, out, a, b);
      MatchAtIff(cls, s, from + a);
    }
  }

  /** No card starts in the text in front of a match, and the match starts with a digit behind a boundary. */
  lemma MatchStarts(cls: Classes, s: string, from: nat)
    requires Proper(cls) && from <= |s| && NextMatch(cls, s, from).Some?
    ensures var i := NextMatch(cls, s, from).value.0;
            NoCardStarts(cls, s, from, i) && i < |s| && Boundary(cls, s, i) && cls.isDigit(s[i])
  {
    var (i, j) := NextMatch(cls, s, from).value;
    NoMatchNoCard(cls, s, from, i);
    MatchAtIff(cls, s, i);
    assert s[i..j] != "" && s[i] == s[i..j][0];
  }

  lemma NoCardInFrontOfMask(cls: Classes, s: string, from: nat, end: nat, rest: string, a: nat, b: nat)
    requires Proper(cls) && from <= end < |s| && (from == 0 || Boundary(cls, s, from))
    requires NoCardStarts(cls, s, from, end) && Boundary(cls, s, end) && cls.isDigit(s[end]) && a < end - from
    ensures !IsCard(cls, s[from..end] + MASK + rest, a, b)
  {
    var front := s[from..end];
    var out, n := front + MASK + rest, |front|;
    assert out[n] == MASK[0] && out[..n] == front;
    if IsCard(cls, out, a, b) {
      CardInGapIsCard(cls, s, from, end, out, a, b);
    }
  }

  lemma NoCardInMask(cls: Classes, front: string, rest: string, a: nat, b: nat)
    requires Proper(cls) && |front| <= a < |front| + |MASK|
    ensures !IsCard(cls, front + MASK + rest, a, b)
  {
    var out := front + MASK + rest;
    MaskIsInert(cls, a - |front|);
    assert out[a] == MASK[a - |front|];
    if a < b <= |out| { assert out[a..b][0] == out[a]; }
  }

  lemma NoCardAroundMask(cls: Classes, s: string, from: nat, rest: string, a: nat, b: nat)
    requires Proper(cls) && from <= |s| && (from == 0 || Boundary(cls, s, from)) && NextMatch(cls, s, from).Some?
    requires !HasCard(cls, rest)
    ensures !IsCard(cls, s[from..NextMatch(cls, s, from).value.0] + MASK + rest, a, b)
  {
    var front := s[from..NextMatch(cls, s, from).value.0];
    if a < |front| {
      MatchStarts(cls, s, from);
      NoCardInFrontOfMask(cls, s, from, from + |front|, rest, a, b);
    } else if a < |front| + |MASK| {
      NoCardInMask(cls, front, rest, a, b);
    } else if IsCard(cls, front + MASK + rest, a, b) {
      CardBehindMaskIsCard(cls, front, rest, a, b);
    }
  }

  /** No part of the masked text matches the card pattern. */
  lemma {:induction false} MaskedHasNoCard(cls: Classes, s: string, from: nat)
    requires Proper(cls) && from <= |s| && (from == 0 || Boundary(cls, s, from))
    ensures !HasCard(cls, Masked(cls, s, from))
    decreases |s| - from
  {
    match NextMatch(cls, s, from)
    case None =>
      forall a: nat, b: nat ensures !IsCard(cls, Masked(cls, s, from), a, b) {
        NoCardBeforeFirstMatch(cls, s, from, a, b);
      }
    case Some((i, j)) =>
      MatchAtIff(cls, s, i);
      MaskedHasNoCard(cls, s, j);
      forall a: nat, b: nat ensures !IsCard(cls, Masked(cls, s, from), a, b) {
        NoCardAroundMask(cls, s, from, Masked(cls, s, j), a, b);
      }
  }

  /** No card number survives masking. */
  lemma NoCardSurvives(cls: Classes, s: string)
    requires Proper(cls)
    ensures !HasCard(cls, MaskCards(cls, s))
  {
    MaskedHasNoCard(cls, s, 0);
  }

  /** Masking leaves a text alone if and only if it has no card; so masking twice is masking once. */
  lemma MaskingIffCard(cls: Classes, s: string)
    requires Proper(cls)
    ensures MaskCards(cls, s) == s <==> !HasCard(cls, s)
    ensures MaskCards(cls, MaskCards(cls, s)) == MaskCards(cls, s)
  {
    NoCardSurvives(cls, s);
    NothingToMask(cls, MaskCards(cls, s));
    if !HasCard(cls, s) { NothingToMask(cls, s); }
  }

  lemma NothingToMask(cls: Classes, s: string)
    requires Proper(cls) && !HasCard(cls, s)
    ensures MaskCards(cls, s) == s
  {
    var r := NextMatch(cls, s, 0);
    if r.Some? {
      MatchAtIff(cls, s, r.value.0);
      assert false;
    }
  }

  // What masking does to the text as a whole

  /** Parts of s, from `from` on, that do not overlap and come in order. */
  predicate InOrder(s: string, from: nat, cuts: seq<(nat, nat)>)
    decreases |cuts|
  {
    if cuts == [] then from <= |s| else from <= cuts[0].0 < cuts[0].1 <= |s| && InOrder(s, cuts[0].1, cuts[1..])
  }

  /** s from `from` on, with each of these parts replaced and all the rest as it was. */
  function Replaced(s: string, from: nat, cuts: seq<(nat, nat)>, mask: string): string
    requires InOrder(s, from, cuts)
    decreases |cuts|
  {
    if cuts == [] then s[from..] else s[from..cuts[0].0] + mask + Replaced(s, cuts[0].1, cuts[1..], mask)
  }

  ghost predicate NoCardStarts(cls: Classes, s: string, from: nat, end: nat) {
    forall a: nat, b: nat :: from <= a < end ==> !IsCard(cls, s, a, b)
  }

  /** The parts are cards: each is the next to start behind the one before, and the shortest that starts there. */
  ghost predicate LeftmostCards(cls: Classes, s: string, from: nat, cuts: seq<(nat, nat)>)
    decreases |cuts|
  {
    if cuts == [] then NoCardStarts(cls, s, from, |s| + 1)
    else
      var (a, b) := cuts[0];
      && from <= a && NoCardStarts(cls, s, from, a)
      && IsCard(cls, s, a, b) && (forall e: nat :: IsCard(cls, s, a, e) ==> b <= e)
      && LeftmostCards(cls, s, b, cuts[1..])
  }

  lemma NoMatchNoCard(cls: Classes, s: string, from: nat, end: nat)
    requires Proper(cls) && forall k :: from <= k < end && k <= |s| ==> MatchAt(cls, s, k).None?
    ensures NoCardStarts(cls, s, from, end)
  {
    forall a: nat, b: nat | from <= a < end ensures !IsCard(cls, s, a, b) {
      if a <= |s| { MatchAtIff(cls, s, a); }
    }
  }

  lemma {:induction false} MaskedIsReplaced(cls: Classes, s: string, from: nat) returns (cuts: seq<(nat, nat)>)
    requires Proper(cls) && from <= |s|
    ensures InOrder(s, from, cuts) && LeftmostCards(cls, s, from, cuts)
    ensures Masked(cls, s, from) == Replaced(s, from, cuts, "****-****-****-****")
    decreases |s| - from
  {
    match NextMatch(cls, s, from)
    case None =>
      NoMatchNoCard(cls, s, from, |s| + 1);
      cuts := [];
    case Some((i, j)) =>
      NoMatchNoCard(cls, s, from, i);
      MatchAtIff(cls, s, i);
      forall e: nat | IsCard(cls, s, i, e) ensures j <= e {
        MatchIsShortest(cls, s, i, e);
      }
      var rest := MaskedIsReplaced(cls, s, j);
      cuts := [(i, j)] + rest;
      assert cuts[1..] == rest;
  }

  /**
   * Masking replaces exactly the cards found from left to right, each by the mask, and keeps all the
   * text in front of, between and behind them.
   */
  lemma MaskingReplacesCards(cls: Classes, s: string) returns (cuts: seq<(nat, nat)>)
    requires Proper(cls)
    ensures InOrder(s, 0, cuts) && LeftmostCards(cls, s, 0, cuts)
    ensures MaskCards(cls, s) == Replaced(s, 0, cuts, "****-****-****-****")
  {
    cuts := MaskedIsReplaced(cls, s, 0);
  }

  /** There is only one way to find them. */
  lemma {:induction false} LeftmostCardsAreUnique(cls: Classes, s: string, from: nat, one: seq<(nat, nat)>, two: seq<(nat, nat)>)
    requires LeftmostCards(cls, s, from, one) && LeftmostCards(cls, s, from, two)
    ensures one == two
    decreases |one|
  {
    if one != [] && two != [] {
      var (a, b) := one[0];
      var (c, d) := two[0];
      assert a == c && b == d;
      LeftmostCardsAreUnique(cls, s, b, one[1..], two[1..]);
      assert one == [one[0]] + one[1..] && two == [two[0]] + two[1..];
    }
  }
}
