/**
 * Masking of e-mail addresses, src/waf/dlp.rs, and the whole of mask_sensitive_info. An address
 * is one or more characters of a local part, an at sign, and a domain with a dot before at least
 * two last letters; masking replaces its local part by four stars.
 */
module Email {
  import opened Prelude
  import Card

  const STARS := "****"

  predicate IsAlpha(c: char) {
    'a' <= c <= 'z' || 'A' <= c <= 'Z'
  }

  predicate IsDomainChar(c: char) {
    IsAlpha(c) || '0' <= c <= '9' || c == '.' || c == '-'
  }

  predicate IsLocalChar(c: char) {
    IsDomainChar(c) || c == '_' || c == '%' || c == '+'
  }

  /** The character classes of the pattern, written out. */
  lemma CharacterClasses(c: char)
    ensures IsDomainChar(c) <==> 'a' <= c <= 'z' || 'A' <= c <= 'Z' || '0' <= c <= '9' || c in ".-"
    ensures IsLocalChar(c) <==> 'a' <= c <= 'z' || 'A' <= c <= 'Z' || '0' <= c <= '9' || c in "._%+-"
  {
  }

  // What an address is

  /** The dot at position d of t stands between a domain and its last letters. */
  predicate DotAt(t: string, d: nat) {
    && 1 <= d && d + 3 <= |t|
    && t[d] == '.'
    && (forall k :: 0 <= k < d ==> IsDomainChar(t[k]))
    && (forall k :: d < k < |t| ==> IsAlpha(t[k]))
  }

  ghost predicate IsDomain(t: string) {
    exists d: nat :: DotAt(t, d)
  }

  /** The part of s from i to j is an address with its at sign at m. */
  ghost predicate IsAddress(s: string, i: nat, m: nat, j: nat) {
    && i < m < j <= |s|
    && (forall k :: i <= k < m ==> IsLocalChar(s[k]))
    && s[m] == '@'
    && IsDomain(s[m + 1..j])
  }

  ghost predicate HasAddress(s: string) {
    exists i: nat, m: nat, j: nat :: IsAddress(s, i, m, j)
  }

  // The matcher, trying alternatives in the order of the regex engine

  function AlphaEnd(s: string, p: nat): (e: nat)
    requires p <= |s|
    ensures p <= e <= |s| && forall k :: p <= k < e ==> IsAlpha(s[k])
    decreases |s| - p
  {
    if p < |s| && IsAlpha(s[p]) then AlphaEnd(s, p + 1) else p
  }

  /** The final dot and its letters. */
  function MatchDot(s: string, p: nat): (r: Option<nat>)
    requires p <= |s|
    ensures r.Some? ==> p + 3 <= r.value <= |s|
  {
    if p + 2 < |s| && s[p] == '.' && IsAlpha(s[p + 1]) && IsAlpha(s[p + 2]) then Some(AlphaEnd(s, p + 3)) else None
  }

  /** After at least one domain character. */
  function MatchDomain(s: string, p: nat): (r: Option<nat>)
    requires p <= |s|
    ensures r.Some? ==> p < r.value <= |s|
    decreases |s| - p
  {
    var more := if p < |s| && IsDomainChar(s[p]) then MatchDomain(s, p + 1) else None;
    if more.Some? then more else MatchDot(s, p)
  }

  function DomainAt(s: string, p: nat): (r: Option<nat>)
    requires p <= |s|
    ensures r.Some? ==> p < r.value <= |s|
  {
    if p < |s| && IsDomainChar(s[p]) then MatchDomain(s, p + 1) else None
  }

  /** After at least one local character. */
  function MatchLocal(s: string, p: nat): (r: Option<nat>)
    requires p <= |s|
    ensures r.Some? ==> p < r.value <= |s|
    decreases |s| - p
  {
    var more := if p < |s| && IsLocalChar(s[p]) then MatchLocal(s, p + 1) else None;
    if more.Some? then more
    else if p < |s| && s[p] == '@' then DomainAt(s, p + 1)
    else None
  }

  function AddressAt(s: string, i: nat): (r: Option<nat>)
    requires i <= |s|
    ensures r.Some? ==> i < r.value <= |s|
  {
    if i < |s| && IsLocalChar(s[i]) then MatchLocal(s, i + 1) else None
  }

  lemma {:induction false} DomainIsSound(s: string, start: nat, p: nat)
    requires start < p <= |s| && MatchDomain(s, p).Some?
    requires forall k :: start <= k < p ==> IsDomainChar(s[k])
    ensures IsDomain(s[start..MatchDomain(s, p).value])
    decreases |s| - p
  {
    if p < |s| && IsDomainChar(s[p]) && MatchDomain(s, p + 1).Some? {
      DomainIsSound(s, start, p + 1);
    } else {
      var t := s[start..MatchDomain(s, p).value];
      forall k | p - start < k < |t| ensures IsAlpha(t[k]) {
        assert t[k] == s[start + k];
      }
      assert DotAt(t, p - start);
    }
  }

  lemma {:induction false} DomainIsComplete(s: string, start: nat, p: nat, d: nat, j: nat)
    requires start < p <= start + d && j <= |s| && start <= j && DotAt(s[start..j], d)
    ensures MatchDomain(s, p).Some?
    decreases start + d - p
  {
    var t := s[start..j];
    if p < start + d {
      assert s[p] == t[p - start];
      DomainIsComplete(s, start, p + 1, d, j);
    } else {
      assert s[p] == t[d] && s[p + 1] == t[d + 1] && s[p + 2] == t[d + 2];
    }
  }

  /** A domain is found at a position if and only if one starts there. */
  lemma DomainAtIff(s: string, p: nat)
    requires p <= |s|
    ensures DomainAt(s, p).Some? <==> exists e: nat :: p <= e <= |s| && IsDomain(s[p..e])
    ensures DomainAt(s, p).Some? ==> IsDomain(s[p..DomainAt(s, p).value])
  {
    if DomainAt(s, p).Some? {
      DomainIsSound(s, p, p + 1);
      assert p <= DomainAt(s, p).value <= |s|;
    }
    if e: nat :| p <= e <= |s| && IsDomain(s[p..e]) {
      var d: nat :| DotAt(s[p..e], d);
      assert s[p] == s[p..e][0];
      DomainIsComplete(s, p, p + 1, d, e);
    }
  }

  lemma {:induction false} LocalIsSound(s: string, i: nat, p: nat) returns (m: nat)
    requires i < p <= |s| && MatchLocal(s, p).Some?
    requires forall k :: i <= k < p ==> IsLocalChar(s[k])
    ensures IsAddress(s, i, m, MatchLocal(s, p).value)
    decreases |s| - p
  {
    if p < |s| && IsLocalChar(s[p]) && MatchLocal(s, p + 1).Some? {
      m := LocalIsSound(s, i, p + 1);
    } else {
      m := p;
      DomainAtIff(s, p + 1);
    }
  }

  lemma {:induction false} LocalIsComplete(s: string, p: nat, m: nat)
    requires p <= m < |s| && s[m] == '@' && DomainAt(s, m + 1).Some?
    requires forall k :: p <= k < m ==> IsLocalChar(s[k])
    ensures MatchLocal(s, p).Some?
    decreases m - p
  {
    if p < m { LocalIsComplete(s, p + 1, m); }
  }

  lemma AddressIsSound(s: string, i: nat) returns (m: nat)
    requires i <= |s| && AddressAt(s, i).Some?
    ensures IsAddress(s, i, m, AddressAt(s, i).value)
  {
    m := LocalIsSound(s, i, i + 1);
  }

  lemma AddressIsComplete(s: string, i: nat, m: nat, j: nat)
    requires IsAddress(s, i, m, j)
    ensures AddressAt(s, i).Some?
  {
    DomainAtIff(s, m + 1);
    LocalIsComplete(s, i + 1, m);
  }

  /** The matcher finds an address at a position if and only if one starts there, and what it finds is one. */
  lemma AddressAtIff(s: string, i: nat)
    requires i <= |s|
    ensures AddressAt(s, i).Some? <==> exists m: nat, j: nat :: IsAddress(s, i, m, j)
    ensures AddressAt(s, i).Some? ==> exists m: nat :: IsAddress(s, i, m, AddressAt(s, i).value)
  {
    if AddressAt(s, i).Some? {
      var m := AddressIsSound(s, i);
    }
    if m: nat, j: nat :| IsAddress(s, i, m, j) {
      AddressIsComplete(s, i, m, j);
    }
  }

  lemma {:induction false} LaterDotIsBeyond(s: string, p: nat, k: nat)
    requires p <= k <= |s| && MatchDomain(s, p).Some?
    requires forall i :: p <= i < k ==> IsAlpha(s[i])
    ensures MatchDomain(s, p).value > k
    decreases k - p
  {
    if p < k { LaterDotIsBeyond(s, p + 1, k); }
  }

  lemma {:induction false} AlphaEndIsLongest(s: string, p: nat, k: nat)
    requires p <= k <= |s| && forall i :: p <= i < k ==> IsAlpha(s[i])
    ensures AlphaEnd(s, p) >= k
    decreases k - p
  {
    if p < k { AlphaEndIsLongest(s, p + 1, k); }
  }

  lemma {:induction false} DomainIsLongest(s: string, start: nat, p: nat, d: nat, k: nat)
    requires start < p <= start + d && start <= k <= |s| && DotAt(s[start..k], d)
    ensures MatchDomain(s, p).Some? && MatchDomain(s, p).value >= k
    decreases start + d - p
  {
    var t := s[start..k];
    forall i | start <= i < k ensures s[i] == t[i - start] {
    }
    if p < start + d {
      DomainIsLongest(s, start, p + 1, d, k);
    } else {
      AlphaEndIsLongest(s, p + 3, k);
      if MatchDomain(s, p + 1).Some? { LaterDotIsBeyond(s, p + 1, k); }
    }
  }

  lemma {:induction false} LocalIsLongest(s: string, p: nat, m: nat, k: nat)
    requires p <= m < |s| && s[m] == '@' && m + 1 <= k <= |s| && IsDomain(s[m + 1..k])
    requires forall i :: p <= i < m ==> IsLocalChar(s[i])
    ensures MatchLocal(s, p).Some? && MatchLocal(s, p).value >= k
    decreases m - p
  {
    if p < m {
      LocalIsLongest(s, p + 1, m, k);
    } else {
      var d: nat :| DotAt(s[m + 1..k], d);
      assert s[m + 1] == s[m + 1..k][0];
      DomainIsLongest(s, m + 1, m + 2, d, k);
    }
  }

  /** The engine takes the longest address that starts at a position. */
  lemma MatchIsLongest(s: string, i: nat, m: nat, k: nat)
    requires IsAddress(s, i, m, k)
    ensures AddressAt(s, i).Some? && AddressAt(s, i).value >= k
  {
    LocalIsLongest(s, i + 1, m, k);
  }

  // Replacing every match

  function NextAddress(s: string, i: nat): (r: Option<(nat, nat)>)
    requires i <= |s|
    ensures r.Some? ==> i <= r.value.0 < r.value.1 <= |s| && AddressAt(s, r.value.0) == Some(r.value.1)
    ensures forall k :: i <= k <= |s| && (r.Some? ==> k < r.value.0) ==> AddressAt(s, k).None?
    decreases |s| - i
  {
    match AddressAt(s, i)
    case Some(j) => Some((i, j))
    case None => if i < |s| then NextAddress(s, i + 1) else None
  }

  /** `str::find('@')`, on the part of s from p to j. */
  function FindAt(s: string, p: nat, j: nat): (m: nat)
    requires p <= j <= |s|
    ensures p <= m <= j && (forall k :: p <= k < m ==> s[k] != '@') && (m < j ==> s[m] == '@')
    decreases j - p
  {
    if p < j && s[p] != '@' then FindAt(s, p + 1, j) else p
  }

  /** A match with everything before its at sign replaced; without one it would stay as it is. */
  function Starred(s: string, i: nat, j: nat): string
    requires i <= j <= |s|
  {
    var m := FindAt(s, i, j);
    if m < j then STARS + s[m..j] else s[i..j]
  }

  function Masked(s: string, from: nat): string
    requires from <= |s|
    decreases |s| - from
  {
    match NextAddress(s, from)
    case None => s[from..]
    case Some((i, j)) => s[from..i] + Starred(s, i, j) + Masked(s, j)
  }

  function MaskEmails(s: string): string {
    Masked(s, 0)
  }

  // What is left after masking

  /** At position p of t a domain starts. */
  ghost predicate DomainFrom(t: string, p: nat) {
    exists e: nat :: p <= e <= |t| && IsDomain(t[p..e])
  }

  /** The at sign of an address: a local character before it and a domain behind it. */
  ghost predicate AddressAround(t: string, m: nat) {
    0 < m < |t| && t[m] == '@' && IsLocalChar(t[m - 1]) && DomainFrom(t, m + 1)
  }

  lemma HasAddressIff(t: string)
    ensures HasAddress(t) <==> exists m: nat :: AddressAround(t, m)
  {
    if m: nat :| AddressAround(t, m) {
      var e: nat :| m + 1 <= e <= |t| && IsDomain(t[m + 1..e]);
      assert IsAddress(t, m - 1, m, e);
    }
    if i: nat, m: nat, j: nat :| IsAddress(t, i, m, j) {
      assert IsLocalChar(t[m - 1]);
      assert m + 1 <= j <= |t| && IsDomain(t[m + 1..j]);
      assert AddressAround(t, m);
    }
  }

  /**
   * A match that ends at p is followed at once by another at sign and a domain, and that domain
   * is not itself the beginning of an address.
   */
  predicate Exposed(s: string, p: nat)
    requires p <= |s|
  {
    p < |s| && s[p] == '@' && DomainAt(s, p + 1).Some? && AddressAt(s, p + 1).None?
  }

  /** Some match of the text, from `from` on, is exposed. */
  predicate SomeExposed(s: string, from: nat)
    requires from <= |s|
    decreases |s| - from
  {
    match NextAddress(s, from)
    case None => false
    case Some((_, j)) => Exposed(s, j) || SomeExposed(s, j)
  }

  lemma DomainCharsOnly(t: string, k: nat)
    requires IsDomain(t) && k < |t|
    ensures IsDomainChar(t[k])
  {
    var d: nat :| DotAt(t, d);
  }

  lemma DomainSpans(t: string, p: nat, e: nat)
    requires p <= e <= |t| && IsDomain(t[p..e])
    ensures forall k :: p <= k < e ==> IsDomainChar(t[k])
  {
    forall k | p <= k < e ensures IsDomainChar(t[k]) {
      DomainCharsOnly(t[p..e], k - p);
    }
  }

  /** A domain of t that starts where t equals a given text lies within that text, if a character that no domain has follows. */
  lemma DomainInsideAt(t: string, p: nat, f: nat, s: string, q: nat, n: nat)
    requires p + n <= |t| && q + n <= |s| && t[p..p + n] == s[q..q + n]
    requires p + n < |t| ==> !IsDomainChar(t[p + n])
    requires p <= f <= |t| && IsDomain(t[p..f])
    ensures p < f <= p + n && IsDomain(s[q..q + f - p])
  {
    DomainSpans(t, p, f);
    assert f <= p + n;
    var w := f - p;
    SliceOfSlice(t, p, p + n, 0, w);
    SliceOfSlice(s, q, q + n, 0, w);
    assert w > 0 by { var d: nat :| DotAt(t[p..f], d); }
  }

  /** A domain lies within the part of t that equals the given text, if a character that no domain has follows. */
  lemma DomainInside(t: string, p: nat, s: string, q: nat, n: nat) returns (e: nat)
    requires p + n <= |t| && q + n <= |s| && t[p..p + n] == s[q..q + n]
    requires p + n < |t| ==> !IsDomainChar(t[p + n])
    requires DomainFrom(t, p)
    ensures q < e <= q + n && IsDomain(s[q..e])
  {
    var f: nat :| p <= f <= |t| && IsDomain(t[p..f]);
    DomainInsideAt(t, p, f, s, q, n);
    e := q + f - p;
  }

  lemma DomainShifts(t: string, p: nat, front: string)
    requires p <= |t|
    ensures DomainFrom(front + t, |front| + p) <==> DomainFrom(t, p)
  {
    var n := |front|;
    if DomainFrom(t, p) {
      var e: nat :| p <= e <= |t| && IsDomain(t[p..e]);
      SliceBehind(front, t, p, e);
      assert n + p <= n + e <= |front + t| && IsDomain((front + t)[n + p..n + e]);
    }
    if DomainFrom(front + t, n + p) {
      var e: nat :| n + p <= e <= |front + t| && IsDomain((front + t)[n + p..e]);
      SliceBehind(front, t, p, e - n);
      assert n + (e - n) == e;
      assert p <= e - n <= |t| && IsDomain(t[p..e - n]);
    }
  }

  /** In the unmatched text from `from` to `end` no at sign has an address around it. */
  lemma NoAddressInGap(s: string, from: nat, end: nat, out: string, m: nat)
    requires from <= end <= |s| && end - from <= |out| && out[..end - from] == s[from..end]
    requires end - from < |out| ==> !IsDomainChar(out[end - from])
    requires forall k :: from <= k < end ==> AddressAt(s, k).None?
    requires m < end - from
    ensures !AddressAround(out, m)
  {
    if AddressAround(out, m) {
      var n, at := end - from, from + m;
      assert out[m] == out[..n][m] && out[m - 1] == out[..n][m - 1];
      assert out[m + 1..n] == out[..n][m + 1..] && s[at + 1..end] == s[from..end][m + 1..];
      var e := DomainInside(out, m + 1, s, at + 1, n - m - 1);
      AddressIsComplete(s, at - 1, at, e);
    }
  }

  /** The masked text behind a match starts with an at sign and a domain exactly when the match is exposed. */
  ghost predicate LeadsWithDomain(t: string) {
    t != "" && t[0] == '@' && DomainFrom(t, 1)
  }

  /** The position of the next match from p on, or the end of the text. */
  function GapEnd(s: string, p: nat): (q: nat)
    requires p <= |s|
    ensures p <= q <= |s|
  {
    var next := NextAddress(s, p);
    if next.Some? then next.value.0 else |s|
  }

  /** No match begins within the domain behind the second at sign. */
  lemma DomainReachesGapEnd(s: string, p: nat, e: nat)
    requires p <= |s| && Exposed(s, p) && p + 1 <= e <= |s| && IsDomain(s[p + 1..e])
    ensures e <= GapEnd(s, p)
  {
    var q := GapEnd(s, p);
    if q < e {
      assert q > p;
      NoAddressStartsInDomain(s, p + 1, e, q);
      assert false;
    }
  }

  lemma PrefixLeads(out: string, s: string, p: nat, e: nat)
    requires p + 1 <= e <= |s| && s[p] == '@' && IsDomain(s[p + 1..e])
    requires e - p <= |out| && out[..e - p] == s[p..e]
    ensures LeadsWithDomain(out)
  {
    var n := e - p;
    assert out[0] == out[..n][0] && s[p] == s[p..e][0];
    assert out[1..n] == out[..n][1..] && s[p + 1..e] == s[p..e][1..];
    assert 1 <= n <= |out| && IsDomain(out[1..n]);
  }

  lemma ExposedLeads(s: string, p: nat)
    requires p <= |s| && Exposed(s, p)
    ensures LeadsWithDomain(Masked(s, p))
  {
    var out, q, e := Masked(s, p), GapEnd(s, p), DomainAt(s, p + 1).value;
    DomainAtIff(s, p + 1);
    DomainReachesGapEnd(s, p, e);
    GapThenStar(s, p);
    DomainAtIff(s, p + 1);
    ShorterPrefixAgrees(out, s, p, q - p, e - p);
    PrefixLeads(out, s, p, e);
  }

  lemma LeadsInPrefix(out: string, n: nat, s: string, p: nat)
    requires 0 < n <= |out| && p + n <= |s| && out[..n] == s[p..p + n] && (n < |out| ==> out[n] == '*')
    requires LeadsWithDomain(out)
    ensures s[p] == '@' && n > 1 && DomainAt(s, p + 1).Some?
  {
    assert out[0] == out[..n][0] && s[p] == s[p..p + n][0];
    assert out[1..n] == out[..n][1..] && s[p + 1..p + n] == s[p..p + n][1..];
    var e := DomainInside(out, 1, s, p + 1, n - 1);
    DomainAtIff(s, p + 1);
  }

  lemma LeadsIsExposed(s: string, p: nat)
    requires p <= |s| && LeadsWithDomain(Masked(s, p))
    ensures Exposed(s, p)
  {
    GapThenStar(s, p);
    LeadsInPrefix(Masked(s, p), GapEnd(s, p) - p, s, p);
  }

  /** Masked text is the unmatched text up to the next match, and a star if there is a match. */
  lemma GapThenStar(s: string, from: nat)
    requires from <= |s|
    ensures var q, out := GapEnd(s, from), Masked(s, from);
            && q - from <= |out| && out[..q - from] == s[from..q]
            && (if NextAddress(s, from).Some? then q - from < |out| && out[q - from] == '*' else |out| == q - from)
  {
    var next := NextAddress(s, from);
    if next.Some? {
      var m := AddressIsSound(s, next.value.0);
      assert FindAt(s, next.value.0, next.value.1) <= m;
    }
  }

  /** If an address starts inside a domain, one starts where the domain does. */
  lemma NoAddressStartsInDomain(s: string, p: nat, e: nat, q: nat)
    requires p <= q < e <= |s| && IsDomain(s[p..e]) && AddressAt(s, p).None?
    ensures AddressAt(s, q).None?
  {
    if AddressAt(s, q).Some? {
      var m := AddressIsSound(s, q);
      DomainSpans(s, p, e);
      assert e <= m;
      assert forall k :: p <= k < m ==> IsLocalChar(s[k]);
      AddressIsComplete(s, p, m, AddressAt(s, q).value);
    }
  }

  /** What a match is replaced by: the stars, the at sign and the domain. */
  lemma StarredIsStarsAndDomain(s: string, i: nat) returns (domain: string)
    requires i <= |s| && AddressAt(s, i).Some?
    ensures IsDomain(domain) && Starred(s, i, AddressAt(s, i).value) == STARS + "@" + domain
  {
    var j := AddressAt(s, i).value;
    var m := AddressIsSound(s, i);
    assert FindAt(s, i, j) == m;
    domain := s[m + 1..j];
    assert s[m..j] == "@" + domain;
  }

  /** Around the replacement of a match no address arises, unless one is made of its domain and what follows. */
  lemma AddressesAroundStars(front: string, domain: string, rest: string, m: nat)
    requires IsDomain(domain)
    requires forall k: nat :: k < |front| ==> !AddressAround(front + (STARS + "@" + domain) + rest, k)
    ensures var n := |front| + 5 + |domain|;
            AddressAround(front + (STARS + "@" + domain) + rest, m) <==>
            m >= n && if m == n then LeadsWithDomain(rest) else AddressAround(rest, m - n)
  {
    var middle := STARS + "@" + domain;
    var head := front + middle;
    var out, n := head + rest, |front| + 5 + |domain|;
    assert |head| == n;
    if |front| <= m < n {
      assert out[m] == middle[m - |front|];
      if m > |front| + 4 { DomainCharsOnly(domain, m - |front| - 5); }
      if m == |front| + 4 { assert out[m - 1] == middle[3]; }
    }
    if n <= m < |out| {
      assert out[m] == rest[m - n];
      DomainShifts(rest, m - n + 1, head);
      if m == n {
        assert domain != "" by { var d: nat :| DotAt(domain, d); }
        DomainCharsOnly(domain, |domain| - 1);
        assert out[m - 1] == domain[|domain| - 1];
      } else {
        assert out[m - 1] == rest[m - n - 1];
      }
    }
  }

  lemma AddressBehindStarsIff(front: string, domain: string, rest: string)
    requires IsDomain(domain)
    requires forall k: nat :: k < |front| ==> !AddressAround(front + (STARS + "@" + domain) + rest, k)
    ensures HasAddress(front + (STARS + "@" + domain) + rest) <==> LeadsWithDomain(rest) || HasAddress(rest)
  {
    var out, n := front + (STARS + "@" + domain) + rest, |front| + 5 + |domain|;
    HasAddressIff(out);
    HasAddressIff(rest);
    if m: nat :| AddressAround(out, m) {
      AddressesAroundStars(front, domain, rest, m);
    }
    if LeadsWithDomain(rest) {
      AddressesAroundStars(front, domain, rest, n);
    }
    if m: nat :| AddressAround(rest, m) {
      AddressesAroundStars(front, domain, rest, n + m);
    }
  }

  lemma MaskedStep(s: string, from: nat)
    requires from <= |s| && NextAddress(s, from).Some?
    ensures var j := NextAddress(s, from).value.1;
            HasAddress(Masked(s, from)) <==> LeadsWithDomain(Masked(s, j)) || HasAddress(Masked(s, j))
  {
    var (i, j) := NextAddress(s, from).value;
    var domain := StarredIsStarsAndDomain(s, i);
    var front, rest := s[from..i], Masked(s, j);
    var out := front + (STARS + "@" + domain) + rest;
    assert out == Masked(s, from);
    GapThenStar(s, from);
    forall k: nat | k < |front| ensures !AddressAround(out, k) {
      NoAddressInGap(s, from, i, out, k);
    }
    AddressBehindStarsIff(front, domain, rest);
  }

  lemma {:induction false} MaskedHasAddressIff(s: string, from: nat)
    requires from <= |s|
    ensures HasAddress(Masked(s, from)) <==> SomeExposed(s, from)
    decreases |s| - from
  {
    match NextAddress(s, from)
    case None =>
      var out := s[from..];
      HasAddressIff(out);
      forall m: nat ensures !AddressAround(out, m) {
        if m < |out| { NoAddressInGap(s, from, |s|, out, m); }
      }
    case Some((i, j)) =>
      MaskedStep(s, from);
      MaskedHasAddressIff(s, j);
      if Exposed(s, j) { ExposedLeads(s, j); }
      if LeadsWithDomain(Masked(s, j)) { LeadsIsExposed(s, j); }
  }

  /** An address is left after e-mail masking if and only if some match was exposed. */
  lemma AddressLeftIffExposed(s: string)
    ensures HasAddress(MaskEmails(s)) <==> SomeExposed(s, 0)
  {
    MaskedHasAddressIff(s, 0);
  }

  const TWO_DOMAINS := "a@b.com@c.com"

  lemma TwoDomainsMatch()
    ensures AddressAt(TWO_DOMAINS, 0) == Some(7) && DomainAt(TWO_DOMAINS, 8) == Some(13)
    ensures forall k :: 7 <= k <= 13 ==> AddressAt(TWO_DOMAINS, k).None?
  {
    var s := TWO_DOMAINS;
    assert AlphaEnd(s, 6) == 7 && AlphaEnd(s, 7) == 7;
    assert MatchDot(s, 3) == Some(7);
    assert MatchDomain(s, 7).None?;
    assert MatchDomain(s, 6).None?;
    assert MatchDomain(s, 5).None?;
    assert MatchDomain(s, 4).None?;
    assert MatchDomain(s, 3) == Some(7);
    assert MatchLocal(s, 1) == Some(7);
    assert AddressAt(s, 0) == Some(7);
    assert AlphaEnd(s, 12) == 13;
    assert MatchDomain(s, 13).None?;
    assert MatchDomain(s, 12).None?;
    assert MatchDomain(s, 11).None?;
    assert MatchDomain(s, 10).None?;
    assert MatchDomain(s, 9) == Some(13);
    assert DomainAt(s, 8) == Some(13);
    assert MatchLocal(s, 13).None?;
    assert MatchLocal(s, 12).None?;
    assert MatchLocal(s, 11).None?;
    assert MatchLocal(s, 10).None?;
    assert MatchLocal(s, 9).None?;
  }

  lemma TwoDomainsMasked()
    ensures SomeExposed(TWO_DOMAINS, 0) && MaskEmails(TWO_DOMAINS) == STARS + "@b.com@c.com"
  {
    var s := TWO_DOMAINS;
    TwoDomainsMatch();
    assert NextAddress(s, 0) == Some((0, 7));
    assert NextAddress(s, 7).None?;
    assert Exposed(s, 7);
    assert FindAt(s, 0, 7) == 1;
    assert Starred(s, 0, 7) == "****@b.com";
    assert Masked(s, 7) == "@c.com";
  }

  // Both stages

  function MaskSensitiveInfo(cls: Card.Classes, input: string): string {
    Card.MaskCards(cls, MaskEmails(input))
  }

  /** The part of t from i to j lies wholly between the cards that are masked, from `from` on. */
  predicate BetweenCards(cls: Card.Classes, t: string, from: nat, i: nat, j: nat)
    requires from <= |t|
    decreases |t| - from
  {
    match Card.NextMatch(cls, t, from)
    case None => from <= i
    case Some((a, b)) => (from <= i && j <= a) || BetweenCards(cls, t, b, i, j)
  }

  /** Some address of t lies wholly between the cards. */
  ghost predicate SomeSpared(cls: Card.Classes, t: string, from: nat)
    requires from <= |t|
  {
    exists i: nat, m: nat, j: nat :: IsAddress(t, i, m, j) && BetweenCards(cls, t, from, i, j)
  }

  lemma InFrontOfCardMask(t: string, from: nat, i: nat, out: string, m: nat) returns (e: nat)
    requires from <= i <= |t| && i - from <= |out| && out[..i - from] == t[from..i]
    requires i - from < |out| ==> out[i - from] == '*'
    requires AddressAround(out, m) && m < i - from
    ensures e <= i && IsAddress(t, from + m - 1, from + m, e)
  {
    var n := i - from;
    assert out[m] == out[..n][m] == t[from..i][m] && out[m - 1] == out[..n][m - 1] == t[from..i][m - 1];
    SliceOfSlice(out, 0, n, m + 1, n);
    SliceOfSlice(t, from, i, m + 1, n);
    assert out[0..n] == out[..n];
    e := DomainInside(out, m + 1, t, from + m + 1, n - m - 1);
  }

  lemma BehindCardMask(front: string, rest: string, m: nat)
    requires AddressAround(front + Card.MASK + rest, m) && m >= |front|
    ensures m > |front| + |Card.MASK| && AddressAround(rest, m - |front| - |Card.MASK|)
  {
    var head := front + Card.MASK;
    var out, k := head + rest, |front| + |Card.MASK|;
    if m < k {
      assert false;
    } else if m == k {
      assert false;
    } else {
      assert out[m] == rest[m - k] && out[m - 1] == rest[m - k - 1];
      DomainShifts(rest, m - k + 1, head);
    }
  }

  lemma SparedInFront(cls: Card.Classes, t: string, from: nat, rest: string, m: nat)
    requires from <= |t| && Card.NextMatch(cls, t, from).Some?
    requires var front := t[from..Card.NextMatch(cls, t, from).value.0];
             AddressAround(front + Card.MASK + rest, m) && m < |front|
    ensures SomeSpared(cls, t, from)
  {
    var a := Card.NextMatch(cls, t, from).value.0;
    var front := t[from..a];
    var out := front + Card.MASK + rest;
    assert out[|front|] == Card.MASK[0] && out[..|front|] == front;
    var e := InFrontOfCardMask(t, from, a, out, m);
  }

  lemma SparedBehindCard(cls: Card.Classes, t: string, from: nat)
    requires from <= |t| && Card.NextMatch(cls, t, from).Some?
    requires SomeSpared(cls, t, Card.NextMatch(cls, t, from).value.1)
    ensures SomeSpared(cls, t, from)
  {
    var i: nat, m: nat, j: nat :| IsAddress(t, i, m, j) && BetweenCards(cls, t, Card.NextMatch(cls, t, from).value.1, i, j);
    assert BetweenCards(cls, t, from, i, j);
  }

  /** An address that is not in front of the first card is in what follows its mask. */
  lemma AddressBehindCard(cls: Card.Classes, t: string, from: nat, m: nat) returns (m': nat)
    requires from <= |t| && Card.NextMatch(cls, t, from).Some? && AddressAround(Card.Masked(cls, t, from), m)
    requires m >= Card.NextMatch(cls, t, from).value.0 - from
    ensures AddressAround(Card.Masked(cls, t, Card.NextMatch(cls, t, from).value.1), m')
  {
    var (a, b) := Card.NextMatch(cls, t, from).value;
    BehindCardMask(t[from..a], Card.Masked(cls, t, b), m);
    m' := m - (a - from) - |Card.MASK|;
  }

  lemma SparedWithoutCard(cls: Card.Classes, t: string, from: nat, m: nat)
    requires from <= |t| && Card.NextMatch(cls, t, from).None? && AddressAround(t[from..], m)
    ensures SomeSpared(cls, t, from)
  {
    var e := InFrontOfCardMask(t, from, |t|, t[from..], m);
  }

  /** An address in text whose cards are masked was there before, away from the cards. */
  lemma {:induction false} CardMaskKeepsOut(cls: Card.Classes, t: string, from: nat, m: nat)
    requires from <= |t| && AddressAround(Card.Masked(cls, t, from), m)
    ensures SomeSpared(cls, t, from)
    decreases |t| - from
  {
    match Card.NextMatch(cls, t, from)
    case None => SparedWithoutCard(cls, t, from, m);
    case Some((a, b)) =>
      if m < a - from {
        SparedInFront(cls, t, from, Card.Masked(cls, t, b), m);
      } else {
        var m' := AddressBehindCard(cls, t, from, m);
        CardMaskKeepsOut(cls, t, b, m');
        SparedBehindCard(cls, t, from);
      }
  }

  /** The text in front of the first card is left as it is, with its addresses. */
  lemma AddressInGap(t: string, from: nat, end: nat, out: string, i: nat, m: nat, j: nat)
    requires from <= i && j <= end <= |t| && IsAddress(t, i, m, j)
    requires end - from <= |out| && out[..end - from] == t[from..end]
    ensures HasAddress(out)
  {
    var n := end - from;
    forall k | 0 <= k < n ensures out[k] == t[from + k] {
      assert out[k] == out[..n][k];
    }
    assert out[m + 1 - from..j - from] == t[m + 1..j];
    assert IsAddress(out, i - from, m - from, j - from);
  }

  lemma AddressShifts(head: string, rest: string)
    requires HasAddress(rest)
    ensures HasAddress(head + rest)
  {
    HasAddressIff(rest);
    HasAddressIff(head + rest);
    var m: nat :| AddressAround(rest, m);
    DomainShifts(rest, m + 1, head);
    assert AddressAround(head + rest, |head| + m);
  }

  /** An address away from the cards is still there when they are masked. */
  lemma {:induction false} CardMaskSpares(cls: Card.Classes, t: string, from: nat, i: nat, m: nat, j: nat)
    requires from <= |t| && IsAddress(t, i, m, j) && BetweenCards(cls, t, from, i, j)
    ensures HasAddress(Card.Masked(cls, t, from))
    decreases |t| - from
  {
    match Card.NextMatch(cls, t, from)
    case None => AddressInGap(t, from, |t|, t[from..], i, m, j);
    case Some((a, b)) =>
      var front, rest := t[from..a], Card.Masked(cls, t, b);
      assert Card.Masked(cls, t, from) == (front + Card.MASK) + rest;
      if from <= i && j <= a {
        AddressInGap(t, from, a, (front + Card.MASK) + rest, i, m, j);
      } else {
        CardMaskSpares(cls, t, b, i, m, j);
        AddressShifts(front + Card.MASK, rest);
      }
  }

  /** Masking the cards of a text leaves an address if and only if the text has one away from its cards. */
  lemma AddressSparedIff(cls: Card.Classes, t: string)
    ensures HasAddress(Card.MaskCards(cls, t)) <==> SomeSpared(cls, t, 0)
  {
    var out := Card.MaskCards(cls, t);
    HasAddressIff(out);
    if m: nat :| AddressAround(out, m) {
      CardMaskKeepsOut(cls, t, 0, m);
    }
    if i: nat, m: nat, j: nat :| IsAddress(t, i, m, j) && BetweenCards(cls, t, 0, i, j) {
      CardMaskSpares(cls, t, 0, i, m, j);
    }
  }

  lemma {:induction false} BetweenShrinks(cls: Card.Classes, t: string, from: nat, i: nat, j: nat, i': nat, j': nat)
    requires from <= |t| && BetweenCards(cls, t, from, i, j) && i <= i' && j' <= j
    ensures BetweenCards(cls, t, from, i', j')
    decreases |t| - from
  {
    match Card.NextMatch(cls, t, from)
    case None =>
    case Some((_, b)) => if BetweenCards(cls, t, b, i, j) { BetweenShrinks(cls, t, b, i, j, i', j'); }
  }

  /** Behind position j of s, which has become `at` in t, stands a domain up to e; no card of t covers it. */
  ghost predicate KeepsDomain(cls: Card.Classes, t: string, s: string, j: nat, at: nat, e: nat) {
    && 0 < at && j + 1 <= e <= |s|
    && IsDomain(s[j + 1..e]) && BetweenCards(cls, t, 0, at - 1, at + e - j)
  }

  /**
   * A match of s that ends at j is exposed, and the cards of t, in which j has become `at`, cover neither
   * the last letter of its domain, nor the second at sign, nor all the domains behind that.
   */
  ghost predicate ExposedAndSpared(cls: Card.Classes, t: string, s: string, j: nat, at: nat)
    requires j <= |s|
  {
    Exposed(s, j) && exists e: nat :: KeepsDomain(cls, t, s, j, at, e)
  }

  /** How much masked text a match and the gap in front of it make. */
  function MaskedSize(s: string, from: nat): nat
    requires from <= |s| && NextAddress(s, from).Some?
  {
    var (i, j) := NextAddress(s, from).value;
    (i - from) + |Starred(s, i, j)|
  }

  /** Some match of s, from `from` on, is exposed and spared, when position `from` has become `at` in t. */
  ghost predicate SomeExposedAndSpared(cls: Card.Classes, t: string, s: string, from: nat, at: nat)
    requires from <= |s|
    decreases |s| - from
  {
    match NextAddress(s, from)
    case None => false
    case Some((_, j)) =>
      var at' := at + MaskedSize(s, from);
      ExposedAndSpared(cls, t, s, j, at') || SomeExposedAndSpared(cls, t, s, j, at')
  }

  lemma TailOfPrefix(a: string, b: string, p: nat, n: nat)
    requires 0 < n <= |a| && p + n <= |b| && a[..n] == b[p..p + n]
    ensures a[0] == b[p] && a[1..n] == b[p + 1..p + n]
  {
    assert a[0] == a[..n][0] && b[p] == b[p..p + n][0];
    assert a[1..n] == a[..n][1..] && b[p + 1..p + n] == b[p..p + n][1..];
  }

  /** The domain behind an exposed match appears in the masked text as it is. */
  lemma DomainStays(s: string, j: nat, e: nat)
    requires j <= |s| && Exposed(s, j) && j + 1 <= e <= |s| && IsDomain(s[j + 1..e])
    ensures e - j <= |Masked(s, j)| && Masked(s, j)[0] == '@' && Masked(s, j)[1..e - j] == s[j + 1..e]
  {
    var rest := Masked(s, j);
    DomainReachesGapEnd(s, j, e);
    GapThenStar(s, j);
    ShorterPrefixAgrees(rest, s, j, GapEnd(s, j) - j, e - j);
    TailOfPrefix(rest, s, j, e - j);
  }

  lemma DomainInPrefix(out: string, n: nat, s: string, p: nat, w: nat)
    requires 0 < n <= |out| && p + n <= |s| && out[..n] == s[p..p + n] && (n < |out| ==> out[n] == '*')
    requires LeadsWithDomain(out) && 1 <= w <= |out| && IsDomain(out[1..w])
    ensures p + w <= |s| && IsDomain(s[p + 1..p + w])
  {
    LeadsInPrefix(out, n, s, p);
    TailOfPrefix(out, s, p, n);
    DomainInsideAt(out, 1, w, s, p + 1, n - 1);
  }

  /** And a domain there in the masked text stands in the text itself. */
  lemma DomainWasThere(s: string, j: nat, w: nat)
    requires j <= |s| && LeadsWithDomain(Masked(s, j)) && 1 <= w <= |Masked(s, j)| && IsDomain(Masked(s, j)[1..w])
    ensures Exposed(s, j) && j + w <= |s| && IsDomain(s[j + 1..j + w])
  {
    var rest, gap := Masked(s, j), GapEnd(s, j);
    var n := gap - j;
    LeadsIsExposed(s, j);
    GapThenStar(s, j);
    assert n > 0 by { if n == 0 { assert rest[0] == '@'; } }
    DomainInPrefix(rest, n, s, j, w);
  }

  /** From position `at` on, t is what masking makes of s from `from` on. */
  ghost predicate Continues(t: string, at: nat, s: string, from: nat) {
    from <= |s| && at <= |t| && t[at..] == Masked(s, from)
  }

  lemma SparedIsAddress(cls: Card.Classes, t: string, at: nat, s: string, j: nat)
    requires Continues(t, at, s, j) && 0 < at && IsLocalChar(t[at - 1]) && ExposedAndSpared(cls, t, s, j, at)
    ensures SomeSpared(cls, t, 0)
  {
    var e: nat :| KeepsDomain(cls, t, s, j, at, e);
    DomainStays(s, j, e);
    SliceOfSlice(t, at, |t|, 1, e - j);
    assert t[at..|t|] == t[at..] && t[at] == t[at..][0];
    assert IsAddress(t, at - 1, at, at + e - j);
  }

  /** Behind position m of t stands a domain up to e, and no card covers it, or m, or the character before. */
  ghost predicate SparedAround(cls: Card.Classes, t: string, m: nat, e: nat) {
    0 < m < e <= |t| && IsDomain(t[m + 1..e]) && BetweenCards(cls, t, 0, m - 1, e)
  }

  lemma SpareHere(cls: Card.Classes, t: string, at: nat, s: string, j: nat, e: nat)
    requires Continues(t, at, s, j) && LeadsWithDomain(Masked(s, j)) && SparedAround(cls, t, at, e)
    ensures ExposedAndSpared(cls, t, s, j, at)
  {
    var w := e - at;
    SliceOfSlice(t, at, |t|, 1, w);
    assert t[at..|t|] == t[at..];
    DomainWasThere(s, j, w);
    assert KeepsDomain(cls, t, s, j, at, j + w);
  }

  /** Behind a match the masked text continues; the match ends with the last letter of its domain. */
  lemma MatchInMasked(t: string, at: nat, s: string, from: nat)
    requires Continues(t, at, s, from) && NextAddress(s, from).Some?
    ensures var at' := at + MaskedSize(s, from);
            Continues(t, at', s, NextAddress(s, from).value.1) && 0 < at' && IsLocalChar(t[at' - 1])
  {
    var front, domain := MatchShape(s, from);
    assert domain != "" by { var d: nat :| DotAt(domain, d); }
    DomainCharsOnly(domain, |domain| - 1);
    TextBehind(t, at, front, STARS + "@" + domain, Masked(s, NextAddress(s, from).value.1));
  }

  lemma TextBehind(t: string, at: nat, front: string, middle: string, rest: string)
    requires at <= |t| && t[at..] == front + middle + rest && middle != ""
    ensures var end := at + |front| + |middle|;
            end <= |t| && t[end..] == rest && t[end - 1] == middle[|middle| - 1]
  {
    var out, n := front + middle + rest, |front| + |middle|;
    assert out[n..] == rest && out[n - 1] == middle[|middle| - 1];
    assert t[at + n..] == t[at..][n..] && t[at + n - 1] == t[at..][n - 1];
  }

  lemma AddressNeedsMatch(s: string, from: nat, m: nat)
    requires from <= |s| && AddressAround(Masked(s, from), m)
    ensures NextAddress(s, from).Some?
  {
    if NextAddress(s, from).None? { NoAddressInGap(s, from, |s|, s[from..], m); }
  }

  lemma MatchShape(s: string, from: nat) returns (front: string, domain: string)
    requires from <= |s| && NextAddress(s, from).Some?
    ensures IsDomain(domain) && MaskedSize(s, from) == |front| + 5 + |domain|
    ensures Masked(s, from) == front + (STARS + "@" + domain) + Masked(s, NextAddress(s, from).value.1)
    ensures forall k: nat :: k < |front| ==> !AddressAround(Masked(s, from), k)
  {
    var (i, j) := NextAddress(s, from).value;
    domain := StarredIsStarsAndDomain(s, i);
    front := s[from..i];
    GapThenStar(s, from);
    forall k: nat | k < |front| ensures !AddressAround(Masked(s, from), k) {
      NoAddressInGap(s, from, i, Masked(s, from), k);
    }
  }

  /** Addresses in masked text lie behind the first match, the first of them possibly right behind it. */
  lemma AddressBehindMatch(s: string, from: nat, m: nat, beyond: int)
    requires from <= |s| && NextAddress(s, from).Some? && AddressAround(Masked(s, from), m)
    requires beyond == m - MaskedSize(s, from)
    ensures var rest := Masked(s, NextAddress(s, from).value.1);
            beyond >= 0 && if beyond == 0 then LeadsWithDomain(rest) else AddressAround(rest, beyond)
  {
    var front, domain := MatchShape(s, from);
    AddressesAroundStars(front, domain, Masked(s, NextAddress(s, from).value.1), m);
  }

  lemma {:induction false} SparedExposureIsAddress(cls: Card.Classes, t: string, at: nat, s: string, from: nat)
    requires Continues(t, at, s, from) && SomeExposedAndSpared(cls, t, s, from, at)
    ensures SomeSpared(cls, t, 0)
    decreases |s| - from
  {
    var j, at' := NextAddress(s, from).value.1, at + MaskedSize(s, from);
    MatchInMasked(t, at, s, from);
    if ExposedAndSpared(cls, t, s, j, at') {
      SparedIsAddress(cls, t, at', s, j);
    } else {
      SparedExposureIsAddress(cls, t, at', s, j);
    }
  }

  /** Position m of t, in the masked text that continues at `at`, is the at sign of an address. */
  ghost predicate AddressBehind(at: nat, s: string, from: nat, m: nat) {
    at <= m && from <= |s| && AddressAround(Masked(s, from), m - at)
  }

  lemma AddressIsHereOrLater(at: nat, s: string, from: nat, m: nat)
    requires AddressBehind(at, s, from, m) && NextAddress(s, from).Some?
    ensures var j, at' := NextAddress(s, from).value.1, at + MaskedSize(s, from);
            if m == at' then LeadsWithDomain(Masked(s, j)) else AddressBehind(at', s, j, m)
  {
    AddressBehindMatch(s, from, m - at, m - (at + MaskedSize(s, from)));
  }

  lemma {:induction false} AddressIsSparedExposure(cls: Card.Classes, t: string, at: nat, s: string, from: nat, m: nat, e: nat)
    requires Continues(t, at, s, from) && AddressBehind(at, s, from, m) && SparedAround(cls, t, m, e)
    ensures SomeExposedAndSpared(cls, t, s, from, at)
    decreases |s| - from
  {
    AddressNeedsMatch(s, from, m - at);
    AddressIsHereOrLater(at, s, from, m);
    var j, at' := NextAddress(s, from).value.1, at + MaskedSize(s, from);
    MatchInMasked(t, at, s, from);
    if m == at' {
      SpareHere(cls, t, at', s, j, e);
    } else {
      AddressIsSparedExposure(cls, t, at', s, j, m, e);
    }
  }

  lemma SparedIsAround(cls: Card.Classes, t: string) returns (m: nat, e: nat)
    requires SomeSpared(cls, t, 0)
    ensures AddressAround(t, m) && SparedAround(cls, t, m, e)
  {
    var i: nat;
    i, m, e :| IsAddress(t, i, m, e) && BetweenCards(cls, t, 0, i, e);
    BetweenShrinks(cls, t, 0, i, e, m - 1, e);
    assert m + 1 <= e <= |t| && IsDomain(t[m + 1..e]);
    assert AddressAround(t, m);
  }

  /** On the text between the stages, an address away from the cards is an exposed match that the cards spare. */
  lemma SparedIffExposedAndSpared(cls: Card.Classes, s: string)
    ensures SomeSpared(cls, MaskEmails(s), 0) <==> SomeExposedAndSpared(cls, MaskEmails(s), s, 0, 0)
  {
    var t := MaskEmails(s);
    assert t[0..] == t;
    if SomeExposedAndSpared(cls, t, s, 0, 0) {
      SparedExposureIsAddress(cls, t, 0, s, 0);
    }
    if SomeSpared(cls, t, 0) {
      var m, e := SparedIsAround(cls, t);
      AddressIsSparedExposure(cls, t, 0, s, 0, m, e);
    }
  }

  /**
   * What mask_sensitive_info guarantees: never a card number in the output; and an e-mail address is
   * left if and only if some match of the input is exposed, and no card of the text between the stages
   * covers the letter before its second at sign, that sign, or all the domains behind it.
   */
  lemma OutputIsMasked(cls: Card.Classes, input: string)
    requires Card.Proper(cls)
    ensures var output := MaskSensitiveInfo(cls, input);
            && !Card.HasCard(cls, output)
            && (HasAddress(output) <==> SomeExposedAndSpared(cls, MaskEmails(input), input, 0, 0))
            && (HasAddress(output) ==> SomeExposed(input, 0))
  {
    Card.NoCardSurvives(cls, MaskEmails(input));
    AddressLeftIffExposed(input);
    AddressSparedIff(cls, MaskEmails(input));
    SparedIffExposedAndSpared(cls, input);
  }

  lemma {:induction false} DigitsWithinLength(cls: Card.Classes, t: string)
    ensures Card.DigitCount(cls, t) <= |t|
    decreases |t|
  {
    if t != "" { DigitsWithinLength(cls, t[1..]); }
  }

  lemma FourStarsHoldNoCard(cls: Card.Classes, rest: string)
    requires Card.Proper(cls) && |rest| <= 12
    ensures !Card.HasCard(cls, STARS + rest)
  {
    var t := STARS + rest;
    forall i: nat, j: nat ensures !Card.IsCard(cls, t, i, j) {
      if i < j <= |t| {
        DigitsWithinLength(cls, t[i..j]);
        if i < 4 { assert t[i..j][0] == t[i] == '*'; }
      }
    }
  }

  lemma ShortTextStays(cls: Card.Classes, input: string, rest: string)
    requires Card.Proper(cls) && MaskEmails(input) == STARS + rest && |rest| <= 12
    ensures MaskSensitiveInfo(cls, input) == STARS + rest
  {
    FourStarsHoldNoCard(cls, rest);
    Card.NothingToMask(cls, STARS + rest);
  }

  /**
   * Two domains in a row: the address found is masked, and its domain becomes the local part of
   * another address, which the card stage leaves alone.
   */
  lemma SecondAtSignExposes(cls: Card.Classes)
    requires Card.Proper(cls)
    ensures MaskSensitiveInfo(cls, TWO_DOMAINS) == STARS + "@b.com@c.com"
    ensures HasAddress(MaskSensitiveInfo(cls, TWO_DOMAINS))
  {
    TwoDomainsMasked();
    ShortTextStays(cls, TWO_DOMAINS, "@b.com@c.com");
    AddressLeftIffExposed(TWO_DOMAINS);
  }

  // What masking does to the text as a whole

  /** An address to mask: where it starts, its at sign, and its end. */
  datatype Found = Found(start: nat, at: nat, end: nat)

  predicate InOrder(s: string, from: nat, found: seq<Found>)
    decreases |found|
  {
    if found == [] then from <= |s|
    else from <= found[0].start <= found[0].at <= found[0].end <= |s| && InOrder(s, found[0].end, found[1..])
  }

  /** s from `from` on, with the local part of each address replaced by four stars and all the rest as it was. */
  function LocalPartsStarred(s: string, from: nat, found: seq<Found>): string
    requires InOrder(s, from, found)
    decreases |found|
  {
    if found == [] then s[from..]
    else s[from..found[0].start] + "****" + s[found[0].at..found[0].end] + LocalPartsStarred(s, found[0].end, found[1..])
  }

  ghost predicate NoAddressStarts(s: string, from: nat, end: nat) {
    forall i: nat, m: nat, j: nat :: from <= i < end ==> !IsAddress(s, i, m, j)
  }

  /** Each is the next address to start behind the one before, and the longest that starts there. */
  ghost predicate LeftmostAddresses(s: string, from: nat, found: seq<Found>)
    decreases |found|
  {
    if found == [] then NoAddressStarts(s, from, |s| + 1)
    else
      var f := found[0];
      && from <= f.start && NoAddressStarts(s, from, f.start)
      && IsAddress(s, f.start, f.at, f.end) && (forall m: nat, j: nat :: IsAddress(s, f.start, m, j) ==> j <= f.end)
      && LeftmostAddresses(s, f.end, found[1..])
  }

  lemma NoMatchNoAddress(s: string, from: nat, end: nat)
    requires forall k :: from <= k < end && k <= |s| ==> AddressAt(s, k).None?
    ensures NoAddressStarts(s, from, end)
  {
    forall i: nat, m: nat, j: nat | from <= i < end ensures !IsAddress(s, i, m, j) {
      if IsAddress(s, i, m, j) { AddressIsComplete(s, i, m, j); }
    }
  }

  /** A match is replaced by four stars and what it has from its at sign on. */
  lemma StarredKeepsDomain(s: string, i: nat) returns (m: nat)
    requires i <= |s| && AddressAt(s, i).Some?
    ensures IsAddress(s, i, m, AddressAt(s, i).value)
    ensures Starred(s, i, AddressAt(s, i).value) == "****" + s[m..AddressAt(s, i).value]
  {
    m := AddressIsSound(s, i);
    assert FindAt(s, i, AddressAt(s, i).value) == m;
  }

  lemma {:induction false} MaskedIsStarred(s: string, from: nat) returns (found: seq<Found>)
    requires from <= |s|
    ensures InOrder(s, from, found) && LeftmostAddresses(s, from, found)
    ensures Masked(s, from) == LocalPartsStarred(s, from, found)
    decreases |s| - from
  {
    match NextAddress(s, from)
    case None =>
      NoMatchNoAddress(s, from, |s| + 1);
      found := [];
    case Some((i, j)) =>
      NoMatchNoAddress(s, from, i);
      var m := StarredKeepsDomain(s, i);
      forall m': nat, e: nat | IsAddress(s, i, m', e) ensures e <= j {
        MatchIsLongest(s, i, m', e);
      }
      var rest := MaskedIsStarred(s, j);
      found := [Found(i, m, j)] + rest;
      assert found[1..] == rest;
      assert s[from..i] + ("****" + s[m..j]) + Masked(s, j) == s[from..i] + "****" + s[m..j] + Masked(s, j);
  }

  lemma AtSignIsUnique(s: string, i: nat, m: nat, n: nat, j: nat)
    requires IsAddress(s, i, m, j) && IsAddress(s, i, n, j)
    ensures m == n
  {
  }

  lemma {:induction false} LeftmostAddressesAreUnique(s: string, from: nat, one: seq<Found>, two: seq<Found>)
    requires LeftmostAddresses(s, from, one) && LeftmostAddresses(s, from, two)
    ensures one == two
    decreases |one|
  {
    if one != [] && two != [] {
      var f, g := one[0], two[0];
      assert f.start == g.start;
      assert f.end == g.end;
      AtSignIsUnique(s, f.start, f.at, g.at, f.end);
      LeftmostAddressesAreUnique(s, f.end, one[1..], two[1..]);
      assert one == [f] + one[1..] && two == [g] + two[1..];
    }
  }

  /**
   * All that mask_sensitive_info changes: first the local parts of the addresses found from left to
   * right, then the card numbers found from left to right in the result. Every other character of the
   * text stays, in order.
   */
  lemma OnlyFindsAreMasked(cls: Card.Classes, input: string) returns (found: seq<Found>, between: string, cards: seq<(nat, nat)>)
    requires Card.Proper(cls)
    ensures InOrder(input, 0, found) && LeftmostAddresses(input, 0, found)
    ensures between == LocalPartsStarred(input, 0, found)
    ensures Card.InOrder(between, 0, cards) && Card.LeftmostCards(cls, between, 0, cards)
    ensures MaskSensitiveInfo(cls, input) == Card.Replaced(between, 0, cards, "****-****-****-****")
  {
    found := MaskedIsStarred(input, 0);
    between := MaskEmails(input);
    cards := Card.MaskingReplacesCards(cls, between);
  }
}
