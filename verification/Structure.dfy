/**
 * The structural checks of src/waf/structure.rs: the nesting depth of a JSON text, found with a
 * counter that saturates at zero, and duplicate parameter keys.
 */
module Structure {
  import opened Prelude

  // Nesting depth

  predicate Opens(c: char) {
    c == '{' || c == '['
  }

  predicate Closes(c: char) {
    c == '}' || c == ']'
  }

  /** Opening brackets minus closing brackets. */
  function Balance(s: string): int {
    if s == "" then 0
    else (if Opens(s[0]) then 1 else if Closes(s[0]) then -1 else 0) + Balance(s[1..])
  }

  /** One step of the counter, which never goes below zero. */
  function Count(depth: nat, c: char): nat {
    if Opens(c) then depth + 1
    else if Closes(c) && depth > 0 then depth - 1
    else depth
  }

  /** The counter after reading s, and the highest value it takes on the way. */
  function Final(depth: nat, s: string): nat
    decreases |s|
  {
    if s == "" then depth else Final(Count(depth, s[0]), s[1..])
  }

  function Peak(depth: nat, s: string): nat
    decreases |s|
  {
    if s == "" then depth
    else
      var rest := Peak(Count(depth, s[0]), s[1..]);
      if rest > depth then rest else depth
  }

  method CheckJsonDepth(input: string, maxDepth: nat) returns (ok: bool)
    ensures ok <==> Peak(0, input) <= maxDepth
    ensures ok <==> forall i, j :: 0 <= i <= j <= |input| ==> Balance(input[i..j]) <= maxDepth
  {
    PeakIsLargestBalance(input, maxDepth);
    var currentDepth := 0;
    for n := 0 to |input|
      invariant currentDepth <= maxDepth
      invariant Peak(0, input) <= maxDepth <==> Peak(currentDepth, input[n..]) <= maxDepth
    {
      var c := input[n];
      assert input[n..][1..] == input[n + 1..];
      if c == '{' || c == '[' {
        currentDepth := currentDepth + 1;
        if currentDepth > maxDepth {
          PeakAtLeastStart(currentDepth, input[n + 1..]);
          return false;
        }
      } else if c == '}' || c == ']' {
        if currentDepth > 0 {
          currentDepth := currentDepth - 1;
        }
      }
    }
    ok := true;
  }

  lemma PeakAtLeastStart(depth: nat, s: string)
    ensures Peak(depth, s) >= depth
  {
  }

  /** Every contiguous part of s has at most `most` more opening than closing brackets. */
  ghost predicate PartsWithin(s: string, most: int) {
    forall i, j :: 0 <= i <= j <= |s| ==> Balance(s[i..j]) <= most
  }

  ghost predicate PrefixesWithin(s: string, most: int) {
    forall j :: 0 <= j <= |s| ==> Balance(s[..j]) <= most
  }

  lemma PartsOfTail(s: string, most: int)
    requires s != "" && most >= 0
    ensures PartsWithin(s, most) <==> PartsWithin(s[1..], most) && PrefixesWithin(s, most)
  {
    var t := s[1..];
    if PartsWithin(s, most) {
      forall i, j | 0 <= i <= j <= |t| ensures Balance(t[i..j]) <= most {
        assert t[i..j] == s[i + 1..j + 1];
      }
      forall j | 0 <= j <= |s| ensures Balance(s[..j]) <= most {
        assert s[..j] == s[0..j];
      }
    }
    if PartsWithin(t, most) && PrefixesWithin(s, most) {
      forall i, j | 0 <= i <= j <= |s| ensures Balance(s[i..j]) <= most {
        if i > 0 { assert s[i..j] == t[i - 1..j - 1]; } else { assert s[0..j] == s[..j]; }
      }
    }
  }

  /** The prefixes of s stay within a bound if and only if those of its tail stay within the bound moved by its head. */
  lemma PrefixesOfTail(s: string, most: int)
    requires s != "" && most >= 0
    ensures var delta := if Opens(s[0]) then 1 else if Closes(s[0]) then -1 else 0;
            PrefixesWithin(s, most) <==> PrefixesWithin(s[1..], most - delta)
  {
    var t := s[1..];
    var delta := if Opens(s[0]) then 1 else if Closes(s[0]) then -1 else 0;
    forall j | 1 <= j <= |s| ensures Balance(s[..j]) == delta + Balance(t[..j - 1]) {
      assert s[..j][1..] == t[..j - 1];
    }
    if PrefixesWithin(s, most) {
      forall j | 0 <= j <= |t| ensures Balance(t[..j]) <= most - delta {
        assert Balance(s[..j + 1]) == delta + Balance(t[..j + 1 - 1]);
      }
    }
  }

  lemma {:induction false} PeakFromIsLargestBalance(depth: nat, s: string, most: nat)
    ensures Peak(depth, s) <= most <==> PrefixesWithin(s, most - depth) && PartsWithin(s, most)
    decreases |s|
  {
    if s == "" {
      assert Balance(s[..0]) == 0;
    } else {
      var next := Count(depth, s[0]);
      PeakFromIsLargestBalance(next, s[1..], most);
      assert Balance(s[..0]) == 0;
      if depth <= most {
        PrefixesOfTail(s, most - depth);
        PartsOfTail(s, most);
        PrefixesArePartsOf(s, most, depth);
        PrefixesArePartsOf(s[1..], most, 0);
      }
    }
  }

  lemma PrefixesArePartsOf(s: string, most: int, depth: nat)
    ensures PartsWithin(s, most) ==> PrefixesWithin(s, most)
    ensures PrefixesWithin(s, most - depth) ==> PrefixesWithin(s, most)
  {
    forall j | 0 <= j <= |s| ensures s[..j] == s[0..j] {
    }
  }

  /** The highest value of the saturating counter is the largest balance of any contiguous part. */
  lemma PeakIsLargestBalance(s: string, most: nat)
    ensures Peak(0, s) <= most <==> PartsWithin(s, most)
  {
    PeakFromIsLargestBalance(0, s, most);
    PrefixesArePartsOf(s, most, 0);
  }

  // Depth of the text of a tree

  /** White space, or whatever else holds no brackets, around and inside an array or an object. */
  datatype Padding = Padding(before: string, inside: string, after: string)

  /**
   * A JSON value as it is laid out; numbers, strings and object keys are given as their text, with
   * the white space around it.
   */
  datatype Json =
    | Scalar(text: string)
    | Array(pad: Padding, items: seq<Json>)
    | Object(pad: Padding, members: seq<Member>)

  datatype Member = Member(key: string, value: Json)

  function Depth(t: Json): nat
    decreases t, 1
  {
    match t
    case Scalar(_) => 0
    case Array(_, items) => 1 + DeepestItem(items)
    case Object(_, members) => 1 + DeepestMember(members)
  }

  function DeepestItem(items: seq<Json>): nat
    decreases items, 0
  {
    if items == [] then 0
    else
      var first, rest := Depth(items[0]), DeepestItem(items[1..]);
      if first > rest then first else rest
  }

  function DeepestMember(members: seq<Member>): nat
    decreases members, 0
  {
    if members == [] then 0
    else
      var first, rest := Depth(members[0].value), DeepestMember(members[1..]);
      if first > rest then first else rest
  }

  function Print(t: Json): string
    decreases t, 1
  {
    match t
    case Scalar(text) => text
    case Array(pad, items) => pad.before + (['['] + (pad.inside + PrintItems(items)) + [']']) + pad.after
    case Object(pad, members) => pad.before + (['{'] + (pad.inside + PrintMembers(members)) + ['}']) + pad.after
  }

  function PrintItems(items: seq<Json>): string
    decreases items, 0
  {
    if items == [] then ""
    else Print(items[0]) + (if |items| > 1 then "," else "") + PrintItems(items[1..])
  }

  function PrintMembers(members: seq<Member>): string
    decreases members, 0
  {
    if members == [] then ""
    else members[0].key + ":" + Print(members[0].value) + (if |members| > 1 then "," else "") + PrintMembers(members[1..])
  }

  predicate BracketFree(s: string) {
    forall c :: c in s ==> c != '{' && c != '[' && c != '}' && c != ']'
  }

  predicate PaddingFree(pad: Padding) {
    BracketFree(pad.before) && BracketFree(pad.inside) && BracketFree(pad.after)
  }

  /** Every text in the tree is free of brackets, or is x. */
  predicate TextsFreeOr(t: Json, x: string)
    decreases t, 1
  {
    match t
    case Scalar(text) => BracketFree(text) || text == x
    case Array(pad, items) => PaddingFree(pad) && ItemsFreeOr(items, x)
    case Object(pad, members) => PaddingFree(pad) && MembersFreeOr(members, x)
  }

  predicate ItemsFreeOr(items: seq<Json>, x: string)
    decreases items, 0
  {
    items == [] || (TextsFreeOr(items[0], x) && ItemsFreeOr(items[1..], x))
  }

  predicate MembersFreeOr(members: seq<Member>, x: string)
    decreases members, 0
  {
    members == [] ||
    ((BracketFree(members[0].key) || members[0].key == x) && TextsFreeOr(members[0].value, x) && MembersFreeOr(members[1..], x))
  }

  lemma {:induction false} CountConcat(depth: nat, a: string, b: string)
    ensures Final(depth, a + b) == Final(Final(depth, a), b)
    ensures Peak(depth, a + b) == if Peak(depth, a) > Peak(Final(depth, a), b) then Peak(depth, a) else Peak(Final(depth, a), b)
    decreases |a|
  {
    if a == "" {
      assert a + b == b;
      PeakAtLeastStart(depth, b);
    } else {
      assert (a + b)[1..] == a[1..] + b;
      CountConcat(Count(depth, a[0]), a[1..], b);
      PeakAtLeastStart(Count(depth, a[0]), a[1..]);
      EndWithinPeak(Count(depth, a[0]), a[1..]);
      PeakAtLeastStart(Final(depth, a), b);
    }
  }

  lemma {:induction false} EndWithinPeak(depth: nat, s: string)
    ensures Final(depth, s) <= Peak(depth, s)
    decreases |s|
  {
    if s != "" { EndWithinPeak(Count(depth, s[0]), s[1..]); }
  }

  lemma {:induction false} BracketFreeIsFlat(depth: nat, s: string)
    requires BracketFree(s)
    ensures Final(depth, s) == Peak(depth, s) == depth
    decreases |s|
  {
    if s != "" {
      assert s[0] in s && forall c :: c in s[1..] ==> c in s;
      BracketFreeIsFlat(depth, s[1..]);
    }
  }

  /** Printed from any depth, a tree takes the counter up by its own depth and back. */
  ghost predicate Climbs(s: string, rise: nat) {
    forall depth: nat :: Final(depth, s) == depth && Peak(depth, s) == depth + rise
  }

  lemma ClimbsConcat(a: string, b: string, m: nat, n: nat)
    requires Climbs(a, m) && Climbs(b, n)
    ensures Climbs(a + b, if m > n then m else n)
  {
    forall depth: nat
      ensures Final(depth, a + b) == depth && Peak(depth, a + b) == depth + if m > n then m else n
    {
      CountConcat(depth, a, b);
    }
  }

  lemma ClimbsFlat(s: string)
    requires BracketFree(s)
    ensures Climbs(s, 0)
  {
    forall depth: nat ensures Final(depth, s) == depth && Peak(depth, s) == depth {
      BracketFreeIsFlat(depth, s);
    }
  }

  lemma ClimbsEnclosed(open: char, s: string, close: char, n: nat)
    requires Opens(open) && Closes(close) && Climbs(s, n)
    ensures Climbs([open] + s + [close], n + 1)
  {
    var all := [open] + s + [close];
    forall depth: nat ensures Final(depth, all) == depth && Peak(depth, all) == depth + n + 1 {
      assert all == [open] + (s + [close]) && all[1..] == s + [close];
      CountConcat(depth + 1, s, [close]);
      assert Final(depth + 1, [close]) == depth && Peak(depth + 1, [close]) == depth + 1;
    }
  }

  lemma ClimbsPadded(pad: Padding, open: char, s: string, close: char, n: nat)
    requires PaddingFree(pad) && Opens(open) && Closes(close) && Climbs(s, n)
    ensures Climbs(pad.before + ([open] + (pad.inside + s) + [close]) + pad.after, n + 1)
  {
    ClimbsFlat(pad.before);
    ClimbsFlat(pad.inside);
    ClimbsFlat(pad.after);
    ClimbsConcat(pad.inside, s, 0, n);
    ClimbsEnclosed(open, pad.inside + s, close, n);
    var body := [open] + (pad.inside + s) + [close];
    ClimbsConcat(pad.before, body, 0, n + 1);
    ClimbsConcat(pad.before + body, pad.after, n + 1, 0);
  }

  lemma {:induction false} TreeClimbs(t: Json, x: string)
    requires TextsFreeOr(t, x) && BracketFree(x)
    ensures Climbs(Print(t), Depth(t))
    decreases t, 1
  {
    match t
    case Scalar(text) => ClimbsFlat(text);
    case Array(pad, items) =>
      ItemsClimb(items, x);
      ClimbsPadded(pad, '[', PrintItems(items), ']', DeepestItem(items));
    case Object(pad, members) =>
      MembersClimb(members, x);
      ClimbsPadded(pad, '{', PrintMembers(members), '}', DeepestMember(members));
  }

  lemma {:induction false} ItemsClimb(items: seq<Json>, x: string)
    requires ItemsFreeOr(items, x) && BracketFree(x)
    ensures Climbs(PrintItems(items), DeepestItem(items))
    decreases items, 0
  {
    if items == [] {
      ClimbsFlat("");
    } else {
      var comma := if |items| > 1 then "," else "";
      TreeClimbs(items[0], x);
      ClimbsFlat(comma);
      ItemsClimb(items[1..], x);
      ClimbsConcat(Print(items[0]), comma, Depth(items[0]), 0);
      ClimbsConcat(Print(items[0]) + comma, PrintItems(items[1..]), Depth(items[0]), DeepestItem(items[1..]));
    }
  }

  lemma {:induction false} MembersClimb(members: seq<Member>, x: string)
    requires MembersFreeOr(members, x) && BracketFree(x)
    ensures Climbs(PrintMembers(members), DeepestMember(members))
    decreases members, 0
  {
    if members == [] {
      ClimbsFlat("");
    } else {
      var key, value, comma := members[0].key + ":", members[0].value, if |members| > 1 then "," else "";
      TreeClimbs(value, x);
      ClimbsFlat(key);
      ClimbsFlat(comma);
      MembersClimb(members[1..], x);
      ClimbsConcat(key, Print(value), 0, Depth(value));
      ClimbsConcat(key + Print(value), comma, Depth(value), 0);
      ClimbsConcat(key + Print(value) + comma, PrintMembers(members[1..]), Depth(value), DeepestMember(members[1..]));
    }
  }

  /** The check of the printed tree passes exactly when the tree is no deeper than the limit. */
  ghost predicate MeasuresDepth(t: Json, maxDepth: nat) {
    Peak(0, Print(t)) <= maxDepth <==> Depth(t) <= maxDepth
  }

  /** The check measures the depth of the tree: for every tree whose texts hold no brackets, and every limit. */
  lemma CheckMeasuresDepth(t: Json, maxDepth: nat)
    requires TextsFreeOr(t, "")
    ensures MeasuresDepth(t, maxDepth)
  {
    TreeClimbs(t, "");
  }

  lemma {:induction false} OpeningRaises(depth: nat, s: string)
    requires exists c :: c in s && Opens(c)
    ensures Peak(depth, s) >= 1
    decreases |s|
  {
    if Opens(s[0]) {
      PeakAtLeastStart(depth + 1, s[1..]);
    } else {
      var c :| c in s && Opens(c);
      assert c in s[1..];
      OpeningRaises(Count(depth, s[0]), s[1..]);
    }
  }

  lemma {:induction false} ClosingLowers(s: string)
    requires forall c :: c in s ==> !Opens(c)
    requires exists c :: c in s && Closes(c)
    ensures Final(1, s) == 0 && Peak(1, s) == 1
    decreases |s|
  {
    if Closes(s[0]) {
      StaysAtZero(s[1..]);
    } else {
      var c :| c in s && Closes(c);
      assert c in s[1..] && s[0] in s;
      ClosingLowers(s[1..]);
    }
  }

  lemma {:induction false} StaysAtZero(s: string)
    requires forall c :: c in s ==> !Opens(c)
    ensures Final(0, s) == Peak(0, s) == 0
    decreases |s|
  {
    if s != "" {
      assert s[0] in s;
      StaysAtZero(s[1..]);
    }
  }

  const COMPACT := Padding("", "", "")

  /** The array [x, []], which is two levels deep. */
  function Beside(x: string): Json {
    Array(COMPACT, [Scalar(x), Array(COMPACT, [])])
  }

  lemma BesideIsTwoDeep(x: string)
    ensures TextsFreeOr(Beside(x), x) && Depth(Beside(x)) == 2 && Print(Beside(x)) == "[" + (x + ",[]]")
  {
    var inner := Array(COMPACT, []);
    var items := [Scalar(x), inner];
    assert items[1..] == [inner] && items[0] == Scalar(x) && [inner][1..] == [] && [inner][0] == inner;
    assert Depth(inner) == 1 && Depth(Scalar(x)) == 0;
    assert DeepestItem([inner]) == 1;
    assert DeepestItem(items) == 1;
    assert TextsFreeOr(inner, x) by { assert PaddingFree(COMPACT) && ItemsFreeOr([], x); }
    assert ItemsFreeOr([inner], x);
    assert ItemsFreeOr(items, x);
    assert PrintItems([inner]) == "[]";
    assert PrintItems(items) == x + "," + "[]";
  }

  /** A closing bracket in x hides the second level of [x, []] from the check. */
  lemma ClosingHidesDepth(x: string)
    requires forall c :: c in x ==> !Opens(c)
    requires exists c :: c in x && Closes(c)
    ensures Peak(0, Print(Beside(x))) == 1
  {
    BesideIsTwoDeep(x);
    ClosingLowers(x);
    var tail := ",[]]";
    assert ("[" + (x + tail))[1..] == x + tail;
    CountConcat(1, x, tail);
    assert tail[1..] == "[]]" && tail[1..][1..] == "]]" && tail[1..][1..][1..] == "]" && tail[1..][1..][1..][1..] == "";
    assert Peak(0, tail) == 1;
  }

  /**
   * Where the check stops measuring depth: a text may appear in trees without disturbing the check,
   * in any tree and for any limit, if and only if it holds no brackets.
   */
  lemma BracketFreeIsExact(x: string)
    ensures BracketFree(x) <==>
            forall t: Json, maxDepth: nat :: TextsFreeOr(t, x) ==> MeasuresDepth(t, maxDepth)
  {
    if BracketFree(x) {
      forall t: Json, maxDepth: nat | TextsFreeOr(t, x) ensures MeasuresDepth(t, maxDepth) {
        TreeClimbs(t, x);
      }
    } else if exists c :: c in x && Opens(c) {
      OpeningRaises(0, x);
      assert TextsFreeOr(Scalar(x), x) && !MeasuresDepth(Scalar(x), 0);
    } else {
      ClosingHidesDepth(x);
      BesideIsTwoDeep(x);
      assert TextsFreeOr(Beside(x), x) && !MeasuresDepth(Beside(x), 1);
    }
  }

  // Duplicate parameters

  /** `str::split` on one character. */
  function Split(s: string, sep: char): (parts: seq<string>)
    ensures parts != []
  {
    if s == "" then [""]
    else
      var rest := Split(s[1..], sep);
      if s[0] == sep then [""] + rest else [[s[0]] + rest[0]] + rest[1..]
  }

  function Join(parts: seq<string>, sep: char): string {
    if parts == [] then ""
    else if |parts| == 1 then parts[0]
    else parts[0] + [sep] + Join(parts[1..], sep)
  }

  /** Splitting takes a string apart at every separator, and nothing is lost. */
  lemma {:induction false} SplitThenJoin(s: string, sep: char)
    ensures Join(Split(s, sep), sep) == s
    ensures forall p :: p in Split(s, sep) ==> sep !in p
    decreases |s|
  {
    if s != "" {
      SplitThenJoin(s[1..], sep);
      var rest := Split(s[1..], sep);
      if s[0] == sep {
        assert ([""] + rest)[1..] == rest;
      } else {
        var head := [s[0]] + rest[0];
        assert ([head] + rest[1..])[1..] == rest[1..];
        assert rest[0] in rest;
      }
    }
  }

  lemma {:induction false} SplitAtFirst(a: string, b: string, sep: char)
    requires sep !in a
    ensures Split(a, sep) == [a]
    ensures Split(a + [sep] + b, sep) == [a] + Split(b, sep)
    decreases |a|
  {
    var s := a + [sep] + b;
    if a == "" {
      assert s[1..] == b;
    } else {
      assert s[1..] == a[1..] + [sep] + b;
      SplitAtFirst(a[1..], b, sep);
      assert [a[0]] + a[1..] == a;
    }
  }

  /** Joining and splitting undo each other on parts without the separator. */
  lemma {:induction false} JoinThenSplit(parts: seq<string>, sep: char)
    requires parts != [] && forall p :: p in parts ==> sep !in p
    ensures Split(Join(parts, sep), sep) == parts
    decreases |parts|
  {
    assert parts[0] in parts;
    if |parts| == 1 {
      SplitAtFirst(parts[0], "", sep);
    } else {
      SplitAtFirst(parts[0], Join(parts[1..], sep), sep);
      JoinThenSplit(parts[1..], sep);
    }
  }

  /** What a pair has before its first equals sign. */
  function Key(pair: string): string {
    Split(pair, '=')[0]
  }

  ghost predicate RepeatsKey(pairs: seq<string>) {
    exists i, j :: 0 <= i < j < |pairs| && Key(pairs[i]) == Key(pairs[j]) != ""
  }

  method HasParameterPollution(input: string) returns (polluted: bool)
    ensures polluted <==> RepeatsKey(Split(input, '&'))
  {
    var pairs := Split(input, '&');
    var seenKeys: set<string> := {};
    for n := 0 to |pairs|
      invariant seenKeys == set i | 0 <= i < n && Key(pairs[i]) != "" :: Key(pairs[i])
      invariant forall i, j :: 0 <= i < j < n ==> !(Key(pairs[i]) == Key(pairs[j]) != "")
    {
      var key := Key(pairs[n]);
      if key != "" {
        if key in seenKeys {
          return true;
        }
        seenKeys := seenKeys + {key};
      }
    }
    polluted := false;
  }

  /** A parameter as it appears in a query, with its value if it has one. */
  function Pair(p: (string, Option<string>)): string {
    match p.1
    case Some(value) => p.0 + "=" + value
    case None => p.0
  }

  lemma KeyOfPair(p: (string, Option<string>))
    requires '=' !in p.0
    ensures Key(Pair(p)) == p.0
  {
    SplitAtFirst(p.0, if p.1.Some? then p.1.value else "", '=');
  }

  /**
   * A query is reported if and only if two of the parameters it was built from, with or without a
   * value, have the same, nonempty name.
   */
  lemma ReportedIffNameRepeats(params: seq<(string, Option<string>)>)
    requires params != []
    requires forall p :: p in params ==> '&' !in p.0 && '=' !in p.0 && (p.1.Some? ==> '&' !in p.1.value)
    ensures var pairs := seq(|params|, i requires 0 <= i < |params| => Pair(params[i]));
            RepeatsKey(Split(Join(pairs, '&'), '&'))
            <==> exists i, j :: 0 <= i < j < |params| && params[i].0 == params[j].0 != ""
  {
    var pairs := seq(|params|, i requires 0 <= i < |params| => Pair(params[i]));
    forall i | 0 <= i < |params| ensures '&' !in pairs[i] && Key(pairs[i]) == params[i].0 {
      assert params[i] in params;
      KeyOfPair(params[i]);
    }
    JoinThenSplit(pairs, '&');
    if RepeatsKey(pairs) {
      var i, j :| 0 <= i < j < |pairs| && Key(pairs[i]) == Key(pairs[j]) != "";
      assert params[i].0 == params[j].0 != "";
    }
  }
}
