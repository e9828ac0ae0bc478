/**
 * The anchor resolver of the highlighter: `findQuote` in
 * contents/utils/anchoring.ts. It flattens the text leaves of a root into one
 * string with the start position of every leaf, finds every occurrence of
 * the quote, keeps those whose surroundings agree with the stored prefix and
 * suffix, picks one, and maps it back to (leaf, offset) boundary points.
 */
module QuoteSearch {
  import opened Strings
  import opened Wrappers

  /** The length of the context window compared against prefix and suffix. */
  const CONTEXT_WINDOW: nat := 10
  /** How many characters of the stored prefix/suffix are compared. */
  const CONTEXT_CHECK: nat := 5

  predicate Increasing(s: seq<nat>) {
    forall i, j :: 0 <= i < j < |s| ==> s[i] < s[j]
  }

  /** The quote occurs in `t` starting at `i`. */
  predicate OccursAt(t: string, q: string, i: int) {
    0 <= i && i + |q| <= |t| && t[i..i + |q|] == q
  }

  /** `t.indexOf(q, from)` for a non-empty quote: the first occurrence at or
      after `from`, or -1. */
  function IndexOf(t: string, q: string, from: nat): (r: int)
    requires |q| > 0
    ensures r == -1 || (from <= r && OccursAt(t, q, r))
    ensures forall j :: from <= j && (r == -1 || j < r) ==> !OccursAt(t, q, j)
    decreases |t| - from
  {
    if from + |q| > |t| then -1
    else if t[from..from + |q|] == q then from
    else IndexOf(t, q, from + 1)
  }

  /** Every start index of the quote at or after `from`, in increasing order. */
  function Occurrences(t: string, q: string, from: nat): (ms: seq<nat>)
    ensures forall k :: 0 <= k < |ms| ==> from <= ms[k] && OccursAt(t, q, ms[k])
    ensures Increasing(ms)
    decreases |t| - from
  {
    if from >= |t| then []
    else (if OccursAt(t, q, from) then [from] else []) + Occurrences(t, q, from + 1)
  }

  /** Occurrences lists exactly the occurrences at or after `from`, strictly
      increasing, overlapping ones included. */
  lemma {:induction false} OccurrencesExact(t: string, q: string, from: nat)
    requires |q| > 0
    ensures forall i :: from <= i && OccursAt(t, q, i) ==> i in Occurrences(t, q, from)
    decreases |t| - from
  {
    if from < |t| {
      OccurrencesExact(t, q, from + 1);
    }
  }

  /** The search loop's step: from `from`, the occurrences start at indexOf. */
  lemma {:induction false} OccurrencesFromIndexOf(t: string, q: string, from: nat)
    requires |q| > 0
    ensures var r := IndexOf(t, q, from);
            Occurrences(t, q, from) == if r == -1 then [] else [r] + Occurrences(t, q, r + 1)
    decreases |t| - from
  {
    if from < |t| {
      if OccursAt(t, q, from) {
        assert IndexOf(t, q, from) == from;
      } else {
        OccurrencesFromIndexOf(t, q, from + 1);
        assert IndexOf(t, q, from) == IndexOf(t, q, from + 1);
        assert Occurrences(t, q, from) == [] + Occurrences(t, q, from + 1);
      }
    }
  }

  // ---------------------------------------------------------------------
  // The flattened index
  // ---------------------------------------------------------------------

  /** The start position of every leaf in the flattened text: leaf `k`
      starts after the text of the leaves before it. */
  function Positions(leaves: seq<string>): (p: seq<nat>)
    ensures |p| == |leaves|
  {
    seq(|leaves|, k requires 0 <= k < |leaves| => |Concat(leaves[..k])|)
  }

  /** The first loop of findQuote: the combined text and each leaf's start. */
  method BuildIndex(leaves: seq<string>) returns (combined: string, positions: seq<nat>)
    ensures combined == Concat(leaves)
    ensures positions == Positions(leaves)
    ensures |positions| == |leaves|
    ensures forall k :: 0 <= k < |leaves| ==> positions[k] == |Concat(leaves[..k])|
  {
    combined, positions := "", [];
    var i := 0;
    while i < |leaves|
      invariant 0 <= i <= |leaves|
      invariant combined == Concat(leaves[..i])
      invariant |positions| == i
      invariant forall k :: 0 <= k < i ==> positions[k] == |Concat(leaves[..k])|
    {
      ConcatSnoc(leaves, i);
      positions := positions + [|combined|];
      combined := combined + leaves[i];
      i := i + 1;
    }
    assert leaves[..i] == leaves;
  }

  /** The second loop of findQuote: every match, found by repeated indexOf. */
  method FindMatches(combined: string, quote: string) returns (matches: seq<nat>)
    requires |quote| > 0
    ensures matches == Occurrences(combined, quote, 0)
  {
    matches := [];
    ghost var from: nat := 0;
    var idx := IndexOf(combined, quote, 0);
    while idx != -1
      invariant from <= |combined| + 1
      invariant idx == IndexOf(combined, quote, from)
      invariant matches + Occurrences(combined, quote, from) == Occurrences(combined, quote, 0)
      decreases |combined| + 1 - from
    {
      OccurrencesFromIndexOf(combined, quote, from);
      ghost var rest := Occurrences(combined, quote, idx + 1);
      assert matches + ([idx] + rest) == (matches + [idx]) + rest;
      matches := matches + [idx];
      from := idx + 1;
      idx := IndexOf(combined, quote, idx + 1);
    }
    OccurrencesFromIndexOf(combined, quote, from);
    assert matches + [] == matches;
  }

  // ---------------------------------------------------------------------
  // Choosing an occurrence
  // ---------------------------------------------------------------------

  /** The context check of findQuote: the ten characters before an occurrence
      end with the last five of the prefix, and the ten after it start with
      the first five of the suffix; an empty prefix or suffix always passes. */
  predicate Verified(t: string, q: string, prefix: string, suffix: string, i: nat)
    requires OccursAt(t, q, i)
  {
    var before := t[Max(0, i - CONTEXT_WINDOW)..i];
    var after := t[i + |q|..Min(i + |q| + CONTEXT_WINDOW, |t|)];
    (prefix == "" || EndsWith(before, Last(prefix, CONTEXT_CHECK)))
    && (suffix == "" || StartsWith(after, First(suffix, CONTEXT_CHECK)))
  }

  /** An occurrence that passes the context check. */
  predicate VerifiedOcc(t: string, q: string, prefix: string, suffix: string, i: int) {
    OccursAt(t, q, i) && Verified(t, q, prefix, suffix, i)
  }

  /** The window is only a bound: the check is the same as comparing against
      all of the text before and after the occurrence. */
  lemma VerifiedWholeText(t: string, q: string, prefix: string, suffix: string, i: nat)
    requires OccursAt(t, q, i)
    ensures Verified(t, q, prefix, suffix, i) <==>
              (prefix == "" || EndsWith(t[..i], Last(prefix, CONTEXT_CHECK)))
              && (suffix == "" || StartsWith(t[i + |q|..], First(suffix, CONTEXT_CHECK)))
  {
    WindowBefore(t, i, Last(prefix, CONTEXT_CHECK));
    WindowAfter(t, i + |q|, First(suffix, CONTEXT_CHECK));
  }

  /** Ten characters before `i` end with a string of at most five exactly
      when all of the text before `i` does. */
  lemma WindowBefore(t: string, i: nat, L: string)
    requires i <= |t| && |L| <= CONTEXT_CHECK
    ensures EndsWith(t[Max(0, i - CONTEXT_WINDOW)..i], L) <==> EndsWith(t[..i], L)
  {
    var lo := Max(0, i - CONTEXT_WINDOW);
    assert t[lo..i] == t[..i][lo..];
    if lo > 0 {
      EndsWithSuffix(t[..i], lo, L);
    } else {
      assert t[..i][lo..] == t[..i];
    }
  }

  /** Ten characters from `j` start with a string of at most five exactly
      when all of the text from `j` does. */
  lemma WindowAfter(t: string, j: nat, F: string)
    requires j <= |t| && |F| <= CONTEXT_CHECK
    ensures StartsWith(t[j..Min(j + CONTEXT_WINDOW, |t|)], F) <==> StartsWith(t[j..], F)
  {
    var hi := Min(j + CONTEXT_WINDOW, |t|);
    var rest := t[j..];
    assert t[j..hi] == rest[..hi - j];
    if hi < |t| {
      StartsWithPrefix(rest, hi - j, F);
    } else {
      assert rest[..hi - j] == rest;
    }
  }

  /** `matches.filter(...)`: the matches that pass the context check. */
  function FilterVerified(t: string, q: string, prefix: string, suffix: string, ms: seq<nat>): (ws: seq<nat>)
    ensures |ws| <= |ms|
  {
    if ms == [] then []
    else
      var rest := FilterVerified(t, q, prefix, suffix, ms[1..]);
      if VerifiedOcc(t, q, prefix, suffix, ms[0]) then [ms[0]] + rest else rest
  }

  /** The filter keeps exactly the verified members, in their order. */
  lemma {:induction false} FilterVerifiedExact(t: string, q: string, prefix: string, suffix: string, ms: seq<nat>)
    ensures var ws := FilterVerified(t, q, prefix, suffix, ms);
            forall x :: x in ws <==> x in ms && VerifiedOcc(t, q, prefix, suffix, x)
  {
    if ms != [] {
      FilterVerifiedExact(t, q, prefix, suffix, ms[1..]);
      assert ms == [ms[0]] + ms[1..];
    }
  }

  lemma {:induction false} FilterVerifiedIncreasing(t: string, q: string, prefix: string, suffix: string, ms: seq<nat>)
    requires Increasing(ms)
    ensures Increasing(FilterVerified(t, q, prefix, suffix, ms))
  {
    if ms != [] {
      var rest := FilterVerified(t, q, prefix, suffix, ms[1..]);
      IncreasingTail(ms);
      FilterVerifiedIncreasing(t, q, prefix, suffix, ms[1..]);
      FilterVerifiedSubset(t, q, prefix, suffix, ms[1..]);
      if VerifiedOcc(t, q, prefix, suffix, ms[0]) {
        var ws := [ms[0]] + rest;
        forall i, j | 0 <= i < j < |ws| ensures ws[i] < ws[j] {
          if i == 0 {
            assert ws[j] == rest[j - 1] && rest[j - 1] in ms[1..];
          } else {
            assert ws[i] == rest[i - 1] && ws[j] == rest[j - 1];
          }
        }
      }
    }
  }

  /** Every kept match comes from the input. */
  lemma {:induction false} FilterVerifiedSubset(t: string, q: string, prefix: string, suffix: string, ms: seq<nat>)
    ensures forall x :: x in FilterVerified(t, q, prefix, suffix, ms) ==> x in ms
  {
    if ms != [] {
      FilterVerifiedSubset(t, q, prefix, suffix, ms[1..]);
    }
  }

  /** The occurrences that pass the context check, in text order. */
  function VerifiedMatches(t: string, q: string, prefix: string, suffix: string): (ws: seq<nat>)
  {
    FilterVerified(t, q, prefix, suffix, Occurrences(t, q, 0))
  }

  /** The verified matches are exactly the verified occurrences. */
  lemma VerifiedMatchesExact(t: string, q: string, prefix: string, suffix: string)
    requires |q| > 0
    ensures forall i :: i in VerifiedMatches(t, q, prefix, suffix) <==> VerifiedOcc(t, q, prefix, suffix, i)
  {
    OccurrencesExact(t, q, 0);
    FilterVerifiedExact(t, q, prefix, suffix, Occurrences(t, q, 0));
  }

  /** The verified matches are in strictly increasing text order. */
  lemma VerifiedMatchesIncreasing(t: string, q: string, prefix: string, suffix: string)
    ensures Increasing(VerifiedMatches(t, q, prefix, suffix))
  {
    FilterVerifiedIncreasing(t, q, prefix, suffix, Occurrences(t, q, 0));
  }

  lemma IncreasingTail(s: seq<nat>)
    requires Increasing(s) && |s| > 0
    ensures Increasing(s[1..])
    ensures forall k :: 0 <= k < |s| - 1 ==> s[0] < s[1..][k]
  {
    assert forall k :: 0 <= k < |s| - 1 ==> s[1..][k] == s[k + 1];
  }

  /** `withContext.reduce(...)`: keeps the running best unless the current
      candidate is strictly closer to `startPos`. */
  function ReduceClosest(best: nat, rest: seq<nat>, startPos: int): nat
    decreases |rest|
  {
    if rest == [] then best
    else
      var next := if Abs(rest[0] - startPos) < Abs(best - startPos) then rest[0] else best;
      ReduceClosest(next, rest[1..], startPos)
  }

  /** The reduce returns one of its candidates. */
  lemma {:induction false} ReduceClosestMember(best: nat, rest: seq<nat>, startPos: int)
    ensures var r := ReduceClosest(best, rest, startPos);
            r == best || r in rest
    decreases |rest|
  {
    if rest != [] {
      var next := if Abs(rest[0] - startPos) < Abs(best - startPos) then rest[0] else best;
      ReduceClosestMember(next, rest[1..], startPos);
    }
  }

  /** The reduce returns a candidate at minimal distance from `startPos`,
      and keeps the running best against any later candidate that is only
      as close. */
  lemma {:induction false} ReduceClosestNearest(best: nat, rest: seq<nat>, startPos: int)
    ensures var r := ReduceClosest(best, rest, startPos);
            Abs(r - startPos) <= Abs(best - startPos)
            && (Abs(best - startPos) == Abs(r - startPos) ==> r == best)
            && (forall k :: 0 <= k < |rest| ==> Abs(r - startPos) <= Abs(rest[k] - startPos))
    decreases |rest|
  {
    if rest != [] {
      var next := if Abs(rest[0] - startPos) < Abs(best - startPos) then rest[0] else best;
      var tail := rest[1..];
      ReduceClosestNearest(next, tail, startPos);
      assert forall k :: 1 <= k < |rest| ==> rest[k] == tail[k - 1];
    }
  }

  /** Over increasing candidates, of two equally near ones the reduce keeps
      the earlier. */
  lemma {:induction false} ReduceClosestEarliest(best: nat, rest: seq<nat>, startPos: int)
    requires Increasing(rest) && forall k :: 0 <= k < |rest| ==> best < rest[k]
    ensures var r := ReduceClosest(best, rest, startPos);
            forall k :: 0 <= k < |rest| && Abs(rest[k] - startPos) == Abs(r - startPos) ==> r <= rest[k]
    decreases |rest|
  {
    if rest != [] {
      var next := if Abs(rest[0] - startPos) < Abs(best - startPos) then rest[0] else best;
      var tail := rest[1..];
      IncreasingTail(rest);
      ReduceClosestEarliest(next, tail, startPos);
      ReduceClosestNearest(next, tail, startPos);
      assert forall k :: 1 <= k < |rest| ==> rest[k] == tail[k - 1];
    }
  }

  /** Over increasing candidates `ws`, the reduce started at `ws[0]` picks a
      member of `ws` at minimal distance from `startPos`, the earliest one
      when two are equally close. */
  lemma ReduceClosestIsClosest(ws: seq<nat>, startPos: int)
    requires Increasing(ws) && |ws| > 0
    ensures var c := ReduceClosest(ws[0], ws[1..], startPos);
            c in ws
            && (forall k :: 0 <= k < |ws| ==> Abs(c - startPos) <= Abs(ws[k] - startPos))
            && (forall k :: 0 <= k < |ws| && Abs(ws[k] - startPos) == Abs(c - startPos) ==> c <= ws[k])
  {
    IncreasingTail(ws);
    ReduceClosestMember(ws[0], ws[1..], startPos);
    ReduceClosestNearest(ws[0], ws[1..], startPos);
    ReduceClosestEarliest(ws[0], ws[1..], startPos);
    assert forall k :: 1 <= k < |ws| ==> ws[k] == ws[1..][k - 1];
  }

  /**
   * The occurrence findQuote picks: the first verified one, or the first one
   * when none is verified; with two or more verified ones and a numeric
   * `startPos`, the verified one closest to it.
   */
  function Choose(t: string, q: string, prefix: string, suffix: string, startPos: Option<int>): nat
    requires Occurrences(t, q, 0) != []
  {
    var ms := Occurrences(t, q, 0);
    var ws := VerifiedMatches(t, q, prefix, suffix);
    var chosen := if |ws| > 0 then ws[0] else ms[0];
    if |ws| > 1 && startPos.Some? then ReduceClosest(ws[0], ws[1..], startPos.value) else chosen
  }

  /** Whatever is chosen is an occurrence of the quote. */
  lemma ChooseOccurs(t: string, q: string, prefix: string, suffix: string, startPos: Option<int>)
    requires |q| > 0 && Occurrences(t, q, 0) != []
    ensures OccursAt(t, q, Choose(t, q, prefix, suffix, startPos))
  {
    var ws := VerifiedMatches(t, q, prefix, suffix);
    VerifiedMatchesExact(t, q, prefix, suffix);
    if |ws| > 1 && startPos.Some? {
      ReduceClosestMember(ws[0], ws[1..], startPos.value);
      var c := ReduceClosest(ws[0], ws[1..], startPos.value);
      assert c in ws;
    } else if |ws| > 0 {
      assert ws[0] in ws;
    }
  }

  /** No occurrence passes the context check: the first occurrence is chosen. */
  lemma ChooseUnverified(t: string, q: string, prefix: string, suffix: string, startPos: Option<int>)
    requires |q| > 0 && Occurrences(t, q, 0) != []
    requires VerifiedMatches(t, q, prefix, suffix) == []
    ensures var c := Choose(t, q, prefix, suffix, startPos);
            OccursAt(t, q, c) && forall i :: OccursAt(t, q, i) ==> c <= i
  {
    var ms := Occurrences(t, q, 0);
    OccurrencesExact(t, q, 0);
    forall i | OccursAt(t, q, i) ensures ms[0] <= i {
      var k :| 0 <= k < |ms| && ms[k] == i;
      assert k == 0 || ms[0] < ms[k];
    }
  }

  /** Exactly one occurrence passes, or no `startPos` is given: the first
      verified match is chosen. */
  lemma ChooseFirstVerified(t: string, q: string, prefix: string, suffix: string, startPos: Option<int>)
    requires Occurrences(t, q, 0) != []
    requires |VerifiedMatches(t, q, prefix, suffix)| == 1
             || (VerifiedMatches(t, q, prefix, suffix) != [] && startPos.None?)
    ensures var c := Choose(t, q, prefix, suffix, startPos);
            var ws := VerifiedMatches(t, q, prefix, suffix);
            c in ws && forall i :: i in ws ==> c <= i
  {
    var ws := VerifiedMatches(t, q, prefix, suffix);
    VerifiedMatchesIncreasing(t, q, prefix, suffix);
    forall i | i in ws ensures ws[0] <= i {
      var k :| 0 <= k < |ws| && ws[k] == i;
      assert k == 0 || ws[0] < ws[k];
    }
  }

  /** Two or more occurrences pass and `startPos` is a number: the verified
      match nearest to it is chosen, the earlier one of two equally near. */
  lemma ChooseClosest(t: string, q: string, prefix: string, suffix: string, sp: int)
    requires Occurrences(t, q, 0) != []
    requires |VerifiedMatches(t, q, prefix, suffix)| >= 2
    ensures var c := Choose(t, q, prefix, suffix, Some(sp));
            var ws := VerifiedMatches(t, q, prefix, suffix);
            c in ws
            && (forall k :: 0 <= k < |ws| ==> Abs(c - sp) <= Abs(ws[k] - sp))
            && (forall k :: 0 <= k < |ws| && Abs(ws[k] - sp) == Abs(c - sp) ==> c <= ws[k])
  {
    VerifiedMatchesIncreasing(t, q, prefix, suffix);
    ReduceClosestIsClosest(VerifiedMatches(t, q, prefix, suffix), sp);
  }

  /** The test findQuote applies to leaf `j` to place the start `x`. */
  predicate StartsIn(p: seq<nat>, x: int, j: int)
    requires 0 <= j < |p|
  {
    p[j] <= x && (j == |p| - 1 || p[j + 1] > x)
  }

  /** The test findQuote applies to leaf `j` to place the end `y`. */
  predicate EndsIn(p: seq<nat>, y: int, j: int)
    requires 0 <= j < |p|
  {
    p[j] <= y && (j == |p| - 1 || p[j + 1] >= y)
  }

  /** `findIndex` over the positions, for the start of the match. */
  function StartLeafFrom(p: seq<nat>, x: int, i: nat): (r: int)
    ensures r == -1 || (i <= r < |p| && StartsIn(p, x, r))
    ensures forall j :: i <= j < |p| && (r == -1 || j < r) ==> !StartsIn(p, x, j)
    decreases |p| - i
  {
    if i >= |p| then -1
    else if StartsIn(p, x, i) then i
    else StartLeafFrom(p, x, i + 1)
  }

  /** `findIndex` over the positions, for the end of the match. */
  function EndLeafFrom(p: seq<nat>, y: int, i: nat): (r: int)
    ensures r == -1 || (i <= r < |p| && EndsIn(p, y, r))
    ensures forall j :: i <= j < |p| && (r == -1 || j < r) ==> !EndsIn(p, y, j)
    decreases |p| - i
  {
    if i >= |p| then -1
    else if EndsIn(p, y, i) then i
    else EndLeafFrom(p, y, i + 1)
  }

  /** The range findQuote returns, as leaf indices of the searched root and
      offsets inside those leaves. */
  datatype TextRange = TextRange(startLeaf: nat, startOffset: int, endLeaf: nat, endOffset: int)

  /** The last step of findQuote: the leaves holding the start and the end of
      a match of length `len` at `start`, and the offsets inside them. */
  function Locate(p: seq<nat>, start: nat, len: nat): Option<TextRange>
  {
    var startIdx := StartLeafFrom(p, start, 0);
    var endIdx := EndLeafFrom(p, start + len, 0);
    if startIdx == -1 || endIdx == -1 then None
    else Some(TextRange(startIdx, start - p[startIdx], endIdx, start + len - p[endIdx]))
  }

  /** What findQuote returns for a root (given as its text leaves). */
  function FindQuoteSpec(root: seq<string>, q: string, prefix: string, suffix: string, startPos: Option<int>): Option<TextRange>
  {
    var t := Concat(root);
    if Occurrences(t, q, 0) == [] then None
    else Locate(Positions(root), Choose(t, q, prefix, suffix, startPos), |q|)
  }

  /** The search root: the element a non-empty `css_path` selects, if any,
      else the given root. `selected` is what `document.querySelector` answers. */
  function SearchRoot(root: seq<string>, cssPath: string, selected: Option<seq<string>>): seq<string> {
    if cssPath != "" && selected.Some? then selected.value else root
  }

  /**
   * findQuote. The quote must be non-empty: with an empty quote the search
   * loop never ends (indexOf of "" always succeeds).
   */
  method FindQuote(root: seq<string>, quote: string, prefix: string, suffix: string,
                   startPos: Option<int>, cssPath: string, selected: Option<seq<string>>)
    returns (r: Option<TextRange>)
    requires |quote| > 0
    ensures r == FindQuoteSpec(SearchRoot(root, cssPath, selected), quote, prefix, suffix, startPos)
  {
    var searchRoot := root;
    if cssPath != "" {
      if selected.Some? {
        searchRoot := selected.value;
      }
    }
    assert searchRoot == SearchRoot(root, cssPath, selected);
    var combined, positions := BuildIndex(searchRoot);
    var matches := FindMatches(combined, quote);
    if |matches| == 0 {
      return None;
    }
    var withContext := FilterVerified(combined, quote, prefix, suffix, matches);
    var chosen := if |withContext| > 0 then withContext[0] else matches[0];
    if |withContext| > 1 && startPos.Some? {
      chosen := ReduceClosest(withContext[0], withContext[1..], startPos.value);
    }
    assert chosen == Choose(combined, quote, prefix, suffix, startPos);
    assert FindQuoteSpec(searchRoot, quote, prefix, suffix, startPos) == Locate(positions, chosen, |quote|);
    r := LocateMatch(positions, chosen, |quote|);
  }

  /** The last block of findQuote: the leaves holding the start and the end
      of the chosen match, found with `findIndex` over the positions. */
  method LocateMatch(positions: seq<nat>, start: nat, len: nat) returns (r: Option<TextRange>)
    ensures r == Locate(positions, start, len)
  {
    var end := start + len;
    var startNodeIdx := StartLeafFrom(positions, start, 0);
    var endNodeIdx := EndLeafFrom(positions, end, 0);
    if startNodeIdx == -1 || endNodeIdx == -1 {
      return None;
    }
    r := Some(TextRange(startNodeIdx, start - positions[startNodeIdx], endNodeIdx, end - positions[endNodeIdx]));
  }

  // ---------------------------------------------------------------------
  // Properties
  // ---------------------------------------------------------------------

  /** Each leaf starts where the previous one ends, and the last one ends
      where the text ends. */
  lemma PositionsStep(root: seq<string>, k: nat)
    requires k < |root|
    ensures Positions(root)[k] + |root[k]| == if k + 1 < |root| then Positions(root)[k + 1] else |Concat(root)|
  {
    ConcatSnoc(root, k);
    if k + 1 < |root| {
    } else {
      assert root[..k + 1] == root;
    }
  }

  /** The first leaf starts at 0. */
  lemma PositionsFirst(root: seq<string>)
    requires |root| > 0
    ensures Positions(root)[0] == 0
  {
    assert root[..0] == [];
  }

  /** Leaf start positions never decrease. */
  lemma PositionsMonotone(root: seq<string>, i: nat, j: nat)
    requires i <= j < |root|
    ensures Positions(root)[i] <= Positions(root)[j]
  {
    assert root[..j][..i] == root[..i];
    ConcatSplit(root[..j], i);
  }

  lemma {:induction false} StartLeafFound(p: seq<nat>, x: int, i: nat)
    requires i < |p| && p[i] <= x
    ensures StartLeafFrom(p, x, i) != -1
    decreases |p| - i
  {
    if !StartsIn(p, x, i) {
      StartLeafFound(p, x, i + 1);
    }
  }

  lemma {:induction false} EndLeafFound(p: seq<nat>, y: int, i: nat)
    requires i < |p| && p[i] <= y
    ensures EndLeafFrom(p, y, i) != -1
    decreases |p| - i
  {
    if !EndsIn(p, y, i) {
      EndLeafFound(p, y, i + 1);
    }
  }

  /** The text a range over the leaves spells (`Range.toString`). */
  function RangeText(root: seq<string>, r: TextRange): string
    requires r.startLeaf <= r.endLeaf < |root|
    requires 0 <= r.startOffset <= |root[r.startLeaf]| && 0 <= r.endOffset <= |root[r.endLeaf]|
    requires r.startLeaf == r.endLeaf ==> r.startOffset <= r.endOffset
  {
    if r.startLeaf == r.endLeaf then root[r.startLeaf][r.startOffset..r.endOffset]
    else root[r.startLeaf][r.startOffset..] + Concat(root[r.startLeaf + 1..r.endLeaf]) + root[r.endLeaf][..r.endOffset]
  }

  /** The flattened text around leaf `k`. */
  lemma ConcatAround(root: seq<string>, k: nat)
    requires k < |root|
    ensures Concat(root) == Concat(root[..k]) + root[k] + Concat(root[k + 1..])
  {
    ConcatSplit(root, k);
    ConcatFrom(root, k);
    var x, y, z := Concat(root[..k]), root[k], Concat(root[k + 1..]);
    assert x + (y + z) == x + y + z;
  }

  /** The flattened text from leaf `k` on starts with leaf `k`. */
  lemma ConcatFrom(root: seq<string>, k: nat)
    requires k < |root|
    ensures Concat(root[k..]) == root[k] + Concat(root[k + 1..])
  {
    var tail := root[k..];
    assert tail[0] == root[k] && tail[1..] == root[k + 1..];
  }

  lemma SliceWithin(x: string, y: string, z: string, i: nat, j: nat)
    requires i <= j <= |y|
    ensures (x + y + z)[|x| + i..|x| + j] == y[i..j]
  {
    assert forall n :: |x| + i <= n < |x| + j ==> (x + y + z)[n] == y[n - |x|];
  }

  lemma ThreeSlices(s: string, a: nat, b: nat, c: nat, d: nat, x: string, y: string, z: string)
    requires a <= b <= c <= d <= |s|
    requires s[a..b] == x && s[b..c] == y && s[c..d] == z
    ensures s[a..d] == x + y + z
  {
    assert s[a..d] == s[a..b] + s[b..c] + s[c..d];
  }

  /** Part of leaf `k` is the flattened text at the leaf's start position. */
  lemma LeafSlice(root: seq<string>, k: nat, i: nat, j: nat)
    requires k < |root| && i <= j <= |root[k]|
    ensures var P := |Concat(root[..k])|;
            P + j <= |Concat(root)| && Concat(root)[P + i..P + j] == root[k][i..j]
  {
    ConcatAround(root, k);
    SliceWithin(Concat(root[..k]), root[k], Concat(root[k + 1..]), i, j);
  }

  /** The leaves from `a` up to `b` spell the flattened text between their
      start positions. */
  lemma LeavesSlice(root: seq<string>, a: nat, b: nat)
    requires a <= b <= |root|
    ensures var P := |Concat(root[..a])|;
            var Q := |Concat(root[..b])|;
            P <= Q <= |Concat(root)| && Concat(root)[P..Q] == Concat(root[a..b])
  {
    var x, y, z := root[..a], root[a..b], root[b..];
    assert root[..b] == x + y;
    assert root == x + y + z;
    ConcatAppend(x, y);
    ConcatAppend(x + y, z);
    SliceWithin(Concat(x), Concat(y), Concat(z), 0, |Concat(y)|);
  }

  /** A range across leaves `s` < `e` spells the flattened text between its
      two absolute positions, given as the lengths `Ps` and `Pe` of the text
      before leaves `s` and `e`. */
  lemma CrossRangeSlice(root: seq<string>, s: nat, so: nat, e: nat, eo: nat, Ps: nat, Pe: nat)
    requires s < e < |root| && so <= |root[s]| && eo <= |root[e]|
    requires Ps == |Concat(root[..s])| && Pe == |Concat(root[..e])|
    ensures Ps + so <= Pe + eo <= |Concat(root)|
    ensures Concat(root)[Ps + so..Pe + eo] == root[s][so..] + Concat(root[s + 1..e]) + root[e][..eo]
  {
    LeafSlice(root, s, so, |root[s]|);
    LeafSlice(root, e, 0, eo);
    LeavesSlice(root, s + 1, e);
    ConcatSnoc(root, s);
    assert root[s][so..|root[s]|] == root[s][so..];
    assert root[e][0..eo] == root[e][..eo];
    ThreeSlices(Concat(root), Ps + so, Ps + |root[s]|, Pe, Pe + eo,
                root[s][so..], Concat(root[s + 1..e]), root[e][..eo]);
  }

  /** The same for a range inside one leaf, which starts after `P`
      characters of text. */
  lemma SameLeafSlice(root: seq<string>, r: TextRange, P: nat)
    requires r.startLeaf == r.endLeaf < |root|
    requires 0 <= r.startOffset <= r.endOffset <= |root[r.endLeaf]|
    requires P == |Concat(root[..r.startLeaf])|
    ensures P + r.startOffset <= P + r.endOffset <= |Concat(root)|
    ensures Concat(root)[P + r.startOffset..P + r.endOffset] == RangeText(root, r)
  {
    LeafSlice(root, r.startLeaf, r.startOffset, r.endOffset);
  }

  /** A range over the leaves spells the flattened text between its two
      absolute positions. */
  lemma RangeTextIsSlice(root: seq<string>, r: TextRange)
    requires r.startLeaf <= r.endLeaf < |root|
    requires 0 <= r.startOffset <= |root[r.startLeaf]| && 0 <= r.endOffset <= |root[r.endLeaf]|
    requires r.startLeaf == r.endLeaf ==> r.startOffset <= r.endOffset
    ensures Positions(root)[r.startLeaf] + r.startOffset <= Positions(root)[r.endLeaf] + r.endOffset <= |Concat(root)|
    ensures Concat(root)[Positions(root)[r.startLeaf] + r.startOffset..Positions(root)[r.endLeaf] + r.endOffset]
            == RangeText(root, r)
  {
    if r.startLeaf == r.endLeaf {
      SameLeafRangeText(root, r);
    } else {
      CrossRangeText(root, r);
    }
  }

  /** The same, for a range inside one leaf. */
  lemma SameLeafRangeText(root: seq<string>, r: TextRange)
    requires r.startLeaf == r.endLeaf < |root|
    requires 0 <= r.startOffset <= r.endOffset <= |root[r.endLeaf]|
    ensures Positions(root)[r.startLeaf] + r.startOffset <= Positions(root)[r.endLeaf] + r.endOffset <= |Concat(root)|
    ensures Concat(root)[Positions(root)[r.startLeaf] + r.startOffset..Positions(root)[r.endLeaf] + r.endOffset]
            == RangeText(root, r)
  {
    SameLeafSlice(root, r, Positions(root)[r.startLeaf]);
  }

  /** The same, for a range over two or more leaves. */
  lemma CrossRangeText(root: seq<string>, r: TextRange)
    requires r.startLeaf < r.endLeaf < |root|
    requires 0 <= r.startOffset <= |root[r.startLeaf]| && 0 <= r.endOffset <= |root[r.endLeaf]|
    ensures Positions(root)[r.startLeaf] + r.startOffset <= Positions(root)[r.endLeaf] + r.endOffset <= |Concat(root)|
    ensures Concat(root)[Positions(root)[r.startLeaf] + r.startOffset..Positions(root)[r.endLeaf] + r.endOffset]
            == RangeText(root, r)
  {
    var p := Positions(root);
    CrossRangeSlice(root, r.startLeaf, r.startOffset, r.endLeaf, r.endOffset, p[r.startLeaf], p[r.endLeaf]);
  }

  /** The leaf lookup never fails for a span inside the text. */
  lemma LocateSucceeds(root: seq<string>, c: nat, len: nat)
    requires 0 < len && c + len <= |Concat(root)|
    ensures Locate(Positions(root), c, len).Some?
  {
    PositionsFirst(root);
    StartLeafFound(Positions(root), c, 0);
    EndLeafFound(Positions(root), c + len, 0);
  }

  /** Where the leaf lookup puts a non-empty span inside the text: its start
      at `c` and its end `len` characters later, both offsets inside their
      leaves (a start on a leaf boundary goes to the later leaf, an end on a
      boundary to the earlier one). */
  lemma LocateBounds(root: seq<string>, c: nat, len: nat)
    requires 0 < len && c + len <= |Concat(root)|
    requires Locate(Positions(root), c, len).Some?
    ensures var r := Locate(Positions(root), c, len).value;
            var p := Positions(root);
            r.startLeaf <= r.endLeaf < |root|
            && p[r.startLeaf] + r.startOffset == c
            && p[r.endLeaf] + r.endOffset == c + len
            && 0 <= r.startOffset < |root[r.startLeaf]|
            && 0 < r.endOffset <= |root[r.endLeaf]|
  {
    var p := Positions(root);
    var s := StartLeafFrom(p, c, 0);
    var e := EndLeafFrom(p, c + len, 0);
    PositionsStep(root, s);
    PositionsStep(root, e);
    if e < s {
      PositionsMonotone(root, e + 1, s);
    }
    if e > 0 {
      assert !EndsIn(p, c + len, e - 1);
      PositionsMonotone(root, e - 1, e);
    } else {
      PositionsFirst(root);
    }
  }

  /** When the quote occurs, findQuote returns a range whose two boundary
      points sit at the chosen occurrence and `|q|` characters after it. */
  lemma FindQuoteSpan(root: seq<string>, q: string, prefix: string, suffix: string, startPos: Option<int>)
    requires |q| > 0 && Occurrences(Concat(root), q, 0) != []
    ensures FindQuoteSpec(root, q, prefix, suffix, startPos).Some?
    ensures var r := FindQuoteSpec(root, q, prefix, suffix, startPos).value;
            var c := Choose(Concat(root), q, prefix, suffix, startPos);
            r.startLeaf <= r.endLeaf < |root|
            && Positions(root)[r.startLeaf] + r.startOffset == c
            && Positions(root)[r.endLeaf] + r.endOffset == c + |q|
  {
    var t := Concat(root);
    var c := Choose(t, q, prefix, suffix, startPos);
    ChooseOccurs(t, q, prefix, suffix, startPos);
    LocateSucceeds(root, c, |q|);
    LocateBounds(root, c, |q|);
  }

  /** Round trip: the range findQuote returns starts at the chosen occurrence
      and spells the quote. */
  lemma FindQuoteRoundTrip(root: seq<string>, q: string, prefix: string, suffix: string, startPos: Option<int>)
    requires |q| > 0
    requires FindQuoteSpec(root, q, prefix, suffix, startPos).Some?
    ensures var r := FindQuoteSpec(root, q, prefix, suffix, startPos).value;
            var c := Choose(Concat(root), q, prefix, suffix, startPos);
            r.startLeaf <= r.endLeaf < |root|
            && Positions(root)[r.startLeaf] + r.startOffset == c
            && Positions(root)[r.endLeaf] + r.endOffset == c + |q|
            && 0 <= r.startOffset < |root[r.startLeaf]| && 0 < r.endOffset <= |root[r.endLeaf]|
            && RangeText(root, r) == q
  {
    var t := Concat(root);
    var c := Choose(t, q, prefix, suffix, startPos);
    ChooseOccurs(t, q, prefix, suffix, startPos);
    var r := Locate(Positions(root), c, |q|).value;
    LocateBounds(root, c, |q|);
    RangeTextIsSlice(root, r);
  }

  /** findQuote fails exactly when the quote does not occur in the root's
      text: the failure after the leaf lookup can never happen. */
  lemma FindQuoteNoneIff(root: seq<string>, q: string, prefix: string, suffix: string, startPos: Option<int>)
    requires |q| > 0
    ensures FindQuoteSpec(root, q, prefix, suffix, startPos).None? <==> forall i :: !OccursAt(Concat(root), q, i)
  {
    var t := Concat(root);
    OccurrencesExact(t, q, 0);
    if Occurrences(t, q, 0) != [] {
      var c := Choose(t, q, prefix, suffix, startPos);
      ChooseOccurs(t, q, prefix, suffix, startPos);
      LocateSucceeds(root, c, |q|);
    }
  }
}
