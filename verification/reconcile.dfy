/** The citation reconciler, last part of `RAGSystem.generate_answer`: the
    model's answer is scanned for markers `[Source n]` (pattern
    `\[Source\s+(\d+)\]`, case-insensitive), the citations whose numbers are
    mentioned are kept and renumbered 1..k in their order, and every marker
    naming a kept citation is rewritten to its new number. When no marker
    names a citation, answer and citations are returned unchanged. */
module Reconciler {
  import opened Wrappers
  import opened Text
  import opened Context

  // ---------------------------------------------------------------------------
  // The marker pattern

  const SourceWord: string := "source"

  /** A character matches a lower-case ASCII letter of the pattern under
      case-insensitive matching: the letter itself, its capital, and for `s`
      also the long s (U+017F), which folds to `s`. */
  predicate CaselessIs(c: char, lower: char) {
    || c == lower
    || ('a' <= lower <= 'z' && c as int == lower as int - 32)
    || (lower == 's' && c == '\U{17F}')
  }

  /** `Source` (any case) at positions 1..6. */
  predicate WordAt(s: string)
    requires |s| >= 7
  {
    forall k :: 0 <= k < |SourceWord| ==> CaselessIs(s[k + 1], SourceWord[k])
  }

  /** The pattern, declaratively: `[`, `Source`, whitespace in [7, a), digits
      in [a, b), `]` at b; the match is s[..b + 1]. */
  ghost predicate PatternAt(s: string, a: nat, b: nat) {
    && 7 < a < b < |s|
    && s[0] == '['
    && WordAt(s)
    && (forall k :: 7 <= k < a ==> IsSpace(s[k]))
    && (forall k :: a <= k < b ==> IsDigit(s[k]))
    && s[b] == ']'
  }

  /** Number of consecutive whitespace characters from position j. */
  function SpaceRun(s: string, j: nat): (n: nat)
    requires j <= |s|
    ensures j + n <= |s|
    ensures forall k :: j <= k < j + n ==> IsSpace(s[k])
    ensures j + n < |s| ==> !IsSpace(s[j + n])
    decreases |s| - j
  {
    if j < |s| && IsSpace(s[j]) then 1 + SpaceRun(s, j + 1) else 0
  }

  /** Number of consecutive digits from position j. */
  function DigitRun(s: string, j: nat): (n: nat)
    requires j <= |s|
    ensures j + n <= |s|
    ensures forall k :: j <= k < j + n ==> IsDigit(s[k])
    ensures j + n < |s| ==> !IsDigit(s[j + n])
    decreases |s| - j
  {
    if j < |s| && IsDigit(s[j]) then 1 + DigitRun(s, j + 1) else 0
  }

  /** A match at the start of the text: where it ends and the number it names. */
  datatype Match = Match(end: nat, num: nat)

  /** The matcher: the runs are taken greedily, which is the only way the
      pattern can match, since a digit is not whitespace and `]` is not a
      digit. */
  function MatchAt(s: string): (r: Option<Match>)
    ensures r.Some? ==> 8 < r.value.end <= |s|
  {
    if |s| >= 7 && s[0] == '[' && WordAt(s) then
      var a := 7 + SpaceRun(s, 7);
      var b := a + DigitRun(s, a);
      if a > 7 && b > a && b < |s| && s[b] == ']' then Some(Match(b + 1, DigitsValue(s[a..b]))) else None
    else None
  }

  /** The matcher finds exactly the pattern: any match of the pattern is the
      one found, and what is found is a match of the pattern. */
  lemma MatchIsPattern(s: string)
    ensures MatchAt(s).Some? <==> exists a: nat, b: nat :: PatternAt(s, a, b)
    ensures forall a: nat, b: nat :: PatternAt(s, a, b) ==> MatchAt(s) == Some(Match(b + 1, DigitsValue(s[a..b])))
  {
    if MatchAt(s).Some? {
      var a := 7 + SpaceRun(s, 7);
      var b := a + DigitRun(s, a);
      assert PatternAt(s, a, b);
    }
    forall a: nat, b: nat | PatternAt(s, a, b)
      ensures MatchAt(s) == Some(Match(b + 1, DigitsValue(s[a..b])))
    {
      PatternMatch(s, a, b);
    }
  }

  lemma SpaceRunExact(s: string, j: nat, c: nat)
    requires j <= c < |s|
    requires forall k :: j <= k < c ==> IsSpace(s[k])
    requires !IsSpace(s[c])
    ensures SpaceRun(s, j) == c - j
  {
  }

  lemma DigitRunExact(s: string, j: nat, c: nat)
    requires j <= c < |s|
    requires forall k :: j <= k < c ==> IsDigit(s[k])
    requires !IsDigit(s[c])
    ensures DigitRun(s, j) == c - j
  {
  }

  /** A match only looks at the text up to its closing bracket. */
  lemma MatchIsLocal(s: string, t: string)
    requires MatchAt(s).Some?
    ensures MatchAt(s[..MatchAt(s).value.end] + t) == MatchAt(s)
  {
    var a := 7 + SpaceRun(s, 7);
    var b := a + DigitRun(s, a);
    assert PatternAt(s, a, b);
    var u := s[..b + 1] + t;
    assert u[..b + 1] == s[..b + 1];
    PatternTransfer(s, u, a, b);
    PatternMatch(u, a, b);
  }

  /** Where the pattern occurs, the matcher finds it. */
  lemma PatternMatch(u: string, a: nat, b: nat)
    requires PatternAt(u, a, b)
    ensures MatchAt(u) == Some(Match(b + 1, DigitsValue(u[a..b])))
  {
    SpaceRunExact(u, 7, a);
    DigitRunExact(u, a, b);
  }

  /** The pattern only looks at the text up to its closing bracket. */
  lemma PatternTransfer(s: string, u: string, a: nat, b: nat)
    requires PatternAt(s, a, b) && b < |u| && u[..b + 1] == s[..b + 1]
    ensures PatternAt(u, a, b) && u[a..b] == s[a..b]
  {
    forall k | 0 <= k <= b
      ensures u[k] == s[k]
    {
      assert u[k] == u[..b + 1][k];
    }
    assert WordAt(u) by {
      forall k | 0 <= k < |SourceWord|
        ensures CaselessIs(u[k + 1], SourceWord[k])
      {
        assert u[k + 1] == s[k + 1];
      }
    }
    assert u[a..b] == s[a..b];
  }

  /** A match has no `[` after its first character. */
  lemma MatchHasOneBracket(s: string)
    requires MatchAt(s).Some?
    ensures forall k :: 1 <= k < MatchAt(s).value.end ==> s[k] != '['
  {
    MatchIsPattern(s);
    var a: nat, b: nat :| PatternAt(s, a, b);
    forall k | 1 <= k < b + 1
      ensures s[k] != '['
    {
      if k < 7 {
        assert CaselessIs(s[k], SourceWord[k - 1]);
      }
    }
  }

  // ---------------------------------------------------------------------------
  // Scanning

  /** The answer as the scan sees it: plain characters and markers. */
  datatype Segment = Lit(c: char) | Marker(raw: string, num: nat)

  function Piece(g: Segment): string {
    match g
    case Lit(c) => [c]
    case Marker(raw, _) => raw
  }

  function Render(segs: seq<Segment>): string
    decreases |segs|
  {
    if segs == [] then "" else Piece(segs[0]) + Render(segs[1..])
  }

  /** The left-to-right scan shared by `re.findall` and `re.sub`: a match at
      the current position is taken whole, otherwise one character is passed
      over. */
  function Tokenize(s: string): seq<Segment>
    decreases |s|
  {
    if s == [] then []
    else match MatchAt(s)
      case Some(m) => [Marker(s[..m.end], m.num)] + Tokenize(s[m.end..])
      case None => [Lit(s[0])] + Tokenize(s[1..])
  }

  /** Scanning loses nothing: the segments spell the text back. */
  lemma {:induction false} TokenizeRoundTrip(s: string)
    ensures Render(Tokenize(s)) == s
    decreases |s|
  {
    if s != [] {
      match MatchAt(s)
      case Some(m) =>
        TokenizeRoundTrip(s[m.end..]);
        assert s == s[..m.end] + s[m.end..];
      case None =>
        TokenizeRoundTrip(s[1..]);
        assert s == [s[0]] + s[1..];
    }
  }

  /** The numbers `re.findall` returns, in order, as read by `int`. */
  function CitedNumbers(segs: seq<Segment>): (nums: seq<nat>)
    decreases |segs|
  {
    if segs == [] then []
    else (if segs[0].Marker? then [segs[0].num] else []) + CitedNumbers(segs[1..])
  }

  /** The replacement text for a renumbered marker. */
  function NewMarker(k: nat): string {
    "[Source " + NatToString(k) + "]"
  }

  /** A rewritten marker is itself a marker for its new number. */
  lemma NewMarkerMatches(k: nat)
    ensures MatchAt(NewMarker(k)) == Some(Match(|NewMarker(k)|, k))
  {
    var s := NewMarker(k);
    var d := NatToString(k);
    var b := 8 + |d|;
    assert s[1..7] == "Source";
    assert s[8..b] == d;
    assert WordAt(s) by {
      forall j | 0 <= j < |SourceWord|
        ensures CaselessIs(s[j + 1], SourceWord[j])
      {
        assert s[j + 1] == s[1..7][j];
      }
    }
    assert IsDigit(s[8]);
    SpaceRunExact(s, 7, 8);
    forall j | 8 <= j < b
      ensures IsDigit(s[j])
    {
      assert s[j] == d[j - 8];
    }
    DigitRunExact(s, 8, b);
    DigitsRoundTrip(k);
  }

  // ---------------------------------------------------------------------------
  // Renumbering

  /** Citation numbers strictly increase along the list, as the assembler
      hands them over; sorting by number is then the identity. */
  predicate Ascending(cs: seq<Citation>) {
    forall i, j :: 0 <= i < j < |cs| ==> cs[i].source < cs[j].source
  }

  function SourceNumbers(cs: seq<Citation>): (nums: seq<int>)
    ensures |nums| == |cs| && forall i :: 0 <= i < |cs| ==> nums[i] == cs[i].source
  {
    seq(|cs|, i requires 0 <= i < |cs| => cs[i].source)
  }

  /** `cited_source_numbers`: the numbers mentioned in the answer that some
      citation carries. */
  function ValidCited(segs: seq<Segment>, cs: seq<Citation>): (cited: set<int>)
    ensures forall n :: n in cited <==> n in SourceNumbers(cs) && n >= 0 && n in CitedNumbers(segs)
  {
    set n | n in SourceNumbers(cs) && n >= 0 && n in CitedNumbers(segs)
  }

  /** The citations whose numbers are in `cited`, in list order. */
  function KeepCited(cs: seq<Citation>, cited: set<int>): (kept: seq<Citation>)
    ensures |kept| <= |cs|
    decreases |cs|
  {
    if cs == [] then []
    else (if cs[0].source in cited then [cs[0]] else []) + KeepCited(cs[1..], cited)
  }

  /** The kept list is the sub-list of exactly the cited citations: each kept
      one is an input citation with a cited number, each input citation with
      a cited number is kept, and the order is kept. */
  lemma {:induction false} KeepCitedSpec(cs: seq<Citation>, cited: set<int>)
    ensures var kept := KeepCited(cs, cited);
      && (forall j :: 0 <= j < |kept| ==> kept[j] in cs && kept[j].source in cited)
      && (forall i :: 0 <= i < |cs| && cs[i].source in cited ==> cs[i] in kept)
      && (Ascending(cs) ==> Ascending(kept))
  {
    KeptAreCited(cs, cited);
    CitedAreKept(cs, cited);
    if Ascending(cs) {
      KeptAscending(cs, cited);
    }
  }

  lemma {:induction false} KeptAreCited(cs: seq<Citation>, cited: set<int>)
    ensures forall j :: 0 <= j < |KeepCited(cs, cited)| ==>
      KeepCited(cs, cited)[j] in cs && KeepCited(cs, cited)[j].source in cited
    decreases |cs|
  {
    if cs != [] {
      KeptAreCited(cs[1..], cited);
      var rest := KeepCited(cs[1..], cited);
      var kept := KeepCited(cs, cited);
      forall j | 0 <= j < |kept|
        ensures kept[j] in cs && kept[j].source in cited
      {
        if kept[j] != cs[0] {
          assert kept[j] in rest;
          assert kept[j] in cs[1..];
        }
      }
    }
  }

  lemma {:induction false} CitedAreKept(cs: seq<Citation>, cited: set<int>)
    ensures forall i :: 0 <= i < |cs| && cs[i].source in cited ==> cs[i] in KeepCited(cs, cited)
    decreases |cs|
  {
    if cs != [] {
      CitedAreKept(cs[1..], cited);
      var rest := KeepCited(cs[1..], cited);
      var kept := KeepCited(cs, cited);
      assert kept == (if cs[0].source in cited then [cs[0]] else []) + rest;
      forall i | 0 <= i < |cs| && cs[i].source in cited
        ensures cs[i] in kept
      {
        if i > 0 {
          assert cs[1..][i - 1] == cs[i];
          assert cs[i] in rest;
        }
      }
    }
  }

  lemma {:induction false} KeptAscending(cs: seq<Citation>, cited: set<int>)
    requires Ascending(cs)
    ensures Ascending(KeepCited(cs, cited))
    decreases |cs|
  {
    if cs != [] {
      assert Ascending(cs[1..]);
      KeptAscending(cs[1..], cited);
      KeptAreCited(cs[1..], cited);
      var rest := KeepCited(cs[1..], cited);
      forall j | 0 <= j < |rest|
        ensures cs[0].source < rest[j].source
      {
        var i :| 0 <= i < |cs[1..]| && cs[1..][i] == rest[j];
        assert cs[i + 1] == rest[j];
      }
    }
  }

  /** `source_remap`: the new number of an old one, its 1-based position in
      the kept list. */
  function NewNumber(kept: seq<Citation>, n: int): (r: Option<nat>)
    ensures r.Some? ==> 1 <= r.value <= |kept| && kept[r.value - 1].source == n
    ensures r.None? ==> forall j :: 0 <= j < |kept| ==> kept[j].source != n
    decreases |kept|
  {
    if kept == [] then None
    else if kept[0].source == n then Some(1)
    else match NewNumber(kept[1..], n)
      case Some(k) => Some(k + 1)
      case None => None
  }

  /** On an ascending list the renumbering is the order-preserving bijection
      from the kept numbers onto 1..|kept|. */
  lemma NewNumberSpec(kept: seq<Citation>, n: int, n': int)
    requires Ascending(kept)
    ensures forall j :: 0 <= j < |kept| ==> NewNumber(kept, kept[j].source) == Some(j + 1)
    ensures NewNumber(kept, n).Some? && NewNumber(kept, n').Some? && n < n' ==>
      NewNumber(kept, n).value < NewNumber(kept, n').value
  {
    forall j | 0 <= j < |kept|
      ensures NewNumber(kept, kept[j].source) == Some(j + 1)
    {
      var k := NewNumber(kept, kept[j].source).value;
      assert kept[k - 1].source == kept[j].source;
    }
  }

  /** `replace_source` on one segment. */
  function RewriteSegment(g: Segment, kept: seq<Citation>): Segment {
    match g
    case Lit(_) => g
    case Marker(_, n) =>
      match NewNumber(kept, n)
      case Some(k) => Marker(NewMarker(k), k)
      case None => g
  }

  /** `re.sub(source_pattern, replace_source, answer)` on the scanned answer. */
  function Rewrite(segs: seq<Segment>, kept: seq<Citation>): (segs': seq<Segment>)
    ensures |segs'| == |segs|
    ensures forall i :: 0 <= i < |segs| ==> segs'[i] == RewriteSegment(segs[i], kept)
    decreases |segs|
  {
    if segs == [] then [] else [RewriteSegment(segs[0], kept)] + Rewrite(segs[1..], kept)
  }

  /** Renumbering: the i-th kept citation gets number i + 1. */
  function Renumber(kept: seq<Citation>): (cs: seq<Citation>)
    ensures |cs| == |kept|
    ensures forall j :: 0 <= j < |kept| ==> cs[j] == kept[j].(source := j + 1)
  {
    seq(|kept|, j requires 0 <= j < |kept| => kept[j].(source := j + 1))
  }

  datatype Reconciled = Reconciled(answer: string, citations: seq<Citation>)

  /** The reconciler. */
  function Reconcile(answer: string, citations: seq<Citation>): (r: Reconciled)
    requires Ascending(citations)
    ensures ValidCited(Tokenize(answer), citations) == {} ==> r == Reconciled(answer, citations)
    ensures ValidCited(Tokenize(answer), citations) != {} ==>
      forall j :: 0 <= j < |r.citations| ==> r.citations[j].source == j + 1
  {
    var segs := Tokenize(answer);
    var cited := ValidCited(segs, citations);
    if cited == {} then Reconciled(answer, citations)
    else
      var kept := KeepCited(citations, cited);
      Reconciled(Render(Rewrite(segs, kept)), Renumber(kept))
  }

  // ---------------------------------------------------------------------------
  // The rewritten answer scans as intended

  /** Length of the longest prefix without `[`. */
  function Clear(s: string): (n: nat)
    ensures n <= |s|
    ensures forall k :: 0 <= k < n ==> s[k] != '['
    ensures n < |s| ==> s[n] == '['
    decreases |s|
  {
    if s == [] || s[0] == '[' then 0 else 1 + Clear(s[1..])
  }

  lemma ClearAtLeast(s: string, m: nat)
    requires m <= |s| && forall k :: 0 <= k < m ==> s[k] != '['
    ensures m <= Clear(s)
  {
  }

  /** A marker, rewritten or not, opens with `[`. */
  lemma RewrittenMarkerOpens(x: string, kept: seq<Citation>)
    ensures x != [] && MatchAt(x).Some? ==>
      var p := Piece(RewriteSegment(Tokenize(x)[0], kept)); |p| > 0 && p[0] == '['
  {
  }

  /** Rendering a rewritten scan changes nothing before the first `[`. */
  lemma {:induction false} AgreeBeforeBracket(x: string, kept: seq<Citation>)
    ensures var y := Render(Rewrite(Tokenize(x), kept));
      Clear(x) == Clear(y) && x[..Clear(x)] == y[..Clear(y)]
    decreases |x|
  {
    var y := Render(Rewrite(Tokenize(x), kept));
    if x != [] {
      var segs := Tokenize(x);
      assert Rewrite(segs, kept) == [RewriteSegment(segs[0], kept)] + Rewrite(segs[1..], kept);
      var rest := Render(Rewrite(segs[1..], kept));
      assert y == Piece(RewriteSegment(segs[0], kept)) + rest;
      if MatchAt(x).None? {
        assert segs[1..] == Tokenize(x[1..]);
        assert y == [x[0]] + rest;
        assert y[1..] == rest;
        AgreeBeforeBracket(x[1..], kept);
        assert x == [x[0]] + x[1..];
        ClearCons(x[0], x[1..]);
        ClearCons(x[0], rest);
      } else {
        RewrittenMarkerOpens(x, kept);
        assert y[0] == '[';
      }
    }
  }

  /** A character other than `[` extends the bracket-free prefix by one. */
  lemma ClearCons(c: char, t: string)
    ensures c != '[' ==> Clear([c] + t) == 1 + Clear(t) && ([c] + t)[..Clear([c] + t)] == [c] + t[..Clear(t)]
    ensures c == '[' ==> Clear([c] + t) == 0
  {
    assert ([c] + t)[1..] == t;
  }

  /** A match found in one text is found in any text with the same prefix
      up to the match's end. */
  lemma MatchTransfer(t: string, s: string)
    requires MatchAt(t).Some? && MatchAt(t).value.end <= |s|
    requires t[..MatchAt(t).value.end] == s[..MatchAt(t).value.end]
    ensures MatchAt(s) == MatchAt(t)
  {
    var e := MatchAt(t).value.end;
    MatchIsLocal(t, s[e..]);
    assert t[..e] + s[e..] == s;
  }

  lemma HeadsAgree(s: string, rest: string, e: nat)
    requires 1 <= e <= |rest| + 1 && s != []
    requires forall k :: 1 <= k < e ==> ([s[0]] + rest)[k] != '['
    requires Clear(s[1..]) == Clear(rest) && s[1..][..Clear(rest)] == rest[..Clear(rest)]
    ensures e <= |s| && ([s[0]] + rest)[..e] == s[..e]
  {
    var t := [s[0]] + rest;
    var c := Clear(rest);
    BracketFreeTail(s[0], rest, e);
    ClearAtLeast(rest, e - 1);
    forall k | 1 <= k < e
      ensures t[k] == s[k]
    {
      assert t[k] == rest[..c][k - 1];
      assert s[k] == s[1..][..c][k - 1];
    }
    assert t[..e] == s[..e];
  }

  lemma BracketFreeTail(c: char, rest: string, e: nat)
    requires 1 <= e <= |rest| + 1
    requires forall k :: 1 <= k < e ==> ([c] + rest)[k] != '['
    ensures forall k :: 0 <= k < e - 1 ==> rest[k] != '['
  {
    forall k | 0 <= k < e - 1
      ensures rest[k] != '['
    {
      assert rest[k] == ([c] + rest)[k + 1];
    }
  }

  /** A character that started no match starts none in front of any text
      that agrees with the old one up to its first `[`. */
  lemma NoMatchTransfer(s: string, rest: string)
    requires s != [] && MatchAt(s).None?
    requires Clear(s[1..]) == Clear(rest) && s[1..][..Clear(rest)] == rest[..Clear(rest)]
    ensures MatchAt([s[0]] + rest).None?
  {
    var t := [s[0]] + rest;
    if MatchAt(t).Some? {
      var e := MatchAt(t).value.end;
      MatchHasOneBracket(t);
      HeadsAgree(s, rest, e);
      MatchTransfer(t, s);
    }
  }

  /** A character that started no match still starts none after the
      markers behind it are rewritten. */
  lemma StillNoMatch(s: string, kept: seq<Citation>)
    requires s != [] && MatchAt(s).None?
    ensures MatchAt([s[0]] + Render(Rewrite(Tokenize(s[1..]), kept))).None?
  {
    AgreeBeforeBracket(s[1..], kept);
    NoMatchTransfer(s, Render(Rewrite(Tokenize(s[1..]), kept)));
  }

  /** Scanning the rewritten answer finds exactly the rewritten segments:
      the new markers are found with their new numbers, and no new marker
      appears out of the untouched text. */
  lemma {:induction false} RetokenizeRewrite(s: string, kept: seq<Citation>)
    ensures Tokenize(Render(Rewrite(Tokenize(s), kept))) == Rewrite(Tokenize(s), kept)
    decreases |s|
  {
    if s != [] {
      var segs := Tokenize(s);
      var out := Rewrite(segs, kept);
      assert out == [RewriteSegment(segs[0], kept)] + Rewrite(segs[1..], kept);
      var g := RewriteSegment(segs[0], kept);
      var rest := Render(Rewrite(segs[1..], kept));
      var t := Render(out);
      assert t == Piece(g) + rest;
      match MatchAt(s)
      case Some(m) =>
        assert segs[1..] == Tokenize(s[m.end..]);
        RetokenizeRewrite(s[m.end..], kept);
        var raw := Piece(g);
        assert MatchAt(raw) == Some(Match(|raw|, g.num)) by {
          if g == segs[0] {
            MatchIsLocal(s, []);
            assert s[..m.end] + [] == s[..m.end];
          } else {
            NewMarkerMatches(g.num);
          }
        }
        MatchIsLocal(raw, rest);
        assert raw[..|raw|] == raw;
        assert t[..|raw|] == raw && t[|raw|..] == rest;
      case None =>
        assert segs[1..] == Tokenize(s[1..]);
        RetokenizeRewrite(s[1..], kept);
        StillNoMatch(s, kept);
        assert t == [s[0]] + rest;
        assert t[1..] == rest;
    }
  }

  // ---------------------------------------------------------------------------
  // What the reconciler promises

  lemma {:induction false} CitedNumbersSpec(segs: seq<Segment>)
    ensures forall n :: n in CitedNumbers(segs) <==> exists i :: 0 <= i < |segs| && segs[i].Marker? && segs[i].num == n
    decreases |segs|
  {
    if segs != [] {
      CitedNumbersSpec(segs[1..]);
      forall n | n in CitedNumbers(segs)
        ensures exists i :: 0 <= i < |segs| && segs[i].Marker? && segs[i].num == n
      {
        if !(segs[0].Marker? && segs[0].num == n) {
          assert n in CitedNumbers(segs[1..]);
          var i :| 0 <= i < |segs[1..]| && segs[1..][i].Marker? && segs[1..][i].num == n;
          assert segs[i + 1] == segs[1..][i];
        }
      }
      forall n | exists i :: 0 <= i < |segs| && segs[i].Marker? && segs[i].num == n
        ensures n in CitedNumbers(segs)
      {
        var i :| 0 <= i < |segs| && segs[i].Marker? && segs[i].num == n;
        if i > 0 {
          assert segs[1..][i - 1] == segs[i];
        }
      }
    }
  }

  /** When some marker names a citation, the returned citations are a list
      `kept` of exactly the input citations the answer names, in ascending
      order of their old numbers, each renumbered to its position 1..k. */
  lemma ReconcileCitations(answer: string, citations: seq<Citation>)
    requires Ascending(citations)
    requires ValidCited(Tokenize(answer), citations) != {}
    ensures var r := Reconcile(answer, citations);
      var cited := ValidCited(Tokenize(answer), citations);
      exists kept: seq<Citation> ::
        && |kept| == |r.citations|
        && Ascending(kept)
        && (forall j :: 0 <= j < |kept| ==> r.citations[j] == kept[j].(source := j + 1))
        && (forall j :: 0 <= j < |kept| ==> kept[j] in citations && kept[j].source in cited)
        && (forall i :: 0 <= i < |citations| && citations[i].source in cited ==> citations[i] in kept)
  {
    var cited := ValidCited(Tokenize(answer), citations);
    var kept := KeepCited(citations, cited);
    KeepCitedSpec(citations, cited);
    assert Reconcile(answer, citations).citations == Renumber(kept);
  }

  /** A marker naming an input citation is rewritten to the new number of
      that citation. */
  lemma RewriteNamedMarker(citations: seq<Citation>, cited: set<int>, g: Segment)
    requires Ascending(citations)
    requires g.Marker? && g.num in cited
    requires forall n :: n in cited ==> n in SourceNumbers(citations)
    ensures var kept := KeepCited(citations, cited);
      var h := RewriteSegment(g, kept);
      && h.Marker? && h.raw == NewMarker(h.num) && 1 <= h.num <= |kept|
      && kept[h.num - 1] in citations && kept[h.num - 1].source == g.num
  {
    var kept := KeepCited(citations, cited);
    assert g.num in SourceNumbers(citations);
    var i :| 0 <= i < |citations| && SourceNumbers(citations)[i] == g.num;
    var j := KeptIndex(citations, cited, i);
    KeptAscending(citations, cited);
    NewNumberOf(kept, j, g);
  }

  /** Where a cited input citation sits in the kept list. */
  lemma KeptIndex(cs: seq<Citation>, cited: set<int>, i: nat) returns (j: nat)
    requires i < |cs| && cs[i].source in cited
    ensures j < |KeepCited(cs, cited)| && KeepCited(cs, cited)[j] == cs[i]
  {
    CitedAreKept(cs, cited);
    var kept := KeepCited(cs, cited);
    assert cs[i] in kept;
    j :| 0 <= j < |kept| && kept[j] == cs[i];
  }

  /** On an ascending list, a marker for the j-th citation's number is
      rewritten to number j + 1. */
  lemma NewNumberOf(kept: seq<Citation>, j: nat, g: Segment)
    requires Ascending(kept) && j < |kept|
    requires g.Marker? && g.num == kept[j].source
    ensures NewNumber(kept, kept[j].source) == Some(j + 1)
    ensures RewriteSegment(g, kept) == Marker(NewMarker(j + 1), j + 1)
  {
    var k := NewNumber(kept, kept[j].source).value;
    assert kept[k - 1].source == kept[j].source;
  }

  /** A marker naming no input citation is left alone. */
  lemma RewriteUnnamedMarker(citations: seq<Citation>, cited: set<int>, g: Segment)
    requires g.Marker? && g.num !in SourceNumbers(citations)
    ensures RewriteSegment(g, KeepCited(citations, cited)) == g
  {
    KeepCitedSpec(citations, cited);
  }

  /** The reconciled answer scans into the rewritten segments of the old one. */
  lemma ReconcileShape(answer: string, citations: seq<Citation>)
    requires Ascending(citations)
    requires ValidCited(Tokenize(answer), citations) != {}
    ensures var kept := KeepCited(citations, ValidCited(Tokenize(answer), citations));
      var r := Reconcile(answer, citations);
      && Tokenize(r.answer) == Rewrite(Tokenize(answer), kept)
      && r.citations == Renumber(kept)
  {
    RetokenizeRewrite(answer, KeepCited(citations, ValidCited(Tokenize(answer), citations)));
  }

  /** Marker by marker, the new answer is the old one with the text and the
      markers naming no citation left as they were. */
  lemma ReconcileKeepsText(answer: string, citations: seq<Citation>)
    requires Ascending(citations)
    requires ValidCited(Tokenize(answer), citations) != {}
    ensures var before := Tokenize(answer);
      var after := Tokenize(Reconcile(answer, citations).answer);
      && |after| == |before|
      && (forall i :: 0 <= i < |before| && before[i].Lit? ==> after[i] == before[i])
      && (forall i :: 0 <= i < |before| && before[i].Marker? && before[i].num !in SourceNumbers(citations) ==>
            after[i] == before[i])
  {
    var before := Tokenize(answer);
    var cited := ValidCited(before, citations);
    ReconcileShape(answer, citations);
    var after := Tokenize(Reconcile(answer, citations).answer);
    forall i | 0 <= i < |before| && before[i].Marker? && before[i].num !in SourceNumbers(citations)
      ensures after[i] == before[i]
    {
      RewriteUnnamedMarker(citations, cited, before[i]);
    }
  }

  /** `c'` is an input citation numbered `n`, renumbered to `k`. */
  ghost predicate RenumberedFrom(citations: seq<Citation>, n: int, k: int, c': Citation) {
    exists c :: c in citations && c.source == n && c' == c.(source := k)
  }

  /** Position i of the rescanned answer is the marker `[Source k]`, and the
      k-th returned citation is the input citation the old marker `g` named,
      renumbered to k. */
  ghost predicate RenumberedMarker(citations: seq<Citation>, g: Segment, after: seq<Segment>, i: int,
                                   returned: seq<Citation>) {
    && g.Marker? && 0 <= i < |after| && after[i].Marker?
    && after[i].raw == NewMarker(after[i].num)
    && 1 <= after[i].num <= |returned|
    && RenumberedFrom(citations, g.num, after[i].num, returned[after[i].num - 1])
  }

  /** Every marker naming an input citation becomes `[Source j]`, where j is
      the new number of that citation in the returned list. */
  lemma ReconcileRenumbersMarkers(answer: string, citations: seq<Citation>)
    requires Ascending(citations)
    requires ValidCited(Tokenize(answer), citations) != {}
    ensures var r := Reconcile(answer, citations);
      var before := Tokenize(answer);
      forall i :: 0 <= i < |before| && before[i].Marker? && before[i].num in SourceNumbers(citations) ==>
        RenumberedMarker(citations, before[i], Tokenize(r.answer), i, r.citations)
  {
    var before := Tokenize(answer);
    forall i | 0 <= i < |before| && before[i].Marker? && before[i].num in SourceNumbers(citations)
      ensures RenumberedMarker(citations, before[i], Tokenize(Reconcile(answer, citations).answer), i,
                               Reconcile(answer, citations).citations)
    {
      RenumberedMarkerAt(answer, citations, i);
    }
  }

  /** One marker of the answer that names an input citation, after
      reconciliation. */
  lemma RenumberedMarkerAt(answer: string, citations: seq<Citation>, i: nat)
    requires Ascending(citations)
    requires ValidCited(Tokenize(answer), citations) != {}
    requires i < |Tokenize(answer)| && Tokenize(answer)[i].Marker?
    requires Tokenize(answer)[i].num in SourceNumbers(citations)
    ensures var r := Reconcile(answer, citations);
      RenumberedMarker(citations, Tokenize(answer)[i], Tokenize(r.answer), i, r.citations)
  {
    var before := Tokenize(answer);
    var cited := ValidCited(before, citations);
    var r := Reconcile(answer, citations);
    ReconcileShape(answer, citations);
    MarkerIsCited(before, i);
    RenumberedSegment(citations, cited, before[i], Tokenize(r.answer), i, r.citations);
  }

  /** The marker rewritten at position i, and the renumbered list, agree. */
  lemma RenumberedSegment(citations: seq<Citation>, cited: set<int>, g: Segment, after: seq<Segment>, i: nat,
                          returned: seq<Citation>)
    requires Ascending(citations)
    requires g.Marker? && g.num in cited
    requires forall n :: n in cited ==> n in SourceNumbers(citations)
    requires i < |after| && after[i] == RewriteSegment(g, KeepCited(citations, cited))
    requires returned == Renumber(KeepCited(citations, cited))
    ensures RenumberedMarker(citations, g, after, i, returned)
  {
    var kept := KeepCited(citations, cited);
    RewriteNamedMarker(citations, cited, g);
    var h := after[i];
    var c := kept[h.num - 1];
    assert returned[h.num - 1] == c.(source := h.num);
    assert c in citations && c.source == g.num;
  }

  /** The number of every scanned marker is among the cited numbers. */
  lemma {:induction false} MarkerIsCited(segs: seq<Segment>, i: nat)
    requires i < |segs| && segs[i].Marker?
    ensures segs[i].num in CitedNumbers(segs)
    decreases i
  {
    if i > 0 {
      MarkerIsCited(segs[1..], i - 1);
    }
  }

  /** Every returned citation is named, by its new number, in the returned
      answer. */
  lemma ReconcileCitesAll(answer: string, citations: seq<Citation>)
    requires Ascending(citations)
    requires ValidCited(Tokenize(answer), citations) != {}
    ensures var r := Reconcile(answer, citations);
      forall j :: 1 <= j <= |r.citations| ==> j in CitedNumbers(Tokenize(r.answer))
  {
    var before := Tokenize(answer);
    var cited := ValidCited(before, citations);
    var kept := KeepCited(citations, cited);
    ReconcileShape(answer, citations);
    KeptAreCited(citations, cited);
    KeptAscending(citations, cited);
    forall j | 1 <= j <= |kept|
      ensures j in CitedNumbers(Rewrite(before, kept))
    {
      CitedAfterRewrite(before, kept, j);
    }
  }

  /** A kept citation whose old number is mentioned is mentioned by its new
      number after the rewrite. */
  lemma CitedAfterRewrite(segs: seq<Segment>, kept: seq<Citation>, j: nat)
    requires Ascending(kept) && 1 <= j <= |kept|
    requires kept[j - 1].source in CitedNumbers(segs)
    ensures j in CitedNumbers(Rewrite(segs, kept))
  {
    var n := kept[j - 1].source;
    var out := Rewrite(segs, kept);
    CitedNumbersSpec(segs);
    CitedNumbersSpec(out);
    var i :| 0 <= i < |segs| && segs[i].Marker? && segs[i].num == n;
    NewNumberSpec(kept, n, n);
    assert out[i] == Marker(NewMarker(j), j);
  }

  lemma NumberedSources(citations: seq<Citation>)
    requires forall k :: 0 <= k < |citations| ==> citations[k].source == k + 1
    ensures forall n :: 1 <= n <= |citations| ==> n in SourceNumbers(citations)
  {
    forall n | 1 <= n <= |citations|
      ensures n in SourceNumbers(citations)
    {
      assert SourceNumbers(citations)[n - 1] == n;
    }
  }

  /** With citations numbered 1..m, as the assembler numbers them, a marker
      the model wrote for a source that does not exist cannot be mistaken
      afterwards for a returned citation: every marker in the returned answer
      whose number is in 1..k is a rewritten one. */
  lemma ReconcileNoClash(answer: string, citations: seq<Citation>)
    requires forall k :: 0 <= k < |citations| ==> citations[k].source == k + 1
    requires ValidCited(Tokenize(answer), citations) != {}
    ensures var r := Reconcile(answer, citations);
      var before := Tokenize(answer);
      var after := Tokenize(r.answer);
      forall i :: 0 <= i < |after| && after[i].Marker? && 1 <= after[i].num <= |r.citations| ==>
        i < |before| && before[i].Marker? && before[i].num in SourceNumbers(citations)
  {
    var before := Tokenize(answer);
    var cited := ValidCited(before, citations);
    var r := Reconcile(answer, citations);
    var after := Tokenize(r.answer);
    ReconcileShape(answer, citations);
    NumberedSources(citations);
    forall i | 0 <= i < |after| && after[i].Marker? && 1 <= after[i].num <= |r.citations|
      ensures i < |before| && before[i].Marker? && before[i].num in SourceNumbers(citations)
    {
      if before[i].Marker? && before[i].num !in SourceNumbers(citations) {
        RewriteUnnamedMarker(citations, cited, before[i]);
      }
    }
  }
}
