/**
  The pure report utilities: the per-model cost estimate, the splitting of a
  markdown report into display sections with their referenced images, and the
  clean-up of chat answers that leaked search-tool output.
 */
module ReportUtils {
  import opened Types
  import opened Text

  // ================================================================ cost

  /** Conversion rate applied to the dollar price. */
  const UsdToEur: real := 0.86

  /** Prices are quoted per million tokens. */
  const TokensPerQuote: real := 1000000.0

  /** The largest prompt that the pro model still bills at its low tier. */
  const ProLowTierLimit: nat := 200000

  /** Dollar prices per million input (prompt) and output (candidate) tokens. */
  datatype Rates = Rates(input: real, output: real)

  const FlashRates := Rates(0.30, 2.50)
  const ProLowTier := Rates(1.25, 10.00)
  const ProHighTier := Rates(2.50, 15.00)

  /** The price table row that applies to a call. */
  function RatesFor(model: ModelName, promptTokens: nat): Rates
  {
    match model
    case Flash => FlashRates
    case Pro => if promptTokens <= ProLowTierLimit then ProLowTier else ProHighTier
  }

  /**
    calculateCost: the price of one call in euros, or `None` when the model or
    either token count is missing.
   */
  function CalculateCost(model: Option<ModelName>, promptTokens: Option<nat>, candidatesTokens: Option<nat>): (cost: Option<real>)
    ensures cost.Some? <==> model.Some? && promptTokens.Some? && candidatesTokens.Some?
    ensures cost.Some? ==> cost.value >= 0.0
    ensures cost.Some? && promptTokens.value == 0 && candidatesTokens.value == 0 ==> cost.value == 0.0
  {
    if model.None? || promptTokens.None? || candidatesTokens.None? then None
    else
      var rates := RatesFor(model.value, promptTokens.value);
      var usd := (promptTokens.value as real / TokensPerQuote) * rates.input
               + (candidatesTokens.value as real / TokensPerQuote) * rates.output;
      Some(usd * UsdToEur)
  }

  /** The flash model bills 0.30 and 2.50 dollars per million tokens, converted at 0.86. */
  lemma FlashCost(p: nat, c: nat)
    ensures CalculateCost(Some(Flash), Some(p), Some(c))
         == Some((p as real / 1000000.0 * 0.30 + c as real / 1000000.0 * 2.50) * 0.86)
  {
  }

  /** The pro model bills its low tier up to and including 200000 prompt tokens, its high tier above. */
  lemma ProCostTiers(p: nat, c: nat)
    ensures p <= 200000 ==>
      CalculateCost(Some(Pro), Some(p), Some(c))
        == Some((p as real / 1000000.0 * 1.25 + c as real / 1000000.0 * 10.00) * 0.86)
    ensures p > 200000 ==>
      CalculateCost(Some(Pro), Some(p), Some(c))
        == Some((p as real / 1000000.0 * 2.50 + c as real / 1000000.0 * 15.00) * 0.86)
  {
  }

  /** The worked example: 100000 prompt and 50000 output tokens on the pro model. */
  lemma ProCostExample()
    ensures CalculateCost(Some(Pro), Some(100000), Some(50000)) == Some((0.125 + 0.5) * 0.86)
  {
  }

  /**
    More tokens never cost less, also across the pro tier boundary, because
    both high-tier rates exceed the low-tier ones.
   */
  lemma CostMonotone(model: ModelName, p1: nat, c1: nat, p2: nat, c2: nat)
    requires p1 <= p2 && c1 <= c2
    ensures CalculateCost(Some(model), Some(p1), Some(c1)).value
         <= CalculateCost(Some(model), Some(p2), Some(c2)).value
  {
  }

  // ========================================================== sectioning

  /** The title line the analysis prompt asks the model to start with. */
  const ReportTitle := "# Wildtieranalyse-Bericht"

  /** One of the heading prefixes `# `, `## ` or `### ` begins at index `q`. */
  predicate HeadingAt(s: string, q: nat)
    requires q <= |s|
  {
    StartsWith(s[q..], "# ") || StartsWith(s[q..], "## ") || StartsWith(s[q..], "### ")
  }

  /**
    `split(/^(?=# |## |### )/m)` cuts at `q`: a heading begins at the start of
    a line. A zero-width match at index 0 never produces a cut.
   */
  predicate IsSplitPoint(s: string, q: nat)
  {
    0 < q < |s| && IsLineTerminator(s[q - 1]) && HeadingAt(s, q)
  }

  /** The first split point at or after `from`, or `|s|` when there is none. */
  function NextSplitPoint(s: string, from: nat): (q: nat)
    requires from <= |s|
    ensures from <= q <= |s|
    ensures q < |s| ==> IsSplitPoint(s, q)
    ensures forall j: nat :: from <= j < q ==> !IsSplitPoint(s, j)
    decreases |s| - from
  {
    if from == |s| then |s|
    else if IsSplitPoint(s, from) then from
    else NextSplitPoint(s, from + 1)
  }

  /** A split point inside a prefix of `s` is a split point of `s`. */
  lemma PrefixSplitPoints(s: string, q: nat)
    requires q <= |s|
    ensures forall j: nat :: IsSplitPoint(s[..q], j) ==> IsSplitPoint(s, j)
  {
    forall j: nat | IsSplitPoint(s[..q], j)
      ensures IsSplitPoint(s, j)
    {
      assert s[..q][j - 1] == s[j - 1];
      assert s[..q][j..] == s[j..q];
      assert s[j..q] <= s[j..];
    }
  }

  /** A heading at the front of `s` lies wholly before the next line end. */
  lemma HeadingSurvivesCut(s: string, q: nat)
    requires |s| > 0 && HeadingAt(s, 0)
    requires 0 < q <= |s|
    requires q == |s| || IsLineTerminator(s[q - 1])
    ensures HeadingAt(s[..q], 0)
  {
    var h := if StartsWith(s, "# ") then "# " else if StartsWith(s, "## ") then "## " else "### ";
    assert StartsWith(s, h);
    assert forall i :: 0 <= i < |h| ==> s[i] == h[i] && !IsLineTerminator(h[i]);
    assert |h| <= q;
    assert s[..q][..|h|] == s[..|h|];
  }

  /** `s` ends with a line terminator. */
  predicate EndsLine(s: string)
  {
    s != [] && IsLineTerminator(s[|s| - 1])
  }

  /**
    The pieces `split` produces: they concatenate back to the input, every
    piece after the first begins with a heading at the start of a line, and no
    piece contains a cut of its own.
   */
  function SplitAtHeadings(s: string): (pieces: seq<string>)
    ensures |pieces| >= 1
    ensures Concat(pieces) == s
    ensures s != [] ==> forall k :: 0 <= k < |pieces| ==> pieces[k] != []
    ensures s != [] && HeadingAt(s, 0) ==> HeadingAt(pieces[0], 0)
    ensures forall k :: 0 <= k < |pieces| - 1 ==> EndsLine(pieces[k])
    ensures forall k :: 0 < k < |pieces| ==> pieces[k] != [] && HeadingAt(pieces[k], 0)
    ensures forall k, q: nat :: 0 <= k < |pieces| && 0 < q < |pieces[k]| ==> !IsSplitPoint(pieces[k], q)
    decreases |s|
  {
    if s == [] then [s]
    else
      var q := NextSplitPoint(s, 1);
      PrefixSplitPoints(s, q);
      if q == |s| then
        assert Concat([s]) == s + Concat([]);
        [s]
      else
        var head := s[..q];
        var rest := SplitAtHeadings(s[q..]);
        HeadingAtSuffix(s, q);
        if HeadingAt(s, 0) then
          HeadingSurvivesCut(s, q);
          SplitTail(head, rest, s)
        else
          SplitTail(head, rest, s)
  }

  /** A heading at index `q` of `s` is a heading at the front of `s[q..]`. */
  lemma HeadingAtSuffix(s: string, q: nat)
    requires q <= |s| && HeadingAt(s, q)
    ensures HeadingAt(s[q..], 0)
  {
    assert s[q..][0..] == s[q..];
  }

  /** Assembles the result of `SplitAtHeadings` from its first cut and the pieces after it. */
  function SplitTail(head: string, rest: seq<string>, s: string): (pieces: seq<string>)
    requires head != [] && |rest| >= 1 && s == head + Concat(rest)
    ensures pieces == [head] + rest
    ensures Concat(pieces) == s
  {
    var pieces := [head] + rest;
    assert pieces[1..] == rest;
    pieces
  }

  /** A piece `filter` keeps: not blank, and not a lone `---` rule. */
  predicate IsContentPiece(piece: string)
  {
    Trim(piece) != [] && Trim(piece) != "---"
  }

  /** The pieces that survive the blank-and-rule filter, in their original order. */
  function ContentPieces(pieces: seq<string>): (kept: seq<string>)
    ensures |kept| <= |pieces|
    ensures forall k :: 0 <= k < |kept| ==> IsContentPiece(kept[k]) && kept[k] in pieces
    ensures forall k :: 0 <= k < |pieces| && IsContentPiece(pieces[k]) ==> pieces[k] in kept
  {
    if pieces == [] then []
    else
      var tail := ContentPieces(pieces[1..]);
      if IsContentPiece(pieces[0]) then [pieces[0]] + tail else tail
  }

  /** Filtering distributes over concatenation, so the kept pieces keep their order. */
  lemma {:induction false} ContentPiecesAppend(a: seq<string>, b: seq<string>)
    ensures ContentPieces(a + b) == ContentPieces(a) + ContentPieces(b)
  {
    if a == [] {
      assert a + b == b;
    } else {
      assert (a + b)[0] == a[0];
      assert (a + b)[1..] == a[1..] + b;
      ContentPiecesAppend(a[1..], b);
    }
  }

  /**
    The markdown of each displayed section: the content pieces of the report,
    without the first one when it is the report title.
   */
  function SectionSources(markdown: string): (sources: seq<string>)
    ensures markdown == [] ==> sources == []
    ensures forall k :: 0 <= k < |sources| ==> IsContentPiece(sources[k])
    ensures |sources| <= |ContentPieces(SplitAtHeadings(markdown))|
  {
    if markdown == [] then []
    else
      var kept := ContentPieces(SplitAtHeadings(markdown));
      if |kept| > 0 && StartsWith(Trim(kept[0]), ReportTitle) then kept[1..] else kept
  }

  /** When the first content piece is not the title, every content piece becomes a section. */
  lemma SectionsKeepAllWithoutTitle(markdown: string)
    requires var kept := ContentPieces(SplitAtHeadings(markdown));
             kept == [] || !StartsWith(Trim(kept[0]), ReportTitle)
    ensures SectionSources(markdown) == ContentPieces(SplitAtHeadings(markdown))
  {
    if markdown == [] {
      assert SplitAtHeadings(markdown) == [[]];
      assert !IsContentPiece([]);
      assert ContentPieces([[]]) == [];
    }
  }

  /** When the first content piece is the title, every other content piece becomes a section. */
  lemma SectionsDropTitle(markdown: string)
    requires var kept := ContentPieces(SplitAtHeadings(markdown));
             kept != [] && StartsWith(Trim(kept[0]), ReportTitle)
    ensures SectionSources(markdown) == ContentPieces(SplitAtHeadings(markdown))[1..]
  {
  }

  /** The report title is a level-one heading. */
  lemma TitleIsHeading(markdown: string)
    requires StartsWith(markdown, ReportTitle)
    ensures HeadingAt(markdown, 0)
  {
    assert markdown[0..] == markdown;
    assert markdown[..2] == ReportTitle[..2];
  }

  /** No cut falls inside the title line, so the first piece still starts with it. */
  lemma FirstPieceHasTitle(markdown: string)
    requires StartsWith(markdown, ReportTitle)
    ensures StartsWith(SplitAtHeadings(markdown)[0], ReportTitle)
  {
    TitleIsHeading(markdown);
    var pieces := SplitAtHeadings(markdown);
    var first := pieces[0];
    assert Concat(pieces) == first + Concat(pieces[1..]);
    assert markdown[..|first|] == first;
    if |pieces| > 1 {
      assert EndsLine(first);
      assert markdown[|first| - 1] == first[|first| - 1];
      LineEndsAfterTitle(markdown, |first|);
    }
    assert first[..|ReportTitle|] == markdown[..|ReportTitle|];
  }

  /** The title line holds no line terminator, so a line ends only after it. */
  lemma LineEndsAfterTitle(s: string, n: nat)
    requires StartsWith(s, ReportTitle)
    requires 0 < n <= |s| && IsLineTerminator(s[n - 1])
    ensures n > |ReportTitle|
  {
    forall i | 0 <= i < |ReportTitle|
      ensures !IsLineTerminator(s[i])
    {
      assert s[i] == s[..|ReportTitle|][i];
    }
  }

  /** Every index from `n` on of `s` holds whitespace when `s[n..]` is all whitespace. */
  lemma WhitespaceTail(s: string, n: nat)
    requires n <= |s| && AllWhitespace(s[n..])
    ensures forall m :: n <= m < |s| ==> IsWhitespace(s[m])
  {
    forall m | n <= m < |s|
      ensures IsWhitespace(s[m])
    {
      assert s[n..][m - n] == s[m];
    }
  }

  /** A piece that starts with the title keeps it when trimmed, and survives the filter. */
  lemma TitlePieceIsContent(first: string)
    requires StartsWith(first, ReportTitle)
    ensures StartsWith(Trim(first), ReportTitle)
    ensures IsContentPiece(first)
  {
    LeadingWhitespaceExact(first, 0);
    var t := Trim(first);
    WhitespaceTail(first, |t|);
    assert first[|ReportTitle| - 1] == ReportTitle[|ReportTitle| - 1];
    assert |t| >= |ReportTitle|;
    assert t[..|ReportTitle|] == first[..|ReportTitle|];
    assert t[0] == '#';
  }

  /**
    A report that begins with its title (as the normalised analysis output
    does) loses exactly its first piece, the one holding the title.
   */
  lemma TitleSectionDropped(markdown: string)
    requires StartsWith(markdown, ReportTitle)
    ensures StartsWith(SplitAtHeadings(markdown)[0], ReportTitle)
    ensures SectionSources(markdown) == ContentPieces(SplitAtHeadings(markdown)[1..])
  {
    FirstPieceHasTitle(markdown);
    var pieces := SplitAtHeadings(markdown);
    TitlePieceIsContent(pieces[0]);
    assert pieces == [pieces[0]] + pieces[1..];
    ContentPiecesAppend([pieces[0]], pieces[1..]);
    assert ContentPieces([pieces[0]]) == [pieces[0]];
  }

  // -------------------------------------------------- image references

  /** The characters of the class `[\d,\s]`. */
  predicate IsRefChar(c: char)
  {
    IsDigit(c) || c == ',' || IsWhitespace(c)
  }

  /** The length of the run of `[\d,\s]` characters at the start of `s`. */
  function RefRunLength(s: string): (n: nat)
    ensures n <= |s|
    ensures forall i :: 0 <= i < n ==> IsRefChar(s[i])
    ensures n < |s| ==> !IsRefChar(s[n])
  {
    if s == [] || !IsRefChar(s[0]) then 0 else 1 + RefRunLength(s[1..])
  }

  const RefOpen := "(Bild"

  /**
    The end of a match of `\(Bild\s*[\d,\s]+\)` that begins exactly at the
    start of `s`: the opening text, a non-empty maximal run of digits, commas
    and whitespace, and a closing parenthesis.
   */
  function RefEnd(s: string): (r: Option<nat>)
    ensures r.Some? ==> |RefOpen| + 2 <= r.value <= |s|
    ensures r.Some? ==> StartsWith(s, RefOpen) && s[r.value - 1] == ')'
    ensures r.None? <==>
      || !StartsWith(s, RefOpen)
      || RefRunLength(s[|RefOpen|..]) == 0
      || |RefOpen| + RefRunLength(s[|RefOpen|..]) == |s|
      || s[|RefOpen| + RefRunLength(s[|RefOpen|..])] != ')'
  {
    if !StartsWith(s, RefOpen) then None
    else
      var k := |RefOpen| + RefRunLength(s[|RefOpen|..]);
      if k > |RefOpen| && k < |s| && s[k] == ')' then Some(k + 1) else None
  }

  /**
    The capture group `([\d,\s]+)` of a reference at the start of `s`: the run
    without the whitespace that the greedy `\s*` before it consumed (which
    leaves at least one character to the group).
   */
  function RefGroup(s: string): (g: string)
    requires RefEnd(s).Some?
    ensures |g| >= 1
    ensures forall i :: 0 <= i < |g| ==> IsRefChar(g[i])
    ensures var run := s[|RefOpen|..RefEnd(s).value - 1];
            && |g| <= |run| && g == run[|run| - |g|..]
            && AllWhitespace(run[..|run| - |g|])
            && (!IsWhitespace(g[0]) || |g| == 1)
  {
    var run := s[|RefOpen|..RefEnd(s).value - 1];
    RefRunChars(s);
    var w := LeadingWhitespace(run);
    if w == |run| then
      assert run[..|run| - 1] == run[..w][..|run| - 1];
      run[|run| - 1..]
    else
      assert run[..|run| - |run[w..]|] == run[..w];
      run[w..]
  }

  /** The characters between `(Bild` and the closing parenthesis are a non-empty run of `[\d,\s]`. */
  lemma RefRunChars(s: string)
    requires RefEnd(s).Some?
    ensures var run := s[|RefOpen|..RefEnd(s).value - 1];
            |run| >= 1 && forall i :: 0 <= i < |run| ==> IsRefChar(run[i])
  {
    var tail := s[|RefOpen|..];
    var run := s[|RefOpen|..RefEnd(s).value - 1];
    forall i | 0 <= i < |run|
      ensures IsRefChar(run[i])
    {
      assert run[i] == tail[i];
    }
  }

  /** The capture groups of `matchAll` over `s`, scanning left to right without overlap. */
  function RefGroups(s: string): (groups: seq<string>)
    ensures forall k :: 0 <= k < |groups| ==> |groups[k]| >= 1
    ensures forall k, i :: 0 <= k < |groups| && 0 <= i < |groups[k]| ==> IsRefChar(groups[k][i])
    decreases |s|
  {
    if s == [] then []
    else match RefEnd(s)
      case Some(e) => [RefGroup(s)] + RefGroups(s[e..])
      case None => RefGroups(s[1..])
  }

  /** The numbers of one capture group: its comma pieces, trimmed, that parse as integers. */
  function GroupNumbers(pieces: seq<string>): (nums: seq<nat>)
    ensures |nums| <= |pieces|
    ensures forall k :: 0 <= k < |pieces| && ParseInt(Trim(pieces[k])).Some? ==> ParseInt(Trim(pieces[k])).value in nums
    ensures forall n :: n in nums ==> exists k :: 0 <= k < |pieces| && ParseInt(Trim(pieces[k])) == Some(n)
  {
    if pieces == [] then []
    else
      var tail := GroupNumbers(pieces[1..]);
      match ParseInt(Trim(pieces[0]))
      case Some(n) => [n] + tail
      case None => tail
  }

  /** Every referenced number of a section, in the order the references appear. */
  function RefNumbers(groups: seq<string>): (nums: seq<nat>)
    ensures forall k, n :: 0 <= k < |groups| && n in GroupNumbers(SplitOn(groups[k], ',')) ==> n in nums
    ensures forall n :: n in nums ==> exists k :: 0 <= k < |groups| && n in GroupNumbers(SplitOn(groups[k], ','))
  {
    if groups == [] then []
    else GroupNumbers(SplitOn(groups[0], ',')) + RefNumbers(groups[1..])
  }

  /** One comma piece gives its number when its trim parses, and nothing otherwise. */
  lemma GroupNumbersOne(piece: string)
    ensures GroupNumbers([piece]) == if ParseInt(Trim(piece)).Some? then [ParseInt(Trim(piece)).value] else []
  {
    assert [piece][1..] == [];
  }

  /** Parsing distributes over concatenation: the numbers keep the order and multiplicity of their pieces. */
  lemma {:induction false} GroupNumbersAppend(a: seq<string>, b: seq<string>)
    ensures GroupNumbers(a + b) == GroupNumbers(a) + GroupNumbers(b)
  {
    if a == [] {
      assert a + b == b;
    } else {
      assert (a + b)[0] == a[0];
      assert (a + b)[1..] == a[1..] + b;
      GroupNumbersAppend(a[1..], b);
    }
  }

  /** The numbers of several groups are those of each group, one group after another. */
  lemma {:induction false} RefNumbersAppend(a: seq<string>, b: seq<string>)
    ensures RefNumbers(a + b) == RefNumbers(a) + RefNumbers(b)
  {
    if a == [] {
      assert a + b == b;
    } else {
      assert (a + b)[0] == a[0];
      assert (a + b)[1..] == a[1..] + b;
      RefNumbersAppend(a[1..], b);
    }
  }

  /** Where no reference starts, `matchAll` finds nothing. */
  lemma {:induction false} RefGroupsNone(s: string)
    requires forall i :: 0 <= i < |s| ==> RefEnd(s[i..]).None?
    ensures RefGroups(s) == []
    decreases |s|
  {
    if s != [] {
      assert s[0..] == s;
      forall i | 0 <= i < |s[1..]|
        ensures RefEnd(s[1..][i..]).None?
      {
        assert s[1..][i..] == s[i + 1..];
      }
      RefGroupsNone(s[1..]);
    }
  }

  /**
    `matchAll` scans left to right without overlap: the first reference found
    starts at the first index where one starts, and scanning resumes after it.
   */
  lemma RefGroupsFirst(s: string, i: nat, e: nat)
    requires i < |s| && RefEnd(s[i..]) == Some(e)
    requires forall j :: 0 <= j < i ==> RefEnd(s[j..]).None?
    ensures i + e <= |s|
    ensures RefGroups(s) == [RefGroup(s[i..])] + RefGroups(s[i + e..])
  {
    RefGroupsSkipTo(s, 0, i);
    assert s[0..] == s;
    RefGroupsAt(s[i..]);
    assert s[i..][e..] == s[i + e..];
  }

  /** Positions where no reference starts are skipped by the scan. */
  lemma {:induction false} RefGroupsSkipTo(s: string, k: nat, i: nat)
    requires k <= i <= |s|
    requires forall j :: k <= j < i ==> RefEnd(s[j..]).None?
    ensures RefGroups(s[k..]) == RefGroups(s[i..])
    decreases i - k
  {
    if k < i {
      RefGroupsSkip(s[k..]);
      assert s[k..][1..] == s[k + 1..];
      RefGroupsSkipTo(s, k + 1, i);
    }
  }

  /** A reference at the front is the first match. */
  lemma RefGroupsAt(s: string)
    requires s != [] && RefEnd(s).Some?
    ensures RefGroups(s) == [RefGroup(s)] + RefGroups(s[RefEnd(s).value..])
  {
  }

  /** Without a reference at the front, scanning moves on by one character. */
  lemma RefGroupsSkip(s: string)
    requires s != [] && RefEnd(s).None?
    ensures RefGroups(s) == RefGroups(s[1..])
  {
  }

  /** The elements of `xs` are pairwise different. */
  predicate Distinct<T(==)>(xs: seq<T>)
  {
    forall i, j :: 0 <= i < j < |xs| ==> xs[i] != xs[j]
  }

  /** The index of the first occurrence of `v` in `xs`. */
  function FirstIndex(xs: seq<nat>, v: nat): (i: nat)
    requires v in xs
    ensures i < |xs| && xs[i] == v && v !in xs[..i]
  {
    if xs[0] == v then 0
    else
      var i := 1 + FirstIndex(xs[1..], v);
      assert xs[..i] == [xs[0]] + xs[1..][..i - 1];
      i
  }

  /**
    The distinct values of `xs` in the order of their first occurrence: what
    iterating a JavaScript `Set` filled from `xs` yields.
   */
  function FirstOccurrences(xs: seq<nat>): (r: seq<nat>)
    ensures Distinct(r)
    ensures forall v :: v in r <==> v in xs
    ensures forall i, j :: 0 <= i < j < |r| ==> FirstIndex(xs, r[i]) < FirstIndex(xs, r[j])
    decreases |xs|
  {
    if xs == [] then []
    else
      var init := xs[..|xs| - 1];
      var v := xs[|xs| - 1];
      var p := FirstOccurrences(init);
      assert xs == init + [v];
      FirstIndexOfPrefix(init, v);
      if v in init then p else p + [v]
  }

  /** Extending a sequence does not move the first occurrence of a value already present. */
  lemma FirstIndexOfPrefix(init: seq<nat>, v: nat)
    ensures forall u :: u in init ==> FirstIndex(init + [v], u) == FirstIndex(init, u)
    ensures v !in init ==> FirstIndex(init + [v], v) == |init|
  {
    forall u | u in init
      ensures FirstIndex(init + [v], u) == FirstIndex(init, u)
    {
      FirstIndexUnique(init + [v], u, FirstIndex(init, u));
    }
    if v !in init {
      FirstIndexUnique(init + [v], v, |init|);
    }
  }

  /** The first occurrence is the only occurrence without an earlier one. */
  lemma {:induction false} FirstIndexUnique(xs: seq<nat>, v: nat, i: nat)
    requires i < |xs| && xs[i] == v && v !in xs[..i]
    ensures FirstIndex(xs, v) == i
  {
    if i > 0 {
      assert xs[0] == xs[..i][0];
      assert xs[1..][..i - 1] == xs[1..i];
      assert xs[1..i] == xs[..i][1..];
      FirstIndexUnique(xs[1..], v, i - 1);
    }
  }

  /**
    The set-and-loop form the source uses: walk the numbers once, appending
    each one not yet in the set.
   */
  method DistinctInOrder(xs: seq<nat>) returns (r: seq<nat>)
    ensures r == FirstOccurrences(xs)
  {
    var seen: set<nat> := {};
    r := [];
    var i := 0;
    while i < |xs|
      invariant i <= |xs|
      invariant r == FirstOccurrences(xs[..i])
      invariant forall v :: v in seen <==> v in xs[..i]
    {
      var v := xs[i];
      assert xs[..i + 1] == xs[..i] + [v];
      assert xs[..i + 1][..i] == xs[..i];
      if v !in seen {
        seen := seen + {v};
        r := r + [v];
      }
      i := i + 1;
    }
    assert xs[..|xs|] == xs;
  }

  /** `allImages[n - 1]` is defined exactly for the numbers `1 .. count`; the rest are dropped. */
  function ImageIndices(nums: seq<nat>, count: nat): (idx: seq<nat>)
    ensures |idx| <= |nums|
    ensures forall k :: 0 <= k < |idx| ==> idx[k] < count
    ensures forall i: nat :: i in idx <==> i < count && i + 1 in nums
  {
    if nums == [] then []
    else
      var tail := ImageIndices(nums[1..], count);
      if 1 <= nums[0] <= count then [nums[0] - 1] + tail else tail
  }

  /** Different in-range numbers name different images, and the numbers' order is kept. */
  lemma {:induction false} ImageIndicesDistinct(nums: seq<nat>, count: nat)
    requires Distinct(nums)
    ensures Distinct(ImageIndices(nums, count))
  {
    if nums != [] {
      ImageIndicesDistinct(nums[1..], count);
      var tail := ImageIndices(nums[1..], count);
      if 1 <= nums[0] <= count {
        assert nums[0] !in nums[1..];
        assert nums[0] - 1 !in tail;
      }
    }
  }

  /** Filtering the numbers distributes over concatenation: in-range numbers keep their order. */
  lemma {:induction false} ImageIndicesAppend(a: seq<nat>, b: seq<nat>, count: nat)
    ensures ImageIndices(a + b, count) == ImageIndices(a, count) + ImageIndices(b, count)
  {
    if a == [] {
      assert a + b == b;
    } else {
      assert (a + b)[0] == a[0];
      assert (a + b)[1..] == a[1..] + b;
      ImageIndicesAppend(a[1..], b, count);
    }
  }

  /** The images a section's markdown refers to, each once, in first-reference order. */
  function SectionImages(sectionMd: string, allImages: seq<UploadedImage>): (images: seq<UploadedImage>)
    ensures forall k :: 0 <= k < |images| ==> images[k] in allImages
    ensures |images| <= |FirstOccurrences(RefNumbers(RefGroups(sectionMd)))|
    ensures forall i :: 0 <= i < |allImages| && i + 1 in RefNumbers(RefGroups(sectionMd)) ==> allImages[i] in images
    ensures var idx := ImageIndices(FirstOccurrences(RefNumbers(RefGroups(sectionMd))), |allImages|);
            && |images| == |idx|
            && forall k :: 0 <= k < |images| ==> images[k] == allImages[idx[k]]
  {
    PickImages(FirstOccurrences(RefNumbers(RefGroups(sectionMd))), allImages)
  }

  /** `allImages[n - 1]` for each number `n` of `nums` in 1..count, in the order of `nums`. */
  function PickImages(nums: seq<nat>, allImages: seq<UploadedImage>): (images: seq<UploadedImage>)
    ensures forall k :: 0 <= k < |images| ==> images[k] in allImages
    ensures |images| <= |nums|
    ensures forall i :: 0 <= i < |allImages| && i + 1 in nums ==> allImages[i] in images
    ensures var idx := ImageIndices(nums, |allImages|);
            && |images| == |idx|
            && forall k :: 0 <= k < |images| ==> images[k] == allImages[idx[k]]
  {
    var idx := ImageIndices(nums, |allImages|);
    var images := seq(|idx|, k requires 0 <= k < |idx| => allImages[idx[k]]);
    assert forall i :: 0 <= i < |allImages| && i + 1 in nums ==> allImages[i] == images[IndexIn(idx, i)];
    images
  }

  /** Only referenced images appear: each section image is `allImages[n - 1]` for a referenced `n`. */
  lemma SectionImagesReferenced(sectionMd: string, allImages: seq<UploadedImage>, k: nat)
    requires k < |SectionImages(sectionMd, allImages)|
    ensures exists n :: n in RefNumbers(RefGroups(sectionMd)) && 1 <= n <= |allImages|
                        && SectionImages(sectionMd, allImages)[k] == allImages[n - 1]
  {
    PickedReferenced(RefNumbers(RefGroups(sectionMd)), allImages, SectionImages(sectionMd, allImages), k);
  }

  /** An image picked by the indices of the first occurrences of `refs` is named by one of `refs`. */
  lemma PickedReferenced(refs: seq<nat>, allImages: seq<UploadedImage>, images: seq<UploadedImage>, k: nat)
    requires var idx := ImageIndices(FirstOccurrences(refs), |allImages|);
             |images| == |idx| && forall j :: 0 <= j < |images| ==> images[j] == allImages[idx[j]]
    requires k < |images|
    ensures exists n :: n in refs && 1 <= n <= |allImages| && images[k] == allImages[n - 1]
  {
    var idx := ImageIndices(FirstOccurrences(refs), |allImages|);
    IndexReferenced(FirstOccurrences(refs), |allImages|, k);
    var n := idx[k] + 1;
    assert n - 1 == idx[k];
    assert images[k] == allImages[n - 1];
  }

  /** Distinct images give distinct section images: each referenced image appears once. */
  lemma SectionImagesDistinct(sectionMd: string, allImages: seq<UploadedImage>)
    requires Distinct(allImages)
    ensures Distinct(SectionImages(sectionMd, allImages))
  {
    var nums := FirstOccurrences(RefNumbers(RefGroups(sectionMd)));
    ImageIndicesDistinct(nums, |allImages|);
    var idx := ImageIndices(nums, |allImages|);
    var images := SectionImages(sectionMd, allImages);
    forall i, j | 0 <= i < j < |images|
      ensures images[i] != images[j]
    {
      assert idx[i] != idx[j];
      if idx[i] < idx[j] {
        assert allImages[idx[i]] != allImages[idx[j]];
      } else {
        assert allImages[idx[j]] != allImages[idx[i]];
      }
    }
  }

  /** Each kept index names an in-range referenced number. */
  lemma IndexReferenced(nums: seq<nat>, count: nat, k: nat)
    requires k < |ImageIndices(nums, count)|
    ensures ImageIndices(nums, count)[k] < count && ImageIndices(nums, count)[k] + 1 in nums
  {
    assert ImageIndices(nums, count)[k] in ImageIndices(nums, count);
  }

  /** Some position of `v` in `xs`. */
  function IndexIn(xs: seq<nat>, v: nat): (i: nat)
    requires v in xs
    ensures i < |xs| && xs[i] == v
  {
    if xs[0] == v then 0 else 1 + IndexIn(xs[1..], v)
  }

  // ------------------------------------------------ reference stripping

  /** The text the global replacements remove, each together with the whitespace before it. */
  datatype Pattern = ImageRef | Marker(text: string)

  /** The end of a match of `pat` that begins exactly at the start of `s`. */
  function PatternEnd(pat: Pattern, s: string): (r: Option<nat>)
    ensures r.Some? ==> 0 < r.value <= |s|
  {
    match pat
    case ImageRef => RefEnd(s)
    case Marker(t) => if |t| > 0 && StartsWith(s, t) then Some(|t|) else None
  }

  /** The end of a match of `\s*` followed by `pat`, beginning at the start of `s`. */
  function WsMatchEnd(pat: Pattern, s: string): (r: Option<nat>)
    ensures r.Some? ==> 0 < r.value <= |s|
  {
    var w := LeadingWhitespace(s);
    match PatternEnd(pat, s[w..])
    case Some(e) => Some(w + e)
    case None => None
  }

  /**
    `s.replace(/\s*<pat>/g, '')`: scanning left to right, each match is removed
    together with the run of whitespace in front of it; the result is not
    scanned again.
   */
  function StripAll(s: string, pat: Pattern): (r: string)
    ensures |r| <= |s|
    ensures multiset(r) <= multiset(s)
    decreases |s|
  {
    if s == [] then []
    else match WsMatchEnd(pat, s)
      case Some(e) =>
        var r := StripAll(s[e..], pat);
        assert s == s[..e] + s[e..];
        r
      case None =>
        var r := [s[0]] + StripAll(s[1..], pat);
        assert s == [s[0]] + s[1..];
        r
  }

  /** A match and the whitespace before it disappear from the output. */
  lemma StripRemovesMatch(ws: string, m: string, t: string, pat: Pattern)
    requires AllWhitespace(ws)
    requires m != [] && !IsWhitespace(m[0])
    requires PatternEnd(pat, m + t) == Some(|m|)
    ensures StripAll(ws + m + t, pat) == StripAll(t, pat)
  {
    var s := ws + m + t;
    LeadingWhitespaceExact(s, |ws|);
    assert s[|ws|..] == m + t;
    assert s[|ws| + |m|..] == t;
  }

  /**
    A character, whitespace included, is kept when no whitespace run
    beginning with it leads into a match.
   */
  lemma StripKeepsChar(c: char, t: string, pat: Pattern)
    requires WsMatchEnd(pat, [c] + t).None?
    ensures StripAll([c] + t, pat) == [c] + StripAll(t, pat)
  {
    var s := [c] + t;
    assert s[1..] == t;
  }

  /**
    A single whitespace character before a word is kept when the word starts
    no match, as the space in "Ein Reh" is.
   */
  lemma StripKeepsSpaceBeforeWord(s: string, pat: Pattern)
    requires |s| >= 2 && IsWhitespace(s[0]) && !IsWhitespace(s[1])
    requires PatternEnd(pat, s[1..]).None?
    ensures StripAll(s, pat) == s[..2] + StripAll(s[2..], pat)
  {
    NoMatchBeforeWord(s, pat);
    NoMatchAtWord(s[1..], pat);
    KeepFirst(s, pat);
    KeepFirst(s[1..], pat);
    assert s[1..][1..] == s[2..];
    ConsTwo(s, StripAll(s, pat), StripAll(s[1..], pat), StripAll(s[2..], pat));
  }

  /** Two characters put in front one at a time are the first two of `s`. */
  lemma ConsTwo(s: string, r0: string, r1: string, r2: string)
    requires |s| >= 2 && r0 == [s[0]] + r1 && r1 == [s[1..][0]] + r2
    ensures r0 == s[..2] + r2
  {
  }

  /** `StripKeepsChar` on a text given as a whole. */
  lemma KeepFirst(s: string, pat: Pattern)
    requires s != [] && WsMatchEnd(pat, s).None?
    ensures StripAll(s, pat) == [s[0]] + StripAll(s[1..], pat)
  {
  }

  /** A non-whitespace character that starts no match begins no `\s*`-match either. */
  lemma NoMatchAtWord(s: string, pat: Pattern)
    requires s != [] && !IsWhitespace(s[0]) && PatternEnd(pat, s).None?
    ensures WsMatchEnd(pat, s).None?
  {
    LeadingWhitespaceExact(s, 0);
    assert s[0..] == s;
  }

  /** One whitespace character before such a word begins no `\s*`-match. */
  lemma NoMatchBeforeWord(s: string, pat: Pattern)
    requires |s| >= 2 && IsWhitespace(s[0]) && !IsWhitespace(s[1]) && PatternEnd(pat, s[1..]).None?
    ensures WsMatchEnd(pat, s).None?
  {
    assert s[..1] == [s[0]];
    LeadingWhitespaceExact(s, 1);
  }

  /** Text in which the pattern starts nowhere passes through unchanged. */
  lemma {:induction false} StripWithoutMatches(s: string, pat: Pattern)
    requires forall i :: 0 <= i <= |s| ==> PatternEnd(pat, s[i..]).None?
    ensures StripAll(s, pat) == s
  {
    if s != [] {
      var w := LeadingWhitespace(s);
      assert PatternEnd(pat, s[w..]).None?;
      forall i | 0 <= i <= |s[1..]|
        ensures PatternEnd(pat, s[1..][i..]).None?
      {
        assert s[1..][i..] == s[i + 1..];
      }
      StripWithoutMatches(s[1..], pat);
    }
  }

  /** `LeadingWhitespace` is the length of the whitespace run that `n` delimits. */
  lemma {:induction false} LeadingWhitespaceExact(s: string, n: nat)
    requires n <= |s| && AllWhitespace(s[..n])
    requires n == |s| || !IsWhitespace(s[n])
    ensures LeadingWhitespace(s) == n
  {
    if n > 0 {
      assert s[..n][0] == s[0];
      assert s[1..][..n - 1] == s[..n][1..];
      LeadingWhitespaceExact(s[1..], n - 1);
    }
  }

  /** `RefRunLength` is the length of the run that `n` delimits. */
  lemma {:induction false} RefRunLengthExact(s: string, n: nat)
    requires n <= |s|
    requires forall i :: 0 <= i < n ==> IsRefChar(s[i])
    requires n == |s| || !IsRefChar(s[n])
    ensures RefRunLength(s) == n
  {
    if n > 0 {
      RefRunLengthExact(s[1..], n - 1);
    }
  }

  /** The section markdown with its image references removed. */
  function StripRefs(sectionMd: string): string
  {
    StripAll(sectionMd, ImageRef)
  }

  /** The reference `(Bild 1, 2)` is matched through its closing parenthesis. */
  lemma RefEndExample()
    ensures RefEnd("(Bild 1, 2).") == Some(11)
  {
    var s := "(Bild 1, 2).";
    assert StartsWith(s, RefOpen);
    assert s[|RefOpen|..] == " 1, 2).";
    RefRunLengthExact(" 1, 2).", 5);
  }

  // ------------------------------------------------------------ sections

  /** One displayed section of the report. */
  datatype ParsedSection = ParsedSection(id: string, htmlContent: string, images: seq<UploadedImage>)

  function SectionId(index: nat): string
  {
    "section-" + NatToDecimal(index)
  }

  /**
    parseReportToSections. The markdown renderer is a parameter: it is a chain
    of presentational regular-expression replacements outside this model.
   */
  function ParseReportToSections(markdown: string, allImages: seq<UploadedImage>, render: string -> string)
    : (sections: seq<ParsedSection>)
    ensures markdown == [] ==> sections == []
    ensures |sections| == |SectionSources(markdown)|
    ensures forall k :: 0 <= k < |sections| ==>
              && sections[k].id == SectionId(k)
              && sections[k].htmlContent == render(StripRefs(SectionSources(markdown)[k]))
              && sections[k].images == SectionImages(SectionSources(markdown)[k], allImages)
  {
    var sources := SectionSources(markdown);
    seq(|sources|, k requires 0 <= k < |sources| =>
      ParsedSection(SectionId(k), render(StripRefs(sources[k])), SectionImages(sources[k], allImages)))
  }

  /** Section ids are pairwise different: different positions give different ids. */
  lemma SectionIdsDistinct(i: nat, j: nat)
    requires i != j
    ensures SectionId(i) != SectionId(j)
  {
    if SectionId(i) == SectionId(j) {
      assert SectionId(i)[8..] == NatToDecimal(i);
      assert SectionId(j)[8..] == NatToDecimal(j);
      DecimalInjective(i, j);
    }
  }

  // ======================================================= chat cleaning

  /** Sentences with which a well-formed answer about the species usually begins. */
  const AnswerStarters: seq<string> := [
    "Das ist eine wichtige Präzisierung.", "Exotische Arten", "Heimische Arten:",
    "Für die heimischen Arten gibt es", "Zusammenfassend lässt sich sagen"
  ]

  /** The fixed reply when search-tool output leaked into an answer. */
  const ToolApology: string :=
    "Ich habe eine Websuche " + "durchgeführt, konnte " + "die Antwort aber nicht "
    + "richtig formatieren. " + "Bitte versuchen Sie, " + "die Frage anders zu formulieren."

  /** Some answer starter begins at index `i` of `text`. */
  ghost predicate StarterAt(text: string, i: nat)
  {
    exists k :: 0 <= k < |AnswerStarters| && OccursAt(text, AnswerStarters[k], i)
  }

  /**
    `best` is the earliest occurrence of the first `k` starters, or `None`
    when none of them occurs.
   */
  ghost predicate EarliestAmong(text: string, k: nat, best: Option<nat>)
    requires k <= |AnswerStarters|
  {
    && (best.None? ==> forall m, j: nat :: 0 <= m < k ==> !OccursAt(text, AnswerStarters[m], j))
    && (best.Some? ==>
          && (exists m :: 0 <= m < k && OccursAt(text, AnswerStarters[m], best.value))
          && forall m, j: nat :: 0 <= m < k && j < best.value ==> !OccursAt(text, AnswerStarters[m], j))
  }

  /** The source's loop over the starters, keeping the smallest index found. */
  function EarliestStarterFrom(text: string, k: nat, best: Option<nat>): (r: Option<nat>)
    requires k <= |AnswerStarters|
    requires EarliestAmong(text, k, best)
    ensures EarliestAmong(text, |AnswerStarters|, r)
    decreases |AnswerStarters| - k
  {
    if k == |AnswerStarters| then best
    else match IndexOf(text, AnswerStarters[k])
      case Some(i) =>
        if best.None? || i < best.value then EarliestStarterFrom(text, k + 1, Some(i))
        else EarliestStarterFrom(text, k + 1, best)
      case None => EarliestStarterFrom(text, k + 1, best)
  }

  /** The earliest index at which any starter occurs. */
  function EarliestStarter(text: string): (r: Option<nat>)
    ensures r.None? <==> forall j: nat :: !StarterAt(text, j)
    ensures r.Some? ==> StarterAt(text, r.value) && forall j: nat :: j < r.value ==> !StarterAt(text, j)
  {
    var r := EarliestStarterFrom(text, 0, None);
    EarliestIsFirstStarter(text, r);
    r
  }

  /** The earliest occurrence among all starters is the first index holding a starter. */
  lemma EarliestIsFirstStarter(text: string, r: Option<nat>)
    requires EarliestAmong(text, |AnswerStarters|, r)
    ensures r.None? ==> forall j: nat :: !StarterAt(text, j)
    ensures r.Some? ==> StarterAt(text, r.value) && forall j: nat :: j < r.value ==> !StarterAt(text, j)
  {
  }

  /**
    cleanToolResponse: cut the answer at the earliest starter; failing that,
    replace text that shows tool output or thoughts by a fixed apology.
   */
  function CleanToolResponse(text: Option<string>): (r: string)
    ensures text.None? || text == Some([]) ==> r == []
    ensures text.Some? && EarliestStarter(text.value).Some? ==>
              && |r| <= |text.value|
              && r == text.value[|text.value| - |r|..]
              && StarterAt(r, 0)
              && forall j: nat :: j < |text.value| - |r| ==> !StarterAt(text.value, j)
    ensures (text.Some? && EarliestStarter(text.value).None?
             && (Contains(text.value, "tool_code") || Contains(text.value, "thought")))
            ==> r == ToolApology
    ensures (text.Some? && EarliestStarter(text.value).None?
             && !Contains(text.value, "tool_code") && !Contains(text.value, "thought"))
            ==> r == text.value
  {
    if text.None? || text.value == [] then []
    else
      var t := text.value;
      match EarliestStarter(t)
      case Some(i) =>
        var r := t[i..];
        StarterShifts(t, i);
        r
      case None =>
        if Contains(t, "tool_code") || Contains(t, "thought") then ToolApology else t
  }

  /** A starter at index `i` of `t` is a starter at the front of `t[i..]`. */
  lemma StarterShifts(t: string, i: nat)
    requires i <= |t| && StarterAt(t, i)
    ensures StarterAt(t[i..], 0)
  {
    var k :| 0 <= k < |AnswerStarters| && OccursAt(t, AnswerStarters[k], i);
    assert t[i..][0..|AnswerStarters[k]|] == t[i..i + |AnswerStarters[k]|];
    assert OccursAt(t[i..], AnswerStarters[k], 0);
  }

  /** The apology contains no starter and neither tool marker. */
  lemma ApologyIsClean()
    ensures EarliestStarter(ToolApology).None?
    ensures !Contains(ToolApology, "tool_code") && !Contains(ToolApology, "thought")
  {
    ApologyHasNoEarliest();
    ApologyHasNoToolMarker();
  }

  /** The earliest-starter search finds nothing in the apology. */
  lemma ApologyHasNoEarliest()
    ensures EarliestStarter(ToolApology).None?
  {
    ApologyHasNoStarter();
    EarliestIsFirstStarter(ToolApology, EarliestStarterFrom(ToolApology, 0, None));
  }

  /** Neither tool marker occurs in the apology. */
  lemma ApologyHasNoToolMarker()
    ensures !Contains(ToolApology, "tool_code") && !Contains(ToolApology, "thought")
  {
    ApologyHasNoToolCode();
    ApologyHasNoThought();
  }

  lemma ApologyHasNoToolCode()
    ensures !Contains(ToolApology, "tool_code")
  {
    ApologyHasNoMarker("tool_code", 't', 'o');
  }

  lemma ApologyHasNoThought()
    ensures !Contains(ToolApology, "thought")
  {
    ApologyHasNoMarker("thought", 't', 'h');
  }

  /** No answer starter occurs anywhere in the apology. */
  lemma ApologyHasNoStarter()
    ensures forall j: nat :: !StarterAt(ToolApology, j)
  {
    forall j: nat, k | 0 <= k < |AnswerStarters|
      ensures !OccursAt(ToolApology, AnswerStarters[k], j)
    {
      ApologyLacksStarter(k);
    }
  }

  /**
    The apology has none of the starters' first letters except the `F` of
    "Frage", which is not followed by `ü`.
   */
  lemma ApologyLacksStarter(k: nat)
    requires k < |AnswerStarters|
    ensures !Contains(ToolApology, AnswerStarters[k])
  {
    if k == 3 {
      ApologyLacksFuer();
    } else {
      ApologyLacksFirstChar(k);
    }
  }

  /** "Für …" cannot occur: the apology's only `F` is not followed by `ü`. */
  lemma ApologyLacksFuer()
    ensures !Contains(ToolApology, AnswerStarters[3])
  {
    var p := AnswerStarters[3];
    assert p[0] == 'F' && p[1] == 'ü';
    ApologyHasNoMarker(p, 'F', 'ü');
  }

  /** The other starters begin with a letter the apology lacks. */
  lemma ApologyLacksFirstChar(k: nat)
    requires k < |AnswerStarters| && k != 3
    ensures !Contains(ToolApology, AnswerStarters[k])
  {
    if k == 0 {
      ApologyLacksDas();
    } else if k == 1 {
      ApologyLacksExotische();
    } else if k == 2 {
      ApologyLacksHeimische();
    } else {
      ApologyLacksZusammenfassend();
    }
  }

  lemma ApologyLacksDas()
    ensures !Contains(ToolApology, AnswerStarters[0])
  {
    ApologyLacksCapital('D');
    ApologyLacksInitial(AnswerStarters[0], 'D');
  }

  lemma ApologyLacksExotische()
    ensures !Contains(ToolApology, AnswerStarters[1])
  {
    ApologyLacksCapital('E');
    ApologyLacksInitial(AnswerStarters[1], 'E');
  }

  lemma ApologyLacksHeimische()
    ensures !Contains(ToolApology, AnswerStarters[2])
  {
    ApologyLacksCapital('H');
    ApologyLacksInitial(AnswerStarters[2], 'H');
  }

  lemma ApologyLacksZusammenfassend()
    ensures !Contains(ToolApology, AnswerStarters[4])
  {
    ApologyLacksCapital('Z');
    ApologyLacksInitial(AnswerStarters[4], 'Z');
  }

  /** A text starting with a letter the apology lacks does not occur in it. */
  lemma ApologyLacksInitial(p: string, c: char)
    requires |p| >= 1 && p[0] == c && c !in ToolApology
    ensures !Contains(ToolApology, p)
  {
    AbsentFirstChar(ToolApology, p);
  }

  /** The apology's only capital letters are I, W, A, B, S and F. */
  lemma ApologyLacksCapital(c: char)
    requires 'A' <= c <= 'Z' && c !in "IWABSF"
    ensures c !in ToolApology
  {
    ApologyFrontLacksCapital(c);
    ApologyBackLacksCapital(c);
  }

  lemma ApologyFrontLacksCapital(c: char)
    requires 'A' <= c <= 'Z' && c !in "IWABSF"
    ensures c !in "Ich habe eine Websuche " && c !in "durchgeführt, konnte " && c !in "die Antwort aber nicht "
  {
  }

  lemma ApologyBackLacksCapital(c: char)
    requires 'A' <= c <= 'Z' && c !in "IWABSF"
    ensures c !in "richtig formatieren. " && c !in "Bitte versuchen Sie, " && c !in "die Frage anders zu formulieren."
  {
  }

  /** A text whose first two characters never meet in the apology does not occur in it. */
  lemma ApologyHasNoMarker(p: string, x: char, y: char)
    requires |p| >= 2 && p[0] == x && p[1] == y
    requires x != ' '
    requires !HasPair("Ich habe eine Websuche ", x, y)
    requires !HasPair("durchgeführt, konnte ", x, y)
    requires !HasPair("die Antwort aber nicht ", x, y)
    requires !HasPair("richtig formatieren. ", x, y)
    requires !HasPair("Bitte versuchen Sie, ", x, y)
    requires !HasPair("die Frage anders zu formulieren.", x, y)
    ensures !Contains(ToolApology, p)
  {
    ApologyHasNoPair(x, y);
    AbsentFirstPair(ToolApology, p);
  }

  /** The apology, piece by piece, never has `x` directly followed by `y`. */
  lemma ApologyHasNoPair(x: char, y: char)
    requires x != ' '
    requires !HasPair("Ich habe eine Websuche ", x, y)
    requires !HasPair("durchgeführt, konnte ", x, y)
    requires !HasPair("die Antwort aber nicht ", x, y)
    requires !HasPair("richtig formatieren. ", x, y)
    requires !HasPair("Bitte versuchen Sie, ", x, y)
    requires !HasPair("die Frage anders zu formulieren.", x, y)
    ensures !HasPair(ToolApology, x, y)
  {
    var s := "die Frage anders zu formulieren.";
    ConsPairFree("Bitte versuchen Sie, ", s, x, y);
    s := "Bitte versuchen Sie, " + s;
    ConsPairFree("richtig formatieren. ", s, x, y);
    s := "richtig formatieren. " + s;
    ConsPairFree("die Antwort aber nicht ", s, x, y);
    s := "die Antwort aber nicht " + s;
    ConsPairFree("durchgeführt, konnte ", s, x, y);
    s := "durchgeführt, konnte " + s;
    ConsPairFree("Ich habe eine Websuche ", s, x, y);
    s := "Ich habe eine Websuche " + s;
    assert s == ToolApology;
  }

  /** Cleaning an already cleaned answer changes nothing. */
  lemma CleanToolResponseIdempotent(text: Option<string>)
    ensures CleanToolResponse(Some(CleanToolResponse(text))) == CleanToolResponse(text)
  {
    var r := CleanToolResponse(text);
    if text.Some? && text.value != [] {
      var t := text.value;
      match EarliestStarter(t)
      case Some(i) =>
        assert StarterAt(r, 0);
        assert EarliestStarter(r) == Some(0);
        assert r[0..] == r;
      case None =>
        if Contains(t, "tool_code") || Contains(t, "thought") {
          ApologyIsClean();
        }
    }
  }
}
