/** The combinatorial expander (`expand_pattern`): every concrete string a
    template can produce, in order, each with the decision path that led to
    it.  A path is kept as a sequence of tokens; the token `{k/n}` (choose
    alternative `k` of `n`) is `Pick(k, n)`. */
module PatternExpander {
  import opened PatternParser

  /** Path token `{index/count}`; `index` counts from 1. */
  datatype Pick = Pick(index: nat, count: nat)

  type Path = seq<Pick>

  /** One `(result, decision_path)` pair. */
  datatype Combination = Combination(text: string, path: Path)

  /** The path given to alternative `j` (0-based) of `n`. */
  function Extend(path: Path, j: nat, n: nat): Path
  {
    path + [Pick(j + 1, n)]
  }

  /** `expand_pattern` on a string. */
  function Expand(s: string, path: Path): (r: seq<Combination>)
    ensures |r| > 0
    ensures forall c :: c in r ==> path <= c.path
    decreases |s|, 3, 0
  {
    if '{' !in s then [Combination(s, path)]
    else ExpandScan(s, path, 0, [Combination("", path)])
  }

  /** The scanning loop of `expand_pattern` from position `i`, with the
      results built so far. */
  function ExpandScan(s: string, path: Path, i: nat, results: seq<Combination>): (r: seq<Combination>)
    requires i <= |s|
    requires |results| > 0 && forall c :: c in results ==> path <= c.path
    ensures |r| > 0
    ensures forall c :: c in r ==> path <= c.path
    decreases |s|, 2, |s| - i
  {
    if i == |s| then results
    else if s[i] == '{' && Parse(s, i).node.Choice? then
      var parsed := Parse(s, i);
      ChoiceRoundTrip(s, i);
      var alts := Alternatives(parsed.node.options, path);
      ResolveKeeps(results, alts, path);
      ExpandScan(s, path, parsed.next, Resolve(results, alts))
    else
      ExpandScan(s, path, i + 1, AppendChar(results, s[i]))
  }

  /** The expansion of each alternative of a group, alternative `j` tagged
      with the token `{j+1/n}`. */
  function Alternatives(options: seq<string>, path: Path): (alts: seq<seq<Combination>>)
    ensures |alts| == |options|
    ensures forall j :: 0 <= j < |alts| ==> |alts[j]| > 0
    ensures forall j, c :: 0 <= j < |alts| && c in alts[j] ==> Extend(path, j, |options|) <= c.path
    decreases |Serialize(options)|, 1, 0
  {
    JoinBounds(options);
    seq(|options|, j requires 0 <= j < |options| => Expand(options[j], Extend(path, j, |options|)))
  }

  /** A plain character appended to the text of every result
      (`nodes/dynamic_text.py`, lines 137-142): count, order and paths stay
      as they were. */
  function AppendChar(results: seq<Combination>, ch: char): (r: seq<Combination>)
    ensures |r| == |results|
    ensures forall k :: 0 <= k < |r| ==> r[k] == Combination(results[k].text + [ch], results[k].path)
  {
    seq(|results|, k requires 0 <= k < |results| => Combination(results[k].text + [ch], results[k].path))
  }

  /** One result extended by every expansion of one alternative; the path
      is the alternative's own. */
  function Row(prior: Combination, expanded: seq<Combination>): seq<Combination>
    decreases |expanded|
  {
    if expanded == [] then []
    else
      var last := expanded[|expanded| - 1];
      Row(prior, expanded[..|expanded| - 1]) + [Combination(prior.text + last.text, last.path)]
  }

  /** All results extended by one alternative's expansions, result by
      result: one row per result. */
  function Cross(results: seq<Combination>, expanded: seq<Combination>): seq<Combination>
    decreases |results|
  {
    if results == [] then []
    else Cross(results[..|results| - 1], expanded) + Row(results[|results| - 1], expanded)
  }

  /** Resolving a group: alternative by alternative, the cross product of
      the results so far with that alternative's expansions. */
  function Resolve(results: seq<Combination>, alts: seq<seq<Combination>>): seq<Combination>
    decreases |alts|
  {
    if alts == [] then []
    else Resolve(results, alts[..|alts| - 1]) + Cross(results, alts[|alts| - 1])
  }

  /** The lists one after another. */
  function Flatten(xss: seq<seq<Combination>>): (r: seq<Combination>)
    ensures |r| == SumLengths(xss)
    decreases |xss|
  {
    if xss == [] then [] else Flatten(xss[..|xss| - 1]) + xss[|xss| - 1]
  }

  function SumLengths(xss: seq<seq<Combination>>): nat
    decreases |xss|
  {
    if xss == [] then 0 else SumLengths(xss[..|xss| - 1]) + |xss[|xss| - 1]|
  }

  /** `expand_pattern` on a list of alternatives: their expansions, one
      after the other. */
  function ExpandChoice(options: seq<string>, path: Path): (r: seq<Combination>)
    ensures |r| == SumLengths(Alternatives(options, path))
    ensures |options| > 0 ==> |r| > 0
  {
    var alts := Alternatives(options, path);
    if |options| > 0 then
      SumLengthsPositive(alts);
      Flatten(alts)
    else Flatten(alts)
  }

  // ---------------------------------------------------------------------
  // Shape of the building blocks.

  /** The innermost loop: the prior text followed by each expansion's
      text, in order, with the expansion's path; the prior path is dropped. */
  lemma {:induction false} RowShape(prior: Combination, expanded: seq<Combination>)
    ensures |Row(prior, expanded)| == |expanded|
    ensures forall e :: 0 <= e < |expanded| ==>
      Row(prior, expanded)[e] == Combination(prior.text + expanded[e].text, expanded[e].path)
    decreases |expanded|
  {
    if expanded != [] {
      RowShape(prior, expanded[..|expanded| - 1]);
    }
  }

  lemma Distribute(m: nat, a: nat, b: nat)
    ensures m * a + m * b == m * (a + b)
  {
  }

  lemma StepProduct(k: nat, m: nat)
    ensures k * m + m == (k + 1) * m
  {
  }

  lemma {:induction false} CrossLength(results: seq<Combination>, expanded: seq<Combination>)
    ensures |Cross(results, expanded)| == |results| * |expanded|
    decreases |results|
  {
    if results != [] {
      var n, m := |results|, |expanded|;
      assert Cross(results, expanded) == Cross(results[..n - 1], expanded) + Row(results[n - 1], expanded);
      RowShape(results[n - 1], expanded);
      CrossLength(results[..n - 1], expanded);
      StepProduct(n - 1, m);
    }
  }

  /** Position of expansion `e` in the block of row `r`, rows `width` long. */
  function Slot(width: nat, r: nat, e: nat): nat
  {
    r * width + e
  }

  lemma {:induction false} CrossAt(results: seq<Combination>, expanded: seq<Combination>, r: nat, e: nat)
    requires r < |results| && e < |expanded|
    ensures Slot(|expanded|, r, e) < |Cross(results, expanded)|
    ensures Cross(results, expanded)[Slot(|expanded|, r, e)] ==
      Combination(results[r].text + expanded[e].text, expanded[e].path)
    decreases |results|
  {
    var n, m := |results|, |expanded|;
    var init := results[..n - 1];
    var front, back := Cross(init, expanded), Row(results[n - 1], expanded);
    assert Cross(results, expanded) == front + back;
    RowShape(results[n - 1], expanded);
    if r < n - 1 {
      assert init[r] == results[r];
      CrossAt(init, expanded, r, e);
    } else {
      CrossLength(init, expanded);
      assert Slot(m, r, e) == |front| + e;
    }
  }

  /** Crossing the results with one alternative's expansions: result-major,
      each result's text followed by the expansion's text, with the
      expansion's path. */
  lemma CrossShape(results: seq<Combination>, expanded: seq<Combination>)
    ensures |Cross(results, expanded)| == |results| * |expanded|
    ensures forall r, e :: 0 <= r < |results| && 0 <= e < |expanded| ==>
      Slot(|expanded|, r, e) < |Cross(results, expanded)| &&
      Cross(results, expanded)[Slot(|expanded|, r, e)] ==
        Combination(results[r].text + expanded[e].text, expanded[e].path)
  {
    CrossLength(results, expanded);
    forall r, e | 0 <= r < |results| && 0 <= e < |expanded|
      ensures Slot(|expanded|, r, e) < |Cross(results, expanded)| &&
        Cross(results, expanded)[Slot(|expanded|, r, e)] ==
          Combination(results[r].text + expanded[e].text, expanded[e].path)
    {
      CrossAt(results, expanded, r, e);
    }
  }

  lemma SumLengthsPositive(xss: seq<seq<Combination>>)
    requires |xss| > 0 && forall j :: 0 <= j < |xss| ==> |xss[j]| > 0
    ensures SumLengths(xss) > 0
  {
  }

  /** Position of element `e` of list `j` once the lists are flattened. */
  function FlatIndex(xss: seq<seq<Combination>>, j: nat, e: nat): nat
    requires j <= |xss|
  {
    SumLengths(xss[..j]) + e
  }

  lemma {:induction false} FlattenAt(xss: seq<seq<Combination>>, j: nat, e: nat)
    requires j < |xss| && e < |xss[j]|
    ensures FlatIndex(xss, j, e) < |Flatten(xss)|
    ensures Flatten(xss)[FlatIndex(xss, j, e)] == xss[j][e]
    decreases |xss|
  {
    var n := |xss|;
    var init := xss[..n - 1];
    assert Flatten(xss) == Flatten(init) + xss[n - 1];
    if j < n - 1 {
      assert init[..j] == xss[..j];
      assert init[j] == xss[j];
      FlattenAt(init, j, e);
    } else {
      assert xss[..j] == init;
    }
  }

  /** The flattened list is the lists one after another: element `e` of
      list `j` sits after all elements of the lists before it. */
  lemma FlattenShape(xss: seq<seq<Combination>>)
    ensures |Flatten(xss)| == SumLengths(xss)
    ensures forall j, e :: 0 <= j < |xss| && 0 <= e < |xss[j]| ==>
      FlatIndex(xss, j, e) < |Flatten(xss)| && Flatten(xss)[FlatIndex(xss, j, e)] == xss[j][e]
  {
    forall j, e | 0 <= j < |xss| && 0 <= e < |xss[j]|
      ensures FlatIndex(xss, j, e) < |Flatten(xss)| && Flatten(xss)[FlatIndex(xss, j, e)] == xss[j][e]
    {
      FlattenAt(xss, j, e);
    }
  }

  lemma {:induction false} ResolveLength(results: seq<Combination>, alts: seq<seq<Combination>>)
    ensures |Resolve(results, alts)| == |results| * SumLengths(alts)
    decreases |alts|
  {
    if alts != [] {
      var n, m := |alts|, |results|;
      var a, b := SumLengths(alts[..n - 1]), |alts[n - 1]|;
      assert SumLengths(alts) == a + b;
      var front, back := Resolve(results, alts[..n - 1]), Cross(results, alts[n - 1]);
      assert Resolve(results, alts) == front + back;
      ResolveLength(results, alts[..n - 1]);
      CrossLength(results, alts[n - 1]);
      Distribute(m, a, b);
    }
  }

  /** Where expansion `e` of alternative `j`, combined with result `r`,
      lands when a group is resolved against `m` results. */
  function ResolvedIndex(m: nat, alts: seq<seq<Combination>>, j: nat, r: nat, e: nat): nat
    requires j < |alts|
  {
    m * SumLengths(alts[..j]) + Slot(|alts[j]|, r, e)
  }

  lemma {:induction false} ResolveAt(results: seq<Combination>, alts: seq<seq<Combination>>, j: nat, r: nat, e: nat)
    requires j < |alts| && r < |results| && e < |alts[j]|
    ensures ResolvedIndex(|results|, alts, j, r, e) < |Resolve(results, alts)|
    ensures Resolve(results, alts)[ResolvedIndex(|results|, alts, j, r, e)] ==
      Combination(results[r].text + alts[j][e].text, alts[j][e].path)
    decreases |alts|
  {
    var n, m := |alts|, |results|;
    var init := alts[..n - 1];
    var front, back := Resolve(results, init), Cross(results, alts[n - 1]);
    assert Resolve(results, alts) == front + back;
    if j < n - 1 {
      assert init[..j] == alts[..j];
      assert init[j] == alts[j];
      ResolveAt(results, init, j, r, e);
      assert ResolvedIndex(m, alts, j, r, e) == ResolvedIndex(m, init, j, r, e);
    } else {
      assert alts[..j] == init;
      ResolveLength(results, init);
      CrossAt(results, alts[j], r, e);
      assert ResolvedIndex(m, alts, j, r, e) == |front| + Slot(|alts[j]|, r, e);
    }
  }

  /** Resolving a group: `len(results) * sum(len(option_expanded))` results,
      option-major (all earlier results with alternative 1, then all with
      alternative 2, ...), each the prior text followed by the
      alternative's text, with the alternative's path alone. */
  lemma ResolveShape(results: seq<Combination>, alts: seq<seq<Combination>>)
    ensures |Resolve(results, alts)| == |results| * SumLengths(alts)
    ensures forall j, r, e :: 0 <= j < |alts| && 0 <= r < |results| && 0 <= e < |alts[j]| ==>
      ResolvedIndex(|results|, alts, j, r, e) < |Resolve(results, alts)| &&
      Resolve(results, alts)[ResolvedIndex(|results|, alts, j, r, e)] ==
        Combination(results[r].text + alts[j][e].text, alts[j][e].path)
  {
    ResolveLength(results, alts);
    forall j, r, e | 0 <= j < |alts| && 0 <= r < |results| && 0 <= e < |alts[j]|
      ensures ResolvedIndex(|results|, alts, j, r, e) < |Resolve(results, alts)| &&
        Resolve(results, alts)[ResolvedIndex(|results|, alts, j, r, e)] ==
          Combination(results[r].text + alts[j][e].text, alts[j][e].path)
    {
      ResolveAt(results, alts, j, r, e);
    }
  }

  lemma {:induction false} RowPaths(prior: Combination, expanded: seq<Combination>, path: Path)
    requires forall c :: c in expanded ==> path <= c.path
    ensures forall c :: c in Row(prior, expanded) ==> path <= c.path
    decreases |expanded|
  {
    if expanded != [] {
      var init := expanded[..|expanded| - 1];
      forall c | c in init ensures path <= c.path {
        assert c in expanded;
      }
      RowPaths(prior, init, path);
    }
  }

  lemma {:induction false} CrossPaths(results: seq<Combination>, expanded: seq<Combination>, path: Path)
    requires forall c :: c in expanded ==> path <= c.path
    ensures forall c :: c in Cross(results, expanded) ==> path <= c.path
    decreases |results|
  {
    if results != [] {
      CrossPaths(results[..|results| - 1], expanded, path);
      RowPaths(results[|results| - 1], expanded, path);
    }
  }

  lemma {:induction false} ResolvePaths(results: seq<Combination>, alts: seq<seq<Combination>>, path: Path)
    requires forall j, c :: 0 <= j < |alts| && c in alts[j] ==> path <= c.path
    ensures forall c :: c in Resolve(results, alts) ==> path <= c.path
    decreases |alts|
  {
    if alts != [] {
      var n := |alts|;
      var init := alts[..n - 1];
      forall j: nat, c: Combination | j < |init| && c in init[j] ensures path <= c.path {
        assert init[j] == alts[j];
      }
      ResolvePaths(results, init, path);
      CrossPaths(results, alts[n - 1], path);
    }
  }

  /** What `ExpandScan` needs after resolving a group: results stay
      non-empty and every path still extends the caller's path. */
  lemma ResolveKeeps(results: seq<Combination>, alts: seq<seq<Combination>>, path: Path)
    requires |results| > 0 && |alts| > 0
    requires forall j :: 0 <= j < |alts| ==> |alts[j]| > 0
    requires forall j, c :: 0 <= j < |alts| && c in alts[j] ==> Extend(path, j, |alts|) <= c.path
    ensures |Resolve(results, alts)| > 0
    ensures forall c :: c in Resolve(results, alts) ==> path <= c.path
  {
    ResolveLength(results, alts);
    SumLengthsPositive(alts);
    forall j: nat, c: Combination | j < |alts| && c in alts[j] ensures path <= c.path {
      assert path <= Extend(path, j, |alts|);
    }
    ResolvePaths(results, alts, path);
  }

  // ---------------------------------------------------------------------
  // Properties of `expand_pattern`.

  /** `expand_pattern` on a list of `n` alternatives: their expansions one
      after the other, so the count is the sum of their counts; every path
      in alternative `j`'s share starts with the caller's path and the
      token `{j+1/n}`; a non-empty list never expands to nothing. */
  lemma ExpandChoiceShape(options: seq<string>, path: Path)
    ensures var alts := Alternatives(options, path);
      && |ExpandChoice(options, path)| == SumLengths(alts)
      && (|options| > 0 ==> |ExpandChoice(options, path)| > 0)
      && forall j, e :: 0 <= j < |options| && 0 <= e < |alts[j]| ==>
        && FlatIndex(alts, j, e) < |ExpandChoice(options, path)|
        && ExpandChoice(options, path)[FlatIndex(alts, j, e)] == Expand(options[j], Extend(path, j, |options|))[e]
        && Extend(path, j, |options|) <= ExpandChoice(options, path)[FlatIndex(alts, j, e)].path
  {
    var alts := Alternatives(options, path);
    FlattenShape(alts);
    if |options| > 0 {
      SumLengthsPositive(alts);
    }
    forall j, e | 0 <= j < |options| && 0 <= e < |alts[j]|
      ensures Extend(path, j, |options|) <= alts[j][e].path
    {
      assert alts[j][e] in alts[j];
    }
  }

  /** No `{` of the text opens a group that closes. */
  predicate NoClosedGroup(s: string)
  {
    forall k :: 0 <= k < |s| && s[k] == '{' ==> Parse(s, k).node.Literal?
  }

  lemma {:induction false} ScanCopies(s: string, path: Path, i: nat)
    requires i <= |s| && NoClosedGroup(s)
    ensures ExpandScan(s, path, i, [Combination(s[..i], path)]) == [Combination(s, path)]
    decreases |s| - i
  {
    if i < |s| {
      assert s[..i] + [s[i]] == s[..i + 1];
      assert AppendChar([Combination(s[..i], path)], s[i]) == [Combination(s[..i + 1], path)];
      ScanCopies(s, path, i + 1);
    } else {
      assert s[..i] == s;
    }
  }

  lemma {:induction false} LongPathsStay(s: string, path: Path, i: nat, results: seq<Combination>)
    requires i <= |s|
    requires |results| > 0 && forall c :: c in results ==> path <= c.path && |c.path| > |path|
    ensures forall c :: c in ExpandScan(s, path, i, results) ==> |c.path| > |path|
    decreases |s| - i
  {
    if i < |s| {
      if s[i] == '{' && Parse(s, i).node.Choice? {
        var parsed := Parse(s, i);
        ChoiceRoundTrip(s, i);
        var alts := Alternatives(parsed.node.options, path);
        ResolveKeeps(results, alts, path);
        forall j: nat, c: Combination | j < |alts| && c in alts[j] ensures path <= c.path && |c.path| > |path| {
          assert Extend(path, j, |alts|) <= c.path;
        }
        ResolvePaths(results, alts, path);
        ResolveLongPaths(results, alts, path);
        LongPathsStay(s, path, parsed.next, Resolve(results, alts));
      } else {
        var next := AppendChar(results, s[i]);
        forall c | c in next ensures path <= c.path && |c.path| > |path| {
          var k :| 0 <= k < |next| && next[k] == c;
          assert results[k] in results;
        }
        LongPathsStay(s, path, i + 1, next);
      }
    }
  }

  lemma {:induction false} ResolveLongPaths(results: seq<Combination>, alts: seq<seq<Combination>>, path: Path)
    requires forall j, c :: 0 <= j < |alts| && c in alts[j] ==> |c.path| > |path|
    ensures forall c :: c in Resolve(results, alts) ==> |c.path| > |path|
    decreases |alts|
  {
    if alts != [] {
      var n := |alts|;
      var init := alts[..n - 1];
      forall j: nat, c: Combination | j < |init| && c in init[j] ensures |c.path| > |path| {
        assert init[j] == alts[j];
      }
      ResolveLongPaths(results, init, path);
      var x := alts[n - 1];
      CrossShape(results, x);
      forall c | c in Cross(results, x) ensures |c.path| > |path| {
        CrossMember(results, x, c);
      }
    }
  }

  lemma {:induction false} CrossMember(results: seq<Combination>, expanded: seq<Combination>, c: Combination)
    requires c in Cross(results, expanded)
    ensures exists e :: 0 <= e < |expanded| && c.path == expanded[e].path
    decreases |results|
  {
    var n := |results|;
    if c in Cross(results[..n - 1], expanded) {
      CrossMember(results[..n - 1], expanded, c);
    } else {
      RowShape(results[n - 1], expanded);
      var k :| 0 <= k < |Row(results[n - 1], expanded)| && Row(results[n - 1], expanded)[k] == c;
      assert c.path == expanded[k].path;
    }
  }

  lemma {:induction false} ScanResolvesSome(s: string, path: Path, i: nat, results: seq<Combination>, k: nat)
    requires i <= k < |s| && s[k] == '{' && Parse(s, k).node.Choice?
    requires |results| > 0 && forall c :: c in results ==> path <= c.path
    ensures forall c :: c in ExpandScan(s, path, i, results) ==> |c.path| > |path|
    decreases |s| - i
  {
    if s[i] == '{' && Parse(s, i).node.Choice? {
      var parsed := Parse(s, i);
      ChoiceRoundTrip(s, i);
      var alts := Alternatives(parsed.node.options, path);
      ResolveKeeps(results, alts, path);
      forall j: nat, c: Combination | j < |alts| && c in alts[j] ensures |c.path| > |path| {
        assert Extend(path, j, |alts|) <= c.path;
      }
      ResolveLongPaths(results, alts, path);
      LongPathsStay(s, path, parsed.next, Resolve(results, alts));
    } else {
      var next := AppendChar(results, s[i]);
      forall c | c in next ensures path <= c.path {
        var t :| 0 <= t < |next| && next[t] == c;
        assert results[t] in results;
      }
      ScanResolvesSome(s, path, i + 1, next, k);
    }
  }

  /** A template expands to itself alone, with the caller's path, exactly
      when none of its braces opens a group that closes: unclosed braces are
      copied through literally (`{open` gives `{open`), and any group that
      does close is resolved and lengthens every path. */
  lemma ExpandIdentityExactlyWhenNoGroup(s: string, path: Path)
    ensures Expand(s, path) == [Combination(s, path)] <==> NoClosedGroup(s)
    ensures !NoClosedGroup(s) ==> forall c :: c in Expand(s, path) ==> |c.path| > |path|
  {
    if NoClosedGroup(s) {
      if '{' in s {
        assert s[..0] == "";
        ScanCopies(s, path, 0);
      }
    } else {
      var k :| 0 <= k < |s| && s[k] == '{' && Parse(s, k).node.Choice?;
      assert '{' in s;
      ScanResolvesSome(s, path, 0, [Combination("", path)], k);
      assert Expand(s, path)[0] in Expand(s, path);
    }
  }

  /** `{open` has no closing brace: it comes back verbatim with an empty path. */
  lemma UnclosedBraceIsLiteral()
    ensures Expand("{open", []) == [Combination("{open", [])]
  {
    var s := "{open";
    forall k | 0 <= k < |s| && s[k] == '{' ensures Parse(s, k).node.Literal? {
      assert k == 0;
      forall m | 0 < m <= |s| ensures Depth(s, 0, m) > 0 {
        OpenDepth(s, m);
      }
      LiteralExactlyWhenUnclosed(s, 0);
    }
    ExpandIdentityExactlyWhenNoGroup(s, []);
  }

  lemma {:induction false} OpenDepth(s: string, m: nat)
    requires s == "{open" && 0 < m <= |s|
    ensures Depth(s, 0, m) == 1
  {
    if m > 1 {
      OpenDepth(s, m - 1);
    }
  }

  lemma {:induction false} SumLengthsOnes(xss: seq<seq<Combination>>)
    requires forall j :: 0 <= j < |xss| ==> |xss[j]| == 1
    ensures SumLengths(xss) == |xss|
    decreases |xss|
  {
    if xss != [] {
      SumLengthsOnes(xss[..|xss| - 1]);
    }
  }

  /** A single group of plain alternatives (no braces, no pipes inside)
      expands to one combination per alternative, in declared order,
      alternative `j` with the path token `{j+1/n}`; empty alternatives
      included (`{|a}` gives `""` and `"a"`). */
  lemma FlatGroupExpansion(options: seq<string>, path: Path)
    requires |options| > 0
    requires forall j :: 0 <= j < |options| ==> PlainText(options[j])
    ensures var r := Expand(Serialize(options), path);
      && |r| == |options|
      && forall j :: 0 <= j < |options| ==> r[j] == Combination(options[j], Extend(path, j, |options|))
  {
    var n := |options|;
    var alts := Alternatives(options, path);
    FlatAlternatives(options, path);
    var start := [Combination("", path)];
    FlatExpandResolves(options, path);
    var r := Resolve(start, alts);
    ResolveLength(start, alts);
    SumLengthsOnes(alts);
    assert |r| == n;
    forall j | 0 <= j < n ensures r[j] == Combination(options[j], Extend(path, j, n)) {
      SingletonAt(start, alts, j);
      assert "" + options[j] == options[j];
    }
  }

  /** Against a single result and alternatives of one combination each,
      block `j` is just position `j`. */
  lemma SingletonAt(start: seq<Combination>, alts: seq<seq<Combination>>, j: nat)
    requires |start| == 1 && j < |alts|
    requires forall t :: 0 <= t < |alts| ==> |alts[t]| == 1
    ensures j < |Resolve(start, alts)|
    ensures Resolve(start, alts)[j] == Combination(start[0].text + alts[j][0].text, alts[j][0].path)
  {
    ResolveAt(start, alts, j, 0, 0);
    SumLengthsOnes(alts[..j]);
    assert Slot(|alts[j]|, 0, 0) == 0;
    assert ResolvedIndex(1, alts, j, 0, 0) == j;
  }

  /** Each plain alternative expands to itself alone. */
  lemma FlatAlternatives(options: seq<string>, path: Path)
    requires forall j :: 0 <= j < |options| ==> PlainText(options[j])
    ensures forall j :: 0 <= j < |options| ==>
      Alternatives(options, path)[j] == [Combination(options[j], Extend(path, j, |options|))]
  {
    var alts := Alternatives(options, path);
    forall j | 0 <= j < |options| ensures alts[j] == [Combination(options[j], Extend(path, j, |options|))] {
      assert '{' !in options[j] by {
        assert forall t :: 0 <= t < |options[j]| ==> Plain(options[j][t]);
      }
      assert alts[j] == Expand(options[j], Extend(path, j, |options|));
    }
  }

  /** A serialised flat group is resolved once, against the empty result. */
  lemma FlatExpandResolves(options: seq<string>, path: Path)
    requires |options| > 0
    requires forall j :: 0 <= j < |options| ==> PlainText(options[j])
    ensures Expand(Serialize(options), path) == Resolve([Combination("", path)], Alternatives(options, path))
  {
    var s := Serialize(options);
    var alts := Alternatives(options, path);
    var start := [Combination("", path)];
    FlatGroupRoundTrip(options);
    assert s[0] == '{';
    assert Expand(s, path) == ExpandScan(s, path, 0, start);
    ResolveKeeps(start, alts, path);
    assert ExpandScan(s, path, 0, start) == ExpandScan(s, path, |s|, Resolve(start, alts));
  }

  // ---------------------------------------------------------------------
  // The imperative expander, as the source writes it.

  /** `expand_pattern` on a string: a loop over the pattern that resolves
      each closed group against the results so far and otherwise appends
      the character to every result in place. */
  method ExpandPattern(pattern: string, path: Path) returns (results: seq<Combination>)
    ensures results == Expand(pattern, path)
    decreases |pattern|, 1
  {
    if '{' !in pattern {
      return [Combination(pattern, path)];
    }
    results := [Combination("", path)];
    var i := 0;
    while i < |pattern|
      invariant i <= |pattern|
      invariant |results| > 0 && forall c :: c in results ==> path <= c.path
      invariant ExpandScan(pattern, path, i, results) == Expand(pattern, path)
      decreases |pattern| - i
    {
      if pattern[i] == '{' {
        var nested, newPos := ParsePattern(pattern, i);
        if nested.Choice? {
          ChoiceRoundTrip(pattern, i);
          ResolveKeeps(results, Alternatives(nested.options, path), path);
          results := ResolveGroup(results, nested.options, path);
          i := newPos;
        } else {
          results := AppendToAll(results, pattern[i], path);
          i := i + 1;
        }
      } else {
        results := AppendToAll(results, pattern[i], path);
        i := i + 1;
      }
    }
  }

  /** Copying one character into every result, in place (`nodes/dynamic_text.py`, lines 137-142). */
  method AppendToAll(results: seq<Combination>, ch: char, ghost path: Path) returns (updated: seq<Combination>)
    requires forall c :: c in results ==> path <= c.path
    ensures updated == AppendChar(results, ch)
    ensures forall c :: c in updated ==> path <= c.path
  {
    updated := results;
    var j := 0;
    while j < |updated|
      invariant j <= |updated| == |results|
      invariant forall k :: 0 <= k < j ==> updated[k] == Combination(results[k].text + [ch], results[k].path)
      invariant forall k :: j <= k < |updated| ==> updated[k] == results[k]
    {
      updated := updated[j := Combination(updated[j].text + [ch], updated[j].path)];
      j := j + 1;
    }
    forall c | c in updated ensures path <= c.path {
      var k :| 0 <= k < |updated| && updated[k] == c;
      assert results[k] in results;
    }
  }

  /** Resolving one group while scanning (`nodes/dynamic_text.py`, lines 124-133): for each
      alternative, its expansion is crossed with every result so far. */
  method ResolveGroup(results: seq<Combination>, options: seq<string>, path: Path) returns (newResults: seq<Combination>)
    ensures newResults == Resolve(results, Alternatives(options, path))
    decreases |Serialize(options)|, 0
  {
    ghost var alts := Alternatives(options, path);
    JoinBounds(options);
    newResults := [];
    var j := 0;
    while j < |options|
      invariant j <= |options|
      invariant newResults == Resolve(results, alts[..j])
    {
      var optionExpanded := ExpandPattern(options[j], Extend(path, j, |options|));
      assert optionExpanded == alts[j];
      newResults := CrossInto(newResults, results, optionExpanded);
      assert alts[..j + 1][..j] == alts[..j];
      assert Resolve(results, alts[..j + 1]) == Resolve(results, alts[..j]) + Cross(results, alts[j]);
      j := j + 1;
    }
    assert alts[..j] == alts;
  }

  /** The two inner loops of the group resolution: every result so far,
      in order, followed by every combination of the alternative. */
  method CrossInto(acc: seq<Combination>, results: seq<Combination>, optionExpanded: seq<Combination>)
    returns (r: seq<Combination>)
    ensures r == acc + Cross(results, optionExpanded)
  {
    r := acc;
    var k := 0;
    while k < |results|
      invariant k <= |results|
      invariant r == acc + Cross(results[..k], optionExpanded)
    {
      ghost var before := r;
      var e := 0;
      while e < |optionExpanded|
        invariant e <= |optionExpanded|
        invariant r == before + Row(results[k], optionExpanded[..e])
      {
        r := r + [Combination(results[k].text + optionExpanded[e].text, optionExpanded[e].path)];
        assert optionExpanded[..e + 1][..e] == optionExpanded[..e];
        e := e + 1;
      }
      assert optionExpanded[..e] == optionExpanded;
      assert results[..k + 1][..k] == results[..k];
      k := k + 1;
    }
    assert results[..k] == results;
  }

  /** `expand_pattern` on a list of alternatives (`nodes/dynamic_text.py`, lines 146-150). */
  method ExpandList(options: seq<string>, path: Path) returns (expanded: seq<Combination>)
    ensures expanded == ExpandChoice(options, path)
  {
    ghost var alts := Alternatives(options, path);
    expanded := [];
    var j := 0;
    while j < |options|
      invariant j <= |options|
      invariant expanded == Flatten(alts[..j])
    {
      var optionExpanded := ExpandPattern(options[j], Extend(path, j, |options|));
      expanded := expanded + optionExpanded;
      assert alts[..j + 1][..j] == alts[..j];
      j := j + 1;
    }
    assert alts[..j] == alts;
  }

  /** `{|a}` expands to the empty text with path `{1/2}`, then `a` with
      path `{2/2}`. */
  lemma EmptyAlternativeExpands()
    ensures Expand("{|a}", []) == [Combination("", [Pick(1, 2)]), Combination("a", [Pick(2, 2)])]
  {
    EmptyAlternativeOf("{|a}", ["", "a"]);
  }

  /** `EmptyAlternativeExpands` with the text and its alternatives as
      parameters, so that the literals are not unfolded. */
  lemma EmptyAlternativeOf(t: string, options: seq<string>)
    requires t == "{|a}" && options == ["", "a"]
    ensures Expand(t, []) == [Combination(options[0], [Pick(1, 2)]), Combination(options[1], [Pick(2, 2)])]
  {
    assert options[..1] == [""];
    assert Join(options) == options[0] + "|" + options[1];
    var w := Serialize(options);
    assert |w| == 4;
    assert forall k :: 0 <= k < 4 ==> w[k] == t[k];
    assert w == t;
    assert PlainText(options[0]) && PlainText(options[1]);
    FlatGroupExpansion(options, []);
    var r := Expand(t, []);
    assert |r| == 2;
    assert Extend([], 0, 2) == [Pick(1, 2)] && Extend([], 1, 2) == [Pick(2, 2)];
    assert r[0] == Combination(options[0], [Pick(1, 2)]);
    assert r[1] == Combination(options[1], [Pick(2, 2)]);
  }

  /** Sibling groups: `{a|b}{c|d}` gives `ac`, `bc`, `ad`, `bd` (the earlier
      group varies fastest), and each path is the later group's token
      alone: the last choice wins and the earlier choice leaves no trace. */
  lemma SiblingGroupsKeepLastChoice()
    ensures Expand("{a|b}{c|d}", []) == [
      Combination("ac", [Pick(1, 2)]), Combination("bc", [Pick(1, 2)]),
      Combination("ad", [Pick(2, 2)]), Combination("bd", [Pick(2, 2)])]
  {
    var t := "{a|b}{c|d}";
    var p1, p2 := [Pick(1, 2)], [Pick(2, 2)];
    var start := [Combination("", [])];
    var once := [Combination("a", p1), Combination("b", p2)];
    SiblingParses();
    TwoLetterGroup("a", "b");
    TwoLetterGroup("c", "d");
    SiblingFirstResolve();
    SiblingSecondResolve();
    assert t[0] == '{';
    assert Expand(t, []) == ExpandScan(t, [], 0, start);
    ScanResolves(t, [], 0, start);
    ScanResolves(t, [], 5, once);
  }

  /** One step of the scan over a group that closes. */
  lemma ScanResolves(s: string, path: Path, i: nat, results: seq<Combination>)
    requires i < |s| && s[i] == '{' && Parse(s, i).node.Choice?
    requires |results| > 0 && forall c :: c in results ==> path <= c.path
    ensures var parsed := Parse(s, i);
      var resolved := Resolve(results, Alternatives(parsed.node.options, path));
      && |resolved| > 0 && (forall c :: c in resolved ==> path <= c.path)
      && ExpandScan(s, path, i, results) == ExpandScan(s, path, parsed.next, resolved)
  {
    var parsed := Parse(s, i);
    ChoiceRoundTrip(s, i);
    ResolveKeeps(results, Alternatives(parsed.node.options, path), path);
  }

  lemma SiblingParses()
    ensures Parse("{a|b}{c|d}", 0) == Parsed(Choice(["a", "b"]), 5)
    ensures Parse("{a|b}{c|d}", 5) == Parsed(Choice(["c", "d"]), 10)
  {
    var t := "{a|b}{c|d}";
    assert t[0..5] == "{" + "a" + "|" + "b" + "}" && t[5..10] == "{" + "c" + "|" + "d" + "}";
    TwoWordScan(t, 0, "a", "b");
    TwoWordScan(t, 5, "c", "d");
  }

  /** Parsing `{x|y}` at `pos` for plain alternatives `x` and `y`. */
  lemma TwoWordScan(t: string, pos: nat, x: string, y: string)
    requires PlainText(x) && PlainText(y)
    requires pos + |x| + |y| + 3 <= |t| && t[pos..pos + |x| + |y| + 3] == "{" + x + "|" + y + "}"
    ensures Parse(t, pos) == Parsed(Choice([x, y]), pos + |x| + |y| + 3)
  {
    var a, b := pos + 1 + |x|, pos + 2 + |x| + |y|;
    TwoWordPieces(t, pos, x, y);
    FirstWordScan(t, pos, a, x);
    LastWordScan(t, pos, a + 1, x, y);
  }

  lemma FirstWordScan(t: string, pos: nat, a: nat, x: string)
    requires PlainText(x) && a == pos + 1 + |x| && a < |t|
    requires t[pos + 1..a] == x && t[a] == '|'
    ensures ScanGroup(t, pos, pos + 1, [], "") == ScanGroup(t, pos, a + 1, [x], "")
  {
    ScanPlain(t, pos, pos + 1, [], "", x);
    ScanAtPipe(t, pos, a, [], "" + x);
    assert "" + x == x && [] + [x] == [x];
  }

  lemma LastWordScan(t: string, pos: nat, i: nat, x: string, y: string)
    requires PlainText(y) && pos < i && i + |y| < |t|
    requires t[i..i + |y|] == y && t[i + |y|] == '}'
    ensures ScanGroup(t, pos, i, [x], "") == Parsed(Choice([x, y]), i + |y| + 1)
  {
    ScanPlain(t, pos, i, [x], "", y);
    ScanAtClose(t, pos, i + |y|, [x], "" + y);
    assert "" + y == y && [x] + [y] == [x, y];
  }

  lemma TwoWordPieces(t: string, pos: nat, x: string, y: string)
    requires pos + |x| + |y| + 3 <= |t| && t[pos..pos + |x| + |y| + 3] == "{" + x + "|" + y + "}"
    ensures var a, b := pos + 1 + |x|, pos + 2 + |x| + |y|;
      && t[pos] == '{' && t[pos + 1..a] == x && t[a] == '|' && t[a + 1..b] == y && t[b] == '}'
  {
    var w := t[pos..pos + |x| + |y| + 3];
    assert w[1..1 + |x|] == x && w[2 + |x|..2 + |x| + |y|] == y;
    SliceOfSlice(t, pos, pos + |x| + |y| + 3, 1, 1 + |x|);
    SliceOfSlice(t, pos, pos + |x| + |y| + 3, 2 + |x|, 2 + |x| + |y|);
    assert t[pos] == w[0] && t[pos + 1 + |x|] == w[1 + |x|] && t[pos + 2 + |x| + |y|] == w[2 + |x| + |y|];
  }

  lemma SliceOfSlice(t: string, lo: nat, hi: nat, i: nat, j: nat)
    requires lo <= hi <= |t| && i <= j <= hi - lo
    ensures t[lo..hi][i..j] == t[lo + i..lo + j]
  {
    assert forall k :: 0 <= k < j - i ==> t[lo..hi][i..j][k] == t[lo + i + k];
  }

  /** A group of two one-letter alternatives at the top level. */
  lemma TwoLetterGroup(x: string, y: string)
    requires |x| == 1 && |y| == 1 && Plain(x[0]) && Plain(y[0])
    ensures Alternatives([x, y], []) == [[Combination(x, [Pick(1, 2)])], [Combination(y, [Pick(2, 2)])]]
  {
    FlatAlternatives([x, y], []);
    assert Extend([], 0, 2) == [Pick(1, 2)] && Extend([], 1, 2) == [Pick(2, 2)];
  }

  /** Resolving against two alternatives: the first one's block, then the
      second one's. */
  lemma ResolveTwo(results: seq<Combination>, a: seq<Combination>, b: seq<Combination>)
    ensures Resolve(results, [a, b]) == Cross(results, a) + Cross(results, b)
  {
    var alts := [a, b];
    assert alts[..1] == [a] && [a][..0] == [];
    assert Resolve(results, [a]) == Resolve(results, []) + Cross(results, a);
  }

  /** Crossing results with a single combination. */
  lemma CrossOne(results: seq<Combination>, x: Combination)
    ensures |Cross(results, [x])| == |results|
    ensures forall r :: 0 <= r < |results| ==>
      Cross(results, [x])[r] == Combination(results[r].text + x.text, x.path)
  {
    CrossLength(results, [x]);
    forall r | 0 <= r < |results|
      ensures Cross(results, [x])[r] == Combination(results[r].text + x.text, x.path)
    {
      CrossAt(results, [x], r, 0);
      assert Slot(1, r, 0) == r;
    }
  }

  lemma SiblingFirstResolve()
    ensures Resolve([Combination("", [])], [[Combination("a", [Pick(1, 2)])], [Combination("b", [Pick(2, 2)])]])
      == [Combination("a", [Pick(1, 2)]), Combination("b", [Pick(2, 2)])]
  {
    var start := [Combination("", [])];
    var a, b := Combination("a", [Pick(1, 2)]), Combination("b", [Pick(2, 2)]);
    ResolveTwo(start, [a], [b]);
    CrossOne(start, a);
    CrossOne(start, b);
    assert "" + "a" == "a" && "" + "b" == "b";
  }

  lemma SiblingSecondResolve()
    ensures var p1, p2 := [Pick(1, 2)], [Pick(2, 2)];
      Resolve([Combination("a", p1), Combination("b", p2)], [[Combination("c", p1)], [Combination("d", p2)]]) ==
        [Combination("ac", p1), Combination("bc", p1), Combination("ad", p2), Combination("bd", p2)]
  {
    var p1, p2 := [Pick(1, 2)], [Pick(2, 2)];
    var once := [Combination("a", p1), Combination("b", p2)];
    var c, d := Combination("c", p1), Combination("d", p2);
    ResolveTwo(once, [c], [d]);
    CrossOne(once, c);
    CrossOne(once, d);
    assert "a" + "c" == "ac" && "b" + "c" == "bc" && "a" + "d" == "ad" && "b" + "d" == "bd";
  }

  /** A nested group: in `{fast|slow|{small|huge}}` the third alternative
      is itself a group, so its two results carry the outer token `{3/3}`
      followed by the inner token `{1/2}` or `{2/2}`; the plain
      alternatives carry the outer token alone. */
  lemma NestedGroupExtendsPath()
    ensures Expand("{fast|slow|{small|huge}}", []) == [
      Combination("fast", [Pick(1, 3)]), Combination("slow", [Pick(2, 3)]),
      Combination("small", [Pick(3, 3), Pick(1, 2)]), Combination("huge", [Pick(3, 3), Pick(2, 2)])]
  {
    var t := "{fast|slow|{small|huge}}";
    var start := [Combination("", [])];
    NestedParse();
    NestedAlternatives(["fast", "slow", "{small|huge}"]);
    NestedResolve();
    assert t[0] == '{';
    assert Expand(t, []) == ExpandScan(t, [], 0, start);
    ScanResolves(t, [], 0, start);
  }

  lemma NestedParse()
    ensures Parse("{fast|slow|{small|huge}}", 0) == Parsed(Choice(["fast", "slow", "{small|huge}"]), 24)
  {
    var t := "{fast|slow|{small|huge}}";
    var inner := "{small|huge}";
    NestedOuterPrefix(t, ["fast", "slow", inner]);
    NestedOuterRest();
    assert ["fast", "slow"] + [inner] == ["fast", "slow", inner];
  }

  /** The two plain alternatives and their bars. */
  lemma NestedOuterPrefix(t: string, options: seq<string>)
    requires t == "{fast|slow|{small|huge}}" && options == ["fast", "slow", "{small|huge}"]
    ensures t[11..23] == "{small|huge}" && t[23] == '}'
    ensures ScanGroup(t, 0, 1, [], "") == ScanGroup(t, 0, 11, ["fast", "slow"], "")
  {
    OuterSerialized();
    assert PlainText(options[0]) && PlainText(options[1]);
    assert |options[0]| == 4 && |options[1]| == 4 && |options[2]| == 12;
    assert options[..2] == ["fast", "slow"];
    SizedOuterScan(t, options, 4, 4, 12);
  }

  lemma SizedOuterScan(t: string, options: seq<string>, n0: nat, n1: nat, n2: nat)
    requires |options| == 3 && PlainText(options[0]) && PlainText(options[1]) && t == Serialize(options)
    requires |options[0]| == n0 && |options[1]| == n1 && |options[2]| == n2
    ensures var i := 3 + n0 + n1;
      && i + n2 < |t|
      && t[i..i + n2] == options[2] && t[i + n2] == '}'
      && ScanGroup(t, 0, 1, [], "") == ScanGroup(t, 0, i, options[..2], "")
  {
    OuterScan(options);
  }

  /** Scanning two plain alternatives followed by a last one. */
  lemma OuterScan(options: seq<string>)
    requires |options| == 3 && PlainText(options[0]) && PlainText(options[1])
    ensures var t, i := Serialize(options), 3 + |options[0]| + |options[1]|;
      && i + |options[2]| < |t|
      && t[i..i + |options[2]|] == options[2] && t[i + |options[2]|] == '}'
      && ScanGroup(t, 0, 1, [], "") == ScanGroup(t, 0, i, options[..2], "")
  {
    OuterBars(options);
    OuterClosedLength(options);
    OuterTail(options);
  }

  lemma OuterBars(options: seq<string>)
    requires |options| == 3 && PlainText(options[0]) && PlainText(options[1])
    ensures ScanGroup(Serialize(options), 0, 1, [], "") ==
      ScanGroup(Serialize(options), 0, 1 + |Closed(options[..2])|, options[..2], "")
  {
    FlatScanNext(options, 0);
    FlatScanNext(options, 1);
    assert options[..0] == [];
  }

  lemma OuterClosedLength(options: seq<string>)
    requires |options| == 3
    ensures |Closed(options[..2])| == |options[0]| + |options[1]| + 2
  {
    var two := options[..2];
    assert two[..1] == [options[0]];
    assert Join(two) == options[0] + "|" + options[1];
  }

  lemma OuterTail(options: seq<string>)
    requires |options| == 3
    ensures var t, i := Serialize(options), 1 + |Closed(options[..2])|;
      && i + |options[2]| < |t|
      && t[i..i + |options[2]|] == options[2] && t[i + |options[2]|] == '}'
  {
    var pre := "{" + Closed(options[..2]);
    SerializeSplit(options, 2);
    Pieces(Serialize(options), pre, options[2], "}");
  }

  /** The nested group and the closing brace. */
  lemma NestedOuterRest()
    requires var t := "{fast|slow|{small|huge}}";
      t[11..23] == "{small|huge}" && t[23] == '}'
    ensures ScanGroup("{fast|slow|{small|huge}}", 0, 11, ["fast", "slow"], "") ==
      Parsed(Choice(["fast", "slow"] + ["{small|huge}"]), 24)
  {
    var t := "{fast|slow|{small|huge}}";
    var inner := "{small|huge}";
    InnerSerialized();
    InnerSpelled();
    TwoWordScan(t, 11, "small", "huge");
    assert t[11] == '{';
    assert ScanGroup(t, 0, 11, ["fast", "slow"], "") == ScanGroup(t, 0, 23, ["fast", "slow"], "" + inner);
    ScanAtClose(t, 0, 23, ["fast", "slow"], "" + inner);
    assert "" + inner == inner;
  }

  lemma OuterSerialized()
    ensures Serialize(["fast", "slow", "{small|huge}"]) == "{fast|slow|{small|huge}}"
  {
    var options := ["fast", "slow", "{small|huge}"];
    assert options[..2] == ["fast", "slow"] && options[..2][..1] == ["fast"];
    assert Join(options) == "fast" + "|" + "slow" + "|" + "{small|huge}";
    var w := "{" + ("fast" + "|" + "slow" + "|" + "{small|huge}") + "}";
    assert forall k :: 0 <= k < 24 ==> w[k] == "{fast|slow|{small|huge}}"[k];
  }

  lemma InnerSerialized()
    ensures Serialize(["small", "huge"]) == "{small|huge}"
  {
    assert ["small", "huge"][..1] == ["small"];
  }

  lemma InnerSpelled()
    ensures "{small|huge}" == "{" + "small" + "|" + "huge" + "}"
  {
    var w := "{" + "small" + "|" + "huge" + "}";
    assert forall k :: 0 <= k < 12 ==> w[k] == "{small|huge}"[k];
  }

  /** Each plain alternative expands to itself; the nested one to its two
      alternatives under the outer token. */
  lemma NestedAlternatives(options: seq<string>)
    requires options == ["fast", "slow", "{small|huge}"]
    ensures Alternatives(options, []) == [
      [Combination("fast", [Pick(1, 3)])], [Combination("slow", [Pick(2, 3)])],
      [Combination("small", [Pick(3, 3), Pick(1, 2)]), Combination("huge", [Pick(3, 3), Pick(2, 2)])]]
  {
    assert PlainText(options[0]) && PlainText(options[1]);
    InnerGroupExpands(options[2]);
    TwoPlainThenOne(options, [Combination("small", [Pick(3, 3), Pick(1, 2)]), Combination("huge", [Pick(3, 3), Pick(2, 2)])]);
  }

  /** Three alternatives, the first two plain, at the top level. */
  lemma TwoPlainThenOne(options: seq<string>, last: seq<Combination>)
    requires |options| == 3 && PlainText(options[0]) && PlainText(options[1])
    requires Expand(options[2], [Pick(3, 3)]) == last
    ensures Alternatives(options, []) ==
      [[Combination(options[0], [Pick(1, 3)])], [Combination(options[1], [Pick(2, 3)])], last]
  {
    var alts := Alternatives(options, []);
    assert Extend([], 0, 3) == [Pick(1, 3)] && Extend([], 1, 3) == [Pick(2, 3)] && Extend([], 2, 3) == [Pick(3, 3)];
    PlainExpands(options[0], [Pick(1, 3)]);
    PlainExpands(options[1], [Pick(2, 3)]);
    assert alts[0] == Expand(options[0], [Pick(1, 3)]);
    assert alts[1] == Expand(options[1], [Pick(2, 3)]);
    assert alts[2] == Expand(options[2], [Pick(3, 3)]);
  }

  lemma PlainExpands(w: string, path: Path)
    requires PlainText(w)
    ensures Expand(w, path) == [Combination(w, path)]
  {
    assert '{' !in w by {
      assert forall t :: 0 <= t < |w| ==> Plain(w[t]);
    }
  }

  lemma InnerGroupExpands(g: string)
    requires g == "{small|huge}"
    ensures Expand(g, [Pick(3, 3)]) ==
      [Combination("small", [Pick(3, 3), Pick(1, 2)]), Combination("huge", [Pick(3, 3), Pick(2, 2)])]
  {
    var inner := ["small", "huge"];
    InnerSerialized();
    assert PlainText(inner[0]) && PlainText(inner[1]);
    FlatGroupExpansion(inner, [Pick(3, 3)]);
    assert Extend([Pick(3, 3)], 0, 2) == [Pick(3, 3), Pick(1, 2)];
    assert Extend([Pick(3, 3)], 1, 2) == [Pick(3, 3), Pick(2, 2)];
  }

  lemma NestedResolve()
    ensures Resolve([Combination("", [])], [
      [Combination("fast", [Pick(1, 3)])], [Combination("slow", [Pick(2, 3)])],
      [Combination("small", [Pick(3, 3), Pick(1, 2)]), Combination("huge", [Pick(3, 3), Pick(2, 2)])]]) == [
      Combination("fast", [Pick(1, 3)]), Combination("slow", [Pick(2, 3)]),
      Combination("small", [Pick(3, 3), Pick(1, 2)]), Combination("huge", [Pick(3, 3), Pick(2, 2)])]
  {
    var fast, slow := Combination("fast", [Pick(1, 3)]), Combination("slow", [Pick(2, 3)]);
    var small, huge := Combination("small", [Pick(3, 3), Pick(1, 2)]), Combination("huge", [Pick(3, 3), Pick(2, 2)]);
    ResolveThree([Combination("", [])], [fast], [slow], [small, huge]);
    CrossFromEmpty([], [fast]);
    CrossFromEmpty([], [slow]);
    CrossFromEmpty([], [small, huge]);
  }

  /** The empty starting result crossed with an expansion is that expansion. */
  lemma CrossFromEmpty(path: Path, expanded: seq<Combination>)
    ensures Cross([Combination("", path)], expanded) == expanded
  {
    var u := Combination("", path);
    CrossFromOne(u, expanded);
    RowShape(u, expanded);
    forall e | 0 <= e < |expanded| ensures Row(u, expanded)[e] == expanded[e] {
      assert "" + expanded[e].text == expanded[e].text;
    }
  }

  /** Resolving against three alternatives: their blocks one after another. */
  lemma ResolveThree(results: seq<Combination>, a: seq<Combination>, b: seq<Combination>, c: seq<Combination>)
    ensures Resolve(results, [a, b, c]) == Cross(results, a) + Cross(results, b) + Cross(results, c)
  {
    assert [a, b, c][..2] == [a, b];
    ResolveTwo(results, a, b);
  }

  /** Crossing a single result with an expansion is that result's row. */
  lemma CrossFromOne(u: Combination, expanded: seq<Combination>)
    ensures Cross([u], expanded) == Row(u, expanded)
  {
    assert [u][..0] == [];
  }
}
