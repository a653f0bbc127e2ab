/** The recursive-descent scanner for one `{a|b|...}` group of a template
    (`parse_pattern`).  A group whose closing brace is missing degrades to the
    literal rest of the input; a nested group is kept inside its alternative
    as text, re-serialised as `{` + alternatives joined by `|` + `}`. */
module PatternParser {

  /** What `parse_pattern` returns: the literal rest of the text, or the list
      of alternative strings of a closed group. */
  datatype Node = Literal(text: string) | Choice(options: seq<string>)

  /** A parse result together with the position just after what it consumed. */
  datatype Parsed = Parsed(node: Node, next: nat)

  /** `text[pos:]` with Python's slicing: empty once `pos` is past the end. */
  function Rest(text: string, pos: nat): string
  {
    if pos <= |text| then text[pos..] else ""
  }

  /** `'|'.join(parts)`. */
  function Join(parts: seq<string>): string
    decreases |parts|
  {
    if |parts| == 0 then ""
    else if |parts| == 1 then parts[0]
    else Join(parts[..|parts| - 1]) + "|" + parts[|parts| - 1]
  }

  /** The text a closed group is re-serialised into. */
  function Serialize(options: seq<string>): string
  {
    "{" + Join(options) + "}"
  }

  /** The alternatives closed so far, each followed by its `|`; the scan's
      position is always just after this text and the pending alternative. */
  function Closed(options: seq<string>): string
  {
    if options == [] then "" else Join(options) + "|"
  }

  /** `parse_pattern(text, pos)`. */
  function Parse(text: string, pos: nat): (r: Parsed)
    ensures r.next <= |text|
    ensures pos < |text| ==> pos < r.next
    decreases |text| - pos, 0
  {
    if pos >= |text| || text[pos] != '{' then Parsed(Literal(Rest(text, pos)), |text|)
    else ScanGroup(text, pos, pos + 1, [], "")
  }

  /** The `while` loop of `parse_pattern` from scan position `i`, with the
      alternatives closed so far and the pending alternative `current`. */
  function ScanGroup(text: string, pos: nat, i: nat, options: seq<string>, current: string): (r: Parsed)
    requires pos < i <= |text|
    ensures pos < r.next <= |text|
    decreases |text| - i, 1
  {
    if i == |text| then Parsed(Literal(text[pos..]), |text|)
    else if text[i] == '{' then
      var nested := Parse(text, i);
      var piece := match nested.node
        case Choice(inner) => Serialize(inner)
        case Literal(rest) => rest;
      ScanGroup(text, pos, nested.next, options, current + piece)
    else if text[i] == '}' then Parsed(Choice(options + [current]), i + 1)
    else if text[i] == '|' then ScanGroup(text, pos, i + 1, options + [current], "")
    else ScanGroup(text, pos, i + 1, options, current + [text[i]])
  }

  /** The imperative scanner, as the source writes it: a loop over `i`
      that grows `options` and `current` and recurses on a nested `{`. */
  method ParsePattern(text: string, pos: nat) returns (result: Node, newPos: nat)
    ensures Parsed(result, newPos) == Parse(text, pos)
    decreases |text| - pos
  {
    if pos >= |text| || text[pos] != '{' {
      return Literal(Rest(text, pos)), |text|;
    }
    var options: seq<string> := [];
    var current: string := "";
    var i := pos + 1;
    while i < |text|
      invariant pos < i <= |text|
      invariant ScanGroup(text, pos, i, options, current) == Parse(text, pos)
      decreases |text| - i
    {
      var ch := text[i];
      if ch == '{' {
        var nested, nestedPos := ParsePattern(text, i);
        match nested {
          case Choice(inner) => current := current + Serialize(inner);
          case Literal(rest) => current := current + rest;
        }
        i := nestedPos;
      } else if ch == '}' {
        options := options + [current];
        return Choice(options), i + 1;
      } else if ch == '|' {
        options := options + [current];
        current := "";
        i := i + 1;
      } else {
        current := current + [ch];
        i := i + 1;
      }
    }
    return Literal(text[pos..]), |text|;
  }

  // ---------------------------------------------------------------------
  // Brace depth: an independent description of where a group closes.

  function Delta(c: char): int
  {
    if c == '{' then 1 else if c == '}' then -1 else 0
  }

  /** Opening minus closing braces in `text[lo..hi]`. */
  function Depth(text: string, lo: nat, hi: nat): int
    requires lo <= hi <= |text|
    decreases hi
  {
    if hi == lo then 0 else Depth(text, lo, hi - 1) + Delta(text[hi - 1])
  }

  lemma {:induction false} DepthSplit(text: string, a: nat, b: nat, c: nat)
    requires a <= b <= c <= |text|
    ensures Depth(text, a, c) == Depth(text, a, b) + Depth(text, b, c)
    decreases c
  {
    if c > b {
      DepthSplit(text, a, b, c - 1);
    }
  }

  /** The group opened at `pos` is closed by the brace just before `k`. */
  predicate ClosesAt(text: string, pos: nat, k: nat)
    requires pos < k <= |text|
  {
    Depth(text, pos, k) == 0 && forall m :: pos < m < k ==> Depth(text, pos, m) > 0
  }

  /** Every prefix of the text from `pos` on is still inside the group. */
  predicate NeverCloses(text: string, pos: nat)
    requires pos <= |text|
  {
    forall m :: pos < m <= |text| ==> Depth(text, pos, m) > 0
  }

  lemma JoinAppend(options: seq<string>, current: string)
    ensures Join(options + [current]) == Closed(options) + current
  {
    var all := options + [current];
    if options != [] {
      assert all[..|all| - 1] == options;
    }
  }

  lemma {:induction false} JoinBounds(parts: seq<string>)
    ensures forall j :: 0 <= j < |parts| ==> |parts[j]| <= |Join(parts)|
    decreases |parts|
  {
    if |parts| > 1 {
      JoinBounds(parts[..|parts| - 1]);
    }
  }

  /** What the scan loop keeps while it is inside the group opened at `pos`:
      the text read so far is `{`, the closed alternatives and their pipes,
      then the pending alternative, and the group is still open. */
  ghost predicate ScanState(text: string, pos: nat, i: nat, options: seq<string>, current: string)
  {
    && pos < i <= |text|
    && text[pos..i] == "{" + Closed(options) + current
    && Depth(text, pos, i) == 1
    && forall m :: pos < m <= i ==> Depth(text, pos, m) > 0
  }

  /** The facts a finished group scan guarantees. */
  ghost predicate GroupOutcome(text: string, pos: nat, r: Parsed)
    requires pos < |text|
  {
    match r.node
    case Choice(options) =>
      && pos < r.next <= |text|
      && |options| > 0
      && text[r.next - 1] == '}'
      && Serialize(options) == text[pos..r.next]
      && ClosesAt(text, pos, r.next)
    case Literal(rest) =>
      && rest == text[pos..]
      && r.next == |text|
      && NeverCloses(text, pos)
  }

  /** A character other than a brace keeps the scan inside the group. */
  lemma DepthStepPlain(text: string, pos: nat, i: nat)
    requires pos < i < |text| && text[i] != '{' && text[i] != '}'
    requires Depth(text, pos, i) == 1 && forall m :: pos < m <= i ==> Depth(text, pos, m) > 0
    ensures Depth(text, pos, i + 1) == 1 && forall m :: pos < m <= i + 1 ==> Depth(text, pos, m) > 0
  {
    assert Depth(text, pos, i + 1) == Depth(text, pos, i) + Delta(text[i]);
  }

  lemma ScanStepPipe(text: string, pos: nat, i: nat, options: seq<string>, current: string)
    requires ScanState(text, pos, i, options, current)
    requires i < |text| && text[i] == '|'
    ensures ScanState(text, pos, i + 1, options + [current], "")
  {
    DepthStepPlain(text, pos, i);
    SliceExtend(text, pos, i, "{" + Closed(options) + current);
    ClosedAppend(options, current);
    Regroup("{", Closed(options), current, "|");
  }

  lemma SliceExtend(text: string, pos: nat, i: nat, prefix: string)
    requires pos <= i < |text| && text[pos..i] == prefix
    ensures text[pos..i + 1] == prefix + [text[i]]
  {
    assert text[pos..i + 1] == text[pos..i] + [text[i]];
  }

  lemma Regroup(a: string, b: string, c: string, d: string)
    ensures a + (b + c + d) + "" == a + b + c + d
  {
  }

  lemma ScanStepChar(text: string, pos: nat, i: nat, options: seq<string>, current: string)
    requires ScanState(text, pos, i, options, current)
    requires i < |text| && Plain(text[i])
    ensures ScanState(text, pos, i + 1, options, current + [text[i]])
  {
    DepthStepPlain(text, pos, i);
    SliceExtend(text, pos, i, "{" + Closed(options) + current);
    assert "{" + Closed(options) + current + [text[i]] == "{" + Closed(options) + (current + [text[i]]);
  }

  lemma ScanStepClose(text: string, pos: nat, i: nat, options: seq<string>, current: string)
    requires ScanState(text, pos, i, options, current)
    requires i < |text| && text[i] == '}'
    ensures GroupOutcome(text, pos, Parsed(Choice(options + [current]), i + 1))
  {
    assert Depth(text, pos, i + 1) == Depth(text, pos, i) + Delta(text[i]);
    SliceExtend(text, pos, i, "{" + Closed(options) + current);
    JoinAppend(options, current);
    Regroup("{", Closed(options), current, "}");
  }

  lemma ScanStepNested(text: string, pos: nat, i: nat, options: seq<string>, current: string)
    requires ScanState(text, pos, i, options, current)
    requires i < |text| && text[i] == '{' && GroupOutcome(text, i, Parse(text, i))
    requires Parse(text, i).node.Choice?
    ensures var nested := Parse(text, i);
      ScanState(text, pos, nested.next, options, current + Serialize(nested.node.options))
  {
    var nested := Parse(text, i);
    var n, inner := nested.next, nested.node.options;
    assert Serialize(inner) == text[i..n] && ClosesAt(text, i, n);
    NestedDepth(text, pos, i, n);
    var prefix := "{" + Closed(options) + current;
    NestedText(text, pos, i, n, prefix, Serialize(inner));
    Regroup3("{" + Closed(options), current, Serialize(inner));
  }

  /** A nested group that closes leaves the depth of the outer group as it was. */
  lemma NestedDepth(text: string, pos: nat, i: nat, n: nat)
    requires pos < i < n <= |text| && ClosesAt(text, i, n)
    requires Depth(text, pos, i) == 1 && forall m :: pos < m <= i ==> Depth(text, pos, m) > 0
    ensures Depth(text, pos, n) == 1 && forall m :: pos < m <= n ==> Depth(text, pos, m) > 0
  {
    forall m | i < m <= n ensures Depth(text, pos, m) > 0 {
      DepthSplit(text, pos, i, m);
    }
    DepthSplit(text, pos, i, n);
  }

  lemma NestedText(text: string, pos: nat, i: nat, n: nat, prefix: string, piece: string)
    requires pos <= i <= n <= |text| && text[pos..i] == prefix && text[i..n] == piece
    ensures text[pos..n] == prefix + piece
  {
    SliceJoin(text, pos, i, n);
  }

  lemma SliceJoin(text: string, a: nat, b: nat, c: nat)
    requires a <= b <= c <= |text|
    ensures text[a..c] == text[a..b] + text[b..c]
  {
  }

  lemma Regroup3(a: string, b: string, c: string)
    ensures a + b + c == a + (b + c)
  {
  }

  lemma ScanStepUnclosed(text: string, pos: nat, i: nat, options: seq<string>, current: string)
    requires ScanState(text, pos, i, options, current)
    requires i < |text| && text[i] == '{' && GroupOutcome(text, i, Parse(text, i))
    requires Parse(text, i).node.Literal?
    ensures NeverCloses(text, pos)
  {
    forall m | pos < m <= |text| ensures Depth(text, pos, m) > 0 {
      if m > i { DepthSplit(text, pos, i, m); }
    }
  }

  lemma {:induction false} ScanGroupOutcome(text: string, pos: nat, i: nat, options: seq<string>, current: string)
    requires ScanState(text, pos, i, options, current)
    ensures GroupOutcome(text, pos, ScanGroup(text, pos, i, options, current))
    decreases |text| - i, 1
  {
    if i == |text| {
      return;
    }
    var ch := text[i];
    var r := ScanGroup(text, pos, i, options, current);
    if ch == '{' {
      var nested := Parse(text, i);
      ParseOutcome(text, i);
      if nested.node.Choice? {
        ScanStepNested(text, pos, i, options, current);
        var next := current + Serialize(nested.node.options);
        assert r == ScanGroup(text, pos, nested.next, options, next);
        ScanGroupOutcome(text, pos, nested.next, options, next);
      } else {
        ScanStepUnclosed(text, pos, i, options, current);
        assert nested.next == |text|;
        assert r == ScanGroup(text, pos, |text|, options, current + nested.node.text);
      }
    } else if ch == '}' {
      assert r == Parsed(Choice(options + [current]), i + 1);
      ScanStepClose(text, pos, i, options, current);
    } else if ch == '|' {
      assert r == ScanGroup(text, pos, i + 1, options + [current], "");
      ScanStepPipe(text, pos, i, options, current);
      ScanGroupOutcome(text, pos, i + 1, options + [current], "");
    } else {
      assert r == ScanGroup(text, pos, i + 1, options, current + [ch]);
      ScanStepChar(text, pos, i, options, current);
      ScanGroupOutcome(text, pos, i + 1, options, current + [ch]);
    }
  }

  lemma {:induction false} ParseOutcome(text: string, pos: nat)
    requires pos < |text| && text[pos] == '{'
    ensures GroupOutcome(text, pos, Parse(text, pos))
    decreases |text| - pos, 0
  {
    assert text[pos..pos + 1] == "{";
    ScanGroupOutcome(text, pos, pos + 1, [], "");
  }

  // ---------------------------------------------------------------------
  // Where a group splits: every alternative is a balanced stretch of text
  // whose own `|` characters all sit inside nested braces.

  /** The braces of `w` pair up: no prefix closes more than it opens, and
      the whole opens as many as it closes. */
  predicate Balanced(w: string)
  {
    Depth(w, 0, |w|) == 0 && forall m :: 0 <= m <= |w| ==> Depth(w, 0, m) >= 0
  }

  /** Every `|` of `w` sits inside a pair of braces of `w`. */
  predicate BarsNested(w: string)
  {
    forall k :: 0 <= k < |w| && w[k] == '|' ==> Depth(w, 0, k) > 0
  }

  /** A piece the group scan can return as one alternative: balanced, and
      with no `|` at its own top level that would have split it. */
  predicate Alternative(w: string)
  {
    Balanced(w) && BarsNested(w)
  }

  lemma {:induction false} DepthPrefix(w: string, x: string, m: nat)
    requires m <= |w|
    ensures Depth(w + x, 0, m) == Depth(w, 0, m)
    decreases m
  {
    if m > 0 {
      DepthPrefix(w, x, m - 1);
      assert (w + x)[m - 1] == w[m - 1];
    }
  }

  lemma {:induction false} DepthSlice(text: string, i: nat, n: nat, m: nat)
    requires i <= n <= |text| && m <= n - i
    ensures Depth(text[i..n], 0, m) == Depth(text, i, i + m)
    decreases m
  {
    if m > 0 {
      DepthSlice(text, i, n, m - 1);
      assert text[i..n][m - 1] == text[i + m - 1];
    }
  }

  lemma {:induction false} DepthConcat(w: string, g: string, m: nat)
    requires m <= |g|
    ensures Depth(w + g, 0, |w| + m) == Depth(w, 0, |w|) + Depth(g, 0, m)
    decreases m
  {
    if m == 0 {
      DepthPrefix(w, g, |w|);
    } else {
      DepthConcat(w, g, m - 1);
      assert (w + g)[|w| + m - 1] == g[m - 1];
    }
  }

  /** A character that is neither a brace nor a bar extends an alternative. */
  lemma AlternativeAppendChar(w: string, c: char)
    requires Alternative(w) && Plain(c)
    ensures Alternative(w + [c])
  {
    var v := w + [c];
    forall m | 0 <= m <= |w| ensures Depth(v, 0, m) == Depth(w, 0, m) {
      DepthPrefix(w, [c], m);
    }
    assert Depth(v, 0, |v|) == Depth(v, 0, |w|) + Delta(v[|w|]);
  }

  /** A nested group that closes extends an alternative. */
  lemma AlternativeAppendGroup(text: string, i: nat, n: nat, w: string)
    requires i < n <= |text| && text[i] == '{' && ClosesAt(text, i, n)
    requires Alternative(w)
    ensures Alternative(w + text[i..n])
  {
    var g := text[i..n];
    var v := w + g;
    forall m | 0 <= m <= |w| ensures Depth(v, 0, m) == Depth(w, 0, m) {
      DepthPrefix(w, g, m);
    }
    DepthTail(text, i, n, w, |g|);
    forall m | 0 <= m <= |v| ensures Depth(v, 0, m) >= 0 {
      if m > |w| {
        DepthTail(text, i, n, w, m - |w|);
      }
    }
    forall k | 0 <= k < |v| && v[k] == '|' ensures Depth(v, 0, k) > 0 {
      if k >= |w| {
        assert k > |w| by {
          assert v[|w|] == text[i];
        }
        DepthTail(text, i, n, w, k - |w|);
      }
    }
  }

  /** Inside `w + text[i..n]`, past `w`, the depth is `w`'s plus the depth
      of the slice read so far. */
  lemma DepthTail(text: string, i: nat, n: nat, w: string, m: nat)
    requires i <= n <= |text| && m <= n - i
    ensures Depth(w + text[i..n], 0, |w| + m) == Depth(w, 0, |w|) + Depth(text, i, i + m)
  {
    DepthConcat(w, text[i..n], m);
    DepthSlice(text, i, n, m);
  }

  lemma AlternativesAppend(options: seq<string>, current: string)
    requires forall t :: 0 <= t < |options| ==> Alternative(options[t])
    requires Alternative(current)
    ensures forall t :: 0 <= t < |options + [current]| ==> Alternative((options + [current])[t])
  {
    forall t | 0 <= t < |options + [current]| ensures Alternative((options + [current])[t]) {
      if t < |options| {
        assert (options + [current])[t] == options[t];
      }
    }
  }

  lemma {:induction false} ScanGroupAlternatives(text: string, pos: nat, i: nat, options: seq<string>, current: string)
    requires pos < i <= |text|
    requires forall t :: 0 <= t < |options| ==> Alternative(options[t])
    requires Alternative(current)
    ensures var r := ScanGroup(text, pos, i, options, current);
      r.node.Choice? ==> forall t :: 0 <= t < |r.node.options| ==> Alternative(r.node.options[t])
    decreases |text| - i
  {
    if i == |text| {
      return;
    }
    var ch := text[i];
    var r := ScanGroup(text, pos, i, options, current);
    if ch == '{' {
      var nested := Parse(text, i);
      ParseOutcome(text, i);
      if nested.node.Choice? {
        var next := current + Serialize(nested.node.options);
        assert r == ScanGroup(text, pos, nested.next, options, next);
        AlternativeAppendGroup(text, i, nested.next, current);
        ScanGroupAlternatives(text, pos, nested.next, options, next);
      } else {
        assert nested.next == |text|;
        assert r == ScanGroup(text, pos, |text|, options, current + nested.node.text);
      }
    } else if ch == '}' {
      assert r == Parsed(Choice(options + [current]), i + 1);
      AlternativesAppend(options, current);
    } else if ch == '|' {
      assert r == ScanGroup(text, pos, i + 1, options + [current], "");
      AlternativesAppend(options, current);
      ScanGroupAlternatives(text, pos, i + 1, options + [current], "");
    } else {
      assert r == ScanGroup(text, pos, i + 1, options, current + [ch]);
      AlternativeAppendChar(current, ch);
      ScanGroupAlternatives(text, pos, i + 1, options, current + [ch]);
    }
  }

  /** `s[k]` is a bar of the group itself: a `|` at brace depth zero. */
  predicate TopBar(s: string, k: nat)
    requires k < |s|
  {
    s[k] == '|' && Depth(s, 0, k) == 0
  }

  lemma BarJoinLeft(p: string, q: string, m: nat)
    requires m <= |p|
    ensures Depth(p + "|" + q, 0, m) == Depth(p, 0, m)
  {
    DepthPrefix(p, "|" + q, m);
    assert p + ("|" + q) == p + "|" + q;
  }

  lemma BarJoinRight(p: string, q: string, m: nat)
    requires m <= |q|
    ensures Depth(p + "|" + q, 0, |p| + 1 + m) == Depth(p, 0, |p|) + Depth(q, 0, m)
  {
    var w := p + "|";
    DepthPrefix(p, "|", |p|);
    assert Depth(w, 0, |w|) == Depth(w, 0, |p|) + Delta(w[|p|]);
    DepthConcat(w, q, m);
  }

  /** A balanced text, a bar, then an alternative: the whole is balanced,
      that bar is at depth zero, and no bar after it is. */
  lemma BarJoin(p: string, q: string)
    requires Balanced(p) && Alternative(q)
    ensures var s := p + "|" + q;
      && Balanced(s)
      && TopBar(s, |p|)
      && forall k :: |p| < k < |s| ==> !TopBar(s, k)
  {
    var s := p + "|" + q;
    BarJoinLeft(p, q, |p|);
    BarJoinRight(p, q, |q|);
    forall m | 0 <= m <= |s| ensures Depth(s, 0, m) >= 0 {
      if m <= |p| {
        BarJoinLeft(p, q, m);
      } else {
        BarJoinRight(p, q, m - |p| - 1);
      }
    }
    forall k | |p| < k < |s| ensures !TopBar(s, k) {
      BarJoinRight(p, q, k - |p| - 1);
      assert s[k] == q[k - |p| - 1];
    }
  }

  lemma {:induction false} JoinBalanced(parts: seq<string>)
    requires forall t :: 0 <= t < |parts| ==> Alternative(parts[t])
    ensures Balanced(Join(parts))
    decreases |parts|
  {
    if |parts| > 1 {
      var init := parts[..|parts| - 1];
      JoinBalanced(init);
      BarJoin(Join(init), parts[|parts| - 1]);
    }
  }

  /** For two or more alternatives, the last bar at depth zero of their
      join is the one in front of the last alternative. */
  lemma LastTopBar(parts: seq<string>)
    requires |parts| > 1
    requires forall t :: 0 <= t < |parts| ==> Alternative(parts[t])
    ensures var s, p := Join(parts), |Join(parts[..|parts| - 1])|;
      && p < |s|
      && TopBar(s, p)
      && (forall k :: p < k < |s| ==> !TopBar(s, k))
      && s[..p] == Join(parts[..|parts| - 1])
      && s[p + 1..] == parts[|parts| - 1]
  {
    var init := parts[..|parts| - 1];
    JoinBalanced(init);
    BarJoin(Join(init), parts[|parts| - 1]);
  }

  /** An alternative has no bar at its own depth zero. */
  lemma NoTopBar(w: string)
    requires Alternative(w)
    ensures forall k :: 0 <= k < |w| ==> !TopBar(w, k)
  {
  }

  /** Two lists of two or more alternatives with the same join have the
      same last alternative and the same join before it. */
  lemma SameLastBar(a: seq<string>, b: seq<string>)
    requires |a| > 1 && |b| > 1 && Join(a) == Join(b)
    requires forall t :: 0 <= t < |a| ==> Alternative(a[t])
    requires forall t :: 0 <= t < |b| ==> Alternative(b[t])
    ensures Join(a[..|a| - 1]) == Join(b[..|b| - 1]) && a[|a| - 1] == b[|b| - 1]
  {
    LastTopBar(a);
    LastTopBar(b);
    var pa, pb := |Join(a[..|a| - 1])|, |Join(b[..|b| - 1])|;
    if pa < pb {
      assert false;
    } else if pb < pa {
      assert false;
    }
  }

  /** Lists of alternatives that join to the same text are the same list. */
  lemma {:induction false} JoinUnique(a: seq<string>, b: seq<string>)
    requires |a| > 0 && |b| > 0 && Join(a) == Join(b)
    requires forall t :: 0 <= t < |a| ==> Alternative(a[t])
    requires forall t :: 0 <= t < |b| ==> Alternative(b[t])
    ensures a == b
    decreases |a|
  {
    if |a| == 1 && |b| == 1 {
      assert a == [Join(a)] && b == [Join(b)];
    } else if |a| == 1 {
      NoTopBar(a[0]);
      LastTopBar(b);
      assert false;
    } else if |b| == 1 {
      NoTopBar(b[0]);
      LastTopBar(a);
      assert false;
    } else {
      SameLastBar(a, b);
      var a', b' := a[..|a| - 1], b[..|b| - 1];
      JoinUnique(a', b');
      assert a == a' + [a[|a| - 1]];
      assert b == b' + [b[|b| - 1]];
    }
  }

  /** The alternatives of a group are fixed by the text they re-serialise
      to: two non-empty lists of alternatives with the same serialisation
      are the same list. */
  lemma SplitIsUnique(a: seq<string>, b: seq<string>)
    requires |a| > 0 && |b| > 0 && Serialize(a) == Serialize(b)
    requires forall t :: 0 <= t < |a| ==> Alternative(a[t])
    requires forall t :: 0 <= t < |b| ==> Alternative(b[t])
    ensures a == b
  {
    var s := Serialize(a);
    assert Join(a) == s[1..|s| - 1];
    assert Join(b) == s[1..|s| - 1];
    JoinUnique(a, b);
  }

  // ---------------------------------------------------------------------
  // The properties of `parse_pattern`.

  /** A plain string comes back exactly when there is no `{` at `pos` or the
      group opened there never closes; it is then the rest of the text and
      the position is the end of the text. */
  lemma LiteralExactlyWhenUnclosed(text: string, pos: nat)
    ensures var r := Parse(text, pos);
      r.node.Literal? <==> (pos >= |text| || text[pos] != '{' || NeverCloses(text, pos))
    ensures var r := Parse(text, pos);
      r.node.Literal? ==> r.node.text == Rest(text, pos) && r.next == |text|
  {
    if pos < |text| && text[pos] == '{' {
      ParseOutcome(text, pos);
      var r := Parse(text, pos);
      if r.node.Choice? {
        assert Depth(text, pos, r.next) == 0;
      }
    }
  }

  /** A closed group: a non-empty list of alternatives, a new position just
      past the matching `}` (the first point where the braces balance), the
      alternatives re-serialise to exactly the text consumed, and each one
      is balanced with no `|` of its own outside nested braces, so the
      split falls exactly at the group's own bars. */
  lemma ChoiceRoundTrip(text: string, pos: nat)
    requires Parse(text, pos).node.Choice?
    ensures var r := Parse(text, pos);
      && |r.node.options| > 0
      && pos < r.next <= |text|
      && text[r.next - 1] == '}'
      && ClosesAt(text, pos, r.next)
      && Serialize(r.node.options) == text[pos..r.next]
    ensures var r := Parse(text, pos);
      forall j :: 0 <= j < |r.node.options| ==> Alternative(r.node.options[j])
  {
    ParseOutcome(text, pos);
    ScanGroupAlternatives(text, pos, pos + 1, [], "");
  }

  /** Every alternative is strictly shorter than the text its group spans
      (each loses at least the two braces); this is what makes expansion of
      the alternatives terminate. */
  lemma OptionsShorter(text: string, pos: nat)
    requires Parse(text, pos).node.Choice?
    ensures var r := Parse(text, pos);
      forall j :: 0 <= j < |r.node.options| ==> |r.node.options[j]| + 2 <= r.next - pos
  {
    ChoiceRoundTrip(text, pos);
    JoinBounds(Parse(text, pos).node.options);
  }

  // ---------------------------------------------------------------------
  // Parsing a serialised flat group gives back its alternatives.

  predicate Plain(c: char)
  {
    c != '{' && c != '}' && c != '|'
  }

  predicate PlainText(s: string)
  {
    forall k :: 0 <= k < |s| ==> Plain(s[k])
  }

  lemma {:induction false} ScanPlain(text: string, pos: nat, i: nat, options: seq<string>, current: string, w: string)
    requires pos < i && i + |w| <= |text| && text[i..i + |w|] == w && PlainText(w)
    ensures ScanGroup(text, pos, i, options, current) == ScanGroup(text, pos, i + |w|, options, current + w)
    decreases |w|
  {
    if |w| == 0 {
      assert current + w == current;
    } else {
      assert text[i] == w[0];
      assert Plain(w[0]);
      assert text[i + 1..i + |w|] == w[1..];
      ScanPlain(text, pos, i + 1, options, current + [w[0]], w[1..]);
      assert current + [w[0]] + w[1..] == current + w;
    }
  }

  /** Serialising alternatives that hold no brace and no pipe and parsing
      the result gives the same alternatives back, empty ones included:
      `{|a}` parses to `["", "a"]`. */
  lemma {:induction false} FlatGroupRoundTrip(options: seq<string>)
    requires |options| > 0
    requires forall j :: 0 <= j < |options| ==> PlainText(options[j])
    ensures Parse(Serialize(options), 0) == Parsed(Choice(options), |Serialize(options)|)
  {
    FlatScan(options, 0);
    assert options[..0] == [];
  }

  /** Scanning the serialisation from the start of alternative `j`. */
  lemma {:induction false} FlatScan(options: seq<string>, j: nat)
    requires j < |options|
    requires forall t :: 0 <= t < |options| ==> PlainText(options[t])
    ensures var text := Serialize(options);
      var i := 1 + |Closed(options[..j])|;
      i < |text| && ScanGroup(text, 0, i, options[..j], "") == Parsed(Choice(options), |text|)
    decreases |options| - j
  {
    if j + 1 == |options| {
      FlatScanLast(options, j);
    } else {
      FlatScanNext(options, j);
      FlatScan(options, j + 1);
    }
  }

  /** Reading the last alternative and the closing brace. */
  lemma FlatScanLast(options: seq<string>, j: nat)
    requires j + 1 == |options|
    requires forall t :: 0 <= t < |options| ==> PlainText(options[t])
    ensures var text := Serialize(options);
      var i := 1 + |Closed(options[..j])|;
      i < |text| && ScanGroup(text, 0, i, options[..j], "") == Parsed(Choice(options), |text|)
  {
    var text := Serialize(options);
    var pre := "{" + Closed(options[..j]);
    var w := options[j];
    SerializeSplit(options, j);
    Pieces(text, pre, w, "}");
    ScanAlternativeClose(text, |pre|, w, options[..j]);
    assert options[..j] + [w] == options;
  }

  /** Reading alternative `j` and the bar after it. */
  lemma FlatScanNext(options: seq<string>, j: nat)
    requires j + 1 < |options|
    requires PlainText(options[j])
    ensures var text := Serialize(options);
      var i := 1 + |Closed(options[..j])|;
      var i' := 1 + |Closed(options[..j + 1])|;
      i < i' < |text| && ScanGroup(text, 0, i, options[..j], "") == ScanGroup(text, 0, i', options[..j + 1], "")
  {
    var text := Serialize(options);
    var pre := "{" + Closed(options[..j]);
    var w := options[j];
    var tail := "|" + Join(options[j + 1..]) + "}";
    SerializeMid(options, j);
    Pieces(text, pre, w, tail);
    ScanAlternativeBar(text, |pre|, w, options[..j]);
    assert options[..j] + [w] == options[..j + 1];
    ClosedAppend(options[..j], w);
    assert |text| == |pre| + |w| + |tail|;
    assert |Closed(options[..j + 1])| == |Closed(options[..j])| + |w| + 1;
  }

  /** Reading one plain alternative from the start of it to the character
      after it. */
  lemma ScanAlternative(text: string, i: nat, w: string, options: seq<string>)
    requires 0 < i && i + |w| < |text| && text[i..i + |w|] == w && PlainText(w)
    ensures ScanGroup(text, 0, i, options, "") == ScanGroup(text, 0, i + |w|, options, w)
  {
    ScanPlain(text, 0, i, options, "", w);
    assert "" + w == w;
  }

  lemma ScanAlternativeClose(text: string, i: nat, w: string, options: seq<string>)
    requires 0 < i && i + |w| < |text| && text[i..i + |w|] == w && PlainText(w) && text[i + |w|] == '}'
    ensures ScanGroup(text, 0, i, options, "") == Parsed(Choice(options + [w]), i + |w| + 1)
  {
    ScanAlternative(text, i, w, options);
    ScanAtClose(text, 0, i + |w|, options, w);
  }

  lemma ScanAlternativeBar(text: string, i: nat, w: string, options: seq<string>)
    requires 0 < i && i + |w| < |text| && text[i..i + |w|] == w && PlainText(w) && text[i + |w|] == '|'
    ensures ScanGroup(text, 0, i, options, "") == ScanGroup(text, 0, i + |w| + 1, options + [w], "")
  {
    ScanAlternative(text, i, w, options);
    ScanAtPipe(text, 0, i + |w|, options, w);
  }

  lemma ClosedAppend(options: seq<string>, w: string)
    ensures Closed(options + [w]) == Closed(options) + w + "|"
  {
    JoinAppend(options, w);
  }

  lemma ScanAtClose(text: string, pos: nat, k: nat, options: seq<string>, current: string)
    requires pos < k < |text| && text[k] == '}'
    ensures ScanGroup(text, pos, k, options, current) == Parsed(Choice(options + [current]), k + 1)
  {
  }

  lemma ScanAtPipe(text: string, pos: nat, k: nat, options: seq<string>, current: string)
    requires pos < k < |text| && text[k] == '|'
    ensures ScanGroup(text, pos, k, options, current) == ScanGroup(text, pos, k + 1, options + [current], "")
  {
  }

  lemma Pieces(text: string, pre: string, w: string, tail: string)
    requires text == pre + w + tail && |tail| > 0
    ensures text[|pre|..|pre| + |w|] == w && text[|pre| + |w|] == tail[0] && |pre| + |w| < |text|
  {
  }

  lemma SerializeMid(options: seq<string>, j: nat)
    requires j + 1 < |options|
    ensures Serialize(options) == ("{" + Closed(options[..j])) + options[j] + ("|" + Join(options[j + 1..]) + "}")
  {
    SerializeSplit(options, j);
  }

  /** The serialisation, cut at the start of alternative `j`. */
  lemma SerializeSplit(options: seq<string>, j: nat)
    requires j < |options|
    ensures Serialize(options) == "{" + Closed(options[..j]) + options[j] +
      (if j + 1 == |options| then "}" else "|" + Join(options[j + 1..]) + "}")
  {
    JoinSplit(options, j);
  }

  lemma {:induction false} JoinSplit(options: seq<string>, j: nat)
    requires j < |options|
    ensures Join(options) == Closed(options[..j]) + options[j] +
      (if j + 1 == |options| then "" else "|" + Join(options[j + 1..]))
  {
    var upto := options[..j + 1];
    assert options[..j] + [options[j]] == upto;
    JoinAppend(options[..j], options[j]);
    if j + 1 == |options| {
      assert upto == options;
    } else {
      assert upto + options[j + 1..] == options;
      JoinConcat(upto, options[j + 1..]);
    }
  }

  /** Joining two non-empty lists puts one bar between their joins. */
  lemma {:induction false} JoinConcat(a: seq<string>, b: seq<string>)
    requires |a| > 0 && |b| > 0
    ensures Join(a + b) == Join(a) + "|" + Join(b)
    decreases |b|
  {
    var ab := a + b;
    var last := b[|b| - 1];
    if |b| == 1 {
      assert ab[..|ab| - 1] == a;
    } else {
      var init := b[..|b| - 1];
      assert ab[..|ab| - 1] == a + init;
      JoinConcat(a, init);
      assert Join(b) == Join(init) + "|" + last;
    }
  }

  /** Empty alternatives are kept: `{|a}` parses to `["", "a"]` and the
      whole text is consumed. */
  lemma EmptyAlternativeKept()
    ensures Parse("{|a}", 0) == Parsed(Choice(["", "a"]), 4)
  {
    var options := ["", "a"];
    assert options[..1] == [""];
    assert Serialize(options) == "{|a}";
    assert PlainText(options[0]) && PlainText(options[1]);
    FlatGroupRoundTrip(options);
  }
}
