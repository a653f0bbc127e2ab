/** Picking one expansion per run: the per-instance counter, the index it
    selects, the optional prefix and the node object that keeps the
    counter between runs. */
module Selection {
  import opened PatternExpander
  import opened Whitespace

  /** `get_combination`: the empty pair for no combinations, otherwise
      the combination at `index` taken modulo the count. */
  function GetCombination(combinations: seq<Combination>, index: int): (c: Combination)
    ensures combinations == [] ==> c == Combination("", [])
    ensures combinations != [] ==> c in combinations
    ensures 0 <= index < |combinations| ==> c == combinations[index]
  {
    if combinations == [] then Combination("", [])
    else combinations[index % |combinations|]
  }

  /** Adding the count to the index selects the same combination. */
  lemma GetCombinationWraps(combinations: seq<Combination>, index: int, laps: int)
    ensures GetCombination(combinations, index + laps * |combinations|) == GetCombination(combinations, index)
  {
    if combinations != [] {
      ModShift(index, laps, |combinations|);
    }
  }

  /** Python's `%` with a positive divisor, like Dafny's, ignores whole
      multiples of the divisor. */
  lemma ModShift(x: int, laps: int, n: int)
    requires n > 0
    ensures (x + laps * n) % n == x % n
  {
    var q := x / n;
    var m := x % n;
    assert x + laps * n == (q + laps) * n + m;
    ModOfMultiplePlus(q + laps, n, m);
  }

  lemma ModOfMultiplePlus(q: int, n: int, m: int)
    requires 0 <= m < n
    ensures (q * n + m) % n == m
  {
    var x := q * n + m;
    var d := x / n;
    var r := x % n;
    assert x == d * n + r;
    assert (q - d) * n == r - m;
    if q - d >= 1 {
      assert false;
    } else if q - d <= -1 {
      assert false;
    }
  }

  /** Stepping past a remainder and reducing again is the remainder of
      the successor. */
  lemma SuccessorMod(x: int, n: int)
    requires n > 0
    ensures (x % n + 1) % n == (x + 1) % n
  {
    var q := x / n;
    var m := x % n;
    assert x + 1 == q * n + (m + 1);
    if m + 1 < n {
      ModOfMultiplePlus(q, n, m + 1);
      ModOfMultiplePlus(0, n, m + 1);
    } else {
      assert x + 1 == (q + 1) * n + 0;
      ModOfMultiplePlus(q + 1, n, 0);
      ModOfMultiplePlus(1, n, 0);
    }
  }

  /** A value and its remainder differ by a multiple of the modulus. */
  lemma SuccessorCongruent(x: int, n: int)
    requires n > 0
    ensures (x - x % n) % n == 0
  {
    assert x - x % n == x / n * n + 0;
    ModOfMultiplePlus(x / n, n, 0);
  }

  /** The counter update of `process_text`: with no pin (`-1`) and
      autoincrement the stored counter advances, starting at 0 the first
      time and wrapping at `total`; a pin that differs from the stored
      value is adopted as it is; a pin equal to the stored value advances
      it only with autoincrement; otherwise nothing changes. */
  function NextCounter(stored: int, requested: int, autoincrement: bool, total: nat): (c: int)
    requires total > 0
    ensures requested == -1 && autoincrement ==> 0 <= c < total
    ensures requested == -1 && autoincrement && stored == -1 ==> c == 0
    ensures requested == -1 && !autoincrement ==> c == stored
    ensures requested != -1 && requested == stored && autoincrement ==> 0 <= c < total
    ensures requested != -1 && requested != stored ==> c == requested
    ensures requested != -1 && requested == stored && !autoincrement ==> c == stored
    ensures autoincrement && (requested == -1 || requested == stored) && 0 <= stored < total - 1 ==> c == stored + 1
    ensures autoincrement && (requested == -1 || requested == stored) && stored == total - 1 ==> c == 0
    ensures autoincrement && (requested == -1 || requested == stored) && stored != -1 ==> (stored + 1 - c) % total == 0
  {
    if autoincrement && (requested == -1 || requested == stored) then
      if stored == -1 then 0
      else
        SuccessorCongruent(stored + 1, total);
        (stored + 1) % total
    else if requested != -1 && requested != stored then requested
    else stored
  }

  /** With no pin and autoincrement, a stored counter moved by any multiple
      of `total` advances to the same value: an out-of-range counter behaves
      like its remainder, and `-1` like `total - 1`. */
  lemma {:induction false} NextCounterWraps(stored: int, laps: int, total: nat)
    requires total > 0
    ensures NextCounter(stored + laps * total, -1, true, total) == NextCounter(stored, -1, true, total)
  {
    var moved := stored + laps * total;
    if stored == -1 && moved != -1 {
      assert moved + 1 == laps * total + 0;
      ModOfMultiplePlus(laps, total, 0);
    } else if stored != -1 && moved == -1 {
      assert stored + 1 == -laps * total + 0;
      ModOfMultiplePlus(-laps, total, 0);
    } else if stored != -1 {
      assert moved + 1 == (stored + 1) + laps * total;
      ModShift(stored + 1, laps, total);
    }
  }

  /** The counter after `runs` runs of a fresh node with no pin and
      autoincrement on, the expansion having `total` combinations. */
  function Autoincremented(total: nat, runs: nat): (c: int)
    requires total > 0
    ensures -1 <= c < total
  {
    if runs == 0 then -1
    else NextCounter(Autoincremented(total, runs - 1), -1, true, total)
  }

  /** Autoincrement walks a fresh node's counter through `0, 1, ...,
      total - 1` and round again: run `k` leaves `(k - 1) % total`. */
  lemma {:induction false} AutoincrementCycles(total: nat, runs: nat)
    requires total > 0 && runs > 0
    ensures Autoincremented(total, runs) == (runs - 1) % total
  {
    if runs > 1 {
      AutoincrementCycles(total, runs - 1);
      var before := Autoincremented(total, runs - 1);
      assert before == (runs - 2) % total && before != -1;
      assert Autoincremented(total, runs) == (before + 1) % total;
      SuccessorMod(runs - 2, total);
    }
  }

  /** Whatever is stored, a counter pinned twice without autoincrement
      stays at the pin: pinning is idempotent. */
  lemma PinIsIdempotent(stored: int, pin: int, total: nat)
    requires total > 0 && pin != -1
    ensures NextCounter(stored, pin, false, total) == pin
    ensures NextCounter(NextCounter(stored, pin, false, total), pin, false, total) == pin
  {
  }

  /** A pin in range together with autoincrement does not cycle: the runs
      alternate between the pin and its successor modulo `total`. */
  lemma PinWithAutoincrementAlternates(pin: int, total: nat)
    requires 0 <= pin < total && total > 1
    ensures NextCounter(pin, pin, true, total) == (pin + 1) % total
    ensures (pin + 1) % total != pin
    ensures NextCounter((pin + 1) % total, pin, true, total) == pin
  {
    if pin + 1 < total {
      assert (pin + 1) % total == pin + 1;
    } else {
      assert (pin + 1) % total == 0;
    }
  }

  /** With a stored counter and a pin both in `[-1, total)` the updated
      counter stays in `[-1, total)`; a run with no pin and autoincrement
      brings it into `[0, total)`. */
  lemma CounterStaysInRange(stored: int, requested: int, autoincrement: bool, total: nat)
    requires total > 0
    requires -1 <= stored < total && -1 <= requested < total
    ensures -1 <= NextCounter(stored, requested, autoincrement, total) < total
    ensures stored != -1 ==> NextCounter(stored, requested, autoincrement, total) != -1
  {
  }

  /** The selected index: in shuffle mode the counter modulo `total`,
      otherwise a draw from the random generator seeded with
      `seed + counter`; `randrange(s, n)` stands for
      `random.Random(s).randrange(n)`. */
  function SelectIndex(shuffle: bool, seed: int, counter: int, total: nat, randrange: (int, nat) -> int): (r: int)
    requires total > 0
    requires forall s: int, n: nat :: 0 < n ==> 0 <= randrange(s, n) < n
    ensures 0 <= r < total
    ensures shuffle && 0 <= counter < total ==> r == counter
    ensures shuffle ==> (counter - r) % total == 0
    ensures shuffle && counter == -1 ==> r == total - 1
  {
    if shuffle then
      var m := counter % total;
      ModOfMultiplePlus(counter / total, total, 0);
      assert counter - m == counter / total * total + 0;
      ModOfMultiplePlus(-1, total, total - 1);
      m
    else randrange(seed + counter, total)
  }

  /** In shuffle mode a counter moved by any multiple of `total` selects
      the same index, so an out-of-range counter selects its remainder. */
  lemma ShuffleIndexWraps(seed: int, counter: int, laps: int, total: nat, randrange: (int, nat) -> int)
    requires total > 0
    requires forall s: int, n: nat :: 0 < n ==> 0 <= randrange(s, n) < n
    ensures SelectIndex(true, seed, counter + laps * total, total, randrange) == SelectIndex(true, seed, counter, total, randrange)
  {
    ModShift(counter, laps, total);
  }

  /** In shuffle mode a fresh node with autoincrement selects the
      combinations in order, one per run, and round again. */
  lemma ShuffleVisitsInOrder(seed: int, total: nat, runs: nat, randrange: (int, nat) -> int)
    requires total > 0 && runs > 0
    requires forall s: int, n: nat :: 0 < n ==> 0 <= randrange(s, n) < n
    ensures SelectIndex(true, seed, Autoincremented(total, runs), total, randrange) == (runs - 1) % total
  {
    AutoincrementCycles(total, runs);
  }

  /** A non-empty `input_text` is stripped and put in front of the chosen
      text with one space between. */
  function WithPrefix(inputText: string, text: string): (r: string)
    ensures inputText == "" ==> r == text
    ensures inputText != "" ==> |r| == |Strip(inputText)| + 1 + |text| && r[|r| - |text|..] == text
    ensures inputText != "" ==> r[..|Strip(inputText)|] == Strip(inputText) && r[|Strip(inputText)|] == ' '
  {
    if inputText != "" then Strip(inputText) + " " + text else text
  }

  /** The prefix never starts with whitespace and is separated from the
      chosen text by exactly one space when the input text has something
      besides whitespace. */
  lemma PrefixIsTrimmed(inputText: string, text: string)
    requires exists k :: 0 <= k < |inputText| && !IsSpace(inputText[k])
    ensures var r := WithPrefix(inputText, text);
      && !IsSpace(r[0])
      && !IsSpace(r[|r| - |text| - 2])
      && r[|r| - |text| - 1] == ' '
  {
    var p := Strip(inputText);
    assert p != [];
  }

  /** The debug string of a run: template, chosen text, decision path and
      the 1-based index out of the total. */
  datatype Report = Report(template: string, result: string, path: Path, position: int, total: nat)

  /** What `IS_CHANGED` hands the host for change detection: the seed
      alone, or the seed with the counter widget when autoincrement is on. */
  datatype ChangeTag = SeedTag(seed: int) | SeedCounterTag(seed: int, counter: int)

  function IsChanged(seed: int, counter: int, autoincrement: bool): (t: ChangeTag)
    ensures t.seed == seed
    ensures t.SeedCounterTag? <==> autoincrement
    ensures t.SeedCounterTag? ==> t.counter == counter
  {
    if autoincrement then SeedCounterTag(seed, counter) else SeedTag(seed)
  }

  /** Two runs look unchanged to the host exactly when they share the seed
      and, with autoincrement, the counter widget; the stored instance
      counter plays no part. */
  lemma IsChangedDetects(seed1: int, counter1: int, seed2: int, counter2: int, autoincrement: bool)
    ensures IsChanged(seed1, counter1, autoincrement) == IsChanged(seed2, counter2, autoincrement)
      <==> seed1 == seed2 && (autoincrement ==> counter1 == counter2)
  {
  }

  /** The dynamic-text node: it keeps the counter between runs. */
  class DynamicText {
    var instanceCounter: int

    /** A fresh node has not run yet. */
    constructor ()
      ensures instanceCounter == -1
    {
      instanceCounter := -1;
    }

    /** One run of `process_text`: expand the template, update the stored
        counter, select a combination and prefix it; returns the text, the
        new counter and the debug report. */
    method ProcessText(text: string, seed: int, counter: int, shuffleMode: bool, autoincrement: bool,
                       inputText: string, randrange: (int, nat) -> int)
      returns (result: string, current: int, report: Report)
      requires forall s: int, n: nat :: 0 < n ==> 0 <= randrange(s, n) < n
      modifies this
      ensures var combinations := Expand(text, []);
        var total := |combinations|;
        && instanceCounter == NextCounter(old(instanceCounter), counter, autoincrement, total)
        && current == instanceCounter
        && var index := SelectIndex(shuffleMode, seed, instanceCounter, total, randrange);
        && result == WithPrefix(inputText, combinations[index].text)
        && report == Report(text, result, combinations[index].path, index + 1, total)
    {
      var combinations := ExpandPattern(text, []);
      var total := |combinations|;
      ghost var stored := instanceCounter;

      if counter == -1 && autoincrement {
        if instanceCounter == -1 {
          instanceCounter := 0;
        } else {
          instanceCounter := (instanceCounter + 1) % total;
        }
      } else if counter != -1 {
        if counter != instanceCounter {
          instanceCounter := counter;
        } else if autoincrement {
          instanceCounter := (instanceCounter + 1) % total;
        }
      }
      assert instanceCounter == NextCounter(stored, counter, autoincrement, total);

      var index;
      if shuffleMode {
        index := instanceCounter % total;
      } else {
        index := randrange(seed + instanceCounter, total);
      }
      assert index == SelectIndex(shuffleMode, seed, instanceCounter, total, randrange);

      var chosen := GetCombination(combinations, index);
      assert chosen == combinations[index];
      result := chosen.text;
      if inputText != "" {
        result := Strip(inputText) + " " + result;
      }
      assert result == WithPrefix(inputText, chosen.text);
      report := Report(text, result, chosen.path, index + 1, total);
      current := instanceCounter;
    }
  }
}
