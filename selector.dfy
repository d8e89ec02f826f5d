/** The selection engine of the generator: the filter on the dataset, the
    random pick that avoids recently shown names, and the bounded history
    of those names. */
module Selection {
  import opened Records
  import opened Sequences

  /** How many recent names the history remembers. */
  const HistorySize: nat := 8

  // ----- The filter -----

  predicate IsLegendary(p: Record) { p.category == "Legendary" || p.category == "Mythical" }

  predicate IsUltraBeast(p: Record) { p.category == "Ultra Beast" }

  predicate HasStandardEvolution(p: Record)
  {
    p.evolution == "lowest" || p.evolution == "middle" || p.evolution == "highest"
  }

  /** The entries the habitat and evolution choices apply to. Exempt are
      the 'Legendary' and 'Ultra Beast' categories and every entry that is
      neither 'Standard' nor on an evolution line. 'Mythical' is not exempt
      as such: a 'Mythical' entry on an evolution line is subject to both
      choices. */
  predicate StandardBranch(p: Record)
  {
    (p.category == "Standard" || HasStandardEvolution(p))
    && p.category != "Legendary" && p.category != "Ultra Beast"
  }

  /** The category gates: legendary and mythical entries need
      `includeLegendary`, ultra beasts need `includeUltraBeast`. */
  predicate Admitted(p: Record, c: Criteria)
  {
    (IsLegendary(p) ==> c.includeLegendary) && (IsUltraBeast(p) ==> c.includeUltraBeast)
  }

  predicate HabitatMatches(p: Record, c: Criteria) { c.occasion == All || p.habitat == c.occasion }

  predicate EvolutionMatches(p: Record, c: Criteria) { c.evolution == All || p.evolution == c.evolution }

  predicate TypeMatches(p: Record, c: Criteria) { c.typeFilter == All || c.typeFilter in p.types }

  /** Whether the generator keeps entry `p` under criteria `c`, as the chain
      of early rejections of the filter callback. */
  predicate Keep(p: Record, c: Criteria)
  {
    if IsLegendary(p) && !c.includeLegendary then false
    else if IsUltraBeast(p) && !c.includeUltraBeast then false
    else if StandardBranch(p) && c.occasion != All && p.habitat != c.occasion then false
    else if StandardBranch(p) && c.evolution != All && p.evolution != c.evolution then false
    else if c.typeFilter != All && c.typeFilter !in p.types then false
    else true
  }

  /** The filter as a conjunction of the rules it enforces. */
  lemma KeepIff(p: Record, c: Criteria)
    ensures Keep(p, c) <==>
      Admitted(p, c)
      && (StandardBranch(p) ==> HabitatMatches(p, c) && EvolutionMatches(p, c))
      && TypeMatches(p, c)
  {
  }

  /** An entry of the standard branch must match the habitat, evolution and
      type choices (and pass the gates). */
  lemma KeepStandard(p: Record, c: Criteria)
    requires StandardBranch(p)
    ensures Keep(p, c) <==>
      Admitted(p, c) && HabitatMatches(p, c) && EvolutionMatches(p, c) && TypeMatches(p, c)
  {
  }

  /** Any other entry passes the habitat and evolution choices unchecked. */
  lemma KeepExempt(p: Record, c: Criteria)
    requires !StandardBranch(p)
    ensures Keep(p, c) <==> Admitted(p, c) && TypeMatches(p, c)
  {
  }

  /** A mythical entry on an evolution line is dropped by a habitat choice
      it does not match, even when legendary entries are included. */
  lemma MythicalIsHabitatFiltered()
    ensures !Keep(Record("Meltan", "Mythical", "city", "lowest", ["steel"], None, []),
                  Criteria("beach", All, All, true, true))
    ensures Keep(Record("Meltan", "Mythical", "city", "lowest", ["steel"], None, []),
                 Criteria("city", All, All, true, true))
  {
  }

  /** Every mythical entry on an evolution line is in the standard branch,
      so the habitat and evolution choices apply to it. */
  lemma MythicalOnEvolutionLineIsStandard(p: Record, c: Criteria)
    requires p.category == "Mythical" && HasStandardEvolution(p)
    ensures StandardBranch(p)
    ensures Keep(p, c) ==> HabitatMatches(p, c) && EvolutionMatches(p, c)
  {
  }

  /** The filtered list: the kept entries in dataset order. */
  function Filtered(data: seq<Record>, c: Criteria): (r: seq<Record>)
  {
    Filter(data, p => Keep(p, c))
  }

  /** The filtered list is the ordered subsequence of the dataset made of
      exactly the kept entries; no kept entry breaks a gate or the type
      choice. */
  lemma FilteredSound(data: seq<Record>, c: Criteria)
    ensures IsSubsequence(Filtered(data, c), data)
    ensures forall p :: p in Filtered(data, c) <==> p in data && Keep(p, c)
    ensures forall p :: multiset(Filtered(data, c))[p] == if Keep(p, c) then multiset(data)[p] else 0
    ensures forall p :: p in Filtered(data, c) && IsLegendary(p) ==> c.includeLegendary
    ensures forall p :: p in Filtered(data, c) && IsUltraBeast(p) ==> c.includeUltraBeast
    ensures forall p :: p in Filtered(data, c) && c.typeFilter != All ==> c.typeFilter in p.types
    ensures forall p :: p in Filtered(data, c) && StandardBranch(p) ==>
      HabitatMatches(p, c) && EvolutionMatches(p, c)
  {
    FilterIsSubsequence(data, p => Keep(p, c));
    FilterCounts(data, p => Keep(p, c));
  }

  /** The entries of the filtered list whose name is not in the history. */
  function Available(filtered: seq<Record>, history: seq<string>): (r: seq<Record>)
  {
    Filter(filtered, (p: Record) => p.name !in history)
  }

  lemma AvailableSound(filtered: seq<Record>, history: seq<string>)
    ensures IsSubsequence(Available(filtered, history), filtered)
    ensures forall p :: p in Available(filtered, history) <==> p in filtered && p.name !in history
    ensures forall p ::
      multiset(Available(filtered, history))[p] == (if p.name !in history then multiset(filtered)[p] else 0)
    ensures Available(filtered, history) == [] <==> forall p :: p in filtered ==> p.name in history
  {
    FilterIsSubsequence(filtered, (p: Record) => p.name !in history);
    FilterCounts(filtered, (p: Record) => p.name !in history);
  }

  // ----- The random draws -----

  /** One value of `Math.random()`, taken as the exact fraction num/den in [0, 1). */
  datatype Draw = Draw(num: nat, den: nat)

  predicate ValidDraw(d: Draw) { d.num < d.den }

  /** `Math.floor(Math.random() * n)`: the integer part of the draw scaled by `n`. */
  function ScaleIndex(d: Draw, n: nat): (k: nat)
    requires ValidDraw(d)
    ensures n > 0 ==> k < n
  {
    ScaledBelow(d.num, d.den, n);
    (d.num * n) / d.den
  }

  lemma ScaledBelow(num: nat, den: nat, n: nat)
    requires num < den
    ensures n > 0 ==> (num * n) / den < n
  {
    if n > 0 {
      var a := num * n;
      var k := a / den;
      assert k * den <= a by { FloorBelow(a, den); }
      MulMonotone(n, num, den - 1);
      assert a <= n * (den - 1) == n * den - n;
      FactorBelow(k, n, den);
    }
  }

  /** The scaled draw is the floor of `random * n`. */
  lemma ScaleIndexIsFloor(d: Draw, n: nat)
    requires ValidDraw(d)
    ensures ScaleIndex(d, n) * d.den <= d.num * n < (ScaleIndex(d, n) + 1) * d.den
  {
    var a := d.num * n;
    FloorBelow(a, d.den);
    FloorAbove(a, d.den);
  }

  lemma FloorBelow(a: nat, den: nat)
    requires den > 0
    ensures (a / den) * den <= a
  {
  }

  lemma FloorAbove(a: nat, den: nat)
    requires den > 0
    ensures a < (a / den + 1) * den
  {
    var k := a / den;
    assert a == k * den + a % den;
    assert (k + 1) * den == k * den + den;
  }

  lemma FactorBelow(k: nat, n: nat, den: nat)
    requires k * den < n * den
    ensures k < n
  {
  }

  lemma MulMonotone(a: nat, x: nat, y: nat)
    requires x <= y
    ensures a * x <= a * y
  {
  }

  /** Every index below `n` is the pick of some draw. */
  lemma EveryIndexReachable(n: nat, k: nat)
    requires k < n
    ensures ValidDraw(Draw(k, n)) && ScaleIndex(Draw(k, n), n) == k
  {
    var q := ScaleIndex(Draw(k, n), n);
    ScaleIndexIsFloor(Draw(k, n), n);
    FactorBelow(k, q + 1, n);
    assert (k + 1) * n == k * n + n;
    FactorBelow(q, k + 1, n);
  }

  /** The shiny roll: `Math.floor(Math.random() * 100) === 0`. */
  predicate IsShiny(d: Draw)
    requires ValidDraw(d)
  {
    ScaleIndex(d, 100) == 0
  }

  /** A draw is shiny exactly when it falls in the first hundredth of [0, 1). */
  lemma {:induction false} ShinyIff(d: Draw)
    requires ValidDraw(d)
    ensures IsShiny(d) <==> d.num * 100 < d.den
  {
    var k := ScaleIndex(d, 100);
    ScaleIndexIsFloor(d, 100);
    if k > 0 {
      MulMonotone(d.den, 1, k);
      assert d.den <= k * d.den;
    }
  }

  // ----- One selection -----

  /** What a selection shows: nothing loaded, nothing matching, or an entry
      with its shiny flag. */
  datatype Outcome = NotLoaded | NoMatch | Picked(entry: Record, shiny: bool)

  /** The outcome of one selection together with the history after it. */
  datatype StepResult = StepResult(outcome: Outcome, history: seq<string>)

  /** Appends `name` to the history, dropping the oldest name once more than
      `HistorySize` are held. */
  function Remember(history: seq<string>, name: string): (r: seq<string>)
    requires |history| <= HistorySize
    ensures r == LastN(history + [name], HistorySize)
    ensures 0 < |r| <= HistorySize && r[|r| - 1] == name
  {
    var pushed := history + [name];
    if |pushed| > HistorySize then pushed[1..] else pushed
  }

  /** One run of the generator on `data` and `c`, from `history`, with the
      two values `Math.random()` returns. */
  function Step(history: seq<string>, data: seq<Record>, c: Criteria,
                shinyDraw: Draw, indexDraw: Draw): (r: StepResult)
    requires |history| <= HistorySize
    requires ValidDraw(shinyDraw) && ValidDraw(indexDraw)
  {
    if data == [] then StepResult(NotLoaded, history)
    else
      var filtered := Filtered(data, c);
      if filtered == [] then StepResult(NoMatch, history)
      else
        var available := Available(filtered, history);
        var prior := if available == [] then [] else history;
        var pool := if available == [] then filtered else available;
        var e := pool[ScaleIndex(indexDraw, |pool|)];
        StepResult(Picked(e, IsShiny(shinyDraw)), Remember(prior, e.name))
  }

  /** When nothing is loaded or nothing matches, there is no pick and the
      history stays exactly as it was. */
  lemma StepNoPick(history: seq<string>, data: seq<Record>, c: Criteria, sd: Draw, id: Draw)
    requires |history| <= HistorySize && ValidDraw(sd) && ValidDraw(id)
    ensures Step(history, data, c, sd, id).outcome == NotLoaded <==> data == []
    ensures Step(history, data, c, sd, id).outcome == NoMatch <==> data != [] && Filtered(data, c) == []
    ensures !Step(history, data, c, sd, id).outcome.Picked? ==> Step(history, data, c, sd, id).history == history
  {
  }

  /** A pick always comes from the filtered list; it is a name outside the
      history whenever some filtered entry's name is outside the history. */
  lemma {:induction false} StepPicksFiltered(history: seq<string>, data: seq<Record>, c: Criteria, sd: Draw, id: Draw)
    requires |history| <= HistorySize && ValidDraw(sd) && ValidDraw(id)
    requires exists p :: p in data && Keep(p, c)
    ensures Step(history, data, c, sd, id).outcome.Picked?
    ensures Step(history, data, c, sd, id).outcome.entry in Filtered(data, c)
    ensures Step(history, data, c, sd, id).outcome.entry in data
    ensures (exists p :: p in Filtered(data, c) && p.name !in history) ==>
      Step(history, data, c, sd, id).outcome.entry.name !in history
    ensures Step(history, data, c, sd, id).outcome.shiny <==> sd.num * 100 < sd.den
  {
    var filtered := Filtered(data, c);
    FilteredSound(data, c);
    AvailableSound(filtered, history);
    ShinyIff(sd);
  }

  /** Once every filtered name is in the history, the history is cleared
      before the push and holds only the new pick. */
  lemma StepResetsWhenExhausted(history: seq<string>, data: seq<Record>, c: Criteria, sd: Draw, id: Draw)
    requires |history| <= HistorySize && ValidDraw(sd) && ValidDraw(id)
    requires Filtered(data, c) != []
    requires forall p :: p in Filtered(data, c) ==> p.name in history
    ensures Step(history, data, c, sd, id).outcome.Picked?
    ensures Step(history, data, c, sd, id).history == [Step(history, data, c, sd, id).outcome.entry.name]
  {
    AvailableSound(Filtered(data, c), history);
  }

  /** After a pick the history is the old one, or the empty one after a
      reset, with the picked name appended and its oldest name dropped only
      when it would exceed `HistorySize`. */
  lemma StepHistory(history: seq<string>, data: seq<Record>, c: Criteria, sd: Draw, id: Draw)
    requires |history| <= HistorySize && ValidDraw(sd) && ValidDraw(id)
    requires exists p :: p in data && Keep(p, c)
    ensures Step(history, data, c, sd, id).outcome.Picked?
    ensures var r := Step(history, data, c, sd, id);
      var before := if Available(Filtered(data, c), history) == [] then [] else history;
      && |r.history| <= HistorySize
      && r.history[|r.history| - 1] == r.outcome.entry.name
      && r.history == (if |before| + 1 > HistorySize then (before + [r.outcome.entry.name])[1..]
                       else before + [r.outcome.entry.name])
  {
    FilteredSound(data, c);
  }

  /** The history never holds a name twice. */
  lemma StepKeepsDistinct(history: seq<string>, data: seq<Record>, c: Criteria, sd: Draw, id: Draw)
    requires |history| <= HistorySize && ValidDraw(sd) && ValidDraw(id)
    requires Distinct(history)
    ensures Distinct(Step(history, data, c, sd, id).history)
  {
    var r := Step(history, data, c, sd, id);
    var available := Available(Filtered(data, c), history);
    if r.outcome.Picked? && available != [] {
      AvailableSound(Filtered(data, c), history);
      assert available[0] in Filtered(data, c) && available[0].name !in history;
      FilteredSound(data, c);
      StepPicksFiltered(history, data, c, sd, id);
      RememberKeepsDistinct(history, r.outcome.entry.name);
    }
  }

  /** Pushing a name not yet held keeps the history free of repeats. */
  lemma RememberKeepsDistinct(history: seq<string>, name: string)
    requires |history| <= HistorySize && Distinct(history) && name !in history
    ensures Distinct(Remember(history, name))
  {
    var pushed := history + [name];
    assert Distinct(pushed);
    assert Remember(history, name) == pushed || Remember(history, name) == pushed[1..];
  }

  /** Remembering names one after another leaves the last `HistorySize` of
      them, after what the history held before. */
  function RememberAll(history: seq<string>, names: seq<string>): (r: seq<string>)
    requires |history| <= HistorySize
    ensures |r| <= HistorySize
    decreases |names|
  {
    if names == [] then history
    else RememberAll(Remember(history, names[0]), names[1..])
  }

  lemma {:induction false} RememberAllIsLastN(history: seq<string>, names: seq<string>)
    requires |history| <= HistorySize
    ensures RememberAll(history, names) == LastN(history + names, HistorySize)
    decreases |names|
  {
    if names != [] {
      var first, rest := names[0], names[1..];
      var h := Remember(history, first);
      calc {
        RememberAll(history, names);
        RememberAll(h, rest);
        { RememberAllIsLastN(h, rest); }
        LastN(h + rest, HistorySize);
        { LastNOfLastN(history + [first], rest); }
        LastN(history + [first] + rest, HistorySize);
        { assert history + [first] + rest == history + names; }
        LastN(history + names, HistorySize);
      }
    }
  }

  lemma LastNOfLastN(s: seq<string>, t: seq<string>)
    ensures LastN(LastN(s, HistorySize) + t, HistorySize) == LastN(s + t, HistorySize)
  {
    var a := LastN(LastN(s, HistorySize) + t, HistorySize);
    var b := LastN(s + t, HistorySize);
    assert |a| == |b|;
    forall i | 0 <= i < |a| ensures a[i] == b[i] {
    }
  }

  /** After nine more picks, the oldest of them has left the history. */
  lemma NinthPickEvictsFirst(history: seq<string>, names: seq<string>)
    requires |history| <= HistorySize && |names| == HistorySize + 1
    requires names[0] !in names[1..]
    ensures names[0] !in RememberAll(history, names)
  {
    RememberAllIsLastN(history, names);
    LastNOfLonger(history, names);
  }

  lemma LastNOfLonger(history: seq<string>, names: seq<string>)
    requires |names| == HistorySize + 1
    ensures LastN(history + names, HistorySize) == names[1..]
  {
    var all := history + names;
    assert all[|all| - HistorySize..] == names[1..];
  }

  // ----- The generator's state -----

  /** The generator's session state: the module-level history of names. */
  class Selector {
    var history: seq<string>

    ghost predicate Valid()
      reads this
    {
      |history| <= HistorySize && Distinct(history)
    }

    constructor ()
      ensures Valid() && history == []
    {
      history := [];
    }

    /** One press of the generate button on the loaded `data` with choices
      `c`; `shinyDraw` and `indexDraw` are the two values `Math.random()`
      returns, in that order. */
    method Select(data: seq<Record>, c: Criteria, shinyDraw: Draw, indexDraw: Draw)
      returns (outcome: Outcome)
      requires Valid() && ValidDraw(shinyDraw) && ValidDraw(indexDraw)
      modifies this
      ensures Valid()
      ensures StepResult(outcome, history) == Step(old(history), data, c, shinyDraw, indexDraw)
      ensures !outcome.Picked? ==> history == old(history)
      ensures outcome.Picked? ==>
        outcome.entry in Filtered(data, c)
        && history[|history| - 1] == outcome.entry.name
    {
      ghost var before := history;
      if data == [] {
        outcome := NotLoaded;
        return;
      }
      var isShiny := IsShiny(shinyDraw);
      var filtered := Filtered(data, c);
      var available := Available(filtered, history);
      if filtered == [] {
        outcome := NoMatch;
        return;
      }
      if available == [] {
        available := filtered;
        history := [];
      }
      var index := ScaleIndex(indexDraw, |available|);
      var selected := available[index];
      assert selected in filtered;
      history := history + [selected.name];
      if |history| > HistorySize {
        history := history[1..];
      }
      outcome := Picked(selected, isShiny);
      StepKeepsDistinct(before, data, c, shinyDraw, indexDraw);
    }
  }
}
