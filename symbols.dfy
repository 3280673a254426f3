/** The symbol table of the LaTeX converter (MathSymbolConverter.kt:11-180)
    and Kotlin's `mapOf`, which builds an insertion-ordered map from a list
    of pairs: a symbol listed twice keeps the place of its first listing and
    the value of its last. */
module Symbols {
  import opened Options

  /** One entry: a symbol and the LaTeX text it becomes. */
  datatype Rule = Rule(symbol: string, latex: string)

  /** Basic operators (lines 13-19). */
  const BasicOperators: seq<Rule> := [
    Rule("×", "\\times"),
    Rule("÷", "\\div"),
    Rule("·", "\\cdot"),
    Rule("∗", "\\ast"),
    Rule("⊕", "\\oplus"),
    Rule("⊗", "\\otimes"),
    Rule("⊙", "\\odot")
  ]

  /** Relations (lines 22-44). */
  const Relations: seq<Rule> := [
    Rule("≠", "\\neq"),
    Rule("≤", "\\leq"),
    Rule("≥", "\\geq"),
    Rule("≪", "\\ll"),
    Rule("≫", "\\gg"),
    Rule("≈", "\\approx"),
    Rule("≡", "\\equiv"),
    Rule("∼", "\\sim"),
    Rule("≃", "\\simeq"),
    Rule("∝", "\\propto"),
    Rule("∈", "\\in"),
    Rule("∉", "\\notin"),
    Rule("⊂", "\\subset"),
    Rule("⊃", "\\supset"),
    Rule("⊆", "\\subseteq"),
    Rule("⊇", "\\supseteq"),
    Rule("∪", "\\cup"),
    Rule("∩", "\\cap"),
    Rule("⊥", "\\perp"),
    Rule("∥", "\\parallel"),
    Rule("∠", "\\angle"),
    Rule("∴", "\\therefore"),
    Rule("∵", "\\because")
  ]

  /** Greek letters (lowercase) (lines 47-69). */
  const GreekLowercase: seq<Rule> := [
    Rule("α", "\\alpha"),
    Rule("β", "\\beta"),
    Rule("γ", "\\gamma"),
    Rule("δ", "\\delta"),
    Rule("ε", "\\epsilon"),
    Rule("ζ", "\\zeta"),
    Rule("η", "\\eta"),
    Rule("θ", "\\theta"),
    Rule("ι", "\\iota"),
    Rule("κ", "\\kappa"),
    Rule("λ", "\\lambda"),
    Rule("μ", "\\mu"),
    Rule("ν", "\\nu"),
    Rule("ξ", "\\xi"),
    Rule("π", "\\pi"),
    Rule("ρ", "\\rho"),
    Rule("σ", "\\sigma"),
    Rule("τ", "\\tau"),
    Rule("υ", "\\upsilon"),
    Rule("φ", "\\phi"),
    Rule("χ", "\\chi"),
    Rule("ψ", "\\psi"),
    Rule("ω", "\\omega")
  ]

  /** Greek letters (uppercase) (lines 72-81). */
  const GreekUppercase: seq<Rule> := [
    Rule("Γ", "\\Gamma"),
    Rule("Δ", "\\Delta"),
    Rule("Θ", "\\Theta"),
    Rule("Λ", "\\Lambda"),
    Rule("Ξ", "\\Xi"),
    Rule("Π", "\\Pi"),
    Rule("Σ", "\\Sigma"),
    Rule("Φ", "\\Phi"),
    Rule("Ψ", "\\Psi"),
    Rule("Ω", "\\Omega")
  ]

  /** Special symbols (lines 84-95). */
  const SpecialSymbols: seq<Rule> := [
    Rule("±", "\\pm"),
    Rule("∓", "\\mp"),
    Rule("∞", "\\infty"),
    Rule("∅", "\\emptyset"),
    Rule("∇", "\\nabla"),
    Rule("∂", "\\partial"),
    Rule("ℏ", "\\hbar"),
    Rule("ℓ", "\\ell"),
    Rule("℘", "\\wp"),
    Rule("ℜ", "\\Re"),
    Rule("ℑ", "\\Im"),
    Rule("ℵ", "\\aleph")
  ]

  /** Arrows (lines 98-108). */
  const Arrows: seq<Rule> := [
    Rule("→", "\\to"),
    Rule("←", "\\leftarrow"),
    Rule("↔", "\\leftrightarrow"),
    Rule("⇒", "\\Rightarrow"),
    Rule("⇐", "\\Leftarrow"),
    Rule("⇔", "\\Leftrightarrow"),
    Rule("↦", "\\mapsto"),
    Rule("↗", "\\nearrow"),
    Rule("↘", "\\searrow"),
    Rule("↙", "\\swarrow"),
    Rule("↖", "\\nwarrow")
  ]

  /** Calculus & Analysis (lines 111-122). */
  const Calculus: seq<Rule> := [
    Rule("√", "\\sqrt"),
    Rule("∛", "\\sqrt[3]"),
    Rule("∜", "\\sqrt[4]"),
    Rule("∑", "\\sum"),
    Rule("∏", "\\prod"),
    Rule("∫", "\\int"),
    Rule("∬", "\\iint"),
    Rule("∭", "\\iiint"),
    Rule("∮", "\\oint"),
    Rule("∂", "\\partial"),
    Rule("∇", "\\nabla"),
    Rule("lim", "\\lim")
  ]

  /** Logic (lines 125-134). */
  const Logic: seq<Rule> := [
    Rule("∀", "\\forall"),
    Rule("∃", "\\exists"),
    Rule("∄", "\\nexists"),
    Rule("¬", "\\neg"),
    Rule("∧", "\\land"),
    Rule("∨", "\\lor"),
    Rule("⊤", "\\top"),
    Rule("⊥", "\\bot"),
    Rule("⊢", "\\vdash"),
    Rule("⊨", "\\models")
  ]

  /** Sets (lines 137-141). */
  const Sets: seq<Rule> := [
    Rule("ℕ", "\\mathbb{N}"),
    Rule("ℤ", "\\mathbb{Z}"),
    Rule("ℚ", "\\mathbb{Q}"),
    Rule("ℝ", "\\mathbb{R}"),
    Rule("ℂ", "\\mathbb{C}")
  ]

  /** Trigonometric (lines 144-155). */
  const Trigonometric: seq<Rule> := [
    Rule("sin", "\\sin"),
    Rule("cos", "\\cos"),
    Rule("tan", "\\tan"),
    Rule("cot", "\\cot"),
    Rule("sec", "\\sec"),
    Rule("csc", "\\csc"),
    Rule("arcsin", "\\arcsin"),
    Rule("arccos", "\\arccos"),
    Rule("arctan", "\\arctan"),
    Rule("sinh", "\\sinh"),
    Rule("cosh", "\\cosh"),
    Rule("tanh", "\\tanh")
  ]

  /** Logarithms (lines 158-160). */
  const Logarithms: seq<Rule> := [
    Rule("log", "\\log"),
    Rule("ln", "\\ln"),
    Rule("lg", "\\lg")
  ]

  /** Misc (lines 163-179). */
  const Misc: seq<Rule> := [
    Rule("°", "^\\circ"),
    Rule("′", "'"),
    Rule("″", "''"),
    Rule("‴", "'''"),
    Rule("†", "\\dagger"),
    Rule("‡", "\\ddagger"),
    Rule("...", "\\ldots"),
    Rule("⋯", "\\cdots"),
    Rule("⋮", "\\vdots"),
    Rule("⋱", "\\ddots"),
    Rule("⊞", "\\boxplus"),
    Rule("⊟", "\\boxminus"),
    Rule("⊠", "\\boxtimes"),
    Rule("∘", "\\circ"),
    Rule("∙", "\\bullet"),
    Rule("★", "\\star"),
    Rule("◦", "\\circ")
  ]
  /** The argument list of `mapOf` at lines 11-180, in order. */
  const SymbolPairs: seq<Rule> :=
    BasicOperators + Relations + GreekLowercase + GreekUppercase + SpecialSymbols + Arrows
    + Calculus + Logic + Sets + Trigonometric + Logarithms + Misc

  // ------------------------------------------------------------- mapOf

  /** The first index at or after `from` whose rule has symbol `symbol`, or
      `|m|` when there is none. */
  function IndexFrom(m: seq<Rule>, symbol: string, from: nat): (k: nat)
    requires from <= |m|
    ensures from <= k <= |m|
    ensures k < |m| ==> m[k].symbol == symbol
    ensures forall j :: from <= j < k ==> m[j].symbol != symbol
    decreases |m| - from
  {
    if from == |m| || m[from].symbol == symbol then from else IndexFrom(m, symbol, from + 1)
  }

  function IndexOf(m: seq<Rule>, symbol: string): (k: nat)
    ensures k <= |m|
    ensures k < |m| ==> m[k].symbol == symbol
    ensures forall j :: 0 <= j < k ==> m[j].symbol != symbol
  {
    IndexFrom(m, symbol, 0)
  }

  /** `LinkedHashMap.put`: a new symbol goes to the end, a known one keeps
      its place and takes the new value. */
  function Put(m: seq<Rule>, r: Rule): seq<Rule>
  {
    var i := IndexOf(m, r.symbol);
    if i < |m| then m[i := r] else m + [r]
  }

  /** `mapOf(pairs)`: the pairs put into an empty map one after another. */
  function MapOf(pairs: seq<Rule>): seq<Rule>
    decreases |pairs|
  {
    if pairs == [] then [] else Put(MapOf(pairs[..|pairs| - 1]), pairs[|pairs| - 1])
  }

  /** `m[symbol]`. */
  function Lookup(m: seq<Rule>, symbol: string): Option<string>
  {
    var i := IndexOf(m, symbol);
    if i < |m| then Some(m[i].latex) else None
  }

  /** The value of the last pair listing `symbol`. */
  function LastValue(pairs: seq<Rule>, symbol: string): Option<string>
    decreases |pairs|
  {
    if pairs == [] then None
    else if pairs[|pairs| - 1].symbol == symbol then Some(pairs[|pairs| - 1].latex)
    else LastValue(pairs[..|pairs| - 1], symbol)
  }

  predicate UniqueSymbols(m: seq<Rule>)
  {
    forall i, j :: 0 <= i < j < |m| ==> m[i].symbol != m[j].symbol
  }

  /** A map holds each symbol once, and exactly the symbols of its pairs. */
  lemma {:induction false} MapOfSymbols(pairs: seq<Rule>)
    ensures UniqueSymbols(MapOf(pairs))
    ensures forall symbol :: IndexOf(MapOf(pairs), symbol) < |MapOf(pairs)| <==> IndexOf(pairs, symbol) < |pairs|
    decreases |pairs|
  {
    if pairs != [] {
      var p, r := pairs[..|pairs| - 1], pairs[|pairs| - 1];
      MapOfSymbols(p);
      var m := MapOf(p);
      forall symbol
        ensures IndexOf(MapOf(pairs), symbol) < |MapOf(pairs)| <==> IndexOf(pairs, symbol) < |pairs|
      {
        var i := IndexOf(m, r.symbol);
        if IndexOf(MapOf(pairs), symbol) < |MapOf(pairs)| {
          var k := IndexOf(MapOf(pairs), symbol);
          if symbol != r.symbol {
            assert k < |m| && m[k].symbol == symbol;
            assert IndexOf(p, symbol) < |p|;
            assert pairs[IndexOf(p, symbol)].symbol == symbol;
          } else {
            assert pairs[|pairs| - 1].symbol == symbol;
          }
        }
        if IndexOf(pairs, symbol) < |pairs| {
          var k := IndexOf(pairs, symbol);
          if symbol != r.symbol {
            assert k < |p| && p[k].symbol == symbol;
            var t := IndexOf(m, symbol);
            assert MapOf(pairs)[t].symbol == symbol;
          } else if i < |m| {
            assert MapOf(pairs)[i].symbol == symbol;
          } else {
            assert MapOf(pairs)[|m|].symbol == symbol;
          }
        }
      }
    }
  }

  /** Adding a pair at the end does not move a symbol the prefix already lists. */
  lemma IndexOfSnoc(p: seq<Rule>, r: Rule, symbol: string)
    ensures IndexOf(p, symbol) < |p| ==> IndexOf(p + [r], symbol) == IndexOf(p, symbol)
    ensures IndexOf(p, symbol) == |p| ==> IndexOf(p + [r], symbol) == if r.symbol == symbol then |p| else |p| + 1
  {
    var k := IndexOf(p + [r], symbol);
    assert forall j :: 0 <= j < |p| ==> (p + [r])[j] == p[j];
    assert (p + [r])[|p|] == r;
    if IndexOf(p, symbol) < |p| {
      assert (p + [r])[IndexOf(p, symbol)].symbol == symbol;
    }
  }

  /** Every entry holds the value of the last pair listing its symbol. */
  lemma {:induction false} MapOfValues(pairs: seq<Rule>)
    ensures forall i :: 0 <= i < |MapOf(pairs)| ==> LastValue(pairs, MapOf(pairs)[i].symbol) == Some(MapOf(pairs)[i].latex)
    decreases |pairs|
  {
    if pairs != [] {
      var p, r := pairs[..|pairs| - 1], pairs[|pairs| - 1];
      MapOfValues(p);
      MapOfSymbols(p);
      var m := MapOf(p);
      var n := IndexOf(m, r.symbol);
      forall i | 0 <= i < |MapOf(pairs)|
        ensures LastValue(pairs, MapOf(pairs)[i].symbol) == Some(MapOf(pairs)[i].latex)
      {
        if i != n {
          assert MapOf(pairs)[i] == m[i];
          assert m[i].symbol != r.symbol;
        }
      }
    }
  }

  /** Entries come in the order their symbols are first listed. */
  lemma {:induction false} MapOfOrder(pairs: seq<Rule>)
    ensures forall i, j :: 0 <= i < j < |MapOf(pairs)| ==>
      IndexOf(pairs, MapOf(pairs)[i].symbol) < IndexOf(pairs, MapOf(pairs)[j].symbol)
    decreases |pairs|
  {
    if pairs != [] {
      var p, r := pairs[..|pairs| - 1], pairs[|pairs| - 1];
      assert pairs == p + [r];
      MapOfOrder(p);
      MapOfSymbols(p);
      var m := MapOf(p);
      forall i, j | 0 <= i < j < |MapOf(pairs)|
        ensures IndexOf(pairs, MapOf(pairs)[i].symbol) < IndexOf(pairs, MapOf(pairs)[j].symbol)
      {
        var si, sj := MapOf(pairs)[i].symbol, MapOf(pairs)[j].symbol;
        IndexOfSnoc(p, r, si);
        IndexOfSnoc(p, r, sj);
        assert si == m[i].symbol;
        assert IndexOf(m, si) < |m|;
        if j < |m| {
          assert sj == m[j].symbol;
          assert IndexOf(m, sj) < |m|;
        }
      }
    }
  }

  /** The value a pair list leaves for `symbol` after more pairs are added. */
  lemma {:induction false} LastValueAppend(a: seq<Rule>, b: seq<Rule>, symbol: string)
    ensures LastValue(a + b, symbol) == if LastValue(b, symbol).Some? then LastValue(b, symbol) else LastValue(a, symbol)
    decreases |b|
  {
    if b == [] {
      assert a + b == a;
    } else {
      assert (a + b)[..|a + b| - 1] == a + b[..|b| - 1];
      LastValueAppend(a, b[..|b| - 1], symbol);
    }
  }

  /** Pairs that never list `symbol` give it no value. */
  lemma {:induction false} LastValueUnlisted(pairs: seq<Rule>, symbol: string)
    requires forall j :: 0 <= j < |pairs| ==> pairs[j].symbol != symbol
    ensures LastValue(pairs, symbol) == None
    decreases |pairs|
  {
    if pairs != [] {
      LastValueUnlisted(pairs[..|pairs| - 1], symbol);
    }
  }

  /** The pair at `i` gives the value when no later pair lists its symbol. */
  lemma {:induction false} LastValueAt(pairs: seq<Rule>, i: nat)
    requires i < |pairs|
    requires forall j :: i < j < |pairs| ==> pairs[j].symbol != pairs[i].symbol
    ensures LastValue(pairs, pairs[i].symbol) == Some(pairs[i].latex)
    decreases |pairs|
  {
    if i < |pairs| - 1 {
      LastValueAt(pairs[..|pairs| - 1], i);
    }
  }

  /** A symbol with a value is listed. */
  lemma {:induction false} LastValueListed(pairs: seq<Rule>, symbol: string)
    requires LastValue(pairs, symbol).Some?
    ensures IndexOf(pairs, symbol) < |pairs|
    decreases |pairs|
  {
    if pairs[|pairs| - 1].symbol != symbol {
      LastValueListed(pairs[..|pairs| - 1], symbol);
      assert pairs[IndexOf(pairs[..|pairs| - 1], symbol)].symbol == symbol;
    }
  }

  /** A listed symbol is found in the map under its last value. */
  lemma MapOfLookup(pairs: seq<Rule>, symbol: string)
    requires LastValue(pairs, symbol).Some?
    ensures Lookup(MapOf(pairs), symbol) == LastValue(pairs, symbol)
  {
    LastValueListed(pairs, symbol);
    MapOfSymbols(pairs);
    MapOfValues(pairs);
  }

  /** Every symbol of `m` has property `p`. */
  predicate EverySymbol(m: seq<Rule>, p: string -> bool)
  {
    forall i :: 0 <= i < |m| ==> p(m[i].symbol)
  }

  predicate NonEmpty(s: string) { |s| > 0 }

  predicate NonEmptySymbols(m: seq<Rule>)
  {
    EverySymbol(m, NonEmpty)
  }

  lemma EverySymbolAppend(a: seq<Rule>, b: seq<Rule>, p: string -> bool)
    requires EverySymbol(a, p) && EverySymbol(b, p)
    ensures EverySymbol(a + b, p)
  {
    assert forall i :: |a| <= i < |a + b| ==> (a + b)[i] == b[i - |a|];
  }

  /** A property of every listed symbol holds for every symbol of the map. */
  lemma MapOfEverySymbol(pairs: seq<Rule>, p: string -> bool)
    requires EverySymbol(pairs, p)
    ensures EverySymbol(MapOf(pairs), p)
  {
    MapOfSymbols(pairs);
    forall i | 0 <= i < |MapOf(pairs)|
      ensures p(MapOf(pairs)[i].symbol)
    {
      var symbol := MapOf(pairs)[i].symbol;
      assert IndexOf(MapOf(pairs), symbol) < |MapOf(pairs)|;
      assert pairs[IndexOf(pairs, symbol)].symbol == symbol;
    }
  }

  /** The converter's map (line 11). */
  function SymbolMap(): seq<Rule>
  {
    MapOf(SymbolPairs)
  }

  /** `getSupportedSymbols` (line 250): the map holds each listed symbol
      once, nothing else, and under the value of its last listing. */
  function SupportedSymbols(): (m: seq<Rule>)
    ensures UniqueSymbols(m)
    ensures forall symbol :: IndexOf(m, symbol) < |m| <==> IndexOf(SymbolPairs, symbol) < |SymbolPairs|
    ensures forall i :: 0 <= i < |m| ==> LastValue(SymbolPairs, m[i].symbol) == Some(m[i].latex)
  {
    MapOfSymbols(SymbolPairs);
    MapOfValues(SymbolPairs);
    SymbolMap()
  }

  /** Pairs that do not list `symbol` leave its value as it was. */
  lemma LastValueSkip(a: seq<Rule>, b: seq<Rule>, symbol: string)
    requires forall j :: 0 <= j < |b| ==> b[j].symbol != symbol
    ensures LastValue(a + b, symbol) == LastValue(a, symbol)
  {
    LastValueUnlisted(b, symbol);
    LastValueAppend(a, b, symbol);
  }

  /** `⊥` is listed as `\perp` among the relations (line 40) and as `\bot`
      in the logic group (line 132); the map keeps `\bot`. */
  lemma PerpendicularIsBot()
    ensures Lookup(SymbolMap(), "⊥") == Some("\\bot")
  {
    var front := BasicOperators + Relations + GreekLowercase + GreekUppercase + SpecialSymbols + Arrows + Calculus;
    var upToSets := front + Logic + Sets;
    LastValueSkip(upToSets + Trigonometric + Logarithms, Misc, "⊥");
    LastValueSkip(upToSets + Trigonometric, Logarithms, "⊥");
    LastValueSkip(upToSets, Trigonometric, "⊥");
    LastValueSkip(front + Logic, Sets, "⊥");
    LastValueAt(Logic, 7);
    LastValueAppend(front, Logic, "⊥");
    MapOfLookup(SymbolPairs, "⊥");
  }

  /** Calculus (and every later group) leaves a symbol of line 120 or 121
      with its calculus value. */
  lemma CalculusValueKept(symbol: string, i: nat)
    requires i == 9 || i == 10
    requires symbol == Calculus[i].symbol
    ensures LastValue(SymbolPairs, symbol) == Some(Calculus[i].latex)
  {
    var front := BasicOperators + Relations + GreekLowercase + GreekUppercase + SpecialSymbols + Arrows;
    var upToSets := front + Calculus + Logic + Sets;
    LastValueSkip(upToSets + Trigonometric + Logarithms, Misc, symbol);
    LastValueSkip(upToSets + Trigonometric, Logarithms, symbol);
    LastValueSkip(upToSets, Trigonometric, symbol);
    LastValueSkip(front + Calculus + Logic, Sets, symbol);
    LastValueSkip(front + Calculus, Logic, symbol);
    LastValueAt(Calculus, i);
    LastValueAppend(front, Calculus, symbol);
  }

  /** `∂` is listed at lines 89 and 120 with the same value, which the map keeps. */
  lemma PartialKeepsItsValue()
    ensures Lookup(SymbolMap(), "∂") == Some("\\partial")
  {
    CalculusValueKept("∂", 9);
    MapOfLookup(SymbolPairs, "∂");
  }

  /** `∇` is listed at lines 88 and 121 with the same value, which the map keeps. */
  lemma NablaKeepsItsValue()
    ensures Lookup(SymbolMap(), "∇") == Some("\\nabla")
  {
    CalculusValueKept("∇", 10);
    MapOfLookup(SymbolPairs, "∇");
  }

  /** Where a symbol is first listed in a concatenation of lists. */
  lemma IndexOfAppend(a: seq<Rule>, b: seq<Rule>, symbol: string)
    ensures IndexOf(a + b, symbol) == if IndexOf(a, symbol) < |a| then IndexOf(a, symbol) else |a| + IndexOf(b, symbol)
  {
    var k := IndexOf(a + b, symbol);
    assert forall j :: 0 <= j < |a| ==> (a + b)[j] == a[j];
    assert forall j :: 0 <= j < |b| ==> (a + b)[|a| + j] == b[j];
    if IndexOf(a, symbol) < |a| {
      assert (a + b)[IndexOf(a, symbol)].symbol == symbol;
    } else if IndexOf(b, symbol) < |b| {
      assert (a + b)[|a| + IndexOf(b, symbol)].symbol == symbol;
    }
  }

  /** A prefix that lists `symbol` fixes where it is first listed. */
  lemma IndexOfKept(a: seq<Rule>, b: seq<Rule>, symbol: string)
    requires IndexOf(a, symbol) < |a|
    ensures IndexOf(a + b, symbol) == IndexOf(a, symbol)
  {
    IndexOfAppend(a, b, symbol);
  }

  /** The first listing of a symbol, identified by position. */
  lemma IndexOfAt(m: seq<Rule>, i: nat, symbol: string)
    requires i <= |m| && (i < |m| ==> m[i].symbol == symbol)
    requires forall j :: 0 <= j < i ==> m[j].symbol != symbol
    ensures IndexOf(m, symbol) == i
  {
  }

  /** `⊥` is the 19th relation and no basic operator. */
  lemma PerpendicularAmongRelations()
    ensures IndexOf(BasicOperators + Relations, "⊥") == |BasicOperators| + 18
  {
    IndexOfAt(BasicOperators, |BasicOperators|, "⊥");
    IndexOfAt(Relations, 18, "⊥");
    IndexOfAppend(BasicOperators, Relations, "⊥");
  }

  /** `⊥` is first listed at line 40, the 19th relation, so by `MapOfOrder`
      its entry sits there and not among the logic symbols. */
  lemma PerpendicularFirstListed()
    ensures IndexOf(SymbolPairs, "⊥") == |BasicOperators| + 18
  {
    var p2 := BasicOperators + Relations;
    PerpendicularAmongRelations();
    var p3 := p2 + GreekLowercase;
    IndexOfKept(p2, GreekLowercase, "⊥");
    var p4 := p3 + GreekUppercase;
    IndexOfKept(p3, GreekUppercase, "⊥");
    var p5 := p4 + SpecialSymbols;
    IndexOfKept(p4, SpecialSymbols, "⊥");
    var p6 := p5 + Arrows;
    IndexOfKept(p5, Arrows, "⊥");
    var p7 := p6 + Calculus;
    IndexOfKept(p6, Calculus, "⊥");
    var p8 := p7 + Logic;
    IndexOfKept(p7, Logic, "⊥");
    var p9 := p8 + Sets;
    IndexOfKept(p8, Sets, "⊥");
    var p10 := p9 + Trigonometric;
    IndexOfKept(p9, Trigonometric, "⊥");
    var p11 := p10 + Logarithms;
    IndexOfKept(p10, Logarithms, "⊥");
    IndexOfKept(p11, Misc, "⊥");
  }

  /** What holds for the symbols of each group holds for the whole list
      and for the map. */
  lemma EveryGroupSymbol(p: string -> bool)
    requires EverySymbol(BasicOperators, p) && EverySymbol(Relations, p) && EverySymbol(GreekLowercase, p)
    requires EverySymbol(GreekUppercase, p) && EverySymbol(SpecialSymbols, p) && EverySymbol(Arrows, p)
    requires EverySymbol(Calculus, p) && EverySymbol(Logic, p) && EverySymbol(Sets, p)
    requires EverySymbol(Trigonometric, p) && EverySymbol(Logarithms, p) && EverySymbol(Misc, p)
    ensures EverySymbol(SymbolPairs, p) && EverySymbol(SymbolMap(), p)
  {
    var front := BasicOperators + Relations + GreekLowercase + GreekUppercase + SpecialSymbols + Arrows;
    var upToSets := front + Calculus + Logic + Sets;
    EverySymbolAppend(BasicOperators, Relations, p);
    EverySymbolAppend(BasicOperators + Relations, GreekLowercase, p);
    EverySymbolAppend(BasicOperators + Relations + GreekLowercase, GreekUppercase, p);
    EverySymbolAppend(BasicOperators + Relations + GreekLowercase + GreekUppercase, SpecialSymbols, p);
    EverySymbolAppend(BasicOperators + Relations + GreekLowercase + GreekUppercase + SpecialSymbols, Arrows, p);
    EverySymbolAppend(front, Calculus, p);
    EverySymbolAppend(front + Calculus, Logic, p);
    EverySymbolAppend(front + Calculus + Logic, Sets, p);
    EverySymbolAppend(upToSets, Trigonometric, p);
    EverySymbolAppend(upToSets + Trigonometric, Logarithms, p);
    EverySymbolAppend(upToSets + Trigonometric + Logarithms, Misc, p);
    MapOfEverySymbol(SymbolPairs, p);
  }

  lemma FirstGroupsNonEmpty()
    ensures NonEmptySymbols(BasicOperators) && NonEmptySymbols(Relations) && NonEmptySymbols(GreekLowercase)
    ensures NonEmptySymbols(GreekUppercase) && NonEmptySymbols(SpecialSymbols) && NonEmptySymbols(Arrows)
  {
  }

  lemma LastGroupsNonEmpty()
    ensures NonEmptySymbols(Calculus) && NonEmptySymbols(Logic) && NonEmptySymbols(Sets)
    ensures NonEmptySymbols(Trigonometric) && NonEmptySymbols(Logarithms) && NonEmptySymbols(Misc)
  {
  }

  /** No symbol of the map is empty. */
  lemma SymbolMapNonEmpty()
    ensures NonEmptySymbols(SymbolMap())
  {
    FirstGroupsNonEmpty();
    LastGroupsNonEmpty();
    EveryGroupSymbol(NonEmpty);
  }

  /** The trigonometric entries of lines 144 and 150 keep their values. */
  lemma TrigonometricValueKept(symbol: string, i: nat)
    requires i == 0 || i == 6
    requires symbol == Trigonometric[i].symbol
    ensures LastValue(SymbolPairs, symbol) == Some(Trigonometric[i].latex)
  {
    var front := BasicOperators + Relations + GreekLowercase + GreekUppercase + SpecialSymbols + Arrows;
    var upToSets := front + Calculus + Logic + Sets;
    LastValueSkip(upToSets + Trigonometric + Logarithms, Misc, symbol);
    LastValueSkip(upToSets + Trigonometric, Logarithms, symbol);
    LastValueAt(Trigonometric, i);
    LastValueAppend(upToSets, Trigonometric, symbol);
  }
}
