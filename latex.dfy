/** `toLatex` of the LaTeX converter (MathSymbolConverter.kt:185-200): the
    symbol rules applied one after another, longest symbol first, then the
    pattern conversions, then the `$` delimiters. */
module LatexConverter {
  import opened Options
  import opened Strings
  import opened Symbols
  import opened Patterns

  // ------------------------------------------------ sortedByDescending

  /** Places `r` after the rules with longer symbols and before the others,
      so it comes first among the rules of its own length. */
  function Insert(r: Rule, sorted: seq<Rule>): seq<Rule>
    decreases |sorted|
  {
    if sorted == [] || |sorted[0].symbol| <= |r.symbol| then [r] + sorted
    else [sorted[0]] + Insert(r, sorted[1..])
  }

  /** `sortedByDescending { it.key.length }` (line 190), a stable sort. */
  function SortByLength(rules: seq<Rule>): seq<Rule>
    decreases |rules|
  {
    if rules == [] then [] else Insert(rules[0], SortByLength(rules[1..]))
  }

  predicate LongestFirst(rules: seq<Rule>)
  {
    forall i, j :: 0 <= i < j < |rules| ==> |rules[i].symbol| >= |rules[j].symbol|
  }

  /** The rules whose symbol has length `n`, in their order. */
  function OfLength(rules: seq<Rule>, n: nat): seq<Rule>
    decreases |rules|
  {
    if rules == [] then []
    else (if |rules[0].symbol| == n then [rules[0]] else []) + OfLength(rules[1..], n)
  }

  lemma {:induction false} InsertKeepsRules(r: Rule, sorted: seq<Rule>)
    ensures multiset(Insert(r, sorted)) == multiset(sorted) + multiset{r}
    decreases |sorted|
  {
    if sorted != [] && |sorted[0].symbol| > |r.symbol| {
      InsertKeepsRules(r, sorted[1..]);
      assert sorted == [sorted[0]] + sorted[1..];
    }
  }

  lemma {:induction false} InsertSorted(r: Rule, sorted: seq<Rule>)
    requires LongestFirst(sorted)
    ensures LongestFirst(Insert(r, sorted))
    decreases |sorted|
  {
    if sorted != [] && |sorted[0].symbol| > |r.symbol| {
      var rest := Insert(r, sorted[1..]);
      InsertSorted(r, sorted[1..]);
      InsertKeepsRules(r, sorted[1..]);
      forall j | 0 <= j < |rest|
        ensures |sorted[0].symbol| >= |rest[j].symbol|
      {
        assert rest[j] in multiset(rest);
        assert rest[j] == r || rest[j] in sorted[1..];
      }
    }
  }

  lemma {:induction false} InsertOfLength(r: Rule, sorted: seq<Rule>, n: nat)
    ensures OfLength(Insert(r, sorted), n) == (if |r.symbol| == n then [r] else []) + OfLength(sorted, n)
    decreases |sorted|
  {
    if sorted == [] || |sorted[0].symbol| <= |r.symbol| {
      OfLengthCons(r, sorted, n);
    } else {
      var rest := Insert(r, sorted[1..]);
      InsertOfLength(r, sorted[1..], n);
      OfLengthCons(sorted[0], rest, n);
      OfLengthCons(sorted[0], sorted[1..], n);
      assert [sorted[0]] + sorted[1..] == sorted;
    }
  }

  lemma OfLengthCons(x: Rule, rest: seq<Rule>, n: nat)
    ensures OfLength([x] + rest, n) == (if |x.symbol| == n then [x] else []) + OfLength(rest, n)
  {
    assert ([x] + rest)[1..] == rest;
  }

  /** The sort puts longer symbols first, keeps every rule, and keeps the
      order among rules whose symbols have the same length. */
  lemma {:induction false} SortByLengthSpec(rules: seq<Rule>)
    ensures LongestFirst(SortByLength(rules))
    ensures multiset(SortByLength(rules)) == multiset(rules)
    ensures forall n: nat :: OfLength(SortByLength(rules), n) == OfLength(rules, n)
    decreases |rules|
  {
    if rules != [] {
      SortByLengthSpec(rules[1..]);
      InsertSorted(rules[0], SortByLength(rules[1..]));
      InsertKeepsRules(rules[0], SortByLength(rules[1..]));
      forall n: nat
        ensures OfLength(SortByLength(rules), n) == OfLength(rules, n)
      {
        InsertOfLength(rules[0], SortByLength(rules[1..]), n);
      }
      assert rules == [rules[0]] + rules[1..];
    }
  }

  /** The converter's rules in the order the loop of lines 189-193 visits
      them. */
  function SortedRules(): (rules: seq<Rule>)
    ensures NonEmptySymbols(rules)
  {
    SymbolMapNonEmpty();
    SortByLengthSpec(SymbolMap());
    var rules := SortByLength(SymbolMap());
    assert forall i :: 0 <= i < |rules| ==> rules[i] in multiset(SymbolMap());
    rules
  }

  // ----------------------------------------------------------- the loop

  /** The rules applied in order, each replacing every occurrence of its
      symbol in the text the previous ones left. */
  function ApplyRules(text: string, rules: seq<Rule>): string
    requires NonEmptySymbols(rules)
    decreases |rules|
  {
    if rules == [] then text
    else ApplyRules(ReplaceAll(text, rules[0].symbol, rules[0].latex), rules[1..])
  }

  /** `toLatex` (lines 185-200). */
  method ToLatex(text: string) returns (latex: string)
    ensures latex == "$" + PatternConversions(ApplyRules(text, SortedRules())) + "$"
  {
    var rules := SortedRules();
    latex := text;
    var i := 0;
    while i < |rules|
      invariant 0 <= i <= |rules|
      invariant ApplyRules(latex, rules[i..]) == ApplyRules(text, rules)
    {
      assert rules[i..][1..] == rules[i + 1..];
      latex := ReplaceAll(latex, rules[i].symbol, rules[i].latex);
      i := i + 1;
    }
    latex := PatternConversions(latex);
    latex := "$" + latex + "$";
  }

  // --------------------------------------------------- rules in sequence

  lemma InsertUnique(r: Rule, sorted: seq<Rule>)
    requires UniqueSymbols(sorted)
    requires forall k :: 0 <= k < |sorted| ==> sorted[k].symbol != r.symbol
    ensures UniqueSymbols(Insert(r, sorted))
    decreases |sorted|
  {
    if sorted != [] && |sorted[0].symbol| > |r.symbol| {
      var rest := Insert(r, sorted[1..]);
      InsertUnique(r, sorted[1..]);
      InsertKeepsRules(r, sorted[1..]);
      forall j | 0 <= j < |rest|
        ensures rest[j].symbol != sorted[0].symbol
      {
        assert rest[j] in multiset(rest);
        assert rest[j] == r || rest[j] in sorted[1..];
      }
    }
  }

  /** Sorting a map keeps its symbols distinct. */
  lemma {:induction false} SortKeepsUnique(rules: seq<Rule>)
    requires UniqueSymbols(rules)
    ensures UniqueSymbols(SortByLength(rules))
    decreases |rules|
  {
    if rules != [] {
      var rest := SortByLength(rules[1..]);
      SortKeepsUnique(rules[1..]);
      SortByLengthSpec(rules[1..]);
      forall k | 0 <= k < |rest|
        ensures rest[k].symbol != rules[0].symbol
      {
        assert rest[k] in multiset(rules[1..]);
      }
      InsertUnique(rules[0], rest);
    }
  }

  lemma {:induction false} ApplyRulesAppend(text: string, a: seq<Rule>, b: seq<Rule>)
    requires NonEmptySymbols(a) && NonEmptySymbols(b)
    ensures NonEmptySymbols(a + b)
    ensures ApplyRules(text, a + b) == ApplyRules(ApplyRules(text, a), b)
    decreases |a|
  {
    EverySymbolAppend(a, b, NonEmpty);
    if a != [] {
      assert (a + b)[1..] == a[1..] + b;
      ApplyRulesAppend(ReplaceAll(text, a[0].symbol, a[0].latex), a[1..], b);
    } else {
      assert a + b == b;
    }
  }

  /** Rules whose symbols do not occur leave the text alone. */
  lemma {:induction false} ApplyRulesAbsent(text: string, rules: seq<Rule>)
    requires NonEmptySymbols(rules)
    requires forall k :: 0 <= k < |rules| ==> !Occurs(rules[k].symbol, text)
    ensures ApplyRules(text, rules) == text
    decreases |rules|
  {
    if rules != [] {
      ReplaceAllNoOccurrence(text, rules[0].symbol, rules[0].latex);
      ApplyRulesAbsent(text, rules[1..]);
    }
  }

  lemma SortKeepsEverySymbol(rules: seq<Rule>, p: string -> bool)
    requires EverySymbol(rules, p)
    ensures EverySymbol(SortByLength(rules), p)
  {
    SortByLengthSpec(rules);
    var sorted := SortByLength(rules);
    forall k | 0 <= k < |sorted|
      ensures p(sorted[k].symbol)
    {
      assert sorted[k] in multiset(rules);
    }
  }

  // ------------------------------------------- "arcsin" becomes \arc\sin

  /** A symbol that cannot occur in "arcsin", "\arcsin" or "\arc\sin"
      unless it is one of the three named. */
  predicate InertForArcsin(symbol: string)
  {
    Outside(symbol, IsArcsinChar) || symbol == "arcsin" || symbol == "sin" || symbol == "csc"
  }

  /** The characters of "\\arc\\sin". */
  predicate IsArcsinChar(c: char)
  {
    c == '\\' || c == 'a' || c == 'r' || c == 'c' || c == 's' || c == 'i' || c == 'n'
  }

  lemma BasicOperatorsInert()
    ensures EverySymbol(BasicOperators, InertForArcsin)
  {
  }

  lemma RelationsInert()
    ensures EverySymbol(Relations, InertForArcsin)
  {
  }

  lemma GreekLowercaseInert()
    ensures EverySymbol(GreekLowercase, InertForArcsin)
  {
  }

  lemma GreekUppercaseInert()
    ensures EverySymbol(GreekUppercase, InertForArcsin)
  {
  }

  lemma SpecialSymbolsInert()
    ensures EverySymbol(SpecialSymbols, InertForArcsin)
  {
  }

  lemma ArrowsInert()
    ensures EverySymbol(Arrows, InertForArcsin)
  {
  }

  lemma CalculusInert()
    ensures EverySymbol(Calculus, InertForArcsin)
  {
  }

  lemma LogicInert()
    ensures EverySymbol(Logic, InertForArcsin)
  {
  }

  lemma SetsInert()
    ensures EverySymbol(Sets, InertForArcsin)
  {
  }

  lemma LogarithmsInert()
    ensures EverySymbol(Logarithms, InertForArcsin)
  {
  }

  lemma MiscInert()
    ensures EverySymbol(Misc, InertForArcsin)
  {
  }

  lemma TrigonometricInert()
    ensures EverySymbol(Trigonometric, InertForArcsin)
  {
    TrigonometricInertCircular();
    TrigonometricInertInverse();
    TrigonometricInertHyperbolic();
  }

  /** "sin" to "csc". */
  lemma TrigonometricInertCircular()
    ensures forall i :: 0 <= i < 6 ==> InertForArcsin(Trigonometric[i].symbol)
  {
  }

  /** "arcsin" to "arctan". */
  lemma TrigonometricInertInverse()
    ensures forall i :: 6 <= i < 9 ==> InertForArcsin(Trigonometric[i].symbol)
  {
  }

  /** "sinh" to "tanh". */
  lemma TrigonometricInertHyperbolic()
    ensures forall i :: 9 <= i < 12 ==> InertForArcsin(Trigonometric[i].symbol)
  {
  }

  /** The texts the loop produces from "arcsin". */
  predicate ArcsinStage(t: string)
  {
    t == "arcsin" || t == "\\arcsin" || t == "\\arc\\sin"
  }

  lemma InertAbsent(symbol: string, t: string)
    requires InertForArcsin(symbol) && symbol != "arcsin" && symbol != "sin"
    requires ArcsinStage(t)
    ensures !Occurs(symbol, t)
  {
    if symbol == "csc" {
      forall i | 0 <= i <= |t|
        ensures !OccursAt(symbol, t, i)
      {
        if i + 3 <= |t| {
          assert t[i..i + 3][1] == t[i + 1] && t[i..i + 3][2] == t[i + 2];
        }
      }
    } else {
      OutsideNotOccurs(symbol, t, IsArcsinChar);
    }
  }

  /** Every sorted rule is inert for "arcsin", and no two share a symbol. */
  lemma SortedRulesFacts()
    ensures EverySymbol(SortedRules(), InertForArcsin)
    ensures UniqueSymbols(SortedRules())
  {
    BasicOperatorsInert();
    RelationsInert();
    GreekLowercaseInert();
    GreekUppercaseInert();
    SpecialSymbolsInert();
    ArrowsInert();
    CalculusInert();
    LogicInert();
    SetsInert();
    LogarithmsInert();
    MiscInert();
    TrigonometricInert();
    EveryGroupSymbol(InertForArcsin);
    SortKeepsEverySymbol(SymbolMap(), InertForArcsin);
    MapOfSymbols(SymbolPairs);
    SortKeepsUnique(SymbolMap());
  }

  /** The rule for `symbol` in the sorted rules, when `SymbolPairs` lists
      `symbol` last with `latex`. */
  lemma SortedRuleFor(symbol: string, latex: string) returns (i: nat)
    requires LastValue(SymbolPairs, symbol) == Some(latex)
    ensures i < |SortedRules()| && SortedRules()[i] == Rule(symbol, latex)
  {
    var m := SymbolMap();
    LastValueListed(SymbolPairs, symbol);
    MapOfSymbols(SymbolPairs);
    var k := IndexOf(m, symbol);
    MapOfValues(SymbolPairs);
    assert m[k] == Rule(symbol, latex);
    SortByLengthSpec(m);
    assert m[k] in multiset(SortedRules());
    i :| 0 <= i < |SortedRules()| && SortedRules()[i] == m[k];
  }

  /** Rules `lo` to `hi`, none for "arcsin" or "sin", leave each stage
      alone. */
  lemma OthersAbsent(rules: seq<Rule>, lo: nat, hi: nat, t: string)
    requires EverySymbol(rules, InertForArcsin) && NonEmptySymbols(rules)
    requires lo <= hi <= |rules|
    requires forall k :: lo <= k < hi ==> rules[k].symbol != "arcsin" && rules[k].symbol != "sin"
    requires ArcsinStage(t)
    ensures NonEmptySymbols(rules[lo..hi])
    ensures ApplyRules(t, rules[lo..hi]) == t
  {
    forall k | 0 <= k < hi - lo
      ensures !Occurs(rules[lo..hi][k].symbol, t)
    {
      InertAbsent(rules[lo + k].symbol, t);
    }
    ApplyRulesAbsent(t, rules[lo..hi]);
  }

  /** Where the "arcsin" and "sin" rules sit among the sorted rules. */
  lemma ArcsinBeforeSin() returns (i: nat, j: nat)
    ensures i < j < |SortedRules()|
    ensures SortedRules()[i] == Rule("arcsin", "\\arcsin") && SortedRules()[j] == Rule("sin", "\\sin")
    ensures forall k :: 0 <= k < |SortedRules()| && k != i ==> SortedRules()[k].symbol != "arcsin"
    ensures forall k :: 0 <= k < |SortedRules()| && k != j ==> SortedRules()[k].symbol != "sin"
  {
    SortedRulesFacts();
    TrigonometricValueKept("arcsin", 6);
    TrigonometricValueKept("sin", 0);
    i := SortedRuleFor("arcsin", "\\arcsin");
    j := SortedRuleFor("sin", "\\sin");
    SortByLengthSpec(SymbolMap());
  }

  /** The two replacements that do something. */
  lemma ArcsinReplaced()
    ensures ReplaceAll("arcsin", "arcsin", "\\arcsin") == "\\arcsin"
  {
    var s := "arcsin";
    assert s[..|s|] == s && s[|s|..] == [];
  }

  lemma SinReplaced()
    ensures ReplaceAll("\\arcsin", "sin", "\\sin") == "\\arc\\sin"
  {
    var s := "\\arcsin";
    var pat := "sin";
    assert s[..3][0] != pat[0] && s[1..][..3][0] != pat[0];
    assert s[2..][..3][0] != pat[0] && s[3..][..3][0] != pat[0];
    assert s[4..] == pat && s[4..][..3] == pat && s[4..][3..] == [];
    assert s[1..][1..] == s[2..] && s[2..][1..] == s[3..] && s[3..][1..] == s[4..];
    assert ReplaceAll(s[4..], pat, "\\sin") == "\\sin";
  }

  /** The rules up to the "arcsin" rule at `i` turn "arcsin" into
      "\\arcsin". */
  lemma ArcsinRuleFirst(rules: seq<Rule>, i: nat, j: nat)
    requires EverySymbol(rules, InertForArcsin) && NonEmptySymbols(rules)
    requires i < j < |rules|
    requires rules[i] == Rule("arcsin", "\\arcsin") && rules[j] == Rule("sin", "\\sin")
    requires forall k :: 0 <= k < |rules| && k != i ==> rules[k].symbol != "arcsin"
    requires forall k :: 0 <= k < |rules| && k != j ==> rules[k].symbol != "sin"
    ensures NonEmptySymbols(rules[i + 1..|rules|])
    ensures ApplyRules("arcsin", rules) == ApplyRules("\\arcsin", rules[i + 1..|rules|])
  {
    ArcsinReplaced();
    FirstRuleActs(rules, i, "arcsin", "\\arcsin", "arcsin", "\\arcsin");
  }

  /** When rule `j` turns `t` into `u` and the rules before it are inert and
      for neither "arcsin" nor "sin", the rules up to `j` turn `t` into `u`. */
  lemma FirstRuleActs(rules: seq<Rule>, j: nat, symbol: string, latex: string, t: string, u: string)
    requires EverySymbol(rules, InertForArcsin) && NonEmptySymbols(rules)
    requires j < |rules| && rules[j] == Rule(symbol, latex)
    requires forall k :: 0 <= k < j ==> rules[k].symbol != "arcsin" && rules[k].symbol != "sin"
    requires ArcsinStage(t) && ReplaceAll(t, symbol, latex) == u
    ensures NonEmptySymbols(rules[j + 1..|rules|])
    ensures ApplyRules(t, rules) == ApplyRules(u, rules[j + 1..|rules|])
  {
    OthersAbsent(rules, 0, j, t);
    RuleAtStep(rules, 0, j, symbol, latex, t, u, ApplyRules(u, rules[j + 1..|rules|]));
    assert rules[0..|rules|] == rules;
  }

  /** After the "arcsin" rule at `i`, the "sin" rule at `j` turns
      "\\arcsin" into "\\arc\\sin" and the other rules leave it alone. */
  lemma SinRuleNext(rules: seq<Rule>, i: nat, j: nat)
    requires EverySymbol(rules, InertForArcsin) && NonEmptySymbols(rules)
    requires i < j < |rules|
    requires rules[j] == Rule("sin", "\\sin")
    requires forall k :: 0 <= k < |rules| && k != i ==> rules[k].symbol != "arcsin"
    requires forall k :: 0 <= k < |rules| && k != j ==> rules[k].symbol != "sin"
    ensures NonEmptySymbols(rules[i + 1..|rules|])
    ensures ApplyRules("\\arcsin", rules[i + 1..|rules|]) == "\\arc\\sin"
  {
    SinReplaced();
    OnlyRuleActs(rules, i + 1, j, "sin", "\\sin", "\\arcsin", "\\arc\\sin");
  }

  /** From `lo` on, when rule `j` turns `t` into `u` and every other rule is
      inert and for neither "arcsin" nor "sin", the rules turn `t` into `u`. */
  lemma OnlyRuleActs(rules: seq<Rule>, lo: nat, j: nat, symbol: string, latex: string, t: string, u: string)
    requires EverySymbol(rules, InertForArcsin) && NonEmptySymbols(rules)
    requires lo <= j < |rules| && rules[j] == Rule(symbol, latex)
    requires forall k :: lo <= k < |rules| ==> rules[k].symbol != "arcsin"
    requires forall k :: lo <= k < |rules| && k != j ==> rules[k].symbol != "sin"
    requires ArcsinStage(t) && ArcsinStage(u) && ReplaceAll(t, symbol, latex) == u
    ensures NonEmptySymbols(rules[lo..|rules|])
    ensures ApplyRules(t, rules[lo..|rules|]) == u
  {
    OthersAbsent(rules, lo, j, t);
    OthersAbsent(rules, j + 1, |rules|, u);
    RuleAtStep(rules, lo, j, symbol, latex, t, u, u);
  }

  /** Inert rules with one rule for "arcsin" at `i` and one for "sin" at a
      later `j` turn "arcsin" into "\\arc\\sin". */
  lemma ArcsinThrough(rules: seq<Rule>, i: nat, j: nat)
    requires EverySymbol(rules, InertForArcsin) && NonEmptySymbols(rules)
    requires i < j < |rules|
    requires rules[i] == Rule("arcsin", "\\arcsin") && rules[j] == Rule("sin", "\\sin")
    requires forall k :: 0 <= k < |rules| && k != i ==> rules[k].symbol != "arcsin"
    requires forall k :: 0 <= k < |rules| && k != j ==> rules[k].symbol != "sin"
    ensures ApplyRules("arcsin", rules) == "\\arc\\sin"
  {
    ArcsinRuleFirst(rules, i, j);
    SinRuleNext(rules, i, j);
  }

  /** The rules applied to "arcsin" give "\\arc\\sin": the "arcsin" rule
      (length 6) runs before the "sin" rule (length 3), which then rewrites
      the "sin" inside "\\arcsin" (MathSymbolConverter.kt:189-193). */
  lemma ArcsinBecomesArcSin()
    ensures ApplyRules("arcsin", SortedRules()) == "\\arc\\sin"
  {
    SortedRulesFacts();
    var i, j := ArcsinBeforeSin();
    ArcsinThrough(SortedRules(), i, j);
  }

  /** From `lo` on, when the rules before `j` leave `text` alone, rule `j`
      turns it into `mid` and the rules after `j` turn that into `out`, the
      whole range turns `text` into `out`. */
  lemma RuleAtStep(rules: seq<Rule>, lo: nat, j: nat, symbol: string, latex: string, text: string, mid: string, out: string)
    requires NonEmptySymbols(rules) && lo <= j < |rules| && rules[j] == Rule(symbol, latex)
    requires ApplyRules(text, rules[lo..j]) == text
    requires ReplaceAll(text, symbol, latex) == mid
    requires ApplyRules(mid, rules[j + 1..|rules|]) == out
    ensures NonEmptySymbols(rules[lo..|rules|])
    ensures ApplyRules(text, rules[lo..|rules|]) == out
  {
    assert rules[j + 1..|rules|] == rules[j + 1..];
    assert rules[lo..|rules|] == rules[lo..];
    assert rules[lo..] == rules[lo..j] + rules[j..];
    assert rules[j..][1..] == rules[j + 1..];
    ApplyRulesAppend(text, rules[lo..j], rules[j..]);
  }

  /** None of the pattern conversions touches "\\arc\\sin". */
  lemma ArcSinPlain()
    ensures IsPlain("\\arc\\sin")
  {
    var t := "\\arc\\sin";
    assert forall k :: 0 <= k < |t| ==> IsArcsinChar(t[k]);
    assert Sqrt[2] == 'q';
    OutsideNotOccurs(Sqrt, t, IsArcsinChar);
  }

  /** `toLatex("arcsin")` is "$\\arc\\sin$", not "$\\arcsin$". */
  lemma ToLatexArcsin()
    ensures PatternConversions(ApplyRules("arcsin", SortedRules())) == "\\arc\\sin"
  {
    ArcsinBecomesArcSin();
    ArcSinPlain();
    PlainConverted(ApplyRules("arcsin", SortedRules()), "\\arc\\sin");
  }

  lemma PlainConverted(t: string, u: string)
    requires t == u && IsPlain(u)
    ensures PatternConversions(t) == u
  {
    PlainUnchanged(t);
  }
}
