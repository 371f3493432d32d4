/**
  The inference rules and the validity check (`checkValidity`). Each rule is
  a pure function of the trees it is given; the check scans the premise
  array and accepts as soon as a premise equals the conclusion or a rule
  fires. `Entails` states, independently of any scanning order, when the
  check accepts, and both loop shapes of the source are proved to compute it.
 */
module Inference {
  import opened Wrappers
  import opened Expressions

  /**
    `modusPonens`: an implication whose consequent equals a symbol
    conclusion yields its antecedent (which is null when the antecedent
    pointer is null). The antecedent is not looked for among the premises.
   */
  function ModusPonens(premise: Expr, conclusion: Expr): (r: Option<Expr>)
    ensures r.Some? <==> premise.kind == Implies && conclusion.kind == Symbol
                         && AreExpressionsEqual(premise.right, Some(conclusion)) && premise.left.Some?
    ensures r.Some? ==> premise.left == r
  {
    if premise.kind == Implies && conclusion.kind == Symbol && AreExpressionsEqual(premise.right, Some(conclusion))
    then premise.left
    else None
  }

  /**
    `modusTollens`, as the condition under which it returns a non-null
    value: an implication and a negated conclusion whose operand equals the
    antecedent. The consequent and the other premises are never inspected.
   */
  function ModusTollens(premise: Expr, conclusion: Expr): (fires: bool)
    ensures fires ==> premise.kind == Implies && conclusion.kind == Not
    ensures fires ==> (premise.left.None? <==> conclusion.right.None?)
  {
    premise.kind == Implies && conclusion.kind == Not && AreExpressionsEqual(premise.left, conclusion.right)
  }

  /**
    `silogismoDisjuntivo`: a disjunction and a negation; if the left
    disjunct equals the negated operand the right disjunct is returned,
    otherwise if the right disjunct does the left one is; else null.
   */
  function SilogismoDisjuntivo(premise1: Expr, premise2: Expr): (r: Option<Expr>)
    ensures r.Some? ==> premise1.kind == Or && premise2.kind == Not
    ensures premise1.kind == Or && premise2.kind == Not && AreExpressionsEqual(premise1.left, premise2.right)
            ==> r == premise1.right
    ensures (premise1.kind == Or && premise2.kind == Not && !AreExpressionsEqual(premise1.left, premise2.right) &&
             AreExpressionsEqual(premise1.right, premise2.right)) ==> r == premise1.left
    ensures !AreExpressionsEqual(premise1.left, premise2.right) && !AreExpressionsEqual(premise1.right, premise2.right)
            ==> r.None?
  {
    if premise1.kind == Or && premise2.kind == Not && AreExpressionsEqual(premise1.left, premise2.right) then
      premise1.right
    else if premise1.kind == Or && premise2.kind == Not && AreExpressionsEqual(premise1.right, premise2.right) then
      premise1.left
    else
      None
  }

  /** `eliminacaoDoAnd`: the left conjunct of a conjunction, null for every other tag. */
  function EliminacaoDoAnd(e: Expr): (r: Option<Expr>)
    ensures e.kind == And ==> r == e.left
    ensures e.kind != And ==> r.None?
  {
    if e.kind == And then e.left else None
  }

  /** A non-null rule result that equals the conclusion. */
  predicate Yields(result: Option<Expr>, conclusion: Expr)
  {
    result.Some? && AreExpressionsEqual(result, Some(conclusion))
  }

  /**
    Whether the premise at index i makes a rule fire for the conclusion:
    modus ponens or modus tollens for an implication, elimination of the
    left conjunct for a conjunction, and for a disjunction disjunctive
    syllogism with a premise at another index.
   */
  function RuleFires(ps: seq<Expr>, i: int, conclusion: Expr): (fires: bool)
    requires 0 <= i < |ps|
    ensures fires ==> ps[i].kind != Symbol && ps[i].kind != Not
    ensures fires && ps[i].kind == Or ==> |ps| >= 2
  {
    match ps[i].kind
    case Implies => ModusPonens(ps[i], conclusion).Some? || ModusTollens(ps[i], conclusion)
    case And => Yields(EliminacaoDoAnd(ps[i]), conclusion)
    case Or => exists j :: 0 <= j < |ps| && j != i && Yields(SilogismoDisjuntivo(ps[i], ps[j]), conclusion)
    case _ => false
  }

  /** Some premise equals the conclusion. */
  predicate DirectMatch(ps: seq<Expr>, conclusion: Expr)
  {
    exists i :: 0 <= i < |ps| && AreExpressionsEqual(Some(ps[i]), Some(conclusion))
  }

  /**
    When the check accepts: some premise equals the conclusion, or some
    premise makes a rule fire. Neither depends on the order of the premises.
   */
  function Entails(ps: seq<Expr>, conclusion: Expr): (accepts: bool)
    ensures accepts ==> |ps| > 0
  {
    DirectMatch(ps, conclusion) || exists i :: 0 <= i < |ps| && RuleFires(ps, i, conclusion)
  }

  /** The number of premises a C loop `for (i = 0; i < n; i++)` visits. */
  function Visited(n: int): (r: nat)
    ensures n >= 0 ==> r == n
    ensures n < 0 ==> r == 0
  {
    if n < 0 then 0 else n
  }

  /**
    Disjunctive syllogism for the premise at index i against every premise
    at another index, in index order, as the inner loop of both versions.
   */
  method DisjunctiveSearch(premises: array<Expr>, n: nat, i: nat, conclusion: Expr) returns (found: bool)
    requires n <= premises.Length && i < n
    ensures found <==> exists j :: 0 <= j < n && j != i
                         && Yields(SilogismoDisjuntivo(premises[i], premises[j]), conclusion)
  {
    var premise := premises[i];
    var j := 0;
    while j < n
      invariant 0 <= j <= n
      invariant forall m :: 0 <= m < j && m != i ==> !Yields(SilogismoDisjuntivo(premise, premises[m]), conclusion)
    {
      if j != i {
        var newExpr := SilogismoDisjuntivo(premise, premises[j]);
        if newExpr.Some? && AreExpressionsEqual(newExpr, Some(conclusion)) {
          return true;
        }
      }
      j := j + 1;
    }
    return false;
  }

  /** The rules tried on the premise at index i, as the `switch` of both versions. */
  method TryRules(premises: array<Expr>, n: nat, i: nat, conclusion: Expr) returns (fires: bool)
    requires n <= premises.Length && i < n
    ensures fires == RuleFires(premises[..n], i, conclusion)
  {
    ghost var ps := premises[..n];
    var premise := premises[i];
    assert premise == ps[i];
    match premise.kind {
      case Implies =>
        var newExpr := ModusPonens(premise, conclusion);
        if newExpr.Some? {
          return true;
        }
        return ModusTollens(premise, conclusion);
      case And =>
        var newExpr := EliminacaoDoAnd(premise);
        return newExpr.Some? && AreExpressionsEqual(newExpr, Some(conclusion));
      case Or =>
        fires := DisjunctiveSearch(premises, n, i, conclusion);
        assert fires ==> exists j :: 0 <= j < |ps| && j != i && Yields(SilogismoDisjuntivo(ps[i], ps[j]), conclusion);
      case _ =>
        return false;
    }
  }

  /**
    `checkValidity` as completo.c has it: a first pass looks for a premise
    equal to the conclusion, a second pass tries the rules premise by
    premise; the first success returns true.
   */
  method CheckValidity(premises: array<Expr>, numPremises: int, conclusion: Expr) returns (valid: bool)
    requires numPremises <= premises.Length
    ensures valid == Entails(premises[..Visited(numPremises)], conclusion)
  {
    var n := Visited(numPremises);
    ghost var ps := premises[..n];
    var i := 0;
    while i < n
      invariant 0 <= i <= n
      invariant forall k :: 0 <= k < i ==> !AreExpressionsEqual(Some(ps[k]), Some(conclusion))
    {
      if AreExpressionsEqual(Some(premises[i]), Some(conclusion)) {
        assert ps[i] == premises[i];
        return true;
      }
      i := i + 1;
    }
    i := 0;
    while i < n
      invariant 0 <= i <= n
      invariant forall k :: 0 <= k < i ==> !RuleFires(ps, k, conclusion)
    {
      var fires := TryRules(premises, n, i, conclusion);
      if fires {
        return true;
      }
      i := i + 1;
    }
    return false;
  }

  /**
    `checkValidity` as validacao.c has it: one pass that, premise by
    premise, first compares the premise with the conclusion and then tries
    the rules on it.
   */
  method CheckValidityInterleaved(premises: array<Expr>, numPremises: int, conclusion: Expr) returns (valid: bool)
    requires numPremises <= premises.Length
    ensures valid == Entails(premises[..Visited(numPremises)], conclusion)
  {
    var n := Visited(numPremises);
    ghost var ps := premises[..n];
    var i := 0;
    while i < n
      invariant 0 <= i <= n
      invariant forall k :: 0 <= k < i ==> !AreExpressionsEqual(Some(ps[k]), Some(conclusion)) && !RuleFires(ps, k, conclusion)
    {
      if AreExpressionsEqual(Some(premises[i]), Some(conclusion)) {
        assert ps[i] == premises[i];
        return true;
      }
      var fires := TryRules(premises, n, i, conclusion);
      if fires {
        return true;
      }
      i := i + 1;
    }
    return false;
  }

  /** The two loop shapes give the same verdict on every premise array and conclusion. */
  method BothVersions(premises: array<Expr>, numPremises: int, conclusion: Expr) returns (twoPass: bool, interleaved: bool)
    requires numPremises <= premises.Length
    ensures twoPass == interleaved
    ensures twoPass == Entails(premises[..Visited(numPremises)], conclusion)
  {
    twoPass := CheckValidity(premises, numPremises, conclusion);
    interleaved := CheckValidityInterleaved(premises, numPremises, conclusion);
  }

  /** With no premises nothing is accepted. */
  lemma NoPremisesEntailNothing(conclusion: Expr)
    ensures !Entails([], conclusion)
  {
  }

  /**
    A premise never pairs with itself for disjunctive syllogism: the first
    argument must be a disjunction and the second a negation. The guard
    `otherPremise != premise` therefore changes no verdict.
   */
  lemma SelfPairingNeverYields(p: Expr, conclusion: Expr)
    ensures SilogismoDisjuntivo(p, p).None?
    ensures !Yields(SilogismoDisjuntivo(p, p), conclusion)
  {
  }

  /**
    The verdict depends only on which trees occur among the premises: if
    every premise of `ps` also occurs in `qs`, whatever `ps` entails `qs`
    entails too, however `qs` orders, repeats or adds to them.
   */
  lemma EntailsFromPremisesContained(ps: seq<Expr>, qs: seq<Expr>, conclusion: Expr)
    requires forall i :: 0 <= i < |ps| ==> ps[i] in qs
    requires Entails(ps, conclusion)
    ensures Entails(qs, conclusion)
  {
    if DirectMatch(ps, conclusion) {
      var i :| 0 <= i < |ps| && AreExpressionsEqual(Some(ps[i]), Some(conclusion));
      var k :| 0 <= k < |qs| && qs[k] == ps[i];
      assert DirectMatch(qs, conclusion);
    } else {
      var i :| 0 <= i < |ps| && RuleFires(ps, i, conclusion);
      var k :| 0 <= k < |qs| && qs[k] == ps[i];
      if ps[i].kind == Or {
        var j :| 0 <= j < |ps| && j != i && Yields(SilogismoDisjuntivo(ps[i], ps[j]), conclusion);
        var m :| 0 <= m < |qs| && qs[m] == ps[j];
        assert qs[m].kind == Not && qs[k].kind == Or;
        assert RuleFires(qs, k, conclusion);
      } else {
        assert RuleFires(qs, k, conclusion);
      }
    }
  }

  /** Adding premises never withdraws an accepted conclusion. */
  lemma EntailsMonotone(ps: seq<Expr>, more: seq<Expr>, conclusion: Expr)
    requires Entails(ps, conclusion)
    ensures Entails(ps + more, conclusion)
  {
    forall i | 0 <= i < |ps|
      ensures ps[i] in ps + more
    {
      assert (ps + more)[i] == ps[i];
    }
    EntailsFromPremisesContained(ps, ps + more, conclusion);
  }

  /** The order in which the premises are given does not change the verdict. */
  lemma EntailsIgnoresOrder(ps: seq<Expr>, qs: seq<Expr>, conclusion: Expr)
    requires multiset(ps) == multiset(qs)
    ensures Entails(ps, conclusion) == Entails(qs, conclusion)
  {
    forall i | 0 <= i < |ps|
      ensures ps[i] in qs
    {
      assert ps[i] in multiset(ps);
    }
    forall i | 0 <= i < |qs|
      ensures qs[i] in ps
    {
      assert qs[i] in multiset(qs);
    }
    if Entails(ps, conclusion) {
      EntailsFromPremisesContained(ps, qs, conclusion);
    }
    if Entails(qs, conclusion) {
      EntailsFromPremisesContained(qs, ps, conclusion);
    }
  }

  /** A tree with its letters erased. */
  function EraseExpr(e: Expr): Expr
  {
    Erase(Some(e)).value
  }

  /** Every premise with its letters erased. */
  function EraseAll(ps: seq<Expr>): (r: seq<Expr>)
    ensures |r| == |ps| && forall i :: 0 <= i < |ps| ==> r[i] == EraseExpr(ps[i])
  {
    seq(|ps|, i requires 0 <= i < |ps| => EraseExpr(ps[i]))
  }

  lemma ModusPonensUnderErasure(p: Expr, c: Expr)
    requires WellFormed(p) && WellFormed(c)
    ensures ModusPonens(EraseExpr(p), EraseExpr(c)).Some? == ModusPonens(p, c).Some?
  {
    if p.kind == Implies {
      EqualAfterErasure(p.right, Some(c));
    }
  }

  /**
    Modus tollens fires exactly for an implication and a negation whose
    antecedent and negated operand are the same tree once letters are erased.
   */
  lemma ModusTollensIffErasedMatch(premise: Expr, conclusion: Expr)
    requires WellFormed(premise) && WellFormed(conclusion)
    ensures ModusTollens(premise, conclusion) <==>
              premise.kind == Implies && conclusion.kind == Not && Erase(premise.left) == Erase(conclusion.right)
  {
    if premise.kind == Implies && conclusion.kind == Not {
      EqualIffSameErasure(premise.left, conclusion.right);
    }
  }

  /** Modus tollens never reads the consequent of the implication. */
  lemma ModusTollensIgnoresRight(premise: Expr, conclusion: Expr, x: Option<Expr>)
    ensures ModusTollens(premise.(right := x), conclusion) == ModusTollens(premise, conclusion)
  {
  }

  lemma ModusTollensUnderErasure(p: Expr, c: Expr)
    requires WellFormed(p) && WellFormed(c)
    ensures ModusTollens(EraseExpr(p), EraseExpr(c)) == ModusTollens(p, c)
  {
    if p.kind == Implies && c.kind == Not {
      EqualAfterErasure(p.left, c.right);
    }
  }

  lemma ConjunctionUnderErasure(p: Expr, c: Expr)
    requires WellFormed(p) && WellFormed(c)
    ensures Yields(EliminacaoDoAnd(EraseExpr(p)), EraseExpr(c)) == Yields(EliminacaoDoAnd(p), c)
  {
    if p.kind == And {
      EqualAfterErasure(p.left, Some(c));
    }
  }

  lemma DisjunctiveUnderErasure(p: Expr, q: Expr, c: Expr)
    requires WellFormed(p) && WellFormed(q) && WellFormed(c)
    ensures Yields(SilogismoDisjuntivo(EraseExpr(p), EraseExpr(q)), EraseExpr(c))
         == Yields(SilogismoDisjuntivo(p, q), c)
  {
    if p.kind == Or && q.kind == Not {
      EqualAfterErasure(p.left, q.right);
      EqualAfterErasure(p.right, q.right);
      EqualAfterErasure(p.left, Some(c));
      EqualAfterErasure(p.right, Some(c));
    }
  }

  /**
    The verdict depends on the tags and shapes of the trees only: erasing
    every letter of the premises and of the conclusion leaves it unchanged.
   */
  lemma EntailsIgnoresLetters(ps: seq<Expr>, conclusion: Expr)
    requires forall i :: 0 <= i < |ps| ==> WellFormed(ps[i])
    requires WellFormed(conclusion)
    ensures Entails(EraseAll(ps), EraseExpr(conclusion)) == Entails(ps, conclusion)
  {
    var es, ec := EraseAll(ps), EraseExpr(conclusion);
    forall i | 0 <= i < |ps|
      ensures AreExpressionsEqual(Some(es[i]), Some(ec)) == AreExpressionsEqual(Some(ps[i]), Some(conclusion))
      ensures RuleFires(es, i, ec) == RuleFires(ps, i, conclusion)
    {
      EqualAfterErasure(Some(ps[i]), Some(conclusion));
      match ps[i].kind
      case Implies =>
        ModusPonensUnderErasure(ps[i], conclusion);
        ModusTollensUnderErasure(ps[i], conclusion);
      case And =>
        ConjunctionUnderErasure(ps[i], conclusion);
      case Or =>
        forall j | 0 <= j < |ps|
          ensures Yields(SilogismoDisjuntivo(es[i], es[j]), ec) == Yields(SilogismoDisjuntivo(ps[i], ps[j]), conclusion)
        {
          DisjunctiveUnderErasure(ps[i], ps[j], conclusion);
        }
      case _ =>
    }
    assert DirectMatch(es, ec) == DirectMatch(ps, conclusion);
  }

  /** Eliminating the left conjunct of a true conjunction gives a true formula. */
  lemma ConjunctionEliminationSound(p: Expr, v: char -> bool)
    requires WellFormed(p) && Eval(p, v) && EliminacaoDoAnd(p).Some?
    ensures WellFormed(EliminacaoDoAnd(p).value) && Eval(EliminacaoDoAnd(p).value, v)
  {
  }

  /**
    Disjunctive syllogism is sound when the disjunct it matched really is the
    negated formula (and not only the same shape with other letters).
   */
  lemma DisjunctiveSyllogismSoundOnExactMatch(p: Expr, q: Expr, v: char -> bool)
    requires WellFormed(p) && WellFormed(q) && Eval(p, v) && Eval(q, v)
    requires p.kind == Or && q.kind == Not
    requires p.left == q.right || (p.right == q.right && !AreExpressionsEqual(p.left, q.right))
    ensures SilogismoDisjuntivo(p, q).Some?
    ensures WellFormed(SilogismoDisjuntivo(p, q).value) && Eval(SilogismoDisjuntivo(p, q).value, v)
  {
    if p.left == q.right {
      EqualReflexive(p.left);
    } else {
      EqualReflexive(p.right);
    }
  }

  /** A symbol premise yields any symbol conclusion, whatever the two letters. */
  lemma SymbolPremiseEntailsEverySymbol(ps: seq<Expr>, i: int, c: char)
    requires 0 <= i < |ps| && IsLeaf(ps[i])
    ensures Entails(ps, Leaf(c))
  {
    assert AreExpressionsEqual(Some(ps[i]), Some(Leaf(c)));
  }

  /** `P -> Q, P` yields `Q` (here already because `P` equals `Q` as trees). */
  lemma ModusPonensExample()
    ensures Entails([Binary(Implies, Leaf('P'), Leaf('Q')), Leaf('P')], Leaf('Q'))
    ensures DirectMatch([Binary(Implies, Leaf('P'), Leaf('Q')), Leaf('P')], Leaf('Q'))
  {
    SymbolPremiseEntailsEverySymbol([Binary(Implies, Leaf('P'), Leaf('Q')), Leaf('P')], 1, 'Q');
  }

  /**
    The single premise `P -> Q` yields `Q`: modus ponens fires without the
    antecedent among the premises, and `P` false, `Q` false makes the premise
    true and the conclusion false.
   */
  lemma ModusPonensIgnoresAntecedent()
    ensures Entails([Binary(Implies, Leaf('P'), Leaf('Q'))], Leaf('Q'))
    ensures var v := (x: char) => false;
            Eval(Binary(Implies, Leaf('P'), Leaf('Q')), v) && !Eval(Leaf('Q'), v)
  {
    var ps := [Binary(Implies, Leaf('P'), Leaf('Q'))];
    assert RuleFires(ps, 0, Leaf('Q'));
  }

  /**
    The single premise `P -> Q` yields `~P`: the firing condition of modus
    tollens never looks at `~Q`, and `P`, `Q` true refutes the conclusion.
   */
  lemma ModusTollensIgnoresConsequent()
    ensures Entails([Binary(Implies, Leaf('P'), Leaf('Q'))], Negation(Leaf('P')))
    ensures var v := (x: char) => true;
            Eval(Binary(Implies, Leaf('P'), Leaf('Q')), v) && !Eval(Negation(Leaf('P')), v)
  {
    var ps := [Binary(Implies, Leaf('P'), Leaf('Q'))];
    assert RuleFires(ps, 0, Negation(Leaf('P')));
  }

  /** The premise `P` yields the conclusion `Q`: letters never change the answer of equality. */
  lemma LetterBlindAcceptance()
    ensures Entails([Leaf('P')], Leaf('Q'))
    ensures var v := (x: char) => x == 'P';
            Eval(Leaf('P'), v) && !Eval(Leaf('Q'), v)
  {
    SymbolPremiseEntailsEverySymbol([Leaf('P')], 0, 'Q');
  }

  /** `P v Q, ~P` yields `Q`, the textbook disjunctive syllogism. */
  lemma DisjunctiveSyllogismExample()
    ensures SilogismoDisjuntivo(Binary(Or, Leaf('P'), Leaf('Q')), Negation(Leaf('P'))) == Some(Leaf('Q'))
    ensures Entails([Binary(Or, Leaf('P'), Leaf('Q')), Negation(Leaf('P'))], Leaf('Q'))
  {
    var ps := [Binary(Or, Leaf('P'), Leaf('Q')), Negation(Leaf('P'))];
    assert Yields(SilogismoDisjuntivo(ps[0], ps[1]), Leaf('Q'));
    assert RuleFires(ps, 0, Leaf('Q'));
  }

  /**
    `P v Q, ~Q` also yields `Q`: the left disjunct `P` matches `Q` first, so
    the right disjunct comes back; `P` true, `Q` false makes both premises
    true and the conclusion false.
   */
  lemma DisjunctiveSyllogismWrongDisjunct()
    ensures SilogismoDisjuntivo(Binary(Or, Leaf('P'), Leaf('Q')), Negation(Leaf('Q'))) == Some(Leaf('Q'))
    ensures Entails([Binary(Or, Leaf('P'), Leaf('Q')), Negation(Leaf('Q'))], Leaf('Q'))
    ensures var v := (x: char) => x == 'P';
            Eval(Binary(Or, Leaf('P'), Leaf('Q')), v) && Eval(Negation(Leaf('Q')), v) && !Eval(Leaf('Q'), v)
  {
    var ps := [Binary(Or, Leaf('P'), Leaf('Q')), Negation(Leaf('Q'))];
    assert Yields(SilogismoDisjuntivo(ps[0], ps[1]), Leaf('Q'));
    assert RuleFires(ps, 0, Leaf('Q'));
  }

  /**
    `P & ~Q` does not yield `~Q`, a consequence of it: only the left conjunct
    is ever eliminated.
   */
  lemma ConjunctionEliminationLeftOnly()
    ensures !Entails([Binary(And, Leaf('P'), Negation(Leaf('Q')))], Negation(Leaf('Q')))
    ensures forall v: char -> bool :: Eval(Binary(And, Leaf('P'), Negation(Leaf('Q'))), v) ==> Eval(Negation(Leaf('Q')), v)
  {
    var ps := [Binary(And, Leaf('P'), Negation(Leaf('Q')))];
    assert !RuleFires(ps, 0, Negation(Leaf('Q')));
    assert !DirectMatch(ps, Negation(Leaf('Q')));
  }
}
