/**
  The equivalence rewriter (`applyEquivalences`) as a function on trees. It
  applies at most one of four local rewrites at the root and returns; the
  in-place version on linked nodes is `Nodes.Node.ApplyEquivalences`.
 */
module Normalizer {
  import opened Wrappers
  import opened Expressions
  import opened Parser

  /**
    The pointers the rewriter dereferences are present: the left child of a
    conjunction or disjunction, and its right child too when the left one is
    a symbol; the consequent of an implication; the operand of a negation,
    and the inner operand of a double negation.
   */
  predicate NormalizeDefined(e: Expr)
  {
    match e.kind
    case And | Or => e.left.Some? && (e.left.value.kind == Symbol ==> e.right.Some?)
    case Implies => e.right.Some?
    case Not => e.right.Some? && (e.right.value.kind == Not ==> e.right.value.right.Some?)
    case Symbol => true
  }

  /** An implication whose consequent is a negation: the transposition case. */
  predicate IsTransposable(e: Expr)
  {
    e.kind == Implies && e.right.Some? && e.right.value.kind == Not
  }

  /** A negation of a negation: the double-negation case. */
  predicate IsDoubleNegation(e: Expr)
  {
    e.kind == Not && e.right.Some? && e.right.value.kind == Not
  }

  /** Commutativity: two symbol children are put in order of their letters. */
  function Commute(e: Expr): (r: Expr)
    requires e.left.Some? && (e.left.value.kind == Symbol ==> e.right.Some?)
    ensures r.kind == e.kind && r.symbol == e.symbol && r.left.Some?
    ensures WellFormed(e) ==> WellFormed(r)
  {
    if e.left.value.kind == Symbol && e.right.value.kind == Symbol
       && CharValue(e.left.value.symbol) > CharValue(e.right.value.symbol)
    then e.(left := e.right, right := e.left)
    else e
  }

  /**
    Associativity: the left child's right child and the node's right child
    trade places, so `(A op B) op C` becomes `(A op C) op B`.
   */
  function Rotate(e: Expr): (r: Expr)
    requires e.left.Some?
    ensures WellFormed(e) && e.left.value.kind == e.kind ==> WellFormed(r)
  {
    var l := e.left.value;
    var rotated := l.(right := e.right);
    assert WellFormed(e) && l.kind == e.kind ==> WellFormed(l) && WellFormed(l.left.value) && WellFormed(e.right.value);
    e.(left := Some(rotated), right := l.right)
  }

  /**
    Transposition: the implication becomes a disjunction whose left is the
    negation's operand and whose right is the negation node, now holding the
    old antecedent.
   */
  function Transpose(e: Expr): (r: Expr)
    requires e.right.Some?
    ensures WellFormed(e) && e.kind == Implies && e.right.value.kind == Not ==> WellFormed(r)
  {
    var n := e.right.value;
    assert WellFormed(e) && e.kind == Implies && n.kind == Not ==> WellFormed(n) && WellFormed(e.left.value) && WellFormed(n.right.value);
    e.(kind := Or, left := n.right, right := Some(n.(kind := Not, right := e.left)))
  }

  /** Double negation: the node becomes a symbol with the inner operand's letter and no right child. */
  function Collapse(e: Expr): (r: Expr)
    requires e.right.Some? && e.right.value.right.Some?
    ensures WellFormed(e) && e.kind == Not ==> WellFormed(r)
  {
    e.(kind := Symbol, symbol := e.right.value.right.value.symbol, right := None)
  }

  /**
    `applyEquivalences`, at the root only: a conjunction or disjunction is
    commuted, then rotated if its left child has the same connective; an
    implication whose consequent is a negation is transposed; a negation of
    a negation is collapsed; anything else is returned unchanged.
   */
  function Normalize(e: Expr): (r: Expr)
    requires NormalizeDefined(e)
    ensures WellFormed(e) ==> WellFormed(r)
  {
    match e.kind
    case And | Or =>
      var c := Commute(e);
      if c.left.value.kind == c.kind then Rotate(c) else c
    case Implies =>
      if e.right.value.kind == Not then Transpose(e) else e
    case Not =>
      if e.right.value.kind == Not then Collapse(e) else e
    case Symbol => e
  }

  /** Every well-formed tree can be rewritten. */
  lemma WellFormedIsNormalizeDefined(e: Expr)
    requires WellFormed(e)
    ensures NormalizeDefined(e)
  {
  }

  /**
    Commutativity: a conjunction or disjunction of two symbols ends with its
    letters in order and holds the same two leaves under the same connective.
   */
  lemma NormalizeOrdersSymbols(e: Expr)
    requires (e.kind == And || e.kind == Or) && e.left.Some? && e.right.Some?
    requires e.left.value.kind == Symbol && e.right.value.kind == Symbol
    ensures var r := Normalize(e);
      && r.kind == e.kind && r.symbol == e.symbol
      && r.left.Some? && r.right.Some?
      && CharValue(r.left.value.symbol) <= CharValue(r.right.value.symbol)
      && multiset{r.left.value, r.right.value} == multiset{e.left.value, e.right.value}
  {
  }

  /**
    Associativity: `(A op B) op C` becomes `(A op C) op B` when both
    connectives are the same `&` or `v`; A, B and C are moved, not changed.
   */
  lemma NormalizeRotates(e: Expr)
    requires (e.kind == And || e.kind == Or) && e.left.Some?
    requires e.left.value.kind == e.kind
    ensures var l := e.left.value;
      Normalize(e) == e.(left := Some(l.(right := e.right)), right := l.right)
  {
  }

  /**
    Transposition: `A -> ~B` becomes `B v ~A`, reusing the negation node;
    A and B are moved, not changed.
   */
  lemma NormalizeTransposes(a: Expr, b: Expr)
    ensures Normalize(Binary(Implies, a, Negation(b))) == Binary(Or, b, Negation(a))
  {
  }

  /** Double negation: `~~X` becomes a symbol holding X's letter. */
  lemma NormalizeCollapsesDoubleNegation(x: Expr)
    ensures Normalize(Negation(Negation(x))) == Leaf(x.symbol)
  {
  }

  /**
    The rewriter changes nothing about a symbol, an implication whose
    consequent is not a negation, a negation of anything but a negation, or
    a conjunction or disjunction whose children are not two unordered
    symbols and whose left child has another connective.
   */
  lemma NormalizeUnchanged(e: Expr)
    requires NormalizeDefined(e)
    requires e.kind == Symbol
          || (e.kind == Implies && e.right.value.kind != Not)
          || (e.kind == Not && e.right.value.kind != Not)
          || ((e.kind == And || e.kind == Or) && e.left.value.kind != e.kind
              && !(e.left.value.kind == Symbol && e.right.value.kind == Symbol
                   && CharValue(e.left.value.symbol) > CharValue(e.right.value.symbol)))
    ensures Normalize(e) == e
  {
  }

  /**
    Commutativity, associativity and double negation of a symbol keep the
    truth value of a well-formed tree under every assignment.
   */
  lemma NormalizePreservesMeaning(e: Expr, v: char -> bool)
    requires WellFormed(e)
    requires !IsTransposable(e)
    requires IsDoubleNegation(e) ==> e.right.value.right.Some? && e.right.value.right.value.kind == Symbol
    ensures Eval(Normalize(e), v) == Eval(e, v)
  {
    if e.kind == And || e.kind == Or {
      var c := Commute(e);
      assert Eval(c, v) == Eval(e, v);
      assert WellFormed(c) && WellFormed(c.left.value) && WellFormed(c.right.value);
      if c.left.value.kind == c.kind {
        var l := c.left.value;
        var rotated := l.(right := c.right);
        assert WellFormed(l.left.value) && WellFormed(l.right.value) && WellFormed(rotated);
        var r := c.(left := Some(rotated), right := l.right);
        assert Normalize(e) == r;
        assert Eval(l, v) == (if e.kind == And then Eval(l.left.value, v) && Eval(l.right.value, v)
                              else Eval(l.left.value, v) || Eval(l.right.value, v));
        assert Eval(rotated, v) == (if e.kind == And then Eval(l.left.value, v) && Eval(c.right.value, v)
                                    else Eval(l.left.value, v) || Eval(c.right.value, v));
        assert Eval(r, v) == (if e.kind == And then Eval(rotated, v) && Eval(l.right.value, v)
                              else Eval(rotated, v) || Eval(l.right.value, v));
      } else {
        assert Normalize(e) == c;
      }
    } else if IsDoubleNegation(e) {
      var x := e.right.value.right.value;
      assert Normalize(e) == Leaf(x.symbol);
      assert Eval(e, v) == !Eval(e.right.value, v) == Eval(x, v);
    } else {
      assert Normalize(e) == e;
    }
  }

  /**
    Transposition does not keep the truth value: `P -> ~Q` is false when P
    and Q are both true, and its rewrite `Q v ~P` is true.
   */
  lemma TranspositionChangesMeaning()
    ensures var e := Binary(Implies, Leaf('P'), Negation(Leaf('Q')));
      var allTrue := (c: char) => true;
      WellFormed(e) && !Eval(e, allTrue) && Eval(Normalize(e), allTrue)
  {
  }

  /**
    On a tree the parser built, whose children are leaves, only
    commutativity can apply: associativity, transposition and double
    negation each need a connective below the root.
   */
  lemma NormalizeParsedOnlyCommutes(s: string)
    requires Parse(s).Ok?
    ensures NormalizeDefined(Parse(s).value)
    ensures var e := Parse(s).value;
      Normalize(e) == (if e.kind == And || e.kind == Or then Commute(e) else e)
  {
    ParseShape(s);
  }

  /** Hence rewriting a parsed tree never changes its truth value. */
  lemma NormalizeParsedPreservesMeaning(s: string, v: char -> bool)
    requires Parse(s).Ok?
    ensures WellFormed(Parse(s).value) && NormalizeDefined(Parse(s).value)
    ensures WellFormed(Normalize(Parse(s).value))
    ensures Eval(Normalize(Parse(s).value), v) == Eval(Parse(s).value, v)
  {
    ParseShape(s);
    NormalizePreservesMeaning(Parse(s).value, v);
  }
}
