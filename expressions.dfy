/**
  The term tree of the propositional-logic checker and its structural
  equality (`areExpressionsEqual`), together with a truth-value semantics
  that serves as the reference meaning of the trees.
 */
module Expressions {
  import opened Wrappers

  /** The tag of a node (the source's `ExprType`). */
  datatype Kind = Symbol | And | Or | Implies | Not

  /**
    One node of a term tree, field for field as the source's struct: a tag,
    a letter (read only when the tag is `Symbol`), and two child pointers,
    either of which may be null. A `Not` node keeps its operand in `right`.
   */
  datatype Expr = Expr(kind: Kind, symbol: char, left: Option<Expr>, right: Option<Expr>)

  /** The letter held by connective nodes, whose letter field is never written. */
  const Unset: char := '\0'

  function Leaf(c: char): Expr
  {
    Expr(Symbol, c, None, None)
  }

  function Negation(operand: Expr): Expr
  {
    Expr(Not, Unset, None, Some(operand))
  }

  function Binary(k: Kind, l: Expr, r: Expr): Expr
  {
    Expr(k, Unset, Some(l), Some(r))
  }

  predicate IsLeaf(e: Expr)
  {
    e.kind == Symbol && e.left.None? && e.right.None?
  }

  /**
    The shape every parsed tree has: symbols have no children, a negation has
    only a right child, a binary connective has both children.
   */
  predicate WellFormed(e: Expr)
  {
    match e.kind
    case Symbol => e.left.None? && e.right.None?
    case Not => e.left.None? && e.right.Some? && WellFormed(e.right.value)
    case _ => e.left.Some? && e.right.Some? && WellFormed(e.left.value) && WellFormed(e.right.value)
  }

  /** A possibly-null pointer to a well-formed tree. */
  predicate WellFormedOrNull(a: Option<Expr>)
  {
    a.Some? ==> WellFormed(a.value)
  }

  /**
    The numeric value of a C `char` holding the byte `c` (0..255) where
    `char` is signed, as on x86: bytes from 128 up are negative.
   */
  function CharValue(c: char): int
  {
    if 128 <= c as int < 256 then c as int - 256 else c as int
  }

  /**
    Structural equality as `areExpressionsEqual` computes it. Two null
    pointers are equal, a null and a non-null pointer are not, different tags
    are not; two symbols with the same letter are equal at once, and in every
    other case, including two symbols with DIFFERENT letters, the children are
    compared pairwise.
   */
  function AreExpressionsEqual(a: Option<Expr>, b: Option<Expr>): (r: bool)
    ensures r ==> (a.None? <==> b.None?)
    ensures r && a.Some? && b.Some? ==> a.value.kind == b.value.kind
  {
    if a.None? && b.None? then true
    else if a.None? || b.None? then false
    else if a.value.kind != b.value.kind then false
    else if a.value.kind == Symbol && b.value.kind == Symbol && a.value.symbol == b.value.symbol then true
    else AreExpressionsEqual(a.value.left, b.value.left) && AreExpressionsEqual(a.value.right, b.value.right)
  }

  /** The tree with every letter replaced by `Unset`: only tags and shape remain. */
  function Erase(a: Option<Expr>): (r: Option<Expr>)
    ensures r.None? <==> a.None?
    ensures a.Some? ==> r.value.kind == a.value.kind && r.value.symbol == Unset
  {
    match a
    case None => None
    case Some(e) => Some(Expr(e.kind, Unset, Erase(e.left), Erase(e.right)))
  }

  /** The null and tag cases of equality. */
  lemma EqualityNullAndTagCases(a: Option<Expr>, b: Option<Expr>)
    ensures a.None? && b.None? ==> AreExpressionsEqual(a, b)
    ensures a.None? != b.None? ==> !AreExpressionsEqual(a, b)
    ensures a.Some? && b.Some? && a.value.kind != b.value.kind ==> !AreExpressionsEqual(a, b)
  {
  }

  /** Two childless symbols are equal whatever their letters. */
  lemma SymbolLettersIgnored(c: char, d: char)
    ensures AreExpressionsEqual(Some(Leaf(c)), Some(Leaf(d)))
  {
  }

  lemma {:induction false} EqualReflexive(a: Option<Expr>)
    ensures AreExpressionsEqual(a, a)
  {
    if a.Some? && a.value.kind != Symbol {
      EqualReflexive(a.value.left);
      EqualReflexive(a.value.right);
    }
  }

  lemma {:induction false} EqualSymmetric(a: Option<Expr>, b: Option<Expr>)
    ensures AreExpressionsEqual(a, b) == AreExpressionsEqual(b, a)
  {
    if a.Some? && b.Some? && a.value.kind == b.value.kind && !(a.value.kind == Symbol && a.value.symbol == b.value.symbol) {
      EqualSymmetric(a.value.left, b.value.left);
      EqualSymmetric(a.value.right, b.value.right);
    }
  }

  /**
    On well-formed trees, equality is exactly equality of the letter-erased
    trees: it compares tags and shape and nothing else.
   */
  lemma {:induction false} EqualIffSameErasure(a: Option<Expr>, b: Option<Expr>)
    requires WellFormedOrNull(a) && WellFormedOrNull(b)
    ensures AreExpressionsEqual(a, b) <==> Erase(a) == Erase(b)
  {
    if a.Some? && b.Some? && a.value.kind == b.value.kind && a.value.kind != Symbol {
      EqualIffSameErasure(a.value.left, b.value.left);
      EqualIffSameErasure(a.value.right, b.value.right);
    }
  }

  /** Consequently equality is transitive on well-formed trees. */
  lemma EqualTransitive(a: Option<Expr>, b: Option<Expr>, c: Option<Expr>)
    requires WellFormedOrNull(a) && WellFormedOrNull(b) && WellFormedOrNull(c)
    requires AreExpressionsEqual(a, b) && AreExpressionsEqual(b, c)
    ensures AreExpressionsEqual(a, c)
  {
    EqualIffSameErasure(a, b);
    EqualIffSameErasure(b, c);
    EqualIffSameErasure(a, c);
  }

  /** Erasing letters keeps a tree well formed. */
  lemma {:induction false} ErasePreservesWellFormed(a: Option<Expr>)
    requires WellFormedOrNull(a)
    ensures WellFormedOrNull(Erase(a))
  {
    if a.Some? {
      ErasePreservesWellFormed(a.value.left);
      ErasePreservesWellFormed(a.value.right);
    }
  }

  /** Erasing twice erases nothing more. */
  lemma {:induction false} EraseIdempotent(a: Option<Expr>)
    ensures Erase(Erase(a)) == Erase(a)
  {
    if a.Some? {
      EraseIdempotent(a.value.left);
      EraseIdempotent(a.value.right);
    }
  }

  /**
    Equality cannot tell a well-formed tree from its erasure: comparing the
    erased trees gives the same answer as comparing the trees.
   */
  lemma EqualAfterErasure(a: Option<Expr>, b: Option<Expr>)
    requires WellFormedOrNull(a) && WellFormedOrNull(b)
    ensures AreExpressionsEqual(Erase(a), Erase(b)) == AreExpressionsEqual(a, b)
  {
    EqualIffSameErasure(a, b);
    ErasePreservesWellFormed(a);
    ErasePreservesWellFormed(b);
    EqualIffSameErasure(Erase(a), Erase(b));
    EraseIdempotent(a);
    EraseIdempotent(b);
  }

  /**
    The truth value of a well-formed tree when each letter `c` stands for
    `v(c)`: the reference meaning against which rewrites and rules are judged.
   */
  function Eval(e: Expr, v: char -> bool): bool
    requires WellFormed(e)
  {
    match e.kind
    case Symbol => v(e.symbol)
    case Not => !Eval(e.right.value, v)
    case And => Eval(e.left.value, v) && Eval(e.right.value, v)
    case Or => Eval(e.left.value, v) || Eval(e.right.value, v)
    case Implies => !Eval(e.left.value, v) || Eval(e.right.value, v)
  }
}
