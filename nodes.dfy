/**
  Term trees as linked heap nodes, the form in which the source builds them
  (`createExpression`) and rewrites them in place (`applyEquivalences`).
  Each node owns its subtree: the ghost field `Repr` is the set of nodes
  below and including it, and `Valid` says that subtrees are disjoint, so no
  node is shared and there are no cycles. `Model` is the tree as a value.
 */
module Nodes {
  import opened Wrappers
  import opened Expressions
  import opened Parser
  import opened Normalizer

  /** A heap node (the source's `struct Expression`). */
  class Node {
    var kind: Kind
    var symbol: char
    var left: Node?
    var right: Node?
    ghost var Repr: set<object>

    ghost predicate Valid()
      reads this, Repr
      decreases Repr
    {
      && this in Repr
      && (left != null ==> left in Repr && left.Repr <= Repr && this !in left.Repr && left.Valid())
      && (right != null ==> right in Repr && right.Repr <= Repr && this !in right.Repr && right.Valid())
      && (left != null && right != null ==> left.Repr !! right.Repr)
      && Repr == {this} + (if left != null then left.Repr else {}) + (if right != null then right.Repr else {})
    }

    /** The subtree rooted here as a value; null children are None. */
    ghost function Model(): Expr
      reads this, Repr
      requires Valid()
      decreases Repr
    {
      Expr(kind, symbol,
           if left == null then None else Some(left.Model()),
           if right == null then None else Some(right.Model()))
    }

    /** The nodes of the subtree a possibly-null pointer leads to. */
    static ghost function ReprOf(n: Node?): set<object>
      reads n
    {
      if n == null then {} else n.Repr
    }

    /** The subtree a possibly-null pointer leads to, as a value. */
    static ghost function ModelOf(n: Node?): Option<Expr>
      reads n, if n != null then n.Repr else {}
      requires n != null ==> n.Valid()
    {
      if n == null then None else Some(n.Model())
    }

    /** A freshly allocated node without children. */
    constructor (k: Kind, c: char)
      ensures Valid() && fresh(Repr) && Repr == {this}
      ensures Model() == Expr(k, c, None, None)
    {
      kind, symbol := k, c;
      left, right := null, null;
      Repr := {this};
    }

    /**
      Overwrites this node's tag and letter and points its two child pointers
      at two disjoint subtrees that do not contain it.
     */
    method Rewire(k: Kind, c: char, l: Node?, r: Node?)
      requires l != null ==> l.Valid() && this !in l.Repr
      requires r != null ==> r.Valid() && this !in r.Repr
      requires ReprOf(l) !! ReprOf(r)
      modifies this
      ensures kind == k && symbol == c && left == l && right == r
      ensures Valid() && Repr == {this} + old(ReprOf(l)) + old(ReprOf(r))
      ensures Model() == Expr(k, c, old(ModelOf(l)), old(ModelOf(r)))
    {
      kind, symbol := k, c;
      left, right := l, r;
      Repr := {this} + ReprOf(l) + ReprOf(r);
      SubtreeUnchanged(l);
      SubtreeUnchanged(r);
    }

    /**
      `applyEquivalences`: rewrites the subtree rooted here, in place, into
      `Normalize` of what it was. The rewrites only re-link existing nodes
      and overwrite tags and letters: no node is allocated, and only the
      double-negation collapse releases nodes (the inner negation and its
      operand).
     */
    method ApplyEquivalences()
      requires Valid() && NormalizeDefined(Model())
      modifies Repr
      ensures Valid()
      ensures Model() == Normalize(old(Model()))
      ensures Repr <= old(Repr)
      ensures !IsDoubleNegation(old(Model())) ==> Repr == old(Repr)
    {
      ghost var e := Model();
      assert e.left == ModelOf(left) && e.right == ModelOf(right);
      if kind == And || kind == Or {
        CommuteInPlace();
        if left.kind == kind {
          RotateInPlace();
        }
      } else if kind == Implies {
        if right.kind == Not {
          TransposeInPlace();
        }
      } else if kind == Not {
        if right.kind == Not {
          assert right.Model().right == ModelOf(right.right);
          assert e.right.value.kind == Not;
          CollapseInPlace();
        }
      }
    }

    /** Commutativity in place: two symbol children out of order trade places. */
    method CommuteInPlace()
      requires Valid() && (kind == And || kind == Or) && NormalizeDefined(Model())
      modifies this
      ensures Valid() && Repr == old(Repr) && left != null
      ensures Model() == Commute(old(Model()))
    {
      assert Model().left == ModelOf(left) && Model().right == ModelOf(right);
      if left.kind == Symbol && right.kind == Symbol && CharValue(left.symbol) > CharValue(right.symbol) {
        left, right := right, left;
      }
    }

    /**
      Associativity in place: the left child's right pointer takes this
      node's right subtree, and this node's right pointer takes the left
      child's old right subtree.
     */
    method RotateInPlace()
      requires Valid() && left != null
      modifies Repr
      ensures Valid() && Repr == old(Repr)
      ensures Model() == Rotate(old(Model()))
    {
      var l := left;
      var temp := l.right;
      var c := right;
      ghost var m := Model();
      ghost var ma, mb, mc := ModelOf(l.left), ModelOf(temp), ModelOf(c);
      assert l.Model() == Expr(l.kind, l.symbol, ma, mb);
      assert m == Expr(kind, symbol, Some(l.Model()), mc);
      ghost var ra, rb, rc := ReprOf(l.left), ReprOf(temp), ReprOf(c);
      assert l.Repr == {l} + ra + rb;
      assert this !in ra + rb + rc && l !in ra + rb + rc && this != l;
      assert ra !! rb && ra !! rc && rb !! rc;
      l.Rewire(l.kind, l.symbol, l.left, c);
      assert l.Model() == Expr(l.kind, l.symbol, ma, mc);
      SubtreeUnchanged(temp);
      Rewire(kind, symbol, l, temp);
      RotatedUnion(this, l, ra, rb, rc);
    }

    /**
      Transposition in place: this node becomes a disjunction whose left is
      the negation's operand; the negation node takes the old antecedent.
     */
    method TransposeInPlace()
      requires Valid() && right != null
      modifies Repr
      ensures Valid()
      ensures Repr == old(Repr)
      ensures Model() == Transpose(old(Model()))
    {
      var n := right;
      var temp := left;
      var b := n.right;
      ghost var m := Model();
      ghost var ma, mb, mnl := ModelOf(temp), ModelOf(b), ModelOf(n.left);
      assert n.Model() == Expr(n.kind, n.symbol, mnl, mb);
      assert m == Expr(kind, symbol, ma, Some(n.Model()));
      ghost var ra, rb, rnl := ReprOf(temp), ReprOf(b), ReprOf(n.left);
      assert n.Repr == {n} + rnl + rb;
      assert ra !! rb && ra !! rnl && rb !! rnl;
      var nl := n.left;
      assert (b != null ==> b in rb) && (temp != null ==> temp in ra) && (nl != null ==> nl in rnl);
      n.Rewire(Not, n.symbol, nl, temp);
      SubtreeUnchanged(b);
      Rewire(Or, symbol, b, n);
      SwappedUnion(this, n, ra, rb, rnl);
    }

    /**
      Double negation in place: this node becomes a symbol with the inner
      operand's letter; the negation below it and that operand are released.
     */
    method CollapseInPlace()
      requires Valid() && right != null && right.right != null
      modifies this
      ensures Valid() && left == old(left) && Repr == {this} + ReprOf(left)
      ensures old(Model()).right.Some? && old(Model()).right.value.right.Some?
      ensures Model() == Collapse(old(Model()))
    {
      var temp := right.right;
      ghost var m := Model();
      assert right.Model().right == Some(temp.Model());
      assert m == Expr(kind, symbol, ModelOf(left), Some(right.Model()));
      Rewire(Symbol, temp.symbol, left, null);
    }
  }

  /**
    `createExpression`, allocating the nodes of the tree `Parse` describes:
    on success a fresh, valid tree whose value is the parsed tree, and on
    failure the same error as `Parse`.
   */
  method CreateExpression(s: string) returns (r: Result<Node, ParseError>)
    ensures Parse(s).Err? ==> r == Err(Parse(s).error)
    ensures Parse(s).Ok? ==> r.Ok? && r.value.Valid() && fresh(r.value.Repr) && r.value.Model() == Parse(s).value
    decreases |s|, 3
  {
    if |s| == 2 {
      var n := new Node(Symbol, s[0]);
      return Ok(n);
    }
    var t := StripNewline(s);
    var op := OperatorOf(t);
    if op.None? {
      return Err(NoOperator(t));
    }
    r := CreateOperands(t, op.value);
  }

  /** The operands of a string whose connective is k, as `ParseOperands`, hung under a fresh node. */
  method CreateOperands(t: string, k: Kind) returns (r: Result<Node, ParseError>)
    requires OperatorOf(t) == Some(k)
    ensures ParseOperands(t, k).Err? ==> r == Err(ParseOperands(t, k).error)
    ensures ParseOperands(t, k).Ok? ==> r.Ok? && r.value.Valid() && fresh(r.value.Repr) && r.value.Model() == ParseOperands(t, k).value
    decreases |t|, 2
  {
    var d := Delimiters(k);
    var first := CreateOperand(t, d, 0);
    if first.Err? {
      assert ParseOperands(t, k) == Err(first.error);
      return Err(first.error);
    }
    var (l, b) := first.value;
    ghost var left := l.Model();
    if k == Not {
      assert ParseOperands(t, k) == Ok(Negation(left));
      var n := Join(k, null, l);
      return Ok(n);
    }
    r := CreateBinary(t, k, l, b);
  }

  /**
    The rest of a binary connective once its first operand is built: the
    second token, resuming where the first ended, its tree, and the node
    over both operands.
   */
  method CreateBinary(t: string, k: Kind, l: Node, b: nat) returns (r: Result<Node, ParseError>)
    requires OperatorOf(t) == Some(k) && k != Not
    requires l.Valid() && Operand(t, Delimiters(k), 0) == Ok((l.Model(), b))
    ensures ParseOperands(t, k).Err? ==> r == Err(ParseOperands(t, k).error)
    ensures ParseOperands(t, k).Ok? ==> r.Ok? && r.value.Valid() && fresh(r.value.Repr - l.Repr) && r.value.Model() == ParseOperands(t, k).value
    decreases |t|, 1
  {
    var d := Delimiters(k);
    var second := CreateOperand(t, d, Resume(t, b));
    if second.Err? {
      assert ParseOperands(t, k) == Err(second.error);
      return Err(second.error);
    }
    var rn := second.value.0;
    SubtreeUnchanged(l);
    BinaryOperands(t, k, l.Model(), b, rn.Model());
    var n := Join(k, l, rn);
    return Ok(n);
  }

  /** One operand, as `Operand`: the tree built from the next token, and where that token ends. */
  method CreateOperand(t: string, d: set<char>, from: nat) returns (r: Result<(Node, nat), ParseError>)
    requires from <= |t|
    requires exists j :: 0 <= j < |t| && t[j] in d
    ensures Operand(t, d, from).Err? ==> r == Err(Operand(t, d, from).error)
    ensures Operand(t, d, from).Ok? ==> r.Ok? && r.value.1 == Operand(t, d, from).value.1
    ensures Operand(t, d, from).Ok? ==> r.Ok? && r.value.0.Valid() && fresh(r.value.0.Repr) && r.value.0.Model() == Operand(t, d, from).value.0
    decreases |t|, 0
  {
    var token := StrTok(t, from, d);
    if token.None? {
      return Err(MissingOperand(t));
    }
    var (a, b) := token.value;
    TokenShorter(t, d, a, b);
    var e := CreateExpression(t[a..b]);
    if e.Err? {
      return Err(e.error);
    }
    return Ok((e.value, b));
  }

  /** The tree `ParseOperands` gives for a binary connective whose two operands parse. */
  lemma BinaryOperands(t: string, k: Kind, first: Expr, b: nat, second: Expr)
    requires OperatorOf(t) == Some(k) && k != Not
    requires Operand(t, Delimiters(k), 0) == Ok((first, b))
    requires Operand(t, Delimiters(k), Resume(t, b)).Ok? && Operand(t, Delimiters(k), Resume(t, b)).value.0 == second
    ensures ParseOperands(t, k) == Ok(Binary(k, first, second))
  {
  }

  /** A freshly allocated connective node over two disjoint subtrees. */
  method Join(k: Kind, l: Node?, r: Node?) returns (n: Node)
    requires l != null ==> l.Valid()
    requires r != null ==> r.Valid()
    requires Node.ReprOf(l) !! Node.ReprOf(r)
    ensures fresh(n) && n.Valid() && n.Repr == {n} + old(Node.ReprOf(l)) + old(Node.ReprOf(r))
    ensures n.Model() == Expr(k, Unset, old(Node.ModelOf(l)), old(Node.ModelOf(r)))
  {
    n := new Node(k, Unset);
    n.Rewire(k, Unset, l, r);
  }

  /** A subtree none of whose nodes changed is still valid and has the same value. */
  twostate lemma SubtreeUnchanged(n: Node?)
    requires n != null ==> old(n.Valid()) && unchanged(old(n.Repr))
    ensures n != null ==> n.Valid() && n.Repr == old(n.Repr) && n.Model() == old(n.Model())
  {
  }

  /** Exchanging two parts of a footprint leaves the footprint as it was. */
  lemma SwappedUnion(x: object, y: object, a: set<object>, b: set<object>, c: set<object>)
    ensures {x} + b + ({y} + c + a) == {x} + a + ({y} + c + b)
  {
  }

  /** Moving a part of a footprint from one subtree to another leaves the footprint as it was. */
  lemma RotatedUnion(x: object, y: object, a: set<object>, b: set<object>, c: set<object>)
    ensures {x} + ({y} + a + c) + b == {x} + ({y} + a + b) + c
  {
  }
}
