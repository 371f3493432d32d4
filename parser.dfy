/**
  The string-to-tree parser (`createExpression`). A C string is modelled as
  the sequence of its bytes before the terminator, each byte a char in
  0..255. `strtok` is modelled as a pure search for the next token by index
  (`StrTok`); the NUL bytes it writes into the buffer are not modelled, since
  only the token boundaries they create are ever observed.
 */
module Parser {
  import opened Wrappers
  import opened Expressions

  /** Why a string has no tree (the source leaves the node uninitialised or passes on a null token). */
  datatype ParseError =
    | NoOperator(fragment: string)      // not two characters long and no operator in it
    | MissingOperand(fragment: string)  // strtok found no token where an operand was expected

  /** The string cut at its first newline (`str[strcspn(str, "\n")] = 0`). */
  function StripNewline(s: string): (t: string)
    ensures |t| <= |s| && t == s[..|t|]
    ensures '\n' !in t
    ensures |t| < |s| ==> s[|t|] == '\n'
  {
    if s == [] || s[0] == '\n' then [] else [s[0]] + StripNewline(s[1..])
  }

  /** The string contains the two-character operator `->` (`strstr(str, "->")`). */
  predicate ContainsArrow(t: string)
  {
    exists i :: 0 <= i < |t| - 1 && t[i] == '-' && t[i + 1] == '>'
  }

  /** The delimiter set `strtok` is given: `"~"` for a negation, `"&v->~"` for a binary connective. */
  function Delimiters(k: Kind): set<char>
  {
    if k == Not then {'~'} else {'&', 'v', '-', '>', '~'}
  }

  /**
    The connective of a string: the first of `&`, `v`, `->`, `~` that occurs
    in it, in that order of priority; None when none occurs (the source then
    leaves the tag uninitialised).
   */
  function OperatorOf(t: string): (r: Option<Kind>)
    ensures r.Some? ==> r.value != Symbol && exists j :: 0 <= j < |t| && t[j] in Delimiters(r.value)
  {
    if '&' in t then Some(And)
    else if 'v' in t then Some(Or)
    else if ContainsArrow(t) then Some(Implies)
    else if '~' in t then Some(Not)
    else None
  }

  /** The first index at or after i that holds a non-delimiter, or |s|. */
  function SkipDelimiters(s: string, i: nat, d: set<char>): (k: nat)
    requires i <= |s|
    ensures i <= k <= |s|
    ensures forall j :: i <= j < k ==> s[j] in d
    ensures k < |s| ==> s[k] !in d
    decreases |s| - i
  {
    if i == |s| || s[i] !in d then i else SkipDelimiters(s, i + 1, d)
  }

  /** The first index at or after i that holds a delimiter, or |s|. */
  function TokenEnd(s: string, i: nat, d: set<char>): (k: nat)
    requires i <= |s|
    ensures i <= k <= |s|
    ensures forall j :: i <= j < k ==> s[j] !in d
    ensures k < |s| ==> s[k] in d
    decreases |s| - i
  {
    if i == |s| || s[i] in d then i else TokenEnd(s, i + 1, d)
  }

  /**
    One call of `strtok` that starts scanning at `from`: leading delimiters
    are skipped and the token is the longest run of non-delimiters after
    them, returned as its bounds (start, end). None (a null token) when only
    delimiters remain.
   */
  function StrTok(s: string, from: nat, d: set<char>): (r: Option<(nat, nat)>)
    requires from <= |s|
    ensures r.None? <==> forall j :: from <= j < |s| ==> s[j] in d
    ensures r.Some? ==> from <= r.value.0 < r.value.1 <= |s|
    ensures r.Some? ==> forall j :: from <= j < r.value.0 ==> s[j] in d
    ensures r.Some? ==> forall j :: r.value.0 <= j < r.value.1 ==> s[j] !in d
    ensures r.Some? ==> r.value.1 == |s| || s[r.value.1] in d
  {
    var start := SkipDelimiters(s, from, d);
    if start == |s| then None else Some((start, TokenEnd(s, start, d)))
  }

  /**
    Where the next `strtok(NULL, ...)` resumes after a token ending at `end`:
    just past the delimiter that was overwritten with NUL, or at the end.
   */
  function Resume(s: string, end: nat): (k: nat)
    requires end <= |s|
    ensures end <= k <= |s|
    ensures end < |s| ==> k == end + 1
    ensures end == |s| ==> k == end
  {
    if end < |s| then end + 1 else end
  }

  /**
    `createExpression`: a string of exactly two characters is a leaf holding
    its first character (checked before the newline is cut). Otherwise the
    string is cut at its first newline and its connective is found by
    `OperatorOf`; with none the string is rejected.
   */
  function Parse(s: string): (r: Result<Expr, ParseError>)
    ensures r.Ok? ==> WellFormed(r.value)
    decreases |s|, 2
  {
    if |s| == 2 then Ok(Leaf(s[0]))
    else
      var t := StripNewline(s);
      match OperatorOf(t)
      case None => Err(NoOperator(t))
      case Some(k) => ParseOperands(t, k)
  }

  /**
    The operands of a string whose connective is k: one token for a
    negation (delimiters `"~"`), two for a binary connective (delimiters
    `"&v->~"`), the second search resuming where the first token ended.
    The first operand is built first, and the first error is returned.
   */
  function ParseOperands(t: string, k: Kind): (r: Result<Expr, ParseError>)
    requires OperatorOf(t) == Some(k)
    ensures r.Ok? ==> r.value.kind == k && WellFormed(r.value)
    decreases |t|, 1
  {
    var d := Delimiters(k);
    match Operand(t, d, 0)
    case Err(x) => Err(x)
    case Ok((first, b)) =>
      if k == Not then Ok(Negation(first))
      else
        match Operand(t, d, Resume(t, b))
        case Err(x) => Err(x)
        case Ok((second, _)) => Ok(Binary(k, first, second))
  }

  /**
    One `strtok` call followed by `createExpression` on its token: the
    operand parsed from the token found from `from`, with the token's end.
    A null token is a missing operand; a token that fails to parse passes
    its error on.
   */
  function Operand(t: string, d: set<char>, from: nat): (r: Result<(Expr, nat), ParseError>)
    requires from <= |t|
    requires exists j :: 0 <= j < |t| && t[j] in d
    ensures r.Ok? ==> from < r.value.1 <= |t|
    ensures (forall j :: from <= j < |t| ==> t[j] in d) ==> r == Err(MissingOperand(t))
    ensures r.Ok? ==> StrTok(t, from, d).Some? && WellFormed(r.value.0)
    ensures r.Ok? ==> var (a, b) := StrTok(t, from, d).value;
                      Parse(t[a..b]).Ok? && r.value == (Parse(t[a..b]).value, b)
    ensures StrTok(t, from, d).Some? ==> var (a, b) := StrTok(t, from, d).value;
                                         && r.Ok? == Parse(t[a..b]).Ok?
                                         && (r.Err? ==> r.error == Parse(t[a..b]).error)
    decreases |t|, 0
  {
    match StrTok(t, from, d)
    case None => Err(MissingOperand(t))
    case Some((a, b)) =>
      TokenShorter(t, d, a, b);
      match Parse(t[a..b])
      case Err(x) => Err(x)
      case Ok(e) => Ok((e, b))
  }

  /** A run of non-delimiters in a string that holds a delimiter is shorter than the string. */
  lemma TokenShorter(t: string, d: set<char>, a: nat, b: nat)
    requires exists j :: 0 <= j < |t| && t[j] in d
    requires a <= b <= |t|
    requires forall j :: a <= j < b ==> t[j] !in d
    ensures b - a < |t|
  {
  }

  /** A fragment without any operator character or arrow. */
  predicate OperatorFree(f: string)
  {
    '&' !in f && 'v' !in f && '~' !in f && !ContainsArrow(f)
  }

  /** An arrow inside a slice is an arrow in the whole string. */
  lemma ArrowInSlice(s: string, a: nat, b: nat)
    requires a <= b <= |s|
    ensures ContainsArrow(s[a..b]) ==> ContainsArrow(s)
  {
    if ContainsArrow(s[a..b]) {
      var i :| 0 <= i < |s[a..b]| - 1 && s[a..b][i] == '-' && s[a..b][i + 1] == '>';
      assert s[a + i] == '-' && s[a + i + 1] == '>';
    }
  }

  /** A fragment with no operator is a leaf when it has two characters and an error otherwise. */
  lemma ParseOperatorFree(f: string)
    requires OperatorFree(f)
    ensures Parse(f) == if |f| == 2 then Ok(Leaf(f[0])) else Err(NoOperator(StripNewline(f)))
  {
    var t := StripNewline(f);
    ArrowInSlice(f, 0, |t|);
    assert OperatorFree(t) by {
      forall i | 0 <= i < |t| ensures t[i] != '&' && t[i] != 'v' && t[i] != '~' {
        assert t[i] == f[i];
      }
      assert f[0..|t|] == t;
    }
    assert OperatorOf(t).None?;
  }

  /** Every child of a successfully parsed node is a symbol leaf. */
  predicate ChildrenAreLeaves(e: Expr)
  {
    (e.left.Some? ==> IsLeaf(e.left.value)) && (e.right.Some? ==> IsLeaf(e.right.value))
  }

  /**
    A parsed tree is well formed and its children are leaves: the tokens
    `strtok` cuts contain no operator, so parsing never nests connectives.
   */
  lemma ParseShape(s: string)
    requires Parse(s).Ok?
    ensures WellFormed(Parse(s).value)
    ensures ChildrenAreLeaves(Parse(s).value)
  {
    if |s| != 2 {
      var t := StripNewline(s);
      var k := OperatorOf(t).value;
      var d := Delimiters(k);
      assert Parse(s) == ParseOperands(t, k);
      var (a, b) := StrTok(t, 0, d).value;
      TokenOperatorFree(t, k, a, b);
      ParseOperatorFree(t[a..b]);
      if k != Not {
        assert Operand(t, d, 0).value.1 == b;
        var (c, e) := StrTok(t, Resume(t, b), d).value;
        TokenOperatorFree(t, k, c, e);
        ParseOperatorFree(t[c..e]);
      }
    }
  }

  /**
    A binary connective: the parse succeeds exactly when `strtok` finds two
    tokens, the second resuming after the first, and each has two
    characters; the operands are then the leaves holding each token's first
    character, the first token on the left.
   */
  lemma ParseBinaryOperands(s: string)
    requires |s| != 2
    requires OperatorOf(StripNewline(s)).Some? && OperatorOf(StripNewline(s)).value != Not
    ensures var t := StripNewline(s);
      var k := OperatorOf(t).value;
      var first := StrTok(t, 0, Delimiters(k));
      var second := if first.Some? then StrTok(t, Resume(t, first.value.1), Delimiters(k)) else None;
      && (Parse(s).Ok? <==>
            (first.Some? && second.Some? && first.value.1 - first.value.0 == 2 && second.value.1 - second.value.0 == 2))
      && (Parse(s).Ok? ==> Parse(s).value == Binary(k, Leaf(t[first.value.0]), Leaf(t[second.value.0])))
  {
    var t := StripNewline(s);
    assert Parse(s) == ParseOperands(t, OperatorOf(t).value);
    BinaryTokens(t, OperatorOf(t).value);
  }

  /** `ParseBinaryOperands` for the newline-free string and its connective. */
  lemma BinaryTokens(t: string, k: Kind)
    requires OperatorOf(t) == Some(k) && k != Not
    ensures var first := StrTok(t, 0, Delimiters(k));
      var second := if first.Some? then StrTok(t, Resume(t, first.value.1), Delimiters(k)) else None;
      && (ParseOperands(t, k).Ok? <==>
            (first.Some? && second.Some? && first.value.1 - first.value.0 == 2 && second.value.1 - second.value.0 == 2))
      && (ParseOperands(t, k).Ok? ==> ParseOperands(t, k).value == Binary(k, Leaf(t[first.value.0]), Leaf(t[second.value.0])))
  {
    var d := Delimiters(k);
    var first := StrTok(t, 0, d);
    if first.Some? {
      var (a, b) := first.value;
      OperandToken(t, k, 0);
      var second := StrTok(t, Resume(t, b), d);
      if Operand(t, d, 0).Ok? {
        assert Operand(t, d, 0).value.1 == b;
        if second.Some? {
          OperandToken(t, k, Resume(t, b));
        }
      }
    }
  }

  /**
    One operand of a string whose connective is k: it parses exactly when
    the token found has two characters, and is then the leaf holding the
    token's first character.
   */
  lemma OperandToken(t: string, k: Kind, from: nat)
    requires OperatorOf(t) == Some(k) && from <= |t|
    requires StrTok(t, from, Delimiters(k)).Some?
    ensures var (a, b) := StrTok(t, from, Delimiters(k)).value;
      && (Operand(t, Delimiters(k), from).Ok? <==> b - a == 2)
      && (b - a == 2 ==> Operand(t, Delimiters(k), from).value == (Leaf(t[a]), b))
  {
    var (a, b) := StrTok(t, from, Delimiters(k)).value;
    TokenOperatorFree(t, k, a, b);
    ParseOperatorFree(t[a..b]);
    assert b - a == 2 ==> t[a..b][0] == t[a];
  }

  /**
    A negation: the parse succeeds exactly when `strtok` on `"~"` finds a
    token of two characters, and the operand is the leaf holding its first
    character.
   */
  lemma ParseNegationOperand(s: string)
    requires |s| != 2
    requires OperatorOf(StripNewline(s)) == Some(Not)
    ensures var t := StripNewline(s);
      var token := StrTok(t, 0, Delimiters(Not));
      && (Parse(s).Ok? <==> token.Some? && token.value.1 - token.value.0 == 2)
      && (Parse(s).Ok? ==> Parse(s).value == Negation(Leaf(t[token.value.0])))
  {
    var t := StripNewline(s);
    assert Parse(s) == ParseOperands(t, Not);
    var token := StrTok(t, 0, Delimiters(Not));
    if token.Some? {
      var (a, b) := token.value;
      TokenOperatorFree(t, Not, a, b);
      ParseOperatorFree(t[a..b]);
    }
  }

  /** A token of a string whose connective is k contains no operator. */
  lemma TokenOperatorFree(t: string, k: Kind, a: nat, b: nat)
    requires OperatorOf(t) == Some(k)
    requires a <= b <= |t|
    requires forall j :: a <= j < b ==> t[j] !in Delimiters(k)
    ensures OperatorFree(t[a..b])
  {
    var f := t[a..b];
    forall i | 0 <= i < |f| ensures f[i] !in Delimiters(k) && f[i] != '&' && f[i] != 'v' {
      assert f[i] == t[a + i];
    }
    ArrowInSlice(t, a, b);
  }

  /** A string of exactly two characters is a leaf holding its first character. */
  lemma ParseTwoCharacters(s: string)
    requires |s| == 2
    ensures Parse(s) == Ok(Leaf(s[0]))
  {
  }

  /** Parsing yields a symbol exactly for two-character strings. */
  lemma ParseSymbolIffTwoCharacters(s: string)
    ensures (Parse(s).Ok? && Parse(s).value.kind == Symbol) <==> |s| == 2
  {
  }

  /**
    The connective of a parsed string of another length is the first of `&`,
    `v`, `->`, `~` present after the newline is cut; with none present the
    string is rejected.
   */
  lemma ParseConnective(s: string)
    requires |s| != 2
    ensures var t := StripNewline(s);
      && ('&' in t ==> Parse(s).Err? || Parse(s).value.kind == And)
      && ('&' !in t && 'v' in t ==> Parse(s).Err? || Parse(s).value.kind == Or)
      && ('&' !in t && 'v' !in t && ContainsArrow(t) ==> Parse(s).Err? || Parse(s).value.kind == Implies)
      && ('&' !in t && 'v' !in t && !ContainsArrow(t) && '~' in t ==> Parse(s).Err? || Parse(s).value.kind == Not)
      && (OperatorFree(t) ==> Parse(s) == Err(NoOperator(t)))
  {
  }


  /** `"P & Q"` splits into `"P "` and `" Q"`: the right leaf holds the blank. */
  lemma ParseConjunctionExample()
    ensures Parse("P & Q") == Ok(Binary(And, Leaf('P'), Leaf(' ')))
  {
    var s := "P & Q";
    var d := Delimiters(And);
    ConjunctionExampleSteps();
    assert s[0..2] == "P " && Parse("P ") == Ok(Leaf('P'));
    assert Operand(s, d, 0) == Ok((Leaf('P'), 2));
    assert Resume(s, 2) == 3;
    assert s[3..5] == " Q" && Parse(" Q") == Ok(Leaf(' '));
    assert Operand(s, d, 3) == Ok((Leaf(' '), 5));
    assert ParseOperands(s, And) == Ok(Binary(And, Leaf('P'), Leaf(' ')));
  }

  /** `"P & Q"` has no newline, its connective is a conjunction, and the two `strtok` calls on it. */
  lemma ConjunctionExampleSteps()
    ensures StripNewline("P & Q") == "P & Q" && OperatorOf("P & Q") == Some(And)
    ensures StrTok("P & Q", 0, Delimiters(And)) == Some((0, 2))
    ensures StrTok("P & Q", 3, Delimiters(And)) == Some((3, 5))
  {
    var s := "P & Q";
    var d := Delimiters(And);
    assert s[0] !in d && s[1] !in d && s[2] in d && s[3] !in d && s[4] !in d;
    assert SkipDelimiters(s, 0, d) == 0 && SkipDelimiters(s, 3, d) == 3;
    assert TokenEnd(s, 2, d) == 2 && TokenEnd(s, 1, d) == 2 && TokenEnd(s, 0, d) == 2;
    assert TokenEnd(s, 5, d) == 5 && TokenEnd(s, 4, d) == 5 && TokenEnd(s, 3, d) == 5;
  }

  /** `"~P"` is rejected: its only token `"P"` is one character long. */
  lemma ParseNegationExample()
    ensures Parse("~P\n") == Err(NoOperator("P"))
  {
    NegationExampleSteps();
    assert "~P"[1..2] == "P";
  }

  /** `"~P\n"` loses its newline, its connective is a negation, and its one `strtok` call. */
  lemma NegationExampleSteps()
    ensures StripNewline("~P\n") == "~P" && OperatorOf("~P") == Some(Not)
    ensures StrTok("~P", 0, Delimiters(Not)) == Some((1, 2))
  {
    var s := "~P";
    var d := Delimiters(Not);
    assert s[0] in d && s[1] !in d;
    assert SkipDelimiters(s, 1, d) == 1 && SkipDelimiters(s, 0, d) == 1;
    assert TokenEnd(s, 2, d) == 2 && TokenEnd(s, 1, d) == 2;
  }

  /** `"P &"` has no second token. */
  lemma ParseMissingOperandExample()
    ensures Parse("P &") == Err(MissingOperand("P &"))
  {
    var s := "P &";
    var d := Delimiters(And);
    MissingOperandExampleSteps();
    assert s[0..2] == "P " && Parse("P ") == Ok(Leaf('P'));
    assert Operand(s, d, 0) == Ok((Leaf('P'), 2));
    assert Resume(s, 2) == 3;
    assert Operand(s, d, 3) == Err(MissingOperand(s));
    assert ParseOperands(s, And) == Err(MissingOperand(s));
  }

  /** `"P &"` has no newline, its connective is a conjunction, and the two `strtok` calls on it. */
  lemma MissingOperandExampleSteps()
    ensures StripNewline("P &") == "P &" && OperatorOf("P &") == Some(And)
    ensures StrTok("P &", 0, Delimiters(And)) == Some((0, 2))
    ensures StrTok("P &", 3, Delimiters(And)).None?
  {
    var s := "P &";
    var d := Delimiters(And);
    assert s[0] !in d && s[1] !in d && s[2] in d;
    assert SkipDelimiters(s, 0, d) == 0;
    assert TokenEnd(s, 2, d) == 2 && TokenEnd(s, 1, d) == 2 && TokenEnd(s, 0, d) == 2;
  }
}
