/** The value of a condition, and the parameters it depends on. */
module ExpressionEvaluator {
  import opened Common
  import opened ExpressionSyntax
  import opened ExpressionLexer
  import opened ExpressionTree
  import opened ExpressionGrammar
  import opened ExpressionParser
  import opened ExpressionLaws

  /** Values of parameters; a parameter can be missing. */
  type Params = string -> Option<int>

  datatype EvalError = UndefinedToken

  function DigitValue(c: char): nat
    requires IsDigit(c)
  {
    c as int - '0' as int
  }

  function DigitsValue(s: string): nat
    requires AreDigits(s)
  {
    if s == "" then 0
    else
      10 * DigitsValue(s[..|s| - 1]) + DigitValue(s[|s| - 1])
  }

  /** The value of a number literal. */
  function NumberValue(s: string): int {
    if !IsNumber(s) then 0
    else if s[0] == '-' then
      var n: int := DigitsValue(s[1..]);
      -n
    else DigitsValue(s)
  }

  function Holds(op: Operator, a: int, b: int): bool {
    match op
    case Equal => a == b
    case NotEqual => a != b
    case Greater => a > b
    case Less => a < b
    case GreaterEqual => a >= b
    case LessEqual => a <= b
    case Or => a != 0 || b != 0
    case _ => a != 0 && b != 0
  }

  function BoolValue(b: bool): Result<Option<int>, EvalError> {
    Ok(Some(if b then 1 else 0))
  }

  /** With a missing operand only "not equal" is true. */
  function EvalImpl(a: Ast, params: Params): Result<Option<int>, EvalError> {
    if a == Null then Err(UndefinedToken)
    else if a.typ == Func then
      if a.right == Null then Err(UndefinedToken) else BoolValue(params(a.right.value).Some?)
    else if a.typ.token == Number then Ok(Some(NumberValue(a.value)))
    else if a.typ.token == Ident then Ok(params(a.value))
    else if !IsOperator(a.typ.token) then Ok(None)
    else
      match EvalImpl(a.left, params)
      case Err(e) => Err(e)
      case Ok(None) => BoolValue(a.typ.token == NotEqual)
      case Ok(Some(v1)) =>
        match EvalImpl(a.right, params)
        case Err(e) => Err(e)
        case Ok(None) => BoolValue(a.typ.token == NotEqual)
        case Ok(Some(v2)) => BoolValue(Holds(a.typ.token, v1, v2))
  }

  function Eval(a: Ast, params: Params): Result<bool, EvalError> {
    match EvalImpl(a, params)
    case Err(e) => Err(e)
    case Ok(None) => Ok(false)
    case Ok(Some(v)) => Ok(v != 0)
  }

  function GetDependencies(a: Ast): set<string> {
    if a == Null then {}
    else if a.typ == Of(Ident) then {a.value}
    else GetDependencies(a.left) + GetDependencies(a.right)
  }

  // ----- parsed conditions -----

  predicate IsPlainOperator(a: Ast) {
    a.Node? && a.typ.Of? && IsOperator(a.typ.token) && a == NodeOf(Lexeme(a.typ.token, ""))
  }

  /** Operands that are expressions, with plain operators between them. */
  ghost predicate AreExpressions(items: seq<Ast>) {
    && |items| % 2 == 1
    && forall i | 0 <= i < |items| :: if i % 2 == 0 then IsExpression(items[i]) else IsPlainOperator(items[i])
  }

  lemma ExpressionParts(items: seq<Ast>, root: nat)
    requires AreExpressions(items) && root < |items| && root % 2 == 1
    ensures AreExpressions(items[..root]) && AreExpressions(items[root + 1..]) && IsPlainOperator(items[root])
  {
  }

  function DependenciesOf(items: seq<Ast>): set<string> {
    if items == [] then {} else GetDependencies(items[0]) + DependenciesOf(items[1..])
  }

  lemma {:induction false} DependenciesJoined(a: seq<Ast>, b: seq<Ast>)
    ensures DependenciesOf(a + b) == DependenciesOf(a) + DependenciesOf(b)
  {
    if a == [] {
      assert a + b == b;
    } else {
      DependenciesJoined(a[1..], b);
      assert (a + b)[1..] == a[1..] + b;
    }
  }

  lemma {:induction false} TreeOfExpressions(items: seq<Ast>)
    requires AreExpressions(items)
    ensures IsChain(items) && IsExpression(Tree(items)) && GetDependencies(Tree(items)) == DependenciesOf(items)
    decreases |items|
  {
    if |items| > 1 {
      var root := RootOf(items);
      var left, op, right := items[..root], items[root], items[root + 1..];
      ExpressionParts(items, root);
      TreeOfExpressions(left);
      TreeOfExpressions(right);
      ChainParts(items, root);
      DependenciesJoined(left + [op], right);
      DependenciesJoined(left, [op]);
    }
  }

  // ----- dependencies in the text -----

  /** Identifiers that are not followed by a bracket. */
  function NamesIn(ls: seq<Lexeme>): set<string> {
    set i | 0 <= i < |ls| && IsNameAt(ls, i) :: ls[i].value
  }

  predicate IsNameAt(ls: seq<Lexeme>, i: nat)
    requires i < |ls|
  {
    ls[i].typ == Ident && !(i + 1 < |ls| && ls[i + 1].typ == LeftBr)
  }

  lemma NamesJoined(a: seq<Lexeme>, b: seq<Lexeme>)
    requires a == [] || b == [] || a[|a| - 1].typ != Ident || b[0].typ != LeftBr
    ensures NamesIn(a + b) == NamesIn(a) + NamesIn(b)
  {
    var ls := a + b;
    forall i | 0 <= i < |a| ensures IsNameAt(ls, i) == IsNameAt(a, i) && ls[i] == a[i] {
    }
    forall i | 0 <= i < |b| ensures IsNameAt(ls, |a| + i) == IsNameAt(b, i) && ls[|a| + i] == b[i] {
    }
    forall name | name in NamesIn(ls) ensures name in NamesIn(a) + NamesIn(b) {
      var i :| 0 <= i < |ls| && IsNameAt(ls, i) && ls[i].value == name;
      if i >= |a| {
        assert IsNameAt(b, i - |a|);
      }
    }
    forall name | name in NamesIn(a) + NamesIn(b) ensures name in NamesIn(ls) {
      if name in NamesIn(a) {
        var i :| 0 <= i < |a| && IsNameAt(a, i) && a[i].value == name;
        assert IsNameAt(ls, i);
      } else {
        var i :| 0 <= i < |b| && IsNameAt(b, i) && b[i].value == name;
        assert IsNameAt(ls, |a| + i);
      }
    }
  }

  lemma NamesOfOne(l: Lexeme)
    ensures NamesIn([l]) == if l.typ == Ident then {l.value} else {}
  {
    if l.typ == Ident {
      assert IsNameAt([l], 0);
    }
  }

  lemma NamesOfDefined(name: string)
    ensures NamesIn(OperandLexemes(Defined(name))) == {name}
  {
    var ls := OperandLexemes(Defined(name));
    assert IsNameAt(ls, 2) && ls[2].value == name;
    forall n | n in NamesIn(ls) ensures n == name {
      var i :| 0 <= i < |ls| && IsNameAt(ls, i) && ls[i].value == n;
    }
  }

  lemma {:induction false} OperandIsExpression(o: Operand)
    requires AreProper(OperandLexemes(o))
    ensures IsExpression(OperandAst(o))
    ensures GetDependencies(OperandAst(o)) == NamesIn(OperandLexemes(o))
    decreases o, 0
  {
    match o {
      case Brackets(c) =>
        var l, ls, r := Lexeme(LeftBr, ""), Lexemes(c), Lexeme(RightBr, "");
        ProperParts([l] + ls, [r]);
        ProperParts([l], ls);
        ConditionIsExpression(c);
        NamesJoined([l] + ls, [r]);
        NamesJoined([l], ls);
        NamesOfOne(l);
        NamesOfOne(r);
      case Defined(name) =>
        NamesOfDefined(name);
        assert IsProper(OperandLexemes(o)[2]);
      case Name(name) =>
        NamesOfOne(Lexeme(Ident, name));
        assert IsProper(OperandLexemes(o)[0]);
      case Literal(value) =>
        NamesOfOne(Lexeme(Number, value));
        assert IsProper(OperandLexemes(o)[0]);
    }
  }

  lemma {:induction false} ItemsAreExpressions(c: Condition)
    requires IsSpelled(c)
    ensures AreExpressions(Items(c)) && DependenciesOf(Items(c)) == NamesIn(Lexemes(c))
    decreases c, 0
  {
    match c {
      case Single(o) =>
        OperandIsExpression(o);
        assert DependenciesOf(Items(c)) == GetDependencies(OperandAst(o)) + DependenciesOf([]);
      case More(o, op, rest) =>
        var a, l, b := OperandLexemes(o), Lexeme(op, ""), Lexemes(rest);
        ProperParts(a + [l], b);
        ProperParts(a, [l]);
        OperandIsExpression(o);
        ItemsAreExpressions(rest);
        NamesBetween(a, l, b);
        MoreItems(OperandAst(o), NodeOf(l), Items(rest));
    }
  }

  lemma NamesBetween(a: seq<Lexeme>, l: Lexeme, b: seq<Lexeme>)
    requires IsOperator(l.typ)
    ensures NamesIn(a + [l] + b) == NamesIn(a) + NamesIn(b)
  {
    NamesJoined(a + [l], b);
    NamesJoined(a, [l]);
    NamesOfOne(l);
  }

  lemma {:induction false} MoreItems(operand: Ast, op: Ast, rest: seq<Ast>)
    requires IsExpression(operand) && IsPlainOperator(op) && AreExpressions(rest)
    ensures AreExpressions([operand, op] + rest)
    ensures DependenciesOf([operand, op] + rest) == GetDependencies(operand) + DependenciesOf(rest)
  {
  }

  /** A parsed tree has no missing child, and depends on the identifiers that are not followed by a bracket. */
  lemma {:induction false} ConditionIsExpression(c: Condition)
    requires IsSpelled(c)
    ensures IsExpression(Abstract(c)) && GetDependencies(Abstract(c)) == NamesIn(Lexemes(c))
    decreases c, 1
  {
    ItemsAreExpressions(c);
    TreeOfExpressions(Items(c));
  }

  /** Identifier tokens that are not followed by a left bracket. */
  function NamesInTokens(ts: seq<Token>): set<string> {
    set i | 0 <= i < |ts| - 1 && ts[i].lexeme.typ == Ident && ts[i + 1].lexeme.typ != LeftBr :: ts[i].lexeme.value
  }

  lemma {:induction false} PlacedNames(ls: seq<Lexeme>, pos: nat)
    ensures NamesInTokens(Placed(ls, pos)) == NamesIn(ls)
  {
  }

  /** The dependencies of a parsed text can be told from its tokens. */
  lemma {:induction false} DependenciesAreNames(s: string)
    requires ParseText(s).Ok?
    ensures IsExpression(ParseText(s).value)
    ensures GetDependencies(ParseText(s).value) == NamesInTokens(Tokens(s, 0).value)
  {
    var c := ParsedIsWritten(s);
    ConditionIsExpression(c);
    ConditionNeedsNoSpaces(c);
    assert s[0..] == s;
    SpelledIsFound(s, 0, Lexemes(c));
    PlacedNames(Lexemes(c), 0);
  }

  /** The trees that parsing can return are exactly those without missing children. */
  lemma {:induction false} ParsedTrees(a: Ast)
    ensures IsExpression(a) <==> exists s :: ParseText(s) == Ok(a)
  {
    if IsExpression(a) {
      ParseUndoesPrint(a);
    }
    forall s | ParseText(s) == Ok(a) ensures IsExpression(a) {
      DependenciesAreNames(s);
    }
  }

  /** Evaluation of a parsed tree never meets a missing child, and sees nothing but the dependencies. */
  lemma {:induction false} EvalSeesDependencies(a: Ast, p: Params, q: Params)
    requires IsExpression(a) && forall name | name in GetDependencies(a) :: p(name) == q(name)
    ensures EvalImpl(a, p).Ok? && EvalImpl(a, p) == EvalImpl(a, q)
  {
    if a.typ.Of? && IsOperator(a.typ.token) {
      EvalSeesDependencies(a.left, p, q);
      EvalSeesDependencies(a.right, p, q);
    } else if a.typ == Func {
      assert a.right.value in GetDependencies(a.right);
    }
  }

  /** The value of a text is decided by the parameters that its identifiers name. */
  lemma {:induction false} ValueOfText(s: string, p: Params, q: Params)
    requires ParseText(s).Ok?
    requires forall name | name in NamesInTokens(Tokens(s, 0).value) :: p(name) == q(name)
    ensures Eval(ParseText(s).value, p).Ok? && Eval(ParseText(s).value, p) == Eval(ParseText(s).value, q)
  {
    DependenciesAreNames(s);
    EvalSeesDependencies(ParseText(s).value, p, q);
  }
}
