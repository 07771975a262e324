/** Recursive descent over the tokens of a condition. */
module ExpressionParser {
  import opened Common
  import opened ExpressionSyntax
  import opened ExpressionLexer
  import opened ExpressionTree
  import opened ExpressionGrammar

  datatype Error = Lexical(lex: LexError) | Syntactic(syntax: ParseError)

  // ----- the loop over operands -----

  /** The items of a condition that is read from an index on. */
  ghost function ItemsAt(ts: seq<Token>, i: nat): Result<Parsed<seq<Ast>>, ParseError>
    requires IsTokenList(ts) && i < |ts|
  {
    match ReadCondition(ts, i)
    case Err(e) => Err(e)
    case Ok(Parsed(c, next)) => Ok(Parsed(Items(c), next))
  }

  /** Items with more items before them. */
  ghost function Prepended(items: seq<Ast>, r: Result<Parsed<seq<Ast>>, ParseError>): Result<Parsed<seq<Ast>>, ParseError> {
    match r
    case Err(e) => Err(e)
    case Ok(Parsed(rest, next)) => Ok(Parsed(items + rest, next))
  }

  lemma PrependedTwice(a: seq<Ast>, b: seq<Ast>, r: Result<Parsed<seq<Ast>>, ParseError>)
    ensures Prepended(a, Prepended(b, r)) == Prepended(a + b, r)
  {
    if r.Ok? {
      assert a + (b + r.value.value) == a + b + r.value.value;
    }
  }

  /** What becomes of items that are followed by the token at an index. */
  ghost function Continued(ts: seq<Token>, i: nat, items: seq<Ast>): Result<Parsed<seq<Ast>>, ParseError>
    requires IsTokenList(ts) && i < |ts|
  {
    if !IsOperator(ts[i].lexeme.typ) then Ok(Parsed(items, i))
    else Prepended(items + [NodeOf(Lexeme(ts[i].lexeme.typ, ""))], ItemsAt(ts, i + 1))
  }

  lemma ContinuedPrepended(ts: seq<Token>, i: nat, a: seq<Ast>, b: seq<Ast>)
    requires IsTokenList(ts) && i < |ts|
    ensures Prepended(a, Continued(ts, i, b)) == Continued(ts, i, a + b)
  {
    if IsOperator(ts[i].lexeme.typ) {
      var op := [NodeOf(Lexeme(ts[i].lexeme.typ, ""))];
      PrependedTwice(a, b + op, ItemsAt(ts, i + 1));
      assert a + (b + op) == a + b + op;
    }
  }

  lemma {:induction false} ItemsContinued(ts: seq<Token>, i: nat)
    requires IsTokenList(ts) && i < |ts| && ReadOperand(ts, i).Ok?
    ensures ItemsAt(ts, i)
         == Continued(ts, ReadOperand(ts, i).value.next, [OperandAst(ReadOperand(ts, i).value.value)])
  {
    var Parsed(o, next) := ReadOperand(ts, i).value;
    if IsOperator(ts[next].lexeme.typ) && ItemsAt(ts, next + 1).Ok? {
      var op, rest := NodeOf(Lexeme(ts[next].lexeme.typ, "")), ItemsAt(ts, next + 1).value.value;
      assert [OperandAst(o), op] + rest == [OperandAst(o)] + [op] + rest;
    }
  }

  lemma {:induction false} ContinuedNext(ts: seq<Token>, i: nat, items: seq<Ast>)
    requires IsTokenList(ts) && i < |ts| && IsOperator(ts[i].lexeme.typ) && ReadOperand(ts, i + 1).Ok?
    ensures var Parsed(o, next) := ReadOperand(ts, i + 1).value;
      Continued(ts, i, items) == Continued(ts, next, items + [NodeOf(Lexeme(ts[i].lexeme.typ, "")), OperandAst(o)])
  {
    ItemsContinued(ts, i + 1);
    var Parsed(o, next) := ReadOperand(ts, i + 1).value;
    var op := NodeOf(Lexeme(ts[i].lexeme.typ, ""));
    ContinuedPrepended(ts, next, items + [op], [OperandAst(o)]);
    assert items + [op] + [OperandAst(o)] == items + [op, OperandAst(o)];
  }

  /** Items that are read from a start up to the token at an index. */
  ghost predicate AreRead(ts: seq<Token>, start: nat, i: nat, items: seq<Ast>) {
    && IsTokenList(ts) && AreNormal(ts) && start < i < |ts|
    && IsChain(items) && ItemsAt(ts, start) == Continued(ts, i, items)
  }

  lemma {:induction false} FirstIsRead(ts: seq<Token>, start: nat)
    requires IsTokenList(ts) && AreNormal(ts) && start < |ts| && ReadOperand(ts, start).Ok?
    ensures var Parsed(o, next) := ReadOperand(ts, start).value;
      AreRead(ts, start, next, [OperandAst(o)])
  {
    ItemsContinued(ts, start);
  }

  lemma {:induction false} NextIsRead(ts: seq<Token>, start: nat, i: nat, items: seq<Ast>)
    requires AreRead(ts, start, i, items) && IsOperator(ts[i].lexeme.typ)
    ensures match ReadOperand(ts, i + 1)
            case Err(e) => ReadCondition(ts, start) == Err(e)
            case Ok(Parsed(o, next)) => AreRead(ts, start, next, items + [NodeOf(ts[i].lexeme), OperandAst(o)])
  {
    if ReadOperand(ts, i + 1).Ok? {
      ContinuedNext(ts, i, items);
    }
  }

  lemma {:induction false} AllAreRead(ts: seq<Token>, start: nat, i: nat, items: seq<Ast>)
    requires AreRead(ts, start, i, items) && !IsOperator(ts[i].lexeme.typ)
    ensures ReadCondition(ts, start).Ok? && ReadCondition(ts, start).value.next == i
    ensures Tree(items) == Abstract(ReadCondition(ts, start).value.value)
  {
  }

  class Parser {
    var tokens: seq<Token>
    var token: nat

    constructor ()
    {
      tokens, token := [], 0;
    }

    /** A tree for what is read from an index on. */
    ghost predicate IsOperandAt(start: nat, r: Result<Ast, ParseError>)
      reads this
      requires IsTokenList(tokens) && start < |tokens|
    {
      match ReadOperand(tokens, start)
      case Err(e) => r == Err(e)
      case Ok(Parsed(o, next)) => r == Ok(OperandAst(o)) && token == next
    }

    ghost predicate IsConditionAt(start: nat, r: Result<Ast, ParseError>)
      reads this
      requires IsTokenList(tokens) && start < |tokens|
    {
      match ReadCondition(tokens, start)
      case Err(e) => r == Err(e)
      case Ok(Parsed(c, next)) => r == Ok(Abstract(c)) && token == next
    }

    /** A function, if there is one. */
    method ParseFunction() returns (r: Result<Option<Ast>, ParseError>)
      requires IsTokenList(tokens) && token < |tokens|
      modifies this`token
      ensures
        if !Is(tokens, old(token), Ident) || !Is(tokens, old(token) + 1, LeftBr) then
          r == Ok(None) && token == old(token)
        else
          match ReadDefined(tokens, old(token))
          case Err(e) => r == Err(e)
          case Ok(Parsed(o, next)) => r == Ok(Some(OperandAst(o))) && token == next
    {
      if tokens[token].lexeme.typ != Ident {
        return Ok(None);
      }
      var nextToken := token + 1;
      if tokens[nextToken].lexeme.typ != LeftBr {
        return Ok(None);
      }
      nextToken := nextToken + 1;
      if tokens[nextToken].lexeme.typ != Ident {
        return Err(IdentifierExpected(tokens[nextToken].pos + 1));
      }
      if tokens[token].lexeme.value != IS_DEFINED {
        return Err(UnknownFunction(tokens[token].lexeme.value, tokens[token].pos + 1));
      }
      var node := Node(Null, NodeOf(Lexeme(Ident, tokens[nextToken].lexeme.value)), Func, tokens[token].lexeme.value);
      nextToken := nextToken + 1;
      if tokens[nextToken].lexeme.typ != RightBr {
        return Err(RightBracketExpected(tokens[nextToken].pos + 1));
      }
      token := nextToken + 1;
      r := Ok(Some(node));
    }

    method ParseOperand() returns (r: Result<Ast, ParseError>)
      requires IsTokenList(tokens) && AreNormal(tokens) && token < |tokens|
      modifies this`token
      ensures IsOperandAt(old(token), r)
      decreases |tokens| - token, 1
    {
      var fn := ParseFunction();
      if fn.Err? {
        return Err(fn.error);
      }
      if fn.value.Some? {
        return Ok(fn.value.value);
      }
      var t := tokens[token].lexeme;
      if t.typ == Number || t.typ == Ident {
        token := token + 1;
        return Ok(NodeOf(t));
      }
      if t.typ == LeftBr {
        r := ParseConditionWithBrackets();
        return;
      }
      r := Err(OperandExpected(tokens[token].pos + 1));
    }

    method ParseConditionWithBrackets() returns (r: Result<Ast, ParseError>)
      requires IsTokenList(tokens) && AreNormal(tokens) && Is(tokens, token, LeftBr)
      modifies this`token
      ensures IsOperandAt(old(token), r)
      decreases |tokens| - token, 0
    {
      token := token + 1;
      r := ParseCondition();
      if r.Err? {
        return;
      }
      if tokens[token].lexeme.typ != RightBr {
        return Err(RightBracketExpected(tokens[token].pos + 1));
      }
      token := token + 1;
    }

    method ParseCondition() returns (r: Result<Ast, ParseError>)
      requires IsTokenList(tokens) && AreNormal(tokens) && token < |tokens|
      modifies this`token
      ensures IsConditionAt(old(token), r)
      decreases |tokens| - token, 3
    {
      ghost var start := token;
      r := ParseOperand();
      if r.Err? {
        return;
      }
      FirstIsRead(tokens, start);
      var items := [r.value];
      while IsOperator(tokens[token].lexeme.typ)
        invariant AreRead(tokens, start, token, items)
        decreases |tokens| - token
      {
        var next := ParseNext(start, items);
        if next.Err? {
          return Err(next.error);
        }
        items := next.value;
      }
      AllAreRead(tokens, start, token, items);
      var tree := TreeByPriority(items);
      r := Ok(tree);
    }

    /** One more operator and its right operand. */
    method ParseNext(ghost start: nat, items: seq<Ast>) returns (r: Result<seq<Ast>, ParseError>)
      requires AreRead(tokens, start, token, items) && IsOperator(tokens[token].lexeme.typ)
      modifies this`token
      ensures match r
              case Err(e) => ReadCondition(tokens, start) == Err(e)
              case Ok(longer) => old(token) < token && AreRead(tokens, start, token, longer)
      decreases |tokens| - token, 2
    {
      NextIsRead(tokens, start, token, items);
      var op := NodeOf(tokens[token].lexeme);
      token := token + 1;
      var operand := ParseOperand();
      r := if operand.Err? then Err(operand.error) else Ok(items + [op, operand.value]);
    }

    method Parse(str: string) returns (r: Result<Ast, Error>)
      modifies this
      ensures r == ParseText(str)
    {
      var lexer := new Lexer();
      var ts := lexer.GetTokens(str);
      if ts.Err? {
        return Err(Lexical(ts.error));
      }
      TokensAreInput(str);
      tokens, token := ts.value, 0;
      var root := ParseTokens();
      r := if root.Err? then Err(Syntactic(root.error)) else Ok(root.value);
    }

    /** All tokens are one condition. */
    method ParseTokens() returns (r: Result<Ast, ParseError>)
      requires IsTokenList(tokens) && AreNormal(tokens) && token == 0
      modifies this`token
      ensures r == match Read(tokens) case Err(e) => Err(e) case Ok(c) => Ok(Abstract(c))
    {
      r := ParseCondition();
      if r.Ok? && tokens[token].lexeme.typ != Eol {
        return Err(OperatorExpected(tokens[token].pos + 1));
      }
    }
  }

  // ----- the whole -----

  lemma {:induction false} TokensAreInput(s: string)
    requires Tokens(s, 0).Ok?
    ensures IsTokenList(Tokens(s, 0).value) && AreNormal(Tokens(s, 0).value)
  {
    var ls := TokensSpellText(s, 0);
    PlacedIsInput(ls, 0);
  }

  lemma {:induction false} PlacedIsInput(ls: seq<Lexeme>, pos: nat)
    requires AreLexemes(ls)
    ensures IsTokenList(Placed(ls, pos)) && AreNormal(Placed(ls, pos))
  {
  }

  function ParseText(s: string): Result<Ast, Error> {
    match Tokens(s, 0)
    case Err(e) => Err(Lexical(e))
    case Ok(ts) =>
      TokensAreInput(s);
      match Read(ts)
      case Err(e) => Err(Syntactic(e))
      case Ok(c) => Ok(Abstract(c))
  }
}
