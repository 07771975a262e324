/** Conditions the way they are written, and reading them from tokens. */
module ExpressionGrammar {
  import opened ExpressionSyntax
  import opened ExpressionTree

  type Operator = t: TokenType | IsOperator(t) witness Equal

  datatype Operand =
    | Literal(value: string)
    | Name(name: string)
    | Defined(name: string)
    | Brackets(condition: Condition)

  datatype Condition =
    | Single(operand: Operand)
    | More(operand: Operand, op: Operator, rest: Condition)

  const IS_DEFINED := "isDefined"

  // ----- what is written -----

  function OperandLexemes(o: Operand): (ls: seq<Lexeme>)
    ensures ls != []
  {
    match o
    case Literal(value) => [Lexeme(Number, value)]
    case Name(name) => [Lexeme(Ident, name)]
    case Defined(name) =>
      [Lexeme(Ident, IS_DEFINED), Lexeme(LeftBr, ""), Lexeme(Ident, name), Lexeme(RightBr, "")]
    case Brackets(c) => [Lexeme(LeftBr, "")] + Lexemes(c) + [Lexeme(RightBr, "")]
  }

  function Lexemes(c: Condition): (ls: seq<Lexeme>)
    ensures ls != []
  {
    match c
    case Single(o) => OperandLexemes(o)
    case More(o, op, rest) => OperandLexemes(o) + [Lexeme(op, "")] + Lexemes(rest)
  }

  // ----- what it means -----

  function OperandAst(o: Operand): (a: Ast)
    ensures a.Node?
    decreases o, 0
  {
    match o
    case Literal(value) => NodeOf(Lexeme(Number, value))
    case Name(name) => NodeOf(Lexeme(Ident, name))
    case Defined(name) => Node(Null, NodeOf(Lexeme(Ident, name)), Func, IS_DEFINED)
    case Brackets(c) => Abstract(c)
  }

  function Items(c: Condition): (items: seq<Ast>)
    ensures IsChain(items) && forall i | 0 <= i < |items| :: items[i].Node?
    decreases c, 0
  {
    match c
    case Single(o) => [OperandAst(o)]
    case More(o, op, rest) => [OperandAst(o), NodeOf(Lexeme(op, ""))] + Items(rest)
  }

  function Abstract(c: Condition): (a: Ast)
    ensures a.Node?
    decreases c, 1
  {
    Tree(Items(c))
  }

  // ----- reading -----

  datatype ParseError =
    | IdentifierExpected(position: nat)
    | UnknownFunction(name: string, position: nat)
    | RightBracketExpected(position: nat)
    | OperandExpected(position: nat)
    | OperatorExpected(position: nat)

  /** Something that is read, and the index of the token after it. */
  datatype Parsed<T> = Parsed(value: T, next: nat)

  /** The end of line is the last token and no other one. */
  ghost predicate IsTokenList(ts: seq<Token>) {
    && ts != []
    && forall i | 0 <= i < |ts| :: ts[i].lexeme.typ == Eol <==> i == |ts| - 1
  }

  predicate Is(ts: seq<Token>, i: nat, typ: TokenType) {
    i < |ts| && ts[i].lexeme.typ == typ
  }

  function ReadDefined(ts: seq<Token>, i: nat): (r: Result<Parsed<Operand>, ParseError>)
    requires IsTokenList(ts) && Is(ts, i, Ident) && Is(ts, i + 1, LeftBr)
    ensures r.Ok? ==> i < r.value.next < |ts|
  {
    if !Is(ts, i + 2, Ident) then Err(IdentifierExpected(ts[i + 2].pos + 1))
    else if ts[i].lexeme.value != IS_DEFINED then Err(UnknownFunction(ts[i].lexeme.value, ts[i].pos + 1))
    else if !Is(ts, i + 3, RightBr) then Err(RightBracketExpected(ts[i + 3].pos + 1))
    else Ok(Parsed(Defined(ts[i + 2].lexeme.value), i + 4))
  }

  function ReadOperand(ts: seq<Token>, i: nat): (r: Result<Parsed<Operand>, ParseError>)
    requires IsTokenList(ts) && i < |ts|
    ensures r.Ok? ==> i < r.value.next < |ts|
    decreases |ts| - i, 0
  {
    if Is(ts, i, Ident) && Is(ts, i + 1, LeftBr) then ReadDefined(ts, i)
    else if Is(ts, i, Number) then Ok(Parsed(Literal(ts[i].lexeme.value), i + 1))
    else if Is(ts, i, Ident) then Ok(Parsed(Name(ts[i].lexeme.value), i + 1))
    else if Is(ts, i, LeftBr) then
      match ReadCondition(ts, i + 1)
      case Err(e) => Err(e)
      case Ok(Parsed(c, j)) =>
        if Is(ts, j, RightBr) then Ok(Parsed(Brackets(c), j + 1)) else Err(RightBracketExpected(ts[j].pos + 1))
    else Err(OperandExpected(ts[i].pos + 1))
  }

  function ReadCondition(ts: seq<Token>, i: nat): (r: Result<Parsed<Condition>, ParseError>)
    requires IsTokenList(ts) && i < |ts|
    ensures r.Ok? ==> i < r.value.next < |ts|
    decreases |ts| - i, 1
  {
    match ReadOperand(ts, i)
    case Err(e) => Err(e)
    case Ok(Parsed(o, j)) =>
      if IsOperator(ts[j].lexeme.typ) then
        match ReadCondition(ts, j + 1)
        case Err(e) => Err(e)
        case Ok(Parsed(rest, k)) => Ok(Parsed(More(o, ts[j].lexeme.typ, rest), k))
      else Ok(Parsed(Single(o), j))
  }

  function Read(ts: seq<Token>): Result<Condition, ParseError>
    requires IsTokenList(ts)
  {
    match ReadCondition(ts, 0)
    case Err(e) => Err(e)
    case Ok(Parsed(c, j)) => if Is(ts, j, Eol) then Ok(c) else Err(OperatorExpected(ts[j].pos + 1))
  }

  // ----- reading is the inverse of writing -----

  /** Lexemes that are written from an index on. */
  ghost predicate WrittenAt(ts: seq<Token>, i: nat, ls: seq<Lexeme>) {
    && i + |ls| <= |ts|
    && forall k | 0 <= k < |ls| :: ts[i + k].lexeme == ls[k]
  }

  lemma WrittenParts(ts: seq<Token>, i: nat, a: seq<Lexeme>, b: seq<Lexeme>)
    ensures WrittenAt(ts, i, a + b) <==> WrittenAt(ts, i, a) && WrittenAt(ts, i + |a|, b)
  {
    if WrittenAt(ts, i, a + b) {
      forall k | 0 <= k < |a| ensures ts[i + k].lexeme == a[k] {
        assert (a + b)[k] == a[k];
      }
      forall k | 0 <= k < |b| ensures ts[i + |a| + k].lexeme == b[k] {
        assert ts[i + (|a| + k)].lexeme == (a + b)[|a| + k];
      }
    }
    if WrittenAt(ts, i, a) && WrittenAt(ts, i + |a|, b) {
      forall k | 0 <= k < |a + b| ensures ts[i + k].lexeme == (a + b)[k] {
        if k >= |a| {
          assert ts[i + |a| + (k - |a|)].lexeme == b[k - |a|];
        }
      }
    }
  }

  predicate IsAt(ts: seq<Token>, i: nat, l: Lexeme) {
    i < |ts| && ts[i].lexeme == l
  }

  lemma WrittenOne(ts: seq<Token>, i: nat, l: Lexeme)
    ensures WrittenAt(ts, i, [l]) <==> IsAt(ts, i, l)
  {
    if WrittenAt(ts, i, [l]) {
      assert ts[i + 0].lexeme == [l][0];
    }
  }

  lemma DefinedIsWritten(ts: seq<Token>, i: nat, name: string)
    ensures WrittenAt(ts, i, OperandLexemes(Defined(name))) <==>
      && IsAt(ts, i, Lexeme(Ident, IS_DEFINED)) && IsAt(ts, i + 1, Lexeme(LeftBr, ""))
      && IsAt(ts, i + 2, Lexeme(Ident, name)) && IsAt(ts, i + 3, Lexeme(RightBr, ""))
  {
    var ls := OperandLexemes(Defined(name));
    if WrittenAt(ts, i, ls) {
      assert ts[i + 0].lexeme == ls[0] && ts[i + 1].lexeme == ls[1];
      assert ts[i + 2].lexeme == ls[2] && ts[i + 3].lexeme == ls[3];
    }
  }

  /** Only numbers and identifiers have values. */
  ghost predicate AreNormal(ts: seq<Token>) {
    forall i | 0 <= i < |ts| :: ts[i].lexeme.typ == Number || ts[i].lexeme.typ == Ident || ts[i].lexeme.value == ""
  }

  /** An operand that is not in brackets is one lexeme, or a function. */
  lemma {:induction false} PlainIsWritten(ts: seq<Token>, i: nat, o: Operand)
    requires !o.Brackets?
    ensures match o
            case Defined(name) => WrittenAt(ts, i, OperandLexemes(o)) <==>
              && IsAt(ts, i, Lexeme(Ident, IS_DEFINED)) && IsAt(ts, i + 1, Lexeme(LeftBr, ""))
              && IsAt(ts, i + 2, Lexeme(Ident, name)) && IsAt(ts, i + 3, Lexeme(RightBr, ""))
            case Literal(value) => WrittenAt(ts, i, OperandLexemes(o)) <==> IsAt(ts, i, Lexeme(Number, value))
            case Name(name) => WrittenAt(ts, i, OperandLexemes(o)) <==> IsAt(ts, i, Lexeme(Ident, name))
            case Brackets(_) => true
  {
    match o {
      case Defined(name) => DefinedIsWritten(ts, i, name);
      case Literal(value) => WrittenOne(ts, i, Lexeme(Number, value));
      case Name(name) => WrittenOne(ts, i, Lexeme(Ident, name));
    }
  }

  lemma {:induction false} PlainIsRead(ts: seq<Token>, i: nat)
    requires IsTokenList(ts) && AreNormal(ts) && i < |ts| && ReadOperand(ts, i).Ok?
    requires !ReadOperand(ts, i).value.value.Brackets?
    ensures var o, j := ReadOperand(ts, i).value.value, ReadOperand(ts, i).value.next;
      WrittenAt(ts, i, OperandLexemes(o)) && j == i + |OperandLexemes(o)|
  {
    PlainIsWritten(ts, i, ReadOperand(ts, i).value.value);
  }

  /** What is read is what is written there. */
  lemma {:induction false} OperandIsWritten(ts: seq<Token>, i: nat)
    requires IsTokenList(ts) && AreNormal(ts) && i < |ts| && ReadOperand(ts, i).Ok?
    ensures var o, j := ReadOperand(ts, i).value.value, ReadOperand(ts, i).value.next;
      WrittenAt(ts, i, OperandLexemes(o)) && j == i + |OperandLexemes(o)|
    decreases |ts| - i, 0
  {
    var o := ReadOperand(ts, i).value.value;
    if o.Brackets? {
      ConditionIsWritten(ts, i + 1);
      BracketsWritten(ts, i, o.condition, Lexemes(o.condition));
    } else {
      PlainIsRead(ts, i);
    }
  }

  lemma {:induction false} BracketsWritten(ts: seq<Token>, i: nat, c: Condition, ls: seq<Lexeme>)
    requires ls == Lexemes(c) && WrittenAt(ts, i + 1, ls)
    requires IsAt(ts, i, Lexeme(LeftBr, "")) && IsAt(ts, i + 1 + |ls|, Lexeme(RightBr, ""))
    ensures WrittenAt(ts, i, OperandLexemes(Brackets(c))) && |OperandLexemes(Brackets(c))| == |ls| + 2
  {
    BracketsAreWritten(ts, i, ls);
  }

  lemma BracketsAreWritten(ts: seq<Token>, i: nat, ls: seq<Lexeme>)
    ensures WrittenAt(ts, i, [Lexeme(LeftBr, "")] + ls + [Lexeme(RightBr, "")]) <==>
      && IsAt(ts, i, Lexeme(LeftBr, ""))
      && WrittenAt(ts, i + 1, ls)
      && IsAt(ts, i + 1 + |ls|, Lexeme(RightBr, ""))
  {
    WrittenOne(ts, i, Lexeme(LeftBr, ""));
    WrittenOne(ts, i + 1 + |ls|, Lexeme(RightBr, ""));
    WrittenParts(ts, i, [Lexeme(LeftBr, "")] + ls, [Lexeme(RightBr, "")]);
    WrittenParts(ts, i, [Lexeme(LeftBr, "")], ls);
  }

  lemma {:induction false} ConditionIsWritten(ts: seq<Token>, i: nat)
    requires IsTokenList(ts) && AreNormal(ts) && i < |ts| && ReadCondition(ts, i).Ok?
    ensures var c, j := ReadCondition(ts, i).value.value, ReadCondition(ts, i).value.next;
      WrittenAt(ts, i, Lexemes(c)) && j == i + |Lexemes(c)|
    decreases |ts| - i, 1
  {
    OperandIsWritten(ts, i);
    var c, j := ReadCondition(ts, i).value.value, ReadOperand(ts, i).value.next;
    if c.More? {
      ConditionIsWritten(ts, j + 1);
      MoreWritten(ts, i, c, OperandLexemes(c.operand), Lexemes(c.rest));
    }
  }

  lemma {:induction false} MoreWritten(ts: seq<Token>, i: nat, c: Condition, a: seq<Lexeme>, b: seq<Lexeme>)
    requires c.More? && a == OperandLexemes(c.operand) && b == Lexemes(c.rest)
    requires WrittenAt(ts, i, a) && IsAt(ts, i + |a|, Lexeme(c.op, "")) && WrittenAt(ts, i + |a| + 1, b)
    ensures WrittenAt(ts, i, Lexemes(c)) && |Lexemes(c)| == |a| + 1 + |b|
  {
    MoreIsWritten(ts, i, a, Lexeme(c.op, ""), b);
  }

  lemma MoreIsWritten(ts: seq<Token>, i: nat, a: seq<Lexeme>, op: Lexeme, b: seq<Lexeme>)
    ensures WrittenAt(ts, i, a + [op] + b) <==>
      WrittenAt(ts, i, a) && IsAt(ts, i + |a|, op) && WrittenAt(ts, i + |a| + 1, b)
  {
    WrittenOne(ts, i + |a|, op);
    WrittenParts(ts, i, a + [op], b);
    WrittenParts(ts, i, a, [op]);
  }

  /** An operand that is written is read, unless a bracket after a name makes a function of it. */
  lemma {:induction false} WrittenOperandIsRead(ts: seq<Token>, i: nat, o: Operand)
    requires IsTokenList(ts) && WrittenAt(ts, i, OperandLexemes(o))
    requires i + |OperandLexemes(o)| < |ts| && !Is(ts, i + |OperandLexemes(o)|, LeftBr)
    ensures ReadOperand(ts, i) == Ok(Parsed(o, i + |OperandLexemes(o)|))
    decreases o, 0
  {
    if o.Brackets? {
      WrittenBracketsAreRead(ts, i, o.condition, Lexemes(o.condition));
    } else {
      PlainIsWritten(ts, i, o);
    }
  }

  lemma {:induction false} WrittenBracketsAreRead(ts: seq<Token>, i: nat, c: Condition, ls: seq<Lexeme>)
    requires IsTokenList(ts) && ls == Lexemes(c)
    requires WrittenAt(ts, i, [Lexeme(LeftBr, "")] + ls + [Lexeme(RightBr, "")])
    ensures ReadOperand(ts, i) == Ok(Parsed(Brackets(c), i + |ls| + 2))
    decreases c, 2
  {
    BracketsAreWritten(ts, i, ls);
    WrittenConditionIsRead(ts, i + 1, c);
    BracketsAreRead(ts, i, c, i + 1 + |ls|);
  }

  lemma {:induction false} BracketsAreRead(ts: seq<Token>, i: nat, c: Condition, end: nat)
    requires IsTokenList(ts) && Is(ts, i, LeftBr) && Is(ts, end, RightBr)
    requires ReadCondition(ts, i + 1) == Ok(Parsed(c, end))
    ensures ReadOperand(ts, i) == Ok(Parsed(Brackets(c), end + 1))
  {
  }

  lemma MoreIsRead(ts: seq<Token>, i: nat, o: Operand, middle: nat, op: Operator, rest: Condition, end: nat)
    requires IsTokenList(ts) && i < |ts| && ReadOperand(ts, i) == Ok(Parsed(o, middle))
    requires Is(ts, middle, op) && middle + 1 < |ts| && ReadCondition(ts, middle + 1) == Ok(Parsed(rest, end))
    ensures ReadCondition(ts, i) == Ok(Parsed(More(o, op, rest), end))
  {
  }

  lemma {:induction false} WrittenConditionIsRead(ts: seq<Token>, i: nat, c: Condition)
    requires IsTokenList(ts) && WrittenAt(ts, i, Lexemes(c)) && i + |Lexemes(c)| < |ts|
    requires var next := ts[i + |Lexemes(c)|].lexeme.typ; next != LeftBr && !IsOperator(next)
    ensures ReadCondition(ts, i) == Ok(Parsed(c, i + |Lexemes(c)|))
    decreases c, 1
  {
    match c {
      case Single(o) => WrittenOperandIsRead(ts, i, o);
      case More(o, op, rest) => WrittenMoreIsRead(ts, i, c, OperandLexemes(o), Lexemes(rest));
    }
  }

  lemma {:induction false} WrittenMoreIsRead(ts: seq<Token>, i: nat, c: Condition, a: seq<Lexeme>, b: seq<Lexeme>)
    requires IsTokenList(ts) && c.More? && a == OperandLexemes(c.operand) && b == Lexemes(c.rest)
    requires WrittenAt(ts, i, a + [Lexeme(c.op, "")] + b) && i + |a| + 1 + |b| < |ts|
    requires var next := ts[i + |a| + 1 + |b|].lexeme.typ; next != LeftBr && !IsOperator(next)
    ensures ReadCondition(ts, i) == Ok(Parsed(c, i + |a| + 1 + |b|))
    decreases c, 0
  {
    var middle := i + |a|;
    MoreIsWritten(ts, i, a, Lexeme(c.op, ""), b);
    WrittenOperandIsRead(ts, i, c.operand);
    WrittenConditionIsRead(ts, middle + 1, c.rest);
    MoreIsRead(ts, i, c.operand, middle, c.op, c.rest, middle + 1 + |b|);
  }

  /** Tokens are read as a condition exactly if they are the ones that it is written with. */
  lemma {:induction false} ReadIffWritten(ts: seq<Token>, c: Condition)
    requires IsTokenList(ts) && AreNormal(ts)
    ensures Read(ts) == Ok(c) <==> |ts| == |Lexemes(c)| + 1 && WrittenAt(ts, 0, Lexemes(c))
  {
    if Read(ts) == Ok(c) {
      ConditionIsWritten(ts, 0);
    }
    if |ts| == |Lexemes(c)| + 1 && WrittenAt(ts, 0, Lexemes(c)) {
      WrittenConditionIsRead(ts, 0, c);
    }
  }
}
