/** What texts are conditions, and which trees they mean. */
module ExpressionLaws {
  import opened ExpressionSyntax
  import opened ExpressionLexer
  import opened ExpressionTree
  import opened ExpressionGrammar
  import opened ExpressionParser

  /** Numbers and identifiers are spelled as such. */
  ghost predicate IsSpelled(c: Condition) {
    AreProper(Lexemes(c))
  }

  ghost predicate AreProper(ls: seq<Lexeme>) {
    forall i | 0 <= i < |ls| :: IsProper(ls[i])
  }

  lemma ProperParts(a: seq<Lexeme>, b: seq<Lexeme>)
    ensures AreProper(a + b) <==> AreProper(a) && AreProper(b)
  {
    if AreProper(a + b) {
      forall i | 0 <= i < |a| ensures IsProper(a[i]) {
        assert (a + b)[i] == a[i];
      }
      forall i | 0 <= i < |b| ensures IsProper(b[i]) {
        assert (a + b)[|a| + i] == b[i];
      }
    }
  }

  // ----- the lexemes of a condition need no spaces -----

  predicate BeginsOperand(l: Lexeme) {
    l.typ in {Number, Ident, LeftBr}
  }

  predicate EndsOperand(l: Lexeme) {
    l.typ in {Number, Ident, RightBr}
  }

  lemma {:induction false} OperandEnds(o: Operand)
    ensures var ls := OperandLexemes(o);
      ls != [] && BeginsOperand(ls[0]) && EndsOperand(ls[|ls| - 1])
  {
  }

  lemma {:induction false} ConditionEnds(c: Condition)
    ensures var ls := Lexemes(c);
      ls != [] && BeginsOperand(ls[0]) && EndsOperand(ls[|ls| - 1])
  {
    OperandEnds(c.operand);
    if c.More? {
      ConditionEnds(c.rest);
    }
  }

  lemma ApartBeforeOperand(l: Lexeme, next: Lexeme)
    requires IsOperator(l.typ) || l.typ == LeftBr
    requires BeginsOperand(next) && IsProper(next)
    ensures AreApart(l, next)
  {
  }

  lemma ApartAfterOperand(l: Lexeme, next: Lexeme)
    requires EndsOperand(l) && (IsOperator(next.typ) || next.typ == RightBr)
    ensures AreApart(l, next)
  {
  }

  lemma LexemesAround(l: Lexeme, ls: seq<Lexeme>, r: Lexeme)
    requires AreLexemes(ls) && ls != [] && IsProper(l) && IsProper(r)
    requires AreApart(l, ls[0]) && AreApart(ls[|ls| - 1], r)
    ensures AreLexemes([l] + ls + [r])
  {
  }

  lemma LexemesBetween(a: seq<Lexeme>, l: Lexeme, b: seq<Lexeme>)
    requires AreLexemes(a) && AreLexemes(b) && a != [] && b != [] && IsProper(l)
    requires AreApart(a[|a| - 1], l) && AreApart(l, b[0])
    ensures AreLexemes(a + [l] + b)
  {
  }

  lemma {:induction false} OperandNeedsNoSpaces(o: Operand)
    requires AreProper(OperandLexemes(o))
    ensures AreLexemes(OperandLexemes(o))
    decreases o
  {
    match o {
      case Brackets(c) =>
        var l, ls, r := Lexeme(LeftBr, ""), Lexemes(c), Lexeme(RightBr, "");
        ProperParts([l] + ls, [r]);
        ProperParts([l], ls);
        ConditionNeedsNoSpaces(c);
        ConditionEnds(c);
        ApartBeforeOperand(l, ls[0]);
        ApartAfterOperand(ls[|ls| - 1], r);
        LexemesAround(l, ls, r);
      case Defined(name) =>
        var ls := OperandLexemes(o);
        assert IsProper(ls[2]) && ls[2] == Lexeme(Ident, name);
        ApartBeforeOperand(ls[1], ls[2]);
      case _ =>
    }
  }

  /** However a condition is nested, its lexemes can be written without spaces. */
  lemma {:induction false} ConditionNeedsNoSpaces(c: Condition)
    requires IsSpelled(c)
    ensures AreLexemes(Lexemes(c))
    decreases c
  {
    match c {
      case Single(o) => OperandNeedsNoSpaces(o);
      case More(o, op, rest) =>
        var a, l, b := OperandLexemes(o), Lexeme(op, ""), Lexemes(rest);
        ProperParts(a + [l], b);
        ProperParts(a, [l]);
        OperandNeedsNoSpaces(o);
        ConditionNeedsNoSpaces(rest);
        OperandEnds(o);
        ConditionEnds(rest);
        ApartAfterOperand(a[|a| - 1], l);
        ApartBeforeOperand(l, b[0]);
        assert IsProper(l);
        LexemesBetween(a, l, b);
    }
  }

  // ----- parsing -----

  /** A condition that is written is parsed to its tree. */
  lemma {:induction false} WrittenIsParsed(c: Condition)
    requires IsSpelled(c)
    ensures ParseText(TextOf(Lexemes(c))) == Ok(Abstract(c))
  {
    var ls := Lexemes(c);
    var s := TextOf(ls);
    ConditionNeedsNoSpaces(c);
    assert s[0..] == s;
    SpelledIsFound(s, 0, ls);
    TokensAreInput(s);
    PlacedIsWritten(ls, 0);
    ReadIffWritten(Placed(ls, 0), c);
  }

  lemma {:induction false} PlacedIsWritten(ls: seq<Lexeme>, pos: nat)
    ensures |Placed(ls, pos)| == |ls| + 1 && WrittenAt(Placed(ls, pos), 0, ls)
  {
  }

  /** A text that is parsed is a condition that is written, and the tree is the one that it means. */
  lemma ParsedIsWritten(s: string) returns (c: Condition)
    requires ParseText(s).Ok?
    ensures IsSpelled(c) && TextOf(Lexemes(c)) == s && ParseText(s) == Ok(Abstract(c))
  {
    var ls := TokensSpellText(s, 0);
    var ts := Placed(ls, 0);
    TokensAreInput(s);
    c := Read(ts).value;
    ReadIffWritten(ts, c);
    WrittenIs(ts, ls, Lexemes(c));
    assert s[0..] == s;
  }

  lemma WrittenIs(ts: seq<Token>, a: seq<Lexeme>, b: seq<Lexeme>)
    requires |ts| == |a| + 1 == |b| + 1 && WrittenAt(ts, 0, b)
    requires forall i | 0 <= i < |a| :: ts[i].lexeme == a[i]
    ensures a == b
  {
  }

  /** A condition that a text is written from. */
  ghost predicate IsWrittenFrom(s: string, c: Condition) {
    IsSpelled(c) && TextOf(Lexemes(c)) == s
  }

  /** Exactly the texts of the grammar are accepted. */
  lemma AcceptsGrammar(s: string)
    ensures ParseText(s).Ok? <==> exists c :: IsWrittenFrom(s, c)
    ensures forall c :: IsWrittenFrom(s, c) ==> ParseText(s) == Ok(Abstract(c))
  {
    if ParseText(s).Ok? {
      var c := ParsedIsWritten(s);
      assert IsWrittenFrom(s, c);
    }
    forall c | IsWrittenFrom(s, c) ensures ParseText(s) == Ok(Abstract(c)) {
      WrittenIsParsed(c);
    }
  }

  // ----- trees and their bracketed text -----

  /** Trees without missing children. */
  predicate IsExpression(a: Ast) {
    if a == Null then false
    else if a.typ == Func then
      && a.left == Null && a.value == IS_DEFINED
      && IsIdentifier(Value(a.right)) && a.right == NodeOf(Lexeme(Ident, Value(a.right)))
    else if IsOperator(a.typ.token) then a.value == "" && IsExpression(a.left) && IsExpression(a.right)
    else
      && a.left == a.right == Null
      && (if a.typ.token == Number then IsNumber(a.value) else a.typ.token == Ident && IsIdentifier(a.value))
  }

  function Value(a: Ast): string {
    if a.Node? then a.value else ""
  }

  /** A tree with brackets around every operation. */
  function Bracketed(a: Ast): Operand
    requires IsExpression(a)
  {
    if a.typ == Func then Defined(a.right.value)
    else if IsOperator(a.typ.token) then Brackets(More(Bracketed(a.left), a.typ.token, Single(Bracketed(a.right))))
    else if a.typ.token == Number then Literal(a.value)
    else Name(a.value)
  }

  lemma {:induction false} BracketedMeansItself(a: Ast)
    requires IsExpression(a)
    ensures OperandAst(Bracketed(a)) == a && AreProper(OperandLexemes(Bracketed(a)))
  {
    if a.typ.Of? && IsOperator(a.typ.token) {
      BracketedMeansItself(a.left);
      BracketedMeansItself(a.right);
      OperationMeans(Bracketed(a.left), a.typ.token, Bracketed(a.right));
    } else if a.typ == Func {
      assert OperandLexemes(Bracketed(a))[2] == Lexeme(Ident, a.right.value);
    } else {
      assert OperandLexemes(Bracketed(a)) == [Lexeme(a.typ.token, a.value)];
    }
  }

  lemma {:induction false} OperationMeans(l: Operand, op: Operator, r: Operand)
    requires AreProper(OperandLexemes(l)) && AreProper(OperandLexemes(r))
    ensures var o := Brackets(More(l, op, Single(r)));
      && OperandAst(o) == Node(OperandAst(l), OperandAst(r), Of(op), "")
      && AreProper(OperandLexemes(o))
  {
    var left, right, middle := OperandLexemes(l), OperandLexemes(r), [Lexeme(op, "")];
    ProperParts(left, middle);
    ProperParts(left + middle, right);
    ProperParts([Lexeme(LeftBr, "")], left + middle + right);
    ProperParts([Lexeme(LeftBr, "")] + (left + middle + right), [Lexeme(RightBr, "")]);
    assert Lexemes(Single(r)) == right;
    assert Lexemes(More(l, op, Single(r))) == left + middle + right;
    assert Items(Single(r)) == [OperandAst(r)];
    assert Items(More(l, op, Single(r))) == [OperandAst(l), NodeOf(Lexeme(op, "")), OperandAst(r)];
    ThreeItems(OperandAst(l), NodeOf(Lexeme(op, "")), OperandAst(r));
  }

  lemma ThreeItems(l: Ast, op: Ast, r: Ast)
    requires op.Node?
    ensures IsChain([l, op, r]) && Tree([l, op, r]) == op.(left := l, right := r)
  {
  }

  /** Every tree comes back from its bracketed text. */
  lemma {:induction false} ParseUndoesPrint(a: Ast)
    requires IsExpression(a)
    ensures ParseText(TextOf(OperandLexemes(Bracketed(a)))) == Ok(a)
  {
    BracketedMeansItself(a);
    var c := Single(Bracketed(a));
    WrittenIsParsed(c);
    assert Items(c) == [a];
  }
}
