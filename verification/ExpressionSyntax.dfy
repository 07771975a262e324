/** Lexemes and trees of the condition language. */
module ExpressionSyntax {
  datatype Result<T, E> = Ok(value: T) | Err(error: E)

  datatype TokenType =
    | LeftBr | RightBr
    | Number
    | Equal | NotEqual | Greater | Less | GreaterEqual | LessEqual | Or | And
    | Ident
    | Eol

  /** A token without its place; only numbers and identifiers have a value. */
  datatype Lexeme = Lexeme(typ: TokenType, value: string)

  datatype Token = Token(lexeme: Lexeme, pos: nat)

  predicate IsOperator(typ: TokenType) {
    typ in {Equal, NotEqual, Greater, Less, GreaterEqual, LessEqual, Or, And}
  }

  datatype NodeType = Func | Of(token: TokenType)

  /** A tree; a missing child is Null. */
  datatype Ast = Null | Node(left: Ast, right: Ast, typ: NodeType, value: string)

  /** A node for a token, without children. */
  function NodeOf(w: Lexeme): Ast {
    Node(Null, Null, Of(w.typ), w.value)
  }

  function GetPriority(typ: NodeType): nat {
    match typ
    case Of(Greater) => 9
    case Of(Less) => 9
    case Of(GreaterEqual) => 9
    case Of(LessEqual) => 9
    case Of(Equal) => 10
    case Of(NotEqual) => 10
    case Of(And) => 14
    case Of(Or) => 15
    case _ => 0
  }

  // ----- spelling -----

  predicate IsDigit(c: char) {
    '0' <= c <= '9'
  }

  predicate IsAlpha(c: char) {
    'a' <= c <= 'z' || 'A' <= c <= 'Z'
  }

  predicate IsIdentChar(c: char) {
    IsAlpha(c) || IsDigit(c) || c == '_'
  }

  predicate AreDigits(s: string) {
    forall i | 0 <= i < |s| :: IsDigit(s[i])
  }

  predicate IsNumber(s: string) {
    if s != "" && s[0] == '-' then |s| > 1 && AreDigits(s[1..]) else s != "" && AreDigits(s)
  }

  predicate IsIdentifier(s: string) {
    s != "" && IsAlpha(s[0]) && forall i | 0 <= i < |s| :: IsIdentChar(s[i])
  }

  /** Words that a text can have. */
  predicate IsProper(w: Lexeme) {
    match w.typ
    case Number => IsNumber(w.value)
    case Ident => IsIdentifier(w.value)
    case Eol => false
    case _ => w.value == ""
  }

  function Text(w: Lexeme): string {
    match w.typ
    case LeftBr => "("
    case RightBr => ")"
    case Equal => "=="
    case NotEqual => "!="
    case Greater => ">"
    case Less => "<"
    case GreaterEqual => ">="
    case LessEqual => "<="
    case Or => "||"
    case And => "&&"
    case _ => w.value
  }

  function TextOf(ws: seq<Lexeme>): string {
    if ws == [] then "" else Text(ws[0]) + TextOf(ws[1..])
  }

  /** Whether a character right after a word would belong to it. */
  predicate Continues(typ: TokenType, c: char) {
    match typ
    case Number => IsDigit(c)
    case Ident => IsIdentChar(c)
    case Less => c == '='
    case Greater => c == '='
    case _ => false
  }

  /** Words that can follow each other without a space between them. */
  ghost predicate AreLexemes(ws: seq<Lexeme>) {
    && (forall i | 0 <= i < |ws| :: IsProper(ws[i]))
    && (forall i | 0 < i < |ws| :: AreApart(ws[i - 1], ws[i]))
  }

  predicate AreApart(w: Lexeme, next: Lexeme) {
    Text(next) != "" && !Continues(w.typ, Text(next)[0])
  }

  /** Words with their places and the end of line. */
  function Placed(ws: seq<Lexeme>, pos: nat): (ts: seq<Token>)
    ensures |ts| == |ws| + 1
    ensures forall i | 0 <= i < |ws| :: ts[i].lexeme == ws[i]
    ensures ts[|ws|].lexeme == Lexeme(Eol, "")
  {
    if ws == [] then [Token(Lexeme(Eol, ""), pos)]
    else [Token(ws[0], pos)] + Placed(ws[1..], pos + |Text(ws[0])|)
  }
}
