/** Splits the text of a condition into words. */
module ExpressionLexer {
  import opened Common
  import opened ExpressionSyntax

  datatype LexError = UnexpectedEnd | UnexpectedSymbol(symbol: char, position: nat)

  /** What is found at a place: a word that ends somewhere, or a place where something else was expected. */
  datatype Scanned = Found(typ: TokenType, end: nat) | Unexpected(at: nat)

  predicate HasChar(s: string, i: nat, c: char) {
    i < |s| && s[i] == c
  }

  function DigitsEnd(s: string, i: nat): (end: nat)
    requires i <= |s|
    ensures i <= end <= |s| && (end < |s| ==> !IsDigit(s[end]))
    ensures forall k | i <= k < end :: IsDigit(s[k])
    decreases |s| - i
  {
    if i < |s| && IsDigit(s[i]) then DigitsEnd(s, i + 1) else i
  }

  function IdentEnd(s: string, i: nat): (end: nat)
    requires i <= |s|
    ensures i <= end <= |s| && (end < |s| ==> !IsIdentChar(s[end]))
    ensures forall k | i <= k < end :: IsIdentChar(s[k])
    decreases |s| - i
  {
    if i < |s| && IsIdentChar(s[i]) then IdentEnd(s, i + 1) else i
  }

  function ScanPair(s: string, i: nat, c: char, typ: TokenType): Scanned {
    if HasChar(s, i + 1, c) then Found(typ, i + 2) else Unexpected(i + 1)
  }

  function ScanOpOrBracket(s: string, i: nat): Option<Scanned>
    requires i < |s|
  {
    match s[i]
    case '=' => Some(ScanPair(s, i, '=', Equal))
    case '!' => Some(ScanPair(s, i, '=', NotEqual))
    case '<' => Some(if HasChar(s, i + 1, '=') then Found(LessEqual, i + 2) else Found(Less, i + 1))
    case '>' => Some(if HasChar(s, i + 1, '=') then Found(GreaterEqual, i + 2) else Found(Greater, i + 1))
    case '|' => Some(ScanPair(s, i, '|', Or))
    case '&' => Some(ScanPair(s, i, '&', And))
    case '(' => Some(Found(LeftBr, i + 1))
    case ')' => Some(Found(RightBr, i + 1))
    case _ => None
  }

  function ScanNumber(s: string, i: nat): Option<Scanned>
    requires i < |s|
  {
    var start := if s[i] == '-' then i + 1 else i;
    if start < |s| && IsDigit(s[start]) then Some(Found(Number, DigitsEnd(s, start)))
    else if start > i then Some(Unexpected(start))
    else None
  }

  function ScanIdent(s: string, i: nat): Option<Scanned>
    requires i < |s|
  {
    if IsAlpha(s[i]) then Some(Found(Ident, IdentEnd(s, i + 1))) else None
  }

  function Scan(s: string, i: nat): Scanned
    requires i < |s|
  {
    var op, number, ident := ScanOpOrBracket(s, i), ScanNumber(s, i), ScanIdent(s, i);
    if op.Some? then op.value
    else if number.Some? then number.value
    else if ident.Some? then ident.value
    else Unexpected(i)
  }

  function LexemeAt(s: string, i: nat, typ: TokenType, end: nat): Lexeme
    requires i <= end <= |s|
  {
    Lexeme(typ, if typ == Number || typ == Ident then s[i..end] else "")
  }

  function ErrorAt(s: string, i: nat): LexError {
    if i < |s| then UnexpectedSymbol(s[i], i + 1) else UnexpectedEnd
  }

  ghost predicate IsLexeme(s: string, i: nat, found: Scanned)
    requires i < |s|
  {
    found.Found? ==>
      && i < found.end <= |s|
      && IsProper(LexemeAt(s, i, found.typ, found.end))
      && Text(LexemeAt(s, i, found.typ, found.end)) == s[i..found.end]
      && (found.end < |s| ==> !Continues(found.typ, s[found.end]))
  }

  lemma OpIsLexeme(s: string, i: nat)
    requires i < |s| && ScanOpOrBracket(s, i).Some?
    ensures IsLexeme(s, i, ScanOpOrBracket(s, i).value)
  {
    var found := ScanOpOrBracket(s, i).value;
    if found.Found? {
      if found.end == i + 1 {
        assert s[i..found.end] == [s[i]];
      } else {
        assert s[i..found.end] == [s[i], s[i + 1]];
      }
    }
  }

  lemma NumberIsLexeme(s: string, i: nat)
    requires i < |s| && ScanNumber(s, i).Some?
    ensures IsLexeme(s, i, ScanNumber(s, i).value)
  {
  }

  /** A found word is a proper one, spelled at its place, and does not go on after its end. */
  lemma FoundIsProper(s: string, i: nat)
    requires i < |s|
    ensures IsLexeme(s, i, Scan(s, i))
  {
    if ScanOpOrBracket(s, i).Some? {
      OpIsLexeme(s, i);
    } else if ScanNumber(s, i).Some? {
      NumberIsLexeme(s, i);
    }
  }

  function Tokens(s: string, i: nat): Result<seq<Token>, LexError>
    requires i <= |s|
    decreases |s| - i
  {
    if i == |s| then Ok([Token(Lexeme(Eol, ""), i)])
    else
      match Scan(s, i)
      case Unexpected(at) => Err(ErrorAt(s, at))
      case Found(typ, end) =>
        FoundIsProper(s, i);
        match Tokens(s, end)
        case Err(e) => Err(e)
        case Ok(rest) => Ok([Token(LexemeAt(s, i, typ, end), i)] + rest)
  }

  // ----- the reference: texts that are spelled from words -----

  lemma {:induction false} NumberEndIs(s: string, i: nat, end: nat)
    requires i <= end <= |s| && (end < |s| ==> !IsDigit(s[end]))
    requires forall k | i <= k < end :: IsDigit(s[k])
    ensures DigitsEnd(s, i) == end
  {
  }

  lemma {:induction false} IdentEndIs(s: string, i: nat, end: nat)
    requires i <= end <= |s| && (end < |s| ==> !IsIdentChar(s[end]))
    requires forall k | i <= k < end :: IsIdentChar(s[k])
    ensures IdentEnd(s, i) == end
  {
  }

  /** A proper word is found where it is spelled, unless what follows would belong to it. */
  lemma ProperIsFound(s: string, i: nat, w: Lexeme)
    requires IsProper(w) && i + |Text(w)| <= |s| && s[i..i + |Text(w)|] == Text(w)
    requires i + |Text(w)| < |s| ==> !Continues(w.typ, s[i + |Text(w)|])
    ensures i < |s| && Scan(s, i) == Found(w.typ, i + |Text(w)|)
    ensures LexemeAt(s, i, w.typ, i + |Text(w)|) == w
  {
    var end := i + |Text(w)|;
    forall k | i <= k < end ensures s[k] == Text(w)[k - i] {
      assert s[i..end][k - i] == s[k];
    }
    match w.typ
    case Number => NumberIsScanned(s, i, end);
    case Ident => IdentEndIs(s, i + 1, end);
    case _ =>
  }

  lemma NumberIsScanned(s: string, i: nat, end: nat)
    requires i < end <= |s| && IsNumber(s[i..end]) && (end < |s| ==> !IsDigit(s[end]))
    ensures ScanOpOrBracket(s, i).None? && ScanNumber(s, i) == Some(Found(Number, end))
  {
    var w, start := s[i..end], if s[i] == '-' then i + 1 else i;
    assert w[0] == s[i];
    forall k | start <= k < end ensures IsDigit(s[k]) {
      assert w[k - i] == s[k];
      assert start == i + 1 ==> w[1..][k - start] == s[k];
    }
    NumberEndIs(s, start, end);
  }

  lemma {:induction false} TokensNext(s: string, i: nat, l: Lexeme, end: nat, rest: seq<Lexeme>)
    requires i < end <= |s| && Scan(s, i) == Found(l.typ, end) && LexemeAt(s, i, l.typ, end) == l
    requires end == i + |Text(l)| && Tokens(s, end) == Ok(Placed(rest, end))
    ensures Tokens(s, i) == Ok(Placed([l] + rest, i))
  {
    TokensFrom(s, i, l, end, Placed(rest, end));
    PlacedNext(l, rest, i, end);
  }

  lemma {:induction false} TokensFrom(s: string, i: nat, l: Lexeme, end: nat, rest: seq<Token>)
    requires i < end <= |s| && Scan(s, i) == Found(l.typ, end) && LexemeAt(s, i, l.typ, end) == l
    requires Tokens(s, end) == Ok(rest)
    ensures Tokens(s, i) == Ok([Token(l, i)] + rest)
  {
  }

  lemma {:induction false} PlacedNext(l: Lexeme, rest: seq<Lexeme>, pos: nat, end: nat)
    requires end == pos + |Text(l)|
    ensures Placed([l] + rest, pos) == [Token(l, pos)] + Placed(rest, end)
  {
  }

  /** What the lexer finds spells the text. */
  lemma {:induction false} TokensSpellText(s: string, i: nat) returns (ls: seq<Lexeme>)
    requires i <= |s| && Tokens(s, i).Ok?
    ensures AreLexemes(ls) && TextOf(ls) == s[i..] && Tokens(s, i) == Ok(Placed(ls, i))
    decreases |s| - i
  {
    if i == |s| {
      ls := [];
    } else {
      var l, end := FirstFound(s, i);
      var rest := TokensSpellText(s, end);
      TokensNext(s, i, l, end, rest);
      LexemesNext(l, rest, s[end..]);
      ls := [l] + rest;
    }
  }

  lemma FirstFound(s: string, i: nat) returns (l: Lexeme, end: nat)
    requires i < |s| && Tokens(s, i).Ok?
    ensures i < end <= |s| && Tokens(s, end).Ok?
    ensures Scan(s, i) == Found(l.typ, end) && LexemeAt(s, i, l.typ, end) == l
    ensures IsProper(l) && end == i + |Text(l)| && s[i..] == Text(l) + s[end..]
    ensures s[end..] != "" ==> !Continues(l.typ, s[end..][0])
  {
    FoundIsProper(s, i);
    var found := Scan(s, i);
    end, l := found.end, LexemeAt(s, i, found.typ, found.end);
    LexemeSplits(s, i, found);
  }

  lemma LexemeSplits(s: string, i: nat, found: Scanned)
    requires i < |s| && found.Found? && IsLexeme(s, i, found)
    ensures var l := LexemeAt(s, i, found.typ, found.end);
      && found.end == i + |Text(l)| && s[i..] == Text(l) + s[found.end..]
      && (s[found.end..] != "" ==> !Continues(l.typ, s[found.end..][0]))
  {
  }

  lemma {:induction false} LexemesNext(l: Lexeme, rest: seq<Lexeme>, text: string)
    requires AreLexemes(rest) && TextOf(rest) == text && IsProper(l)
    requires text != "" ==> !Continues(l.typ, text[0])
    ensures AreLexemes([l] + rest) && TextOf([l] + rest) == Text(l) + text
  {
  }

  /** Lexemes that spell the text are what the lexer finds. */
  lemma {:induction false} SpelledIsFound(s: string, i: nat, ls: seq<Lexeme>)
    requires i <= |s| && AreLexemes(ls) && TextOf(ls) == s[i..]
    ensures Tokens(s, i) == Ok(Placed(ls, i))
    decreases |ls|
  {
    if ls == [] {
      assert i == |s|;
    } else {
      var end := FirstIsFound(s, i, ls);
      var l, rest := ls[0], ls[1..];
      SpelledIsFound(s, end, rest);
      assert ls == [l] + rest;
      TokensNext(s, i, l, end, rest);
    }
  }

  lemma FirstIsFound(s: string, i: nat, ls: seq<Lexeme>) returns (end: nat)
    requires i <= |s| && ls != [] && AreLexemes(ls) && TextOf(ls) == s[i..]
    ensures i < |s| && end == i + |Text(ls[0])| <= |s|
    ensures Scan(s, i) == Found(ls[0].typ, end) && LexemeAt(s, i, ls[0].typ, end) == ls[0]
    ensures AreLexemes(ls[1..]) && TextOf(ls[1..]) == s[end..]
  {
    var l, rest := ls[0], ls[1..];
    SplitText(s, i, Text(l), TextOf(rest));
    end := i + |Text(l)|;
    if rest != [] {
      assert AreApart(ls[0], ls[1]);
      TextStarts(rest);
      assert s[end] == s[end..][0];
    }
    ProperIsFound(s, i, l);
  }

  lemma {:induction false} TextStarts(ls: seq<Lexeme>)
    requires ls != [] && Text(ls[0]) != ""
    ensures TextOf(ls) != "" && TextOf(ls)[0] == Text(ls[0])[0]
  {
  }

  lemma SplitText(s: string, i: nat, a: string, b: string)
    requires i <= |s| && s[i..] == a + b
    ensures i + |a| <= |s| && s[i..i + |a|] == a && s[i + |a|..] == b
  {
  }

  /** The characters of words, all of them in ASCII. */
  lemma CharactersAre(c: char)
    ensures IsAlpha(c) <==> c in "abcdefghijklmnopqrstuvwxyz" || c in "ABCDEFGHIJKLMNOPQRSTUVWXYZ"
    ensures IsIdentChar(c) <==> IsAlpha(c) || c in "0123456789_"
  {
  }

  // ----- errors -----

  /** What a word can begin with. */
  ghost predicate IsBeginning(text: string) {
    exists w: Lexeme {:trigger IsProper(w)} :: IsProper(w) && text <= Text(w)
  }

  /** Where something else was expected, the text is the beginning of a word, and with one character more it is not. */
  lemma UnexpectedExactly(s: string, i: nat)
    requires i < |s| && Scan(s, i).Unexpected?
    ensures var at := Scan(s, i).at;
      i <= at <= |s| && IsBeginning(s[i..at]) && (at < |s| ==> !IsBeginning(s[i..at + 1]))
  {
    var at := Scan(s, i).at;
    var w := BeginningOf(s[i]);
    if at == i {
      assert IsProper(w) && s[i..at] <= Text(w);
    } else {
      assert s[i..at] == [s[i]];
      assert IsProper(w) && s[i..at] <= Text(w);
    }
    if at < |s| {
      forall w: Lexeme | IsProper(w) ensures !(s[i..at + 1] <= Text(w)) {
        NoWordGoesOn(s, i, w);
      }
    }
  }

  /** A word that begins with a character, if there is one. */
  function BeginningOf(c: char): Lexeme {
    match c
    case '=' => Lexeme(Equal, "")
    case '!' => Lexeme(NotEqual, "")
    case '|' => Lexeme(Or, "")
    case '&' => Lexeme(And, "")
    case _ => Lexeme(Number, "-0")
  }

  lemma NoWordGoesOn(s: string, i: nat, w: Lexeme)
    requires i < |s| && Scan(s, i).Unexpected? && Scan(s, i).at < |s| && IsProper(w)
    ensures !(s[i..Scan(s, i).at + 1] <= Text(w))
  {
    var at := Scan(s, i).at;
    var more, text := s[i..at + 1], Text(w);
    assert more[0] == s[i] && more[at - i] == s[at];
    PrefixAgrees(more, text);
  }

  lemma PrefixAgrees(a: string, b: string)
    ensures a <= b ==> |a| <= |b| && forall k | 0 <= k < |a| :: b[k] == a[k]
  {
  }

  ghost predicate EndsAt(s: string, start: nat, at: nat)
    requires start <= at <= |s|
  {
    IsBeginning(s[start..at]) && (at < |s| ==> !IsBeginning(s[start..at + 1]))
  }

  ghost predicate AreWords(ls: seq<Lexeme>) {
    forall i | 0 <= i < |ls| :: IsProper(ls[i])
  }

  /** The first error of a text: the words before it, and the place where no word goes on as the text does. */
  lemma {:induction false} ErrorExactly(s: string, i: nat, error: LexError)
    returns (ls: seq<Lexeme>, start: nat, at: nat)
    requires i <= |s| && Tokens(s, i) == Err(error)
    ensures i <= start < |s| && start <= at <= |s| && EndsAt(s, start, at)
    ensures AreWords(ls) && TextOf(ls) == s[i..start]
    ensures error == if at < |s| then UnexpectedSymbol(s[at], at + 1) else UnexpectedEnd
    decreases |s| - i
  {
    var isHere, l, end := WordOrError(s, i, error);
    if isHere {
      ls, start, at := [], i, end;
    } else {
      var rest;
      rest, start, at := ErrorExactly(s, end, error);
      ls := [l] + rest;
      WordsBefore(s, i, end, start, l, rest);
    }
  }

  lemma WordOrError(s: string, i: nat, error: LexError) returns (isHere: bool, l: Lexeme, end: nat)
    requires i <= |s| && Tokens(s, i) == Err(error)
    ensures i < |s| && i <= end <= |s|
    ensures isHere ==>
      EndsAt(s, i, end) && error == if end < |s| then UnexpectedSymbol(s[end], end + 1) else UnexpectedEnd
    ensures !isHere ==> i < end && IsProper(l) && Text(l) == s[i..end] && Tokens(s, end) == Err(error)
  {
    var found := Scan(s, i);
    isHere, l := found.Unexpected?, Lexeme(Eol, "");
    if isHere {
      UnexpectedExactly(s, i);
      end := found.at;
    } else {
      FoundIsProper(s, i);
      l, end := LexemeAt(s, i, found.typ, found.end), found.end;
    }
  }

  lemma {:induction false} WordsBefore(s: string, i: nat, end: nat, start: nat, l: Lexeme, rest: seq<Lexeme>)
    requires i <= end <= start <= |s| && IsProper(l) && Text(l) == s[i..end]
    requires AreWords(rest) && TextOf(rest) == s[end..start]
    ensures AreWords([l] + rest) && TextOf([l] + rest) == s[i..start]
  {
    assert s[i..start] == s[i..end] + s[end..start];
  }

  // ----- the lexer -----

  class Lexer {
    var str: string
    var pos: nat

    constructor ()
    {
      str, pos := "", 0;
    }

    ghost predicate IsAfter(start: nat, scanned: Option<Scanned>, r: Result<Option<Token>, LexError>)
      reads this
    {
      match scanned
      case None => r == Ok(None) && pos == start
      case Some(Unexpected(at)) => r == Err(ErrorAt(str, at))
      case Some(Found(typ, end)) =>
        start <= end <= |str| && pos == end && r == Ok(Some(Token(LexemeAt(str, start, typ, end), start)))
    }

    predicate CompareChar(c: char)
      reads this
    {
      HasChar(str, pos, c)
    }

    /** The second character of an operator that has two of them. */
    method GetSecond(c: char, typ: TokenType) returns (r: Result<Option<Token>, LexError>)
      requires pos < |str| && typ != Number && typ != Ident
      modifies this`pos
      ensures IsAfter(old(pos), Some(ScanPair(str, old(pos), c, typ)), r)
    {
      var start := pos;
      pos := pos + 1;
      if !CompareChar(c) {
        return Err(ErrorAt(str, pos));
      }
      pos := pos + 1;
      r := Ok(Some(Token(Lexeme(typ, ""), start)));
    }

    /** An operator of one character, or the one that begins with it. */
    method GetLonger(typ: TokenType, longer: TokenType) returns (r: Result<Option<Token>, LexError>)
      requires pos < |str| && typ in {Less, Greater} && longer in {LessEqual, GreaterEqual}
      modifies this`pos
      ensures IsAfter(old(pos), Some(if HasChar(str, old(pos) + 1, '=') then Found(longer, old(pos) + 2)
                                     else Found(typ, old(pos) + 1)), r)
    {
      var start := pos;
      pos := pos + 1;
      if CompareChar('=') {
        pos := pos + 1;
        return Ok(Some(Token(Lexeme(longer, ""), start)));
      }
      r := Ok(Some(Token(Lexeme(typ, ""), start)));
    }

    method GetOpOrBracket() returns (r: Result<Option<Token>, LexError>)
      requires pos < |str|
      modifies this`pos
      ensures IsAfter(old(pos), ScanOpOrBracket(str, old(pos)), r)
    {
      var start := pos;
      match str[pos] {
        case '=' => r := GetSecond('=', Equal);
        case '!' => r := GetSecond('=', NotEqual);
        case '<' => r := GetLonger(Less, LessEqual);
        case '>' => r := GetLonger(Greater, GreaterEqual);
        case '|' => r := GetSecond('|', Or);
        case '&' => r := GetSecond('&', And);
        case '(' =>
          pos := pos + 1;
          r := Ok(Some(Token(Lexeme(LeftBr, ""), start)));
        case ')' =>
          pos := pos + 1;
          r := Ok(Some(Token(Lexeme(RightBr, ""), start)));
        case _ =>
          r := Ok(None);
      }
    }

    method GetNumber() returns (r: Result<Option<Token>, LexError>)
      requires pos < |str|
      modifies this`pos
      ensures IsAfter(old(pos), ScanNumber(str, old(pos)), r)
    {
      var start, value := pos, "";
      if str[pos] == '-' {
        pos := pos + 1;
        value := "-";
      }
      if pos < |str| && IsDigit(str[pos]) {
        ghost var first := pos;
        while pos < |str| && IsDigit(str[pos])
          invariant first <= pos <= |str| && value == str[start..pos]
          invariant DigitsEnd(str, first) == DigitsEnd(str, pos)
          decreases |str| - pos
        {
          value := value + [str[pos]];
          pos := pos + 1;
        }
        return Ok(Some(Token(Lexeme(Number, value), start)));
      }
      if value != "" {
        return Err(ErrorAt(str, pos));
      }
      r := Ok(None);
    }

    method GetIdent() returns (r: Result<Option<Token>, LexError>)
      requires pos < |str|
      modifies this`pos
      ensures IsAfter(old(pos), ScanIdent(str, old(pos)), r)
    {
      if !IsAlpha(str[pos]) {
        return Ok(None);
      }
      var start, identifier := pos, [str[pos]];
      pos := pos + 1;
      while pos < |str| && IsIdentChar(str[pos])
        invariant start < pos <= |str| && identifier == str[start..pos]
        invariant IdentEnd(str, start + 1) == IdentEnd(str, pos)
        decreases |str| - pos
      {
        identifier := identifier + [str[pos]];
        pos := pos + 1;
      }
      r := Ok(Some(Token(Lexeme(Ident, identifier), start)));
    }

    method GetToken() returns (r: Result<Token, LexError>)
      requires pos < |str|
      modifies this`pos
      ensures match Scan(str, old(pos))
              case Unexpected(at) => r == Err(ErrorAt(str, at))
              case Found(typ, end) =>
                old(pos) < end <= |str| && pos == end && r == Ok(Token(LexemeAt(str, old(pos), typ, end), old(pos)))
    {
      FoundIsProper(str, pos);
      var token := GetOpOrBracket();
      if token == Ok(None) {
        token := GetNumber();
      }
      if token == Ok(None) {
        token := GetIdent();
      }
      match token {
        case Err(e) => r := Err(e);
        case Ok(Some(t)) => r := Ok(t);
        case Ok(None) => r := Err(ErrorAt(str, pos));
      }
    }

    method GetTokens(s: string) returns (r: Result<seq<Token>, LexError>)
      modifies this
      ensures r == Tokens(s, 0)
    {
      str, pos := s, 0;
      var tokens: seq<Token> := [];
      JoinedNothing(Tokens(s, 0));
      while pos < |str|
        invariant str == s && pos <= |str|
        invariant Tokens(s, 0) == Joined(tokens, Tokens(s, pos))
        decreases |str| - pos
      {
        ghost var start := pos;
        var token := GetToken();
        match token {
          case Err(e) =>
            return Err(e);
          case Ok(t) =>
            JoinedNext(tokens, t, Tokens(s, pos));
            tokens := tokens + [t];
        }
      }
      r := Ok(tokens + [Token(Lexeme(Eol, ""), pos)]);
    }
  }

  function Joined(tokens: seq<Token>, rest: Result<seq<Token>, LexError>): Result<seq<Token>, LexError> {
    match rest
    case Err(e) => Err(e)
    case Ok(ts) => Ok(tokens + ts)
  }

  lemma JoinedNothing(rest: Result<seq<Token>, LexError>)
    ensures Joined([], rest) == rest
  {
    if rest.Ok? {
      assert [] + rest.value == rest.value;
    }
  }

  lemma JoinedNext(tokens: seq<Token>, t: Token, rest: Result<seq<Token>, LexError>)
    ensures Joined(tokens, Joined([t], rest)) == Joined(tokens + [t], rest)
  {
    if rest.Ok? {
      assert tokens + ([t] + rest.value) == tokens + [t] + rest.value;
    }
  }
}
