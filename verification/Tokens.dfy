/** The query language of the city database: tokens, and the shunting-yard translation to postfix. */
module Tokens {

  datatype TokenType = OR | AND | EQ | NEQ | LT | LE | GT | GE | UNARY | ID | KEYWORD

  datatype AssocType = LEFT | RIGHT

  function Precedence(t: TokenType): int {
    match t
    case OR => 1
    case AND => 2
    case EQ => 3
    case NEQ => 3
    case LT => 4
    case LE => 4
    case GT => 4
    case GE => 4
    case UNARY => 5
    case ID => 6
    case KEYWORD => 6
  }

  function Associativity(t: TokenType): AssocType {
    if t == UNARY then RIGHT else LEFT
  }

  datatype Token = Token(kind: TokenType, value: string) {
    predicate IsOperand() {
      kind == ID || kind == KEYWORD
    }

    predicate IsKeyWord() {
      kind == KEYWORD
    }
  }

  /** A token of two characters that starts like an operator must be one. */
  predicate Readable(e: string) {
    |e| == 2 ==>
      && (e[0] in "<>=!" ==> e[1] == '=')
      && (e[0] == '&' ==> e[1] == '&')
      && (e[0] == '|' ==> e[1] == '|')
  }

  function StringToToken(e: string): TokenType
    requires Readable(e)
  {
    if |e| == 1 then
      (match e[0]
       case '<' => LT
       case '>' => GT
       case '-' => UNARY
       case _ => ID)
    else if |e| == 2 then
      (match e[0]
       case '<' => LE
       case '>' => GE
       case '=' => EQ
       case '!' => NEQ
       case '&' => AND
       case '|' => OR
       case _ => ID)
    else ID
  }

  /** Which strings are operators. */
  lemma OperatorTexts(e: string)
    requires Readable(e)
    ensures StringToToken(e) == OR <==> e == "||"
    ensures StringToToken(e) == AND <==> e == "&&"
    ensures StringToToken(e) == EQ <==> e == "=="
    ensures StringToToken(e) == NEQ <==> e == "!="
    ensures StringToToken(e) == LT <==> e == "<"
    ensures StringToToken(e) == LE <==> e == "<="
    ensures StringToToken(e) == GT <==> e == ">"
    ensures StringToToken(e) == GE <==> e == ">="
    ensures StringToToken(e) == UNARY <==> e == "-"
    ensures StringToToken(e) != KEYWORD
  {
    assert |e| == 2 ==> e == [e[0], e[1]];
    assert |e| == 1 ==> e == [e[0]];
  }

  function TokenOf(e: string, keywords: seq<string>): Token
    requires Readable(e)
  {
    var t := StringToToken(e);
    Token(if t == ID && e in keywords then KEYWORD else t, e)
  }

  predicate AllReadable(es: seq<string>) {
    forall i :: 0 <= i < |es| ==> Readable(es[i])
  }

  function TokensOf(es: seq<string>, keywords: seq<string>): (ts: seq<Token>)
    requires AllReadable(es)
    ensures |ts| == |es|
  {
    if es == [] then [] else [TokenOf(es[0], keywords)] + TokensOf(es[1..], keywords)
  }

  lemma {:induction false} TokensOfConcat(es: seq<string>, fs: seq<string>, keywords: seq<string>)
    requires AllReadable(es) && AllReadable(fs)
    ensures TokensOf(es + fs, keywords) == TokensOf(es, keywords) + TokensOf(fs, keywords)
  {
    if es == [] {
      assert es + fs == fs;
    } else {
      assert (es + fs)[1..] == es[1..] + fs;
      TokensOfConcat(es[1..], fs, keywords);
    }
  }

  method Tokanize(es: seq<string>, keywords: seq<string>) returns (ts: seq<Token>)
    requires AllReadable(es)
    ensures ts == TokensOf(es, keywords)
  {
    ts := [];
    for n := 0 to |es|
      invariant ts == TokensOf(es[..n], keywords)
    {
      var t := StringToToken(es[n]);
      if t == ID {
        for k := 0 to |keywords|
          invariant t == ID && es[n] !in keywords[..k]
        {
          if keywords[k] == es[n] {
            t := KEYWORD;
            break;
          }
        }
      }
      ts := ts + [Token(t, es[n])];
      assert es[..n + 1] == es[..n] + [es[n]];
      TokensOfConcat(es[..n], [es[n]], keywords);
    }
    assert es[..|es|] == es;
  }

  // ----- shunting-yard

  /** Whether an arriving operator sends the operator on top of the stack to the output. */
  predicate Pops(e: Token, top: Token) {
    if Associativity(e.kind) == LEFT then Precedence(e.kind) <= Precedence(top.kind)
    else Precedence(e.kind) < Precedence(top.kind)
  }

  /** Operators that bind as tightly also leave, from left to right, but no sign makes room for a sign. */
  lemma PopsExactly(e: Token, top: Token)
    requires !e.IsOperand() && !top.IsOperand()
    ensures Pops(e, top) <==>
      match e.kind
      case OR => true
      case AND => top.kind != OR
      case EQ => top.kind != OR && top.kind != AND
      case NEQ => top.kind != OR && top.kind != AND
      case UNARY => false
      case _ => top.kind in {LT, LE, GT, GE, UNARY}
  {
  }

  function Reverse(s: seq<Token>): seq<Token> {
    if s == [] then [] else [s[|s| - 1]] + Reverse(s[..|s| - 1])
  }

  /** How much of the stack stays when e arrives; its top is its last element. */
  function Kept(stack: seq<Token>, e: Token): (n: nat)
    ensures n <= |stack|
  {
    if stack != [] && Pops(e, stack[|stack| - 1]) then Kept(stack[..|stack| - 1], e) else |stack|
  }

  /** The output from here on, for the tokens that are left and the operators on the stack. */
  function Shunt(tokens: seq<Token>, stack: seq<Token>): seq<Token>
    decreases |tokens|
  {
    if tokens == [] then Reverse(stack)
    else
      var e := tokens[0];
      if e.IsOperand() then [e] + Shunt(tokens[1..], stack)
      else
        var n := Kept(stack, e);
        Reverse(stack[n..]) + Shunt(tokens[1..], stack[..n] + [e])
  }

  lemma PopOne(s: seq<Token>, n: nat)
    requires n < |s|
    ensures Reverse(s[n..]) == [s[|s| - 1]] + Reverse(s[..|s| - 1][n..])
  {
    assert s[n..][..|s[n..]| - 1] == s[..|s| - 1][n..];
  }

  method RecursiveDecent(tokens: seq<Token>) returns (outQ: seq<Token>)
    ensures outQ == Shunt(tokens, [])
  {
    outQ := [];
    var stack: seq<Token> := [];
    for n := 0 to |tokens|
      invariant outQ + Shunt(tokens[n..], stack) == Shunt(tokens, [])
    {
      var e := tokens[n];
      ShuntStep(tokens, n, stack, outQ);
      if e.IsOperand() {
        outQ := outQ + [e];
        continue;
      }
      outQ, stack := PopHigher(outQ, stack, e);
      stack := stack + [e];
    }
    outQ := PopAll(outQ, stack);
  }

  lemma Assoc<T>(a: seq<T>, b: seq<T>, c: seq<T>)
    ensures a + b + c == a + (b + c)
  {
  }

  lemma OperandShunts(e: Token, rest: seq<Token>, stack: seq<Token>)
    requires e.IsOperand()
    ensures Shunt([e] + rest, stack) == [e] + Shunt(rest, stack)
  {
    assert ([e] + rest)[1..] == rest;
  }

  lemma OperatorShunts(e: Token, rest: seq<Token>, stack: seq<Token>)
    requires !e.IsOperand()
    ensures var n := Kept(stack, e);
      Shunt([e] + rest, stack) == Reverse(stack[n..]) + Shunt(rest, stack[..n] + [e])
  {
    assert ([e] + rest)[1..] == rest;
  }

  lemma ShuntStep(tokens: seq<Token>, n: nat, stack: seq<Token>, outQ: seq<Token>)
    requires n < |tokens|
    ensures outQ + Shunt(tokens[n..], stack) ==
      if tokens[n].IsOperand() then outQ + [tokens[n]] + Shunt(tokens[n + 1..], stack)
      else
        var k := Kept(stack, tokens[n]);
        outQ + Reverse(stack[k..]) + Shunt(tokens[n + 1..], stack[..k] + [tokens[n]])
  {
    var e, rest := tokens[n], tokens[n + 1..];
    assert tokens[n..] == [e] + rest;
    if e.IsOperand() {
      OperandShunts(e, rest, stack);
      Assoc(outQ, [e], Shunt(rest, stack));
    } else {
      var k := Kept(stack, e);
      OperatorShunts(e, rest, stack);
      Assoc(outQ, Reverse(stack[k..]), Shunt(rest, stack[..k] + [e]));
    }
  }

  /** The inner loop: operators that bind at least as tightly go to the output. */
  method PopHigher(out: seq<Token>, operators: seq<Token>, e: Token) returns (outQ: seq<Token>, stack: seq<Token>)
    ensures var n := Kept(operators, e);
      stack == operators[..n] && outQ == out + Reverse(operators[n..])
  {
    outQ, stack := out, operators;
    var done := false;
    while !done && stack != []
      invariant |stack| <= |operators| && stack == operators[..|stack|]
      invariant Kept(stack, e) == Kept(operators, e)
      invariant done ==> Kept(stack, e) == |stack|
      invariant outQ + Reverse(stack[Kept(stack, e)..]) == out + Reverse(operators[Kept(operators, e)..])
      decreases |stack|, !done
    {
      var top := stack[|stack| - 1];
      if Pops(e, top) {
        PopOne(stack, Kept(stack, e));
        outQ, stack := outQ + [top], stack[..|stack| - 1];
      } else {
        done := true;
      }
    }
  }

  method PopAll(out: seq<Token>, operators: seq<Token>) returns (outQ: seq<Token>)
    ensures outQ == out + Reverse(operators)
  {
    outQ := out;
    var stack := operators;
    while stack != []
      invariant outQ + Reverse(stack) == out + Reverse(operators)
      decreases |stack|
    {
      outQ, stack := outQ + [stack[|stack| - 1]], stack[..|stack| - 1];
    }
  }
}
