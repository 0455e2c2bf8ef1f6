/** The expression language of computed columns: tokenizer, precedence parser and evaluation. */
module Expressions {
  import opened Wrappers

  datatype BinaryOp = Add | Sub | Mul | Div | Eq | Ne | Gt | Gte | Lt | Lte

  datatype Expr =
    | Literal(value: real)
    | Field(name: string)
    | Binary(left: Expr, op: BinaryOp, right: Expr)
    | If(cond: Expr, onTrue: Expr, onFalse: Expr)

  /** Number syntax: which tokens are numbers, and one way to write each number. */
  datatype Numerals = Numerals(parse: string -> Option<real>, show: real -> string)

  datatype ParseError = UnexpectedEnd | MissingParen | InvalidIf | TrailingTokens

  type Parsed = Result<(Expr, nat), ParseError>

  // ---------- tokens ----------

  const BLANKS: set<char> := {' ', '\t', '\n'}
  const SINGLES: set<char> := {'(', ')', ',', '*', '/', '+', '-', '='}
  const SPECIALS: set<char> := BLANKS + SINGLES + {'>', '<', '!'}

  function Flush(current: string): seq<string> {
    if |current| == 0 then [] else [current]
  }

  /** The tokens of the rest of the input, after the characters of an unfinished word. */
  function Lex(input: string, current: string): seq<string>
    decreases |input|
  {
    if |input| == 0 then Flush(current)
    else if input[0] in BLANKS then Flush(current) + Lex(input[1..], "")
    else if input[0] in SINGLES then Flush(current) + [[input[0]]] + Lex(input[1..], "")
    else if input[0] in {'>', '<'} then
      if |input| > 1 && input[1] == '=' then Flush(current) + [input[..2]] + Lex(input[2..], "")
      else Flush(current) + [[input[0]]] + Lex(input[1..], "")
    else if input[0] == '!' then
      if |input| > 1 && input[1] == '=' then Flush(current) + [input[..2]] + Lex(input[2..], "")
      else Flush(current) + Lex(input[1..], "!")
    else Lex(input[1..], current + [input[0]])
  }

  /** What the character at `i` does to the tokens of the rest. */
  lemma LexStep(input: string, i: nat, current: string)
    requires i < |input|
    ensures var c, followedByEq := input[i], i + 1 < |input| && input[i + 1] == '=';
      Lex(input[i..], current) ==
        if c in BLANKS then Flush(current) + Lex(input[i + 1..], "")
        else if c in SINGLES then Flush(current) + ([[c]] + Lex(input[i + 1..], ""))
        else if c == '>' || c == '<' || c == '!' then
          if followedByEq then Flush(current) + ([[c, '=']] + Lex(input[i + 2..], ""))
          else if c == '!' then Flush(current) + Lex(input[i + 1..], [c])
          else Flush(current) + ([[c]] + Lex(input[i + 1..], ""))
        else Lex(input[i + 1..], current + [c])
  {
    hide Flush;
    var rest := input[i..];
    assert rest[1..] == input[i + 1..];
    if |rest| > 1 {
      assert rest[2..] == input[i + 2..] && rest[..2] == [rest[0], rest[1]];
    }
  }

  lemma Regrouped(a: seq<string>, b: seq<string>, c: seq<string>)
    ensures a + (b + c) == (a + b) + c
  {
  }

  method Tokenize(input: string) returns (tokens: seq<string>)
    ensures tokens == Lex(input, "")
  {
    tokens := [];
    var current := "";
    var i := 0;
    assert input[0..] == input && input[|input|..] == "";
    assert forall w :: Lex("", w) == Flush(w);
    hide Flush, Lex;
    while i < |input|
      invariant i <= |input|
      invariant tokens + Lex(input[i..], current) == Lex(input, "")
    {
      var c := input[i];
      var followedByEq := i + 1 < |input| && input[i + 1] == '=';
      LexStep(input, i, current);
      if c in BLANKS {
        Regrouped(tokens, Flush(current), Lex(input[i + 1..], ""));
        tokens, current := tokens + Flush(current), "";
        i := i + 1;
      } else if c in SINGLES {
        Regrouped(tokens, Flush(current), [[c]] + Lex(input[i + 1..], ""));
        Regrouped(tokens + Flush(current), [[c]], Lex(input[i + 1..], ""));
        tokens, current := tokens + Flush(current) + [[c]], "";
        i := i + 1;
      } else if c == '>' || c == '<' || c == '!' {
        Regrouped(tokens, Flush(current), if followedByEq then [[c, '=']] + Lex(input[i + 2..], "")
                                          else if c == '!' then Lex(input[i + 1..], [c]) else [[c]] + Lex(input[i + 1..], ""));
        tokens, current := tokens + Flush(current), "";
        if followedByEq {
          Regrouped(tokens, [[c, '=']], Lex(input[i + 2..], ""));
          tokens := tokens + [[c, '=']];
          i := i + 2;
        } else if c == '!' {
          current := [c];
          i := i + 1;
        } else {
          Regrouped(tokens, [[c]], Lex(input[i + 1..], ""));
          tokens := tokens + [[c]];
          i := i + 1;
        }
      } else {
        current := current + [c];
        i := i + 1;
      }
    }
    tokens := tokens + Flush(current);
  }

  ghost predicate Word(t: string) {
    |t| > 0 && forall i | 0 <= i < |t| :: t[i] !in SPECIALS
  }

  ghost predicate Symbol(t: string) {
    (|t| == 1 && (t[0] in SINGLES || t[0] in {'>', '<'})) || t in {">=", "<=", "!="}
  }

  function Render(tokens: seq<string>): string {
    if |tokens| == 0 then "" else tokens[0] + " " + Render(tokens[1..])
  }

  lemma {:induction false} LexWord(w: string, rest: string, current: string)
    requires forall i | 0 <= i < |w| :: w[i] !in SPECIALS
    ensures Lex(w + rest, current) == Lex(rest, current + w)
  {
    if |w| == 0 {
      assert w + rest == rest && current + w == current;
    } else {
      assert (w + rest)[0] == w[0] && (w + rest)[1..] == w[1..] + rest;
      LexWord(w[1..], rest, current + [w[0]]);
      assert current + [w[0]] + w[1..] == current + w;
    }
  }

  lemma LexToken(t: string, rest: string)
    requires Word(t) || Symbol(t)
    ensures Lex(t + " " + rest, "") == [t] + Lex(rest, "")
  {
    var input := t + " " + rest;
    assert (" " + rest)[1..] == rest;
    if Word(t) {
      assert input == t + (" " + rest);
      LexWord(t, " " + rest, "");
      assert "" + t == t;
    } else if |t| == 1 {
      assert input[0] == t[0] && input[1] == ' ' && input[1..] == " " + rest;
      assert [t[0]] == t;
    } else {
      assert input[0] == t[0] && input[1] == '=' && input[2..] == " " + rest;
      assert input[..2] == t;
    }
  }

  /** Tokenizing undoes writing the tokens out. */
  lemma {:induction false} LexRender(tokens: seq<string>)
    requires forall t | t in tokens :: Word(t) || Symbol(t)
    ensures Lex(Render(tokens), "") == tokens
  {
    if |tokens| != 0 {
      LexRender(tokens[1..]);
      LexToken(tokens[0], Render(tokens[1..]));
      assert tokens == [tokens[0]] + tokens[1..];
    }
  }

  // ---------- parsing ----------

  /** The operators of the three binary levels: comparison, term, factor. */
  function OpAt(level: nat, token: string): Option<BinaryOp> {
    if level == 0 then
      if token == "=" then Some(Eq) else if token == "!=" then Some(Ne)
      else if token == ">" then Some(Gt) else if token == ">=" then Some(Gte)
      else if token == "<" then Some(Lt) else if token == "<=" then Some(Lte)
      else None
    else if level == 1 then
      if token == "+" then Some(Add) else if token == "-" then Some(Sub) else None
    else if level == 2 then
      if token == "*" then Some(Mul) else if token == "/" then Some(Div) else None
    else None
  }

  const PRIMARY: nat := 3

  predicate IsIf(token: string) {
    |token| == 2 && token[0] in {'I', 'i'} && token[1] in {'F', 'f'}
  }

  ghost predicate Consumes(r: Parsed, tokens: seq<string>) {
    r.Ok? ==> 1 <= r.value.1 <= |tokens|
  }

  /** One level: an operand of the next level, then any number of operators with further operands,
      associating to the left. */
  function ParseLevel(n: Numerals, level: nat, tokens: seq<string>): (r: Parsed)
    requires level <= PRIMARY
    ensures Consumes(r, tokens)
    decreases |tokens|, 2 * (PRIMARY - level) + 2, 0
  {
    if level == PRIMARY then ParsePrimary(n, tokens)
    else
      var left :- ParseLevel(n, level + 1, tokens);
      ParseRest(n, level, tokens, left.0, left.1)
  }

  function ParseRest(n: Numerals, level: nat, tokens: seq<string>, left: Expr, pos: nat): (r: Parsed)
    requires level < PRIMARY && 1 <= pos <= |tokens|
    ensures Consumes(r, tokens)
    decreases |tokens|, 2 * (PRIMARY - level) + 1, |tokens| - pos
  {
    if pos < |tokens| && OpAt(level, tokens[pos]).Some? then
      var right :- ParseLevel(n, level + 1, tokens[pos + 1..]);
      ParseRest(n, level, tokens, Binary(left, OpAt(level, tokens[pos]).value, right.0), pos + 1 + right.1)
    else
      Ok((left, pos))
  }

  /** An expression after the separator at `pos`. */
  function ParseAfter(n: Numerals, tokens: seq<string>, pos: nat, separator: string): (r: Parsed)
    ensures r.Ok? ==> pos + 2 <= r.value.1 <= |tokens|
    decreases |tokens|, 0, 0
  {
    if pos < |tokens| && tokens[pos] == separator then
      var e :- ParseLevel(n, 0, tokens[pos + 1..]);
      Ok((e.0, pos + 1 + e.1))
    else Err(InvalidIf)
  }

  function ParsePrimary(n: Numerals, tokens: seq<string>): (r: Parsed)
    ensures Consumes(r, tokens)
    decreases |tokens|, 1, 0
  {
    if |tokens| == 0 then Err(UnexpectedEnd)
    else if tokens[0] == "(" then
      var inner :- ParseLevel(n, 0, tokens[1..]);
      if 1 + inner.1 < |tokens| && tokens[1 + inner.1] == ")" then Ok((inner.0, 1 + inner.1 + 1))
      else Err(MissingParen)
    else if IsIf(tokens[0]) then
      var cond :- ParseAfter(n, tokens, 1, "(");
      var onTrue :- ParseAfter(n, tokens, cond.1, ",");
      var onFalse :- ParseAfter(n, tokens, onTrue.1, ",");
      if onFalse.1 < |tokens| && tokens[onFalse.1] == ")" then Ok((If(cond.0, onTrue.0, onFalse.0), onFalse.1 + 1))
      else Err(InvalidIf)
    else if n.parse(tokens[0]).Some? then Ok((Literal(n.parse(tokens[0]).value), 1))
    else Ok((Field(tokens[0]), 1))
  }

  function ParseTokens(n: Numerals, tokens: seq<string>): Result<Expr, ParseError> {
    var parsed :- ParseLevel(n, 0, tokens);
    if parsed.1 < |tokens| then Err(TrailingTokens) else Ok(parsed.0)
  }

  /** The parsing loops, level by level. */
  method RunLevel(n: Numerals, level: nat, tokens: seq<string>) returns (r: Parsed)
    requires level <= PRIMARY
    ensures r == ParseLevel(n, level, tokens)
    decreases |tokens|, PRIMARY - level + 2
  {
    if level == PRIMARY {
      r := RunPrimary(n, tokens);
      return;
    }
    r := RunLevel(n, level + 1, tokens);
    if r.Err? {
      return;
    }
    var (left, pos) := r.value;
    while pos < |tokens|
      invariant 1 <= pos <= |tokens|
      invariant ParseLevel(n, level, tokens) == ParseRest(n, level, tokens, left, pos)
    {
      var op := OpAt(level, tokens[pos]);
      if op.None? {
        return Ok((left, pos));
      }
      var right := RunLevel(n, level + 1, tokens[pos + 1..]);
      if right.Err? {
        return right;
      }
      left := Binary(left, op.value, right.value.0);
      pos := pos + 1 + right.value.1;
    }
    r := Ok((left, pos));
  }

  method RunPrimary(n: Numerals, tokens: seq<string>) returns (r: Parsed)
    ensures r == ParsePrimary(n, tokens)
    decreases |tokens|, 1
  {
    if |tokens| == 0 {
      return Err(UnexpectedEnd);
    }
    var token := tokens[0];
    if token == "(" {
      r := RunLevel(n, 0, tokens[1..]);
      if r.Ok? {
        var (inner, pos) := r.value;
        r := if 1 + pos < |tokens| && tokens[1 + pos] == ")" then Ok((inner, 1 + pos + 1)) else Err(MissingParen);
      }
    } else if IsIf(token) {
      var cond := RunAfter(n, tokens, 1, "(");
      if cond.Err? {
        return cond;
      }
      var onTrue := RunAfter(n, tokens, cond.value.1, ",");
      if onTrue.Err? {
        return onTrue;
      }
      var onFalse := RunAfter(n, tokens, onTrue.value.1, ",");
      if onFalse.Err? {
        return onFalse;
      }
      var end := onFalse.value.1;
      r := if end < |tokens| && tokens[end] == ")" then Ok((If(cond.value.0, onTrue.value.0, onFalse.value.0), end + 1))
           else Err(InvalidIf);
    } else if n.parse(token).Some? {
      r := Ok((Literal(n.parse(token).value), 1));
    } else {
      r := Ok((Field(token), 1));
    }
  }

  method RunAfter(n: Numerals, tokens: seq<string>, pos: nat, separator: string) returns (r: Parsed)
    ensures r == ParseAfter(n, tokens, pos, separator)
    decreases |tokens|, 0
  {
    if pos < |tokens| && tokens[pos] == separator {
      r := RunLevel(n, 0, tokens[pos + 1..]);
      if r.Ok? {
        r := Ok((r.value.0, pos + 1 + r.value.1));
      }
    } else {
      r := Err(InvalidIf);
    }
  }

  method ParseExpression(n: Numerals, input: string) returns (r: Result<Expr, ParseError>)
    ensures r == ParseTokens(n, Lex(input, ""))
  {
    var tokens := Tokenize(input);
    var parsed := RunLevel(n, 0, tokens);
    if parsed.Err? {
      return Err(parsed.error);
    }
    r := if parsed.value.1 < |tokens| then Err(TrailingTokens) else Ok(parsed.value.0);
  }

  // ---------- printing, and the parser as its inverse ----------

  function OpToken(op: BinaryOp): string {
    match op
    case Add => "+" case Sub => "-" case Mul => "*" case Div => "/"
    case Eq => "=" case Ne => "!=" case Gt => ">" case Gte => ">=" case Lt => "<" case Lte => "<="
  }

  function OpLevel(op: BinaryOp): nat {
    if op == Add || op == Sub then 1 else if op == Mul || op == Div then 2 else 0
  }

  function LevelOf(e: Expr): nat {
    if e.Binary? then OpLevel(e.op) else PRIMARY
  }

  /** Tokens of `e` without parentheses around it. */
  function PrintBare(n: Numerals, e: Expr): seq<string>
    decreases e, 0
  {
    match e
    case Literal(value) => [n.show(value)]
    case Field(name) => [name]
    case Binary(left, op, right) => Print(n, OpLevel(op), left) + [OpToken(op)] + Print(n, OpLevel(op) + 1, right)
    case If(cond, onTrue, onFalse) =>
      ["IF", "("] + Print(n, 0, cond) + [","] + Print(n, 0, onTrue) + [","] + Print(n, 0, onFalse) + [")"]
  }

  /** Tokens of `e` where an operand of the given level may stand, parenthesised only if needed. */
  function Print(n: Numerals, level: nat, e: Expr): seq<string>
    decreases e, 1
  {
    if LevelOf(e) >= level then PrintBare(n, e) else ["("] + PrintBare(n, e) + [")"]
  }

  /** A word that can only be a field name. */
  ghost predicate OrdinaryField(n: Numerals, name: string) {
    Word(name) && !IsIf(name) && n.parse(name).None?
  }

  /** A number that is written as one word and reads back. */
  ghost predicate OrdinaryLiteral(n: Numerals, value: real) {
    Word(n.show(value)) && !IsIf(n.show(value)) && n.parse(n.show(value)) == Some(value)
  }

  ghost predicate Ordinary(n: Numerals, e: Expr) {
    match e
    case Literal(value) => OrdinaryLiteral(n, value)
    case Field(name) => OrdinaryField(n, name)
    case Binary(left, _, right) => Ordinary(n, left) && Ordinary(n, right)
    case If(cond, onTrue, onFalse) => Ordinary(n, cond) && Ordinary(n, onTrue) && Ordinary(n, onFalse)
  }

  /** What follows does not continue an expression of this level. */
  ghost predicate Stops(level: nat, rest: seq<string>) {
    |rest| > 0 ==>
      && (level <= 0 ==> OpAt(0, rest[0]).None?)
      && (level <= 1 ==> OpAt(1, rest[0]).None?)
      && (level <= 2 ==> OpAt(2, rest[0]).None?)
  }

  lemma OpTokens(op: BinaryOp, rest: seq<string>)
    ensures OpLevel(op) < PRIMARY && OpAt(OpLevel(op), OpToken(op)) == Some(op)
    ensures Stops(OpLevel(op) + 1, [OpToken(op)] + rest)
    ensures Symbol(OpToken(op))
  {
  }

  lemma SeparatorsStop(rest: seq<string>)
    ensures Stops(0, [")"] + rest) && Stops(0, [","] + rest)
  {
  }

  lemma SliceAfter<T>(xs: seq<T>, ys: seq<T>)
    ensures (xs + ys)[|xs|..] == ys && (|ys| > 0 ==> (xs + ys)[|xs|] == ys[0])
  {
  }

  /** One turn of a level's loop. */
  lemma LoopTurn(n: Numerals, level: nat, left: Expr, op: BinaryOp, right: Expr, lt: seq<string>, rt: seq<string>, rest: seq<string>)
    requires level == OpLevel(op) && |lt| > 0
    requires ParseLevel(n, level + 1, rt + rest) == Ok((right, |rt|))
    ensures var tokens := lt + ([OpToken(op)] + (rt + rest));
      ParseRest(n, level, tokens, left, |lt|) == ParseRest(n, level, tokens, Binary(left, op, right), |lt| + 1 + |rt|)
  {
    var tokens := lt + ([OpToken(op)] + (rt + rest));
    OpTokens(op, []);
    assert tokens[|lt|] == OpToken(op);
    assert tokens[|lt| + 1..] == rt + rest;
  }

  /** A level begins with one operand of the next. */
  lemma LevelStart(n: Numerals, level: nat, tokens: seq<string>, e: Expr, pos: nat)
    requires level < PRIMARY && ParseLevel(n, level + 1, tokens) == Ok((e, pos))
    ensures 1 <= pos <= |tokens| && ParseLevel(n, level, tokens) == ParseRest(n, level, tokens, e, pos)
  {
  }

  lemma PrintedBinary(n: Numerals, e: Expr, rest: seq<string>)
    requires e.Binary?
    ensures var level := OpLevel(e.op);
      var left, right := Print(n, level, e.left), Print(n, level + 1, e.right);
      && Print(n, level, e) + rest == left + ([OpToken(e.op)] + (right + rest))
      && |Print(n, level, e)| == |left| + 1 + |right|
  {
  }

  lemma {:induction false} PrintNonEmpty(n: Numerals, level: nat, e: Expr)
    ensures |Print(n, level, e)| > 0
  {
  }

  /** Reading one level's printed tokens brings the loop to the end of them. */
  lemma {:induction false} Chain(n: Numerals, level: nat, e: Expr, rest: seq<string>)
    requires level < PRIMARY && Ordinary(n, e) && Stops(level + 1, rest)
    ensures |Print(n, level, e)| > 0
    ensures var p := Print(n, level, e);
      ParseLevel(n, level, p + rest) == ParseRest(n, level, p + rest, e, |p|)
    decreases |Print(n, level, e)|, PRIMARY - level, 2
  {
    hide ParseLevel, ParseRest, Stops, OpAt, PrintBare;
    PrintNonEmpty(n, level, e);
    if LevelOf(e) != level {
      PrintAtNextLevel(n, level, e);
      ParsePrinted(n, level + 1, e, rest);
      LevelStart(n, level, Print(n, level, e) + rest, e, |Print(n, level, e)|);
    } else {
      var left, right := Print(n, level, e.left), Print(n, level + 1, e.right);
      PrintedBinary(n, e, rest);
      OpTokens(e.op, right + rest);
      Chain(n, level, e.left, [OpToken(e.op)] + (right + rest));
      ParsePrinted(n, level + 1, e.right, rest);
      LoopTurn(n, level, e.left, e.op, e.right, left, right, rest);
    }
  }

  lemma PrintAtNextLevel(n: Numerals, level: nat, e: Expr)
    requires LevelOf(e) != level
    ensures Print(n, level, e) == Print(n, level + 1, e)
  {
  }

  lemma ParenthesesRead(n: Numerals, e: Expr, inner: seq<string>, rest: seq<string>)
    requires ParseLevel(n, 0, inner + ([")"] + rest)) == Ok((e, |inner|))
    ensures ParseLevel(n, PRIMARY, (["("] + inner + [")"]) + rest) == Ok((e, |inner| + 2))
  {
    var tokens := (["("] + inner + [")"]) + rest;
    assert tokens[1..] == inner + ([")"] + rest);
    assert tokens[1 + |inner|] == ")";
  }

  lemma AtomReads(n: Numerals, e: Expr, rest: seq<string>)
    requires (e.Literal? || e.Field?) && Ordinary(n, e)
    ensures ParseLevel(n, PRIMARY, PrintBare(n, e) + rest) == Ok((e, 1)) && |PrintBare(n, e)| == 1
  {
    assert "("[0] in SPECIALS;
    assert (PrintBare(n, e) + rest)[0] == PrintBare(n, e)[0];
  }

  lemma LoopEnds(n: Numerals, level: nat, e: Expr, p: seq<string>, rest: seq<string>)
    requires level < PRIMARY && Stops(level, rest) && |p| > 0
    ensures ParseRest(n, level, p + rest, e, |p|) == Ok((e, |p|))
  {
    assert |rest| > 0 ==> (p + rest)[|p|] == rest[0];
  }

  /** The parser inverts the printer at every level, whatever follows that does not continue it. */
  lemma {:induction false} ParsePrinted(n: Numerals, level: nat, e: Expr, rest: seq<string>)
    requires level <= PRIMARY && Ordinary(n, e) && Stops(level, rest)
    ensures ParseLevel(n, level, Print(n, level, e) + rest) == Ok((e, |Print(n, level, e)|))
    decreases |Print(n, level, e)|, PRIMARY - level, 3
  {
    if level < PRIMARY {
      Chain(n, level, e, rest);
      LoopEnds(n, level, e, Print(n, level, e), rest);
    } else if e.Binary? {
      SeparatorsStop(rest);
      ParsePrinted(n, 0, e, [")"] + rest);
      ParenthesesRead(n, e, Print(n, 0, e), rest);
    } else if e.If? {
      ParsePrintedIf(n, e, rest);
    } else {
      AtomReads(n, e, rest);
    }
  }

  /** The part of an IF that follows a separator. */
  lemma {:induction false} ParseOperand(n: Numerals, before: seq<string>, separator: string, e: Expr, rest: seq<string>)
    requires Ordinary(n, e) && Stops(0, rest)
    ensures var p := Print(n, 0, e);
      ParseAfter(n, before + ([separator] + (p + rest)), |before|, separator) == Ok((e, |before| + 1 + |p|))
    decreases |Print(n, 0, e)|, PRIMARY + 1, 0
  {
    var all := before + ([separator] + (Print(n, 0, e) + rest));
    SliceAfter(before, [separator] + (Print(n, 0, e) + rest));
    assert all[|before| + 1..] == Print(n, 0, e) + rest;
    ParsePrinted(n, 0, e, rest);
  }

  ghost function IfOf(n: Numerals, e: Expr, rest: seq<string>): IfTokens
    requires e.If?
  {
    IfParts(Print(n, 0, e.cond), Print(n, 0, e.onTrue), Print(n, 0, e.onFalse), rest)
  }

  lemma {:induction false} IfCond(n: Numerals, e: Expr, rest: seq<string>)
    requires e.If? && Ordinary(n, e)
    ensures ParseAfter(n, IfOf(n, e, rest).all, 1, "(") == Ok((e.cond, |IfOf(n, e, rest).beforeB|))
    decreases |PrintBare(n, e)|, 0, 0
  {
    hide ParseAfter, Stops, IfParts;
    var parts := IfOf(n, e, rest);
    PrintedIfShape(n, e, rest);
    SeparatorsStop(Print(n, 0, e.onTrue) + parts.afterB);
    ParseOperand(n, parts.beforeA, "(", e.cond, parts.afterA);
  }

  lemma {:induction false} IfOnTrue(n: Numerals, e: Expr, rest: seq<string>)
    requires e.If? && Ordinary(n, e)
    ensures ParseAfter(n, IfOf(n, e, rest).all, |IfOf(n, e, rest).beforeB|, ",") == Ok((e.onTrue, |IfOf(n, e, rest).beforeC|))
    decreases |PrintBare(n, e)|, 0, 0
  {
    hide ParseAfter, Stops, IfParts;
    var parts := IfOf(n, e, rest);
    PrintedIfShape(n, e, rest);
    SeparatorsStop(Print(n, 0, e.onFalse) + parts.afterC);
    ParseOperand(n, parts.beforeB, ",", e.onTrue, parts.afterB);
  }

  lemma {:induction false} IfOnFalse(n: Numerals, e: Expr, rest: seq<string>)
    requires e.If? && Ordinary(n, e)
    ensures ParseAfter(n, IfOf(n, e, rest).all, |IfOf(n, e, rest).beforeC|, ",") == Ok((e.onFalse, |IfOf(n, e, rest).end|))
    decreases |PrintBare(n, e)|, 0, 0
  {
    hide ParseAfter, Stops, IfParts;
    var parts := IfOf(n, e, rest);
    PrintedIfShape(n, e, rest);
    SeparatorsStop(rest);
    ParseOperand(n, parts.beforeC, ",", e.onFalse, parts.afterC);
  }

  lemma {:induction false} ParsePrintedIf(n: Numerals, e: Expr, rest: seq<string>)
    requires e.If? && Ordinary(n, e)
    ensures ParsePrimary(n, PrintBare(n, e) + rest) == Ok((e, |PrintBare(n, e)|))
    decreases |PrintBare(n, e)|, 0, 1
  {
    hide ParseLevel, ParseRest, ParsePrimary, ParseAfter;
    var parts := IfOf(n, e, rest);
    PrintedIfShape(n, e, rest);
    IfCond(n, e, rest);
    IfOnTrue(n, e, rest);
    IfOnFalse(n, e, rest);
    assert parts.all[|parts.end|] == ")";
    IfFromParts(n, parts.all, e, |parts.beforeB|, |parts.beforeC|, |parts.end|);
  }

  /** An IF's tokens, cut before and after each of its operands. */
  datatype IfTokens = IfTokens(
    all: seq<string>, beforeA: seq<string>, beforeB: seq<string>, beforeC: seq<string>, end: seq<string>,
    afterA: seq<string>, afterB: seq<string>, afterC: seq<string>)

  ghost function IfParts(a: seq<string>, b: seq<string>, c: seq<string>, rest: seq<string>): (parts: IfTokens)
    ensures parts.beforeA == ["IF"] && |parts.all| > 0 && parts.all[0] == "IF"
    ensures |parts.beforeB| == 2 + |a| && |parts.beforeC| == |parts.beforeB| + 1 + |b| && |parts.end| == |parts.beforeC| + 1 + |c|
    ensures parts.afterC == [")"] + rest && parts.afterB == [","] + (c + parts.afterC) && parts.afterA == [","] + (b + parts.afterB)
    ensures parts.all == parts.beforeA + (["("] + (a + parts.afterA))
    ensures parts.all == parts.beforeB + ([","] + (b + parts.afterB))
    ensures parts.all == parts.beforeC + ([","] + (c + parts.afterC))
    ensures parts.all == parts.end + parts.afterC
    ensures parts.all == ["IF", "("] + a + [","] + b + [","] + c + [")"] + rest
  {
    var afterC := [")"] + rest;
    var afterB := [","] + (c + afterC);
    var afterA := [","] + (b + afterB);
    var beforeB := ["IF"] + (["("] + a);
    var beforeC := beforeB + ([","] + b);
    var end := beforeC + ([","] + c);
    var all := ["IF"] + (["("] + (a + afterA));
    Regroup(["IF"], ["("], a, afterA);
    Regroup(beforeB, [","], b, afterB);
    Regroup(beforeC, [","], c, afterC);
    assert end + afterC == ["IF", "("] + a + [","] + b + [","] + c + [")"] + rest;
    IfTokens(all, ["IF"], beforeB, beforeC, end, afterA, afterB, afterC)
  }

  lemma Regroup(before: seq<string>, separator: seq<string>, operand: seq<string>, rest: seq<string>)
    ensures before + (separator + (operand + rest)) == (before + (separator + operand)) + rest
  {
  }

  lemma PrintedIfShape(n: Numerals, e: Expr, rest: seq<string>)
    requires e.If?
    ensures var a, b, c := Print(n, 0, e.cond), Print(n, 0, e.onTrue), Print(n, 0, e.onFalse);
      && PrintBare(n, e) + rest == ["IF", "("] + a + [","] + b + [","] + c + [")"] + rest
      && |PrintBare(n, e)| == |a| + |b| + |c| + 5
  {
  }

  /** Once its three parts parse, so does an IF. */
  lemma IfFromParts(n: Numerals, tokens: seq<string>, e: Expr, p2: nat, p3: nat, p4: nat)
    requires e.If? && |tokens| > 0 && tokens[0] == "IF"
    requires ParseAfter(n, tokens, 1, "(") == Ok((e.cond, p2))
    requires ParseAfter(n, tokens, p2, ",") == Ok((e.onTrue, p3))
    requires ParseAfter(n, tokens, p3, ",") == Ok((e.onFalse, p4))
    requires p4 < |tokens| && tokens[p4] == ")"
    ensures ParsePrimary(n, tokens) == Ok((e, p4 + 1))
  {
  }

  lemma {:induction false} PrintedTokens(n: Numerals, level: nat, e: Expr)
    requires Ordinary(n, e)
    ensures forall t | t in Print(n, level, e) :: Word(t) || Symbol(t)
    decreases e
  {
    assert Symbol("(") && Symbol(")") && Symbol(",");
    assert Word("IF") by {
      assert 'I' !in SPECIALS && 'F' !in SPECIALS;
    }
    match e
    case Literal(_) =>
    case Field(_) =>
    case Binary(left, op, right) =>
      OpTokens(op, []);
      PrintedTokens(n, OpLevel(op), left);
      PrintedTokens(n, OpLevel(op) + 1, right);
    case If(cond, onTrue, onFalse) =>
      PrintedTokens(n, 0, cond);
      PrintedTokens(n, 0, onTrue);
      PrintedTokens(n, 0, onFalse);
  }

  /** From text back to the tree: precedence, left associativity and minimal parentheses all agree. */
  lemma ExpressionRoundTrip(n: Numerals, e: Expr)
    requires Ordinary(n, e)
    ensures ParseTokens(n, Lex(Render(Print(n, 0, e)), "")) == Ok(e)
  {
    PrintedTokens(n, 0, e);
    LexRender(Print(n, 0, e));
    ParsePrinted(n, 0, e, []);
    assert Print(n, 0, e) + [] == Print(n, 0, e);
  }

  // ---------- precedence, on the tokens themselves ----------

  /** The operators as they are written. */
  const OPERATORS: map<string, BinaryOp> :=
    map["+" := Add, "-" := Sub, "*" := Mul, "/" := Div, "=" := Eq, "!=" := Ne, ">" := Gt, ">=" := Gte, "<" := Lt, "<=" := Lte]

  /** How tightly an operator binds: products, then sums, then comparisons. */
  function Strength(token: string): nat {
    if token in {"*", "/"} then 2 else if token in {"+", "-"} then 1 else 0
  }

  /** Operands with operators between them. */
  function FlatTokens(operands: seq<string>, ops: seq<string>): seq<string>
    requires |operands| == |ops| + 1
    decreases |ops|
  {
    if |ops| == 0 then operands
    else FlatTokens(operands[..|ops|], ops[..|ops| - 1]) + [ops[|ops| - 1], operands[|ops|]]
  }

  /** The last of the operators that bind least. */
  function LastWeakest(ops: seq<string>): (i: nat)
    requires |ops| > 0
    ensures i < |ops|
    ensures forall j | 0 <= j < i :: Strength(ops[j]) >= Strength(ops[i])
    ensures forall j | i < j < |ops| :: Strength(ops[j]) > Strength(ops[i])
  {
    var n := |ops| - 1;
    if n == 0 then 0
    else
      var i := LastWeakest(ops[..n]);
      if Strength(ops[n]) <= Strength(ops[i]) then n else i
  }

  /** That operator applies last, to what stands before it and what stands after it. */
  function FlatTree(operands: seq<string>, ops: seq<string>): Expr
    requires |operands| == |ops| + 1 && forall t | t in ops :: t in OPERATORS
    decreases |ops|
  {
    if |ops| == 0 then Field(operands[0])
    else
      var i := LastWeakest(ops);
      Binary(FlatTree(operands[..i + 1], ops[..i]), OPERATORS[ops[i]], FlatTree(operands[i + 1..], ops[i + 1..]))
  }

  lemma {:induction false} FlatSplit(operands: seq<string>, ops: seq<string>, i: nat)
    requires |operands| == |ops| + 1 && i < |ops|
    ensures FlatTokens(operands, ops)
         == FlatTokens(operands[..i + 1], ops[..i]) + ([ops[i]] + FlatTokens(operands[i + 1..], ops[i + 1..]))
    decreases |ops|
  {
    var n := |ops| - 1;
    if i < n {
      var fewer, shorter := operands[..n + 1], ops[..n];
      FlatSplit(fewer, shorter, i);
      Sliced(operands, n + 1, i + 1);
      Sliced(ops, n, i);
      Sliced(ops, n, i + 1);
      var after, later := operands[i + 1..], ops[i + 1..];
      FlatLast(operands, ops);
      FlatLast(after, later);
      hide FlatTokens;
      Grouping5(FlatTokens(operands[..i + 1], ops[..i]), [ops[i]], FlatTokens(fewer[i + 1..], shorter[i + 1..]), [ops[n], operands[n + 1]]);
    } else {
      assert operands[n + 1..] == [operands[n + 1]] && ops[n + 1..] == [];
      assert [ops[n]] + [operands[n + 1]] == [ops[n], operands[n + 1]];
    }
  }

  lemma FlatLast(operands: seq<string>, ops: seq<string>)
    requires |operands| == |ops| + 1 && |ops| > 0
    ensures FlatTokens(operands, ops)
         == FlatTokens(operands[..|ops|], ops[..|ops| - 1]) + [ops[|ops| - 1], operands[|ops|]]
  {
  }

  lemma Sliced<T>(xs: seq<T>, n: nat, i: nat)
    requires i <= n <= |xs|
    ensures xs[..n][..i] == xs[..i] && xs[..n][i..] == xs[i..][..n - i]
  {
  }

  lemma Grouping5(a: seq<string>, b: seq<string>, c: seq<string>, d: seq<string>)
    ensures (a + (b + c)) + d == a + (b + (c + d))
  {
  }

  lemma OperatorsMean(t: string)
    requires t in OPERATORS
    ensures OpToken(OPERATORS[t]) == t && OpLevel(OPERATORS[t]) == Strength(t) < PRIMARY
  {
  }

  lemma StrengthsAround(ops: seq<string>)
    requires |ops| > 0
    ensures var i := LastWeakest(ops);
      && (forall t | t in ops[..i] :: Strength(t) >= Strength(ops[i]))
      && (forall t | t in ops[i + 1..] :: Strength(t) >= Strength(ops[i]) + 1)
  {
    hide Strength;
    var i := LastWeakest(ops);
    forall t | t in ops[i + 1..] ensures Strength(t) >= Strength(ops[i]) + 1 {
      var j :| 0 <= j < |ops| - i - 1 && ops[i + 1..][j] == t;
      assert ops[i + 1 + j] == t;
    }
  }

  lemma FlatOne(n: Numerals, operands: seq<string>, level: nat)
    requires |operands| == 1 && level <= PRIMARY && OrdinaryField(n, operands[0])
    ensures Print(n, level, FlatTree(operands, [])) == FlatTokens(operands, []) && Ordinary(n, FlatTree(operands, []))
  {
    assert operands == [operands[0]];
  }

  lemma FlatTreeAt(operands: seq<string>, ops: seq<string>)
    requires |operands| == |ops| + 1 && |ops| > 0 && forall t | t in ops :: t in OPERATORS
    ensures var i := LastWeakest(ops);
      FlatTree(operands, ops)
        == Binary(FlatTree(operands[..i + 1], ops[..i]), OPERATORS[ops[i]], FlatTree(operands[i + 1..], ops[i + 1..]))
  {
  }

  lemma {:induction false} FlatPrinted(n: Numerals, operands: seq<string>, ops: seq<string>, level: nat)
    requires |operands| == |ops| + 1 && level <= PRIMARY
    requires forall t | t in ops :: t in OPERATORS && Strength(t) >= level
    requires forall t | t in operands :: OrdinaryField(n, t)
    ensures Print(n, level, FlatTree(operands, ops)) == FlatTokens(operands, ops)
    ensures Ordinary(n, FlatTree(operands, ops))
    decreases |ops|
  {
    hide *;
    if |ops| == 0 {
      assert operands[0] in operands && ops == [];
      FlatOne(n, operands, level);
    } else {
      var i := LastWeakest(ops);
      var s := Strength(ops[i]);
      assert ops[i] in ops;
      OperatorsMean(ops[i]);
      StrengthsAround(ops);
      FlatTreeAt(operands, ops);
      FlatPrinted(n, operands[..i + 1], ops[..i], s);
      FlatPrinted(n, operands[i + 1..], ops[i + 1..], s + 1);
      FlatSplit(operands, ops, i);
      FlatBinary(n, level, FlatTree(operands[..i + 1], ops[..i]), ops[i], FlatTree(operands[i + 1..], ops[i + 1..]));
    }
  }

  lemma FlatBinary(n: Numerals, level: nat, left: Expr, t: string, right: Expr)
    requires t in OPERATORS && level <= Strength(t)
    ensures Print(n, level, Binary(left, OPERATORS[t], right)) == Print(n, Strength(t), left) + ([t] + Print(n, Strength(t) + 1, right))
    ensures Ordinary(n, left) && Ordinary(n, right) ==> Ordinary(n, Binary(left, OPERATORS[t], right))
  {
    OperatorsMean(t);
  }

  /** Fields with operators between them, however many: the parser lets the last of the operators that
      bind least apply last, and so on on both sides of it. */
  lemma FlatParses(n: Numerals, operands: seq<string>, ops: seq<string>)
    requires |operands| == |ops| + 1
    requires (forall t | t in ops :: t in OPERATORS) && forall t | t in operands :: OrdinaryField(n, t)
    ensures ParseTokens(n, FlatTokens(operands, ops)) == Ok(FlatTree(operands, ops))
    ensures ParseTokens(n, Lex(Render(FlatTokens(operands, ops)), "")) == Ok(FlatTree(operands, ops))
  {
    var e := FlatTree(operands, ops);
    FlatPrinted(n, operands, ops, 0);
    ExpressionRoundTrip(n, e);
    ParsePrinted(n, 0, e, []);
    hide ParseLevel, Print, FlatTokens, FlatTree, Lex;
    assert Print(n, 0, e) + [] == Print(n, 0, e);
  }

  /** Two operators: the second applies first exactly if it is a product after no product, or a sum after
      a comparison. */
  lemma Precedence(n: Numerals, x: string, p: string, y: string, q: string, z: string)
    requires OrdinaryField(n, x) && OrdinaryField(n, y) && OrdinaryField(n, z) && p in OPERATORS && q in OPERATORS
    ensures ParseTokens(n, [x, p, y, q, z]) == Ok(
      if (q in {"*", "/"} && p !in {"*", "/"}) || (q in {"+", "-"} && p !in {"*", "/", "+", "-"})
      then Binary(Field(x), OPERATORS[p], Binary(Field(y), OPERATORS[q], Field(z)))
      else Binary(Binary(Field(x), OPERATORS[p], Field(y)), OPERATORS[q], Field(z)))
  {
    var operands, ops := [x, y, z], [p, q];
    hide OrdinaryField, ParseTokens;
    FlatParses(n, operands, ops);
    assert operands[..1] == [x] && operands[1..] == [y, z] && operands[..2] == [x, y] && operands[2..] == [z];
    assert ops[..0] == [] && ops[1..] == [q] && ops[..1] == [p] && ops[2..] == [];
    FlatPair(x, p, y);
    FlatPair(y, q, z);
    assert FlatTokens(operands, ops) == [x, p, y, q, z];
    assert LastWeakest([p]) == 0;
  }

  lemma FlatPair(x: string, p: string, y: string)
    requires p in OPERATORS
    ensures FlatTokens([x, y], [p]) == [x, p, y]
    ensures FlatTree([x, y], [p]) == Binary(Field(x), OPERATORS[p], Field(y))
    ensures FlatTree([x], []) == Field(x)
  {
    assert [x, y][..1] == [x] && [x, y][1..] == [y] && [p][..0] == [] && [p][1..] == [];
  }

  /** Tokens that do not belong to the expression in front of them are reported. */
  lemma TrailingRejected(n: Numerals, e: Expr, rest: seq<string>)
    requires Ordinary(n, e) && |rest| > 0 && (rest[0] in {")", ","} || OrdinaryField(n, rest[0]))
    ensures ParseTokens(n, Print(n, 0, e) + rest) == Err(TrailingTokens)
  {
    if rest[0] !in {")", ","} {
      FieldStops(n, rest[0]);
    }
    assert Stops(0, rest);
    hide Print, Ordinary, Stops, ParseLevel;
    ParsePrinted(n, 0, e, rest);
  }

  /** So is an opening parenthesis without its partner. */
  lemma MissingRejected(n: Numerals, e: Expr)
    requires Ordinary(n, e)
    ensures ParseTokens(n, ["("] + Print(n, 0, e)) == Err(MissingParen)
  {
    var p := Print(n, 0, e);
    hide Print, Ordinary, ParseTokens, ParseLevel;
    ParsePrinted(n, 0, e, []);
    assert p + [] == p && (["("] + p)[1..] == p;
    PrimaryDecides(n, ["("] + p);
  }

  /** Nothing at all, and an IF without its parentheses. */
  lemma EmptyRejected(n: Numerals, t: string)
    requires t != "("
    ensures ParseTokens(n, []) == Err(UnexpectedEnd) && ParseTokens(n, ["IF", t]) == Err(InvalidIf)
  {
    PrimaryDecides(n, []);
    PrimaryDecides(n, ["IF", t]);
    hide ParseTokens;
    assert ParseAfter(n, ["IF", t], 1, "(") == Err(InvalidIf);
  }

  lemma FieldStops(n: Numerals, name: string)
    requires OrdinaryField(n, name)
    ensures forall level | 0 <= level < PRIMARY :: OpAt(level, name).None?
  {
    assert name[0] !in SPECIALS;
    assert '=' in SPECIALS && '!' in SPECIALS && '<' in SPECIALS && '>' in SPECIALS;
    assert '+' in SPECIALS && '-' in SPECIALS && '*' in SPECIALS && '/' in SPECIALS;
    assert name[0] !in {'=', '!', '<', '>', '+', '-', '*', '/'};
  }

  /** An error of the first operand is the error of the whole. */
  lemma PrimaryDecides(n: Numerals, tokens: seq<string>)
    ensures ParsePrimary(n, tokens).Err? ==> ParseTokens(n, tokens) == Err(ParsePrimary(n, tokens).error)
  {
    hide ParsePrimary;
    assert ParseLevel(n, PRIMARY, tokens) == ParsePrimary(n, tokens);
    assert ParsePrimary(n, tokens).Err? ==> ParseLevel(n, 2, tokens) == ParsePrimary(n, tokens);
    assert ParsePrimary(n, tokens).Err? ==> ParseLevel(n, 1, tokens) == ParsePrimary(n, tokens);
    assert ParsePrimary(n, tokens).Err? ==> ParseLevel(n, 0, tokens) == ParsePrimary(n, tokens);
  }

  /** IF is recognised in any case. */
  lemma IfAnyCase(n: Numerals, t: string, rest: seq<string>)
    requires t in {"IF", "If", "iF", "if"}
    ensures ParsePrimary(n, [t] + rest) == ParsePrimary(n, ["IF"] + rest)
  {
    var tokens, upper := [t] + rest, ["IF"] + rest;
    assert IsIf(t) && IsIf("IF");
    AfterAlike(n, tokens, upper, 1, "(");
    var cond := ParseAfter(n, tokens, 1, "(");
    if cond.Ok? {
      AfterAlike(n, tokens, upper, cond.value.1, ",");
      var onTrue := ParseAfter(n, tokens, cond.value.1, ",");
      if onTrue.Ok? {
        AfterAlike(n, tokens, upper, onTrue.value.1, ",");
        var onFalse := ParseAfter(n, tokens, onTrue.value.1, ",");
        assert onFalse.Ok? && onFalse.value.1 < |tokens| ==> tokens[onFalse.value.1] == upper[onFalse.value.1];
      }
    }
    assert tokens[0] == t && upper[0] == "IF" && t != "(" && |tokens| == |upper|;
    hide ParseLevel, IsIf;
  }

  lemma AfterAlike(n: Numerals, xs: seq<string>, ys: seq<string>, pos: nat, separator: string)
    requires pos > 0 && |xs| == |ys| > 0 && xs[1..] == ys[1..]
    ensures ParseAfter(n, xs, pos, separator) == ParseAfter(n, ys, pos, separator)
  {
    if pos < |xs| {
      assert xs[pos] == xs[1..][pos - 1] && ys[pos] == ys[1..][pos - 1];
      assert xs[pos + 1..] == xs[1..][pos..] && ys[pos + 1..] == ys[1..][pos..];
    }
    hide ParseLevel;
  }

  /** Words need no space before a symbol. */
  lemma LexDense(w: string, t: string, rest: string)
    requires Word(w) && Symbol(t) && (t in {">", "<"} && |rest| > 0 ==> rest[0] != '=')
    ensures Lex(w + t + rest, "") == [w, t] + Lex(rest, "")
  {
    LexWord(w, t + rest, "");
    assert w + t + rest == w + (t + rest) && "" + w == w;
    hide Lex;
    LexSymbol(w, t, rest);
  }

  /** Blanks, tabs and line ends separate words and are dropped. */
  lemma LexBlank(w: string, blank: char, rest: string)
    requires Word(w) && blank in {' ', '\t', '\n'}
    ensures Lex(w + [blank] + rest, "") == [w] + Lex(rest, "") && Lex([blank] + rest, "") == Lex(rest, "")
  {
    LexWord(w, [blank] + rest, "");
    assert w + [blank] + rest == w + ([blank] + rest) && "" + w == w;
    assert ([blank] + rest)[1..] == rest;
  }

  lemma LexSymbol(w: string, t: string, rest: string)
    requires |w| > 0 && Symbol(t) && (t in {">", "<"} && |rest| > 0 ==> rest[0] != '=')
    ensures Lex(t + rest, w) == [w, t] + Lex(rest, "")
  {
    var input := t + rest;
    assert [w] + [t] == [w, t];
    if |t| == 1 {
      assert input[0] == t[0] && input[1..] == rest && [t[0]] == t;
    } else {
      assert input[0] == t[0] && input[1] == '=' && input[2..] == rest && input[..2] == t;
    }
  }

  // ---------- evaluation ----------

  /** `f64::EPSILON`, two to the power of -52. */
  const EPSILON: real := 1.0 / 4503599627370496.0

  function Truth(b: bool): real {
    if b then 1.0 else 0.0
  }

  function ApplyOp(op: BinaryOp, l: real, r: real): real {
    match op
    case Add => l + r
    case Sub => l - r
    case Mul => l * r
    case Div => if r != 0.0 then l / r else 0.0
    case Eq => Truth(-EPSILON < l - r < EPSILON)
    case Ne => Truth(l - r > EPSILON || r - l > EPSILON)
    case Gt => Truth(l > r)
    case Gte => Truth(l >= r)
    case Lt => Truth(l < r)
    case Lte => Truth(l <= r)
  }

  function Evaluate(e: Expr, context: map<string, real>): real {
    match e
    case Literal(value) => value
    case Field(name) => if name in context then context[name] else 0.0
    case Binary(left, op, right) => ApplyOp(op, Evaluate(left, context), Evaluate(right, context))
    case If(cond, onTrue, onFalse) =>
      if Evaluate(cond, context) > 0.0 then Evaluate(onTrue, context) else Evaluate(onFalse, context)
  }

  /** What an operator's result tells about its operands; a product or quotient with zero is zero, and
      equality is up to EPSILON, so that at exactly that distance neither `=` nor `!=` holds. */
  ghost predicate ResultOf(op: BinaryOp, l: real, r: real, v: real) {
    && (op == Add ==> v - r == l)
    && (op == Sub ==> v + r == l)
    && (op == Mul ==> if r == 0.0 then v == 0.0 else v / r == l)
    && (op == Div ==> if r == 0.0 then v == 0.0 else v * r == l)
    && (!op.Add? && !op.Sub? && !op.Mul? && !op.Div? ==> v in {0.0, 1.0})
    && (op == Eq ==> (v == 1.0 <==> l < r + EPSILON && r < l + EPSILON))
    && (op == Ne ==> (v == 1.0 <==> l > r + EPSILON || r > l + EPSILON))
    && (op == Gt ==> (v == 1.0 <==> l > r))
    && (op == Gte ==> (v == 0.0 <==> l < r))
    && (op == Lt ==> (v == 1.0 <==> l < r))
    && (op == Lte ==> (v == 0.0 <==> l > r))
  }

  lemma ApplyOpMeans(op: BinaryOp, l: real, r: real)
    ensures ResultOf(op, l, r, ApplyOp(op, l, r))
  {
    if op == Div && r != 0.0 {
      assert l / r * r == l;
    }
    if op == Mul && r != 0.0 {
      assert l * r / r == l;
    }
  }

  /** A field's value; a missing field counts as zero. */
  function ValueIn(context: map<string, real>, name: string): real {
    if name in context then context[name] else 0.0
  }

  /** From the tokens of an operation on two fields to its value. */
  lemma TwoFieldsEvaluate(n: Numerals, x: string, p: string, y: string, context: map<string, real>)
    requires OrdinaryField(n, x) && OrdinaryField(n, y) && p in OPERATORS
    ensures var e := ParseTokens(n, [x, p, y]);
      e.Ok? && ResultOf(OPERATORS[p], ValueIn(context, x), ValueIn(context, y), Evaluate(e.value, context))
  {
    hide OrdinaryField, ParseTokens, ApplyOp;
    FlatPair(x, p, y);
    FlatParses(n, [x, y], [p]);
    ApplyOpMeans(OPERATORS[p], ValueIn(context, x), ValueIn(context, y));
  }

  /** A conditional on a comparison of two fields that gives them is the greater of both. */
  lemma IfGreaterEvaluates(x: string, y: string, context: map<string, real>)
    ensures var v := Evaluate(If(Binary(Field(x), Gt, Field(y)), Field(x), Field(y)), context);
      v in {ValueIn(context, x), ValueIn(context, y)} && v >= ValueIn(context, x) && v >= ValueIn(context, y)
  {
    var cond := Binary(Field(x), Gt, Field(y));
    assert Evaluate(cond, context) == ApplyOp(Gt, Evaluate(Field(x), context), Evaluate(Field(y), context));
    ApplyOpMeans(Gt, ValueIn(context, x), ValueIn(context, y));
  }

  function ExtractFields(e: Expr): seq<string> {
    match e
    case Literal(_) => []
    case Field(name) => [name]
    case Binary(left, _, right) => ExtractFields(left) + ExtractFields(right)
    case If(cond, onTrue, onFalse) => ExtractFields(cond) + ExtractFields(onTrue) + ExtractFields(onFalse)
  }

  /** Fetching the extracted fields is enough to evaluate an expression. */
  lemma {:induction false} FieldsSuffice(e: Expr, a: map<string, real>, b: map<string, real>)
    requires forall f | f in ExtractFields(e) :: f in a <==> f in b
    requires forall f | f in ExtractFields(e) && f in a :: a[f] == b[f]
    ensures Evaluate(e, a) == Evaluate(e, b)
  {
    match e
    case Literal(_) =>
    case Field(_) =>
    case Binary(left, _, right) =>
      FieldsSuffice(left, a, b);
      FieldsSuffice(right, a, b);
    case If(cond, onTrue, onFalse) =>
      FieldsSuffice(cond, a, b);
      FieldsSuffice(onTrue, a, b);
      FieldsSuffice(onFalse, a, b);
  }
}
