/** The recursive-descent parser of src/lib/logic/parse.ts.

    Grammar, loosest binding first, all binary levels left-associative:
      equivImpl ::= andOr (('<->' | '->') andOr)*
      andOr     ::= neg (('&' | '|') neg)*
      neg       ::= '!' paren | paren
      paren     ::= '(' equivImpl ')' | identifier

    The parser keeps the tokens reversed, so the next token is the last
    one and consuming it pops it. The functions below are the grammar on
    such a stack: each returns the node built and the stack left over. The
    `Parser` class is the source's mutable parser state, and its methods
    are proved to compute exactly these functions. */
module Parse {
  import opened Types
  import Lexer

  /** Tokens still to parse, the next one last. */
  type Stack = seq<Lexer.Token>

  /** A node with the stack left after parsing it, or the first error. */
  type Parsed = Result<(Node, Stack)>

  function Reverse<T>(s: seq<T>): (r: seq<T>)
    ensures |r| == |s|
    ensures forall k | 0 <= k < |s| :: r[k] == s[|s| - 1 - k]
  {
    if |s| == 0 then [] else Reverse(s[1..]) + [s[0]]
  }

  /** `nextIs`: the next token exists and has kind `k`. */
  predicate NextIs(st: Stack, k: Lexer.TokenKind) {
    |st| > 0 && st[|st| - 1].kind == k
  }

  /** `current`: the next token, or the end-of-input error. */
  function Current(st: Stack): (r: Result<Lexer.Token>)
    ensures r.Ok? <==> |st| > 0
    ensures r.Ok? ==> r.value == st[|st| - 1]
    ensures r.Err? ==> r.error == UnexpectedEnd
  {
    if |st| > 0 then Ok(st[|st| - 1]) else Err(UnexpectedEnd)
  }

  /** The error reported when the next token is not what was expected:
      running out of tokens, or the spelling of the token found. */
  function Unexpected(st: Stack, expected: Expected): (e: Error)
    ensures |st| == 0 ==> e == UnexpectedEnd
    ensures |st| > 0 ==> e == UnexpectedToken(expected, st[|st| - 1].spelling)
  {
    match Current(st)
    case Err(e) => e
    case Ok(t) => UnexpectedToken(expected, t.spelling)
  }

  /** The number a template string prints for a `TokenKind`, a numeric
      TypeScript enum counting from 0 in declaration order. */
  function EnumValue(k: Lexer.TokenKind): nat {
    match k
    case And => 0
    case Or => 1
    case Not => 2
    case Impl => 3
    case Equiv => 4
    case LParen => 5
    case RParen => 6
    case Ident => 7
    case Unknown => 8
  }

  /** The node kinds the parser can build: no Scheffer stroke and no NOR. */
  predicate Parsable(n: Node) {
    match n
    case Atom(_) => true
    case Neg(c) => Parsable(c)
    case And(l, r) => Parsable(l) && Parsable(r)
    case Or(l, r) => Parsable(l) && Parsable(r)
    case Impl(l, r) => Parsable(l) && Parsable(r)
    case Equiv(l, r) => Parsable(l) && Parsable(r)
    case Scheffer(_, _) => false
    case Nor(_) => false
  }

  /** `r` failed with a parse error, or built a parsable node by popping a
      part of `st` (at least one token when `strict`). */
  predicate Progress(r: Parsed, st: Stack, strict: bool) {
    match r
    case Err(e) => e.UnexpectedEnd? || e.UnexpectedToken?
    case Ok((n, rest)) =>
      && Parsable(n)
      && (if strict then |rest| < |st| else |rest| <= |st|)
      && rest == st[..|rest|]
  }

  /** `parseAtom`. */
  function PAtom(st: Stack): (r: Parsed)
    ensures Progress(r, st, true)
    decreases |st|, 0
  {
    if !NextIs(st, Lexer.Ident) then Err(Unexpected(st, Identifier))
    else Ok((Atom(st[|st| - 1].spelling), st[..|st| - 1]))
  }

  /** `parseParen`: a parenthesised formula, or an atom. */
  function PParen(st: Stack): (r: Parsed)
    ensures Progress(r, st, true)
    decreases |st|, 1
  {
    if NextIs(st, Lexer.LParen) then
      match PEquivImpl(st[..|st| - 1])
      case Err(e) => Err(e)
      case Ok((e, rest)) =>
        if NextIs(rest, Lexer.RParen) then Ok((e, rest[..|rest| - 1]))
        else Err(Unexpected(rest, KindNumber(EnumValue(Lexer.RParen))))
    else PAtom(st)
  }

  /** `parseNeg`: an optional `!` applied to a parenthesised formula or an atom. */
  function PNeg(st: Stack): (r: Parsed)
    ensures Progress(r, st, true)
    decreases |st|, 2
  {
    if NextIs(st, Lexer.Not) then
      match PParen(st[..|st| - 1])
      case Err(e) => Err(e)
      case Ok((c, rest)) => Ok((Neg(c), rest))
    else PParen(st)
  }

  /** The loop of `parseAndOr`, with `stub` the formula built so far. */
  function AndOrLoop(stub: Node, st: Stack): (r: Parsed)
    ensures Parsable(stub) ==> Progress(r, st, false)
    decreases |st|, 2
  {
    if NextIs(st, Lexer.And) || NextIs(st, Lexer.Or) then
      var isAnd := st[|st| - 1].kind == Lexer.And;
      match PNeg(st[..|st| - 1])
      case Err(e) => Err(e)
      case Ok((right, rest)) =>
        AndOrLoop(if isAnd then And(stub, right) else Or(stub, right), rest)
    else Ok((stub, st))
  }

  /** `parseAndOr`. */
  function PAndOr(st: Stack): (r: Parsed)
    ensures Progress(r, st, true)
    decreases |st|, 3
  {
    match PNeg(st)
    case Err(e) => Err(e)
    case Ok((stub, rest)) => AndOrLoop(stub, rest)
  }

  /** The loop of `parseEquivImpl`, with `stub` the formula built so far. */
  function EquivImplLoop(stub: Node, st: Stack): (r: Parsed)
    ensures Parsable(stub) ==> Progress(r, st, false)
    decreases |st|, 3
  {
    if NextIs(st, Lexer.Equiv) || NextIs(st, Lexer.Impl) then
      var isEquiv := st[|st| - 1].kind == Lexer.Equiv;
      match PAndOr(st[..|st| - 1])
      case Err(e) => Err(e)
      case Ok((right, rest)) =>
        EquivImplLoop(if isEquiv then Equiv(stub, right) else Impl(stub, right), rest)
    else Ok((stub, st))
  }

  /** `parseEquivImpl`. */
  function PEquivImpl(st: Stack): (r: Parsed)
    ensures Progress(r, st, true)
    decreases |st|, 4
  {
    match PAndOr(st)
    case Err(e) => Err(e)
    case Ok((stub, rest)) => EquivImplLoop(stub, rest)
  }

  /** `parse` after tokenizing: the whole token list must form one formula. */
  function ParseTokens(ts: seq<Lexer.Token>): (r: Result<Node>)
    ensures r.Ok? ==> Parsable(r.value)
  {
    match PEquivImpl(Reverse(ts))
    case Err(e) => Err(e)
    case Ok((n, rest)) => if |rest| > 0 then Err(TrailingInput(rest[|rest| - 1].spelling)) else Ok(n)
  }

  /** `parse`. */
  function Parse(f: string): (r: Result<Node>)
    ensures r.Ok? ==> Parsable(r.value)
  {
    match Lexer.Lex(f, 0)
    case Err(e) => Err(e)
    case Ok(ts) => ParseTokens(ts)
  }

  /** A parse method's outcome paired with the parser state it leaves. */
  function Resulting(r: Result<Node>, st: Stack): Parsed {
    match r
    case Ok(n) => Ok((n, st))
    case Err(e) => Err(e)
  }

  /** The parser state of the source: the reversed token list, consumed
      by popping. */
  class Parser {
    var toks: Stack

    constructor (ts: seq<Lexer.Token>)
      ensures toks == Reverse(ts)
    {
      toks := Reverse(ts);
    }

    /** `bump`: drops the next token; fails when there is none. */
    method Bump() returns (o: Outcome)
      modifies this
      ensures |old(toks)| > 0 ==> o == Pass && toks == old(toks)[..|old(toks)| - 1]
      ensures |old(toks)| == 0 ==> o == Fail(UnexpectedEnd) && toks == old(toks)
    {
      if |toks| > 0 {
        toks := toks[..|toks| - 1];
        return Pass;
      }
      return Fail(UnexpectedEnd);
    }

    /** `eat`: drops the next token if it has kind `k`, fails otherwise. */
    method Eat(k: Lexer.TokenKind) returns (o: Outcome)
      modifies this
      ensures NextIs(old(toks), k) ==> o == Pass && toks == old(toks)[..|old(toks)| - 1]
      ensures !NextIs(old(toks), k) ==> o == Fail(Unexpected(old(toks), KindNumber(EnumValue(k))))
    {
      if NextIs(toks, k) {
        o := Bump();
      } else {
        var c := Current(toks);
        if c.Err? {
          return Fail(c.error);
        }
        return Fail(UnexpectedToken(KindNumber(EnumValue(k)), c.value.spelling));
      }
    }

    /** `parseAtom`. */
    method ParseAtom() returns (r: Result<Node>)
      modifies this
      ensures Resulting(r, toks) == PAtom(old(toks))
    {
      if !NextIs(toks, Lexer.Ident) {
        var c := Current(toks);
        if c.Err? {
          return Err(c.error);
        }
        return Err(UnexpectedToken(Identifier, c.value.spelling));
      }
      var a := Atom(toks[|toks| - 1].spelling);
      var _ := Bump();
      return Ok(a);
    }

    /** `parseParen`. */
    method ParseParen() returns (r: Result<Node>)
      modifies this
      ensures Resulting(r, toks) == PParen(old(toks))
      decreases |toks|, 1
    {
      if NextIs(toks, Lexer.LParen) {
        var _ := Bump();
        r := ParseEquivImpl();
        if r.Err? {
          return;
        }
        var o := Eat(Lexer.RParen);
        if o.Fail? {
          return Err(o.error);
        }
      } else {
        r := ParseAtom();
      }
    }

    /** `parseNeg`. */
    method ParseNeg() returns (r: Result<Node>)
      modifies this
      ensures Resulting(r, toks) == PNeg(old(toks))
      decreases |toks|, 2
    {
      if NextIs(toks, Lexer.Not) {
        var _ := Bump();
        var c := ParseParen();
        if c.Err? {
          return c;
        }
        return Ok(Neg(c.value));
      }
      r := ParseParen();
    }

    /** `parseAndOr`. */
    method ParseAndOr() returns (r: Result<Node>)
      modifies this
      ensures Resulting(r, toks) == PAndOr(old(toks))
      decreases |toks|, 3
    {
      var first := ParseNeg();
      if first.Err? {
        return first;
      }
      var stub := first.value;
      while NextIs(toks, Lexer.And) || NextIs(toks, Lexer.Or)
        invariant PAndOr(old(toks)) == AndOrLoop(stub, toks)
        decreases |toks|
      {
        var isAnd := toks[|toks| - 1].kind == Lexer.And;
        var _ := Bump();
        var right := ParseNeg();
        if right.Err? {
          return right;
        }
        stub := if isAnd then And(stub, right.value) else Or(stub, right.value);
      }
      return Ok(stub);
    }

    /** `parseEquivImpl`. */
    method ParseEquivImpl() returns (r: Result<Node>)
      modifies this
      ensures Resulting(r, toks) == PEquivImpl(old(toks))
      decreases |toks|, 4
    {
      var first := ParseAndOr();
      if first.Err? {
        return first;
      }
      var stub := first.value;
      while NextIs(toks, Lexer.Equiv) || NextIs(toks, Lexer.Impl)
        invariant PEquivImpl(old(toks)) == EquivImplLoop(stub, toks)
        decreases |toks|
      {
        var isEquiv := toks[|toks| - 1].kind == Lexer.Equiv;
        var _ := Bump();
        var right := ParseAndOr();
        if right.Err? {
          return right;
        }
        stub := if isEquiv then Equiv(stub, right.value) else Impl(stub, right.value);
      }
      return Ok(stub);
    }
  }

  /** `parse`: tokenizes `f`, parses one formula and insists that no token
      is left over. */
  method ParseFormula(f: string) returns (r: Result<Node>)
    ensures r == Parse(f)
  {
    var ts := Lexer.Tokenize(f);
    if ts.Err? {
      return Err(ts.error);
    }
    var p := new Parser(ts.value);
    r := p.ParseEquivImpl();
    if r.Err? {
      return;
    }
    if |p.toks| > 0 {
      return Err(TrailingInput(p.toks[|p.toks| - 1].spelling));
    }
  }

  /* ---------------------------------------------------------------------
     The parser inverts the fully parenthesised printer.
     --------------------------------------------------------------------- */

  function Tok(k: Lexer.TokenKind, spelling: string): Lexer.Token {
    Lexer.Token(k, spelling, 0)
  }

  /** The tokens of `n` written in the parser's syntax with every binary
      node and every negated operand in parentheses. */
  function Emit(n: Node): seq<Lexer.Token>
    requires Parsable(n)
  {
    match n
    case Atom(name) => [Tok(Lexer.Ident, name)]
    case Neg(c) => [Tok(Lexer.Not, "!"), Tok(Lexer.LParen, "(")] + Emit(c) + [Tok(Lexer.RParen, ")")]
    case And(l, r) => EmitBinary(Emit(l), Tok(Lexer.And, "&"), Emit(r))
    case Or(l, r) => EmitBinary(Emit(l), Tok(Lexer.Or, "|"), Emit(r))
    case Impl(l, r) => EmitBinary(Emit(l), Tok(Lexer.Impl, "->"), Emit(r))
    case Equiv(l, r) => EmitBinary(Emit(l), Tok(Lexer.Equiv, "<->"), Emit(r))
  }

  function EmitBinary(l: seq<Lexer.Token>, op: Lexer.Token, r: seq<Lexer.Token>): seq<Lexer.Token> {
    [Tok(Lexer.LParen, "(")] + l + [op] + r + [Tok(Lexer.RParen, ")")]
  }

  /** The operator token of a binary node. */
  function OpTok(n: Node): Lexer.Token
    requires n.And? || n.Or? || n.Impl? || n.Equiv?
  {
    match n
    case And(_, _) => Tok(Lexer.And, "&")
    case Or(_, _) => Tok(Lexer.Or, "|")
    case Impl(_, _) => Tok(Lexer.Impl, "->")
    case Equiv(_, _) => Tok(Lexer.Equiv, "<->")
  }

  /** `Emit(n)` as the parser holds it: reversed. */
  function Stacked(n: Node): Stack
    requires Parsable(n)
  {
    match n
    case Atom(name) => [Tok(Lexer.Ident, name)]
    case Neg(c) => StackedNeg(Stacked(c))
    case And(l, r) => StackedBinary(Stacked(l), Tok(Lexer.And, "&"), Stacked(r))
    case Or(l, r) => StackedBinary(Stacked(l), Tok(Lexer.Or, "|"), Stacked(r))
    case Impl(l, r) => StackedBinary(Stacked(l), Tok(Lexer.Impl, "->"), Stacked(r))
    case Equiv(l, r) => StackedBinary(Stacked(l), Tok(Lexer.Equiv, "<->"), Stacked(r))
  }

  function StackedNeg(c: Stack): Stack {
    [Tok(Lexer.RParen, ")")] + c + [Tok(Lexer.LParen, "("), Tok(Lexer.Not, "!")]
  }

  function StackedBinary(l: Stack, op: Lexer.Token, r: Stack): Stack {
    [Tok(Lexer.RParen, ")")] + r + [op] + l + [Tok(Lexer.LParen, "(")]
  }

  lemma {:induction false} ReverseConcat<T>(a: seq<T>, b: seq<T>)
    ensures Reverse(a + b) == Reverse(b) + Reverse(a)
  {
  }

  lemma {:induction false} StackedIsReversed(n: Node)
    requires Parsable(n)
    ensures Reverse(Emit(n)) == Stacked(n)
  {
    match n
    case Atom(_) =>
    case Neg(c) =>
      StackedIsReversed(c);
      var a, b := [Tok(Lexer.Not, "!"), Tok(Lexer.LParen, "(")], [Tok(Lexer.RParen, ")")];
      ReverseConcat(a + Emit(c), b);
      ReverseConcat(a, Emit(c));
      assert Reverse(a) == [Tok(Lexer.LParen, "("), Tok(Lexer.Not, "!")];
    case And(l, r) =>
      StackedIsReversed(l);
      StackedIsReversed(r);
      BinaryReversed(Emit(l), Tok(Lexer.And, "&"), Emit(r));
    case Or(l, r) =>
      StackedIsReversed(l);
      StackedIsReversed(r);
      BinaryReversed(Emit(l), Tok(Lexer.Or, "|"), Emit(r));
    case Impl(l, r) =>
      StackedIsReversed(l);
      StackedIsReversed(r);
      BinaryReversed(Emit(l), Tok(Lexer.Impl, "->"), Emit(r));
    case Equiv(l, r) =>
      StackedIsReversed(l);
      StackedIsReversed(r);
      BinaryReversed(Emit(l), Tok(Lexer.Equiv, "<->"), Emit(r));
  }

  lemma BinaryReversed(l: seq<Lexer.Token>, op: Lexer.Token, r: seq<Lexer.Token>)
    ensures Reverse(EmitBinary(l, op, r)) == StackedBinary(Reverse(l), op, Reverse(r))
  {
    var lp, rp := [Tok(Lexer.LParen, "(")], [Tok(Lexer.RParen, ")")];
    ReverseConcat(lp + l + [op] + r, rp);
    ReverseConcat(lp + l + [op], r);
    ReverseConcat(lp + l, [op]);
    ReverseConcat(lp, l);
  }

  /** No binary operator follows: every loop of the parser stops here. */
  predicate Stops(st: Stack) {
    !NextIs(st, Lexer.And) && !NextIs(st, Lexer.Or) && !NextIs(st, Lexer.Equiv) && !NextIs(st, Lexer.Impl)
  }

  /** A printed node is one operand of `parseNeg`, whatever lies after it. */
  lemma {:induction false} UnitParses(n: Node, base: Stack)
    requires Parsable(n)
    ensures PNeg(base + Stacked(n)) == Ok((n, base))
    decreases n, 1
  {
    match n
    case Atom(name) =>
      assert (base + Stacked(n))[..|base|] == base;
    case Neg(c) =>
      FormulaParses(c, base + [Tok(Lexer.RParen, ")")]);
      NegStep(Stacked(c), c, base);
    case And(l, r) =>
      BinaryOperandsParse(n, base);
      AndOrStep(Stacked(l), Stacked(r), l, r, Tok(Lexer.And, "&"), base);
    case Or(l, r) =>
      BinaryOperandsParse(n, base);
      AndOrStep(Stacked(l), Stacked(r), l, r, Tok(Lexer.Or, "|"), base);
    case Impl(l, r) =>
      BinaryOperandsParse(n, base);
      EquivImplStep(Stacked(l), Stacked(r), l, r, Tok(Lexer.Impl, "->"), base);
    case Equiv(l, r) =>
      BinaryOperandsParse(n, base);
      EquivImplStep(Stacked(l), Stacked(r), l, r, Tok(Lexer.Equiv, "<->"), base);
  }

  /** `!(c)`, given how `c` parses. */
  lemma NegStep(sc: Stack, c: Node, base: Stack)
    requires PEquivImpl(base + [Tok(Lexer.RParen, ")")] + sc) == Ok((c, base + [Tok(Lexer.RParen, ")")]))
    ensures PNeg(base + StackedNeg(sc)) == Ok((Neg(c), base))
  {
    var inner := base + [Tok(Lexer.RParen, ")")];
    var st := inner + sc + [Tok(Lexer.LParen, "("), Tok(Lexer.Not, "!")];
    assert base + StackedNeg(sc) == st;
    assert st[..|st| - 1] == inner + sc + [Tok(Lexer.LParen, "(")];
    assert (inner + sc + [Tok(Lexer.LParen, "(")])[..|st| - 2] == inner + sc;
    assert inner[..|inner| - 1] == base;
  }

  /** The operands of a printed binary node parse as the operator's
      level of the grammar expects. */
  lemma {:induction false} BinaryOperandsParse(n: Node, base: Stack)
    requires (n.And? || n.Or? || n.Impl? || n.Equiv?) && Parsable(n)
    ensures var inner := base + [Tok(Lexer.RParen, ")")];
      && PNeg(inner + Stacked(n.right) + [OpTok(n)] + Stacked(n.left)) == Ok((n.left, inner + Stacked(n.right) + [OpTok(n)]))
      && PNeg(inner + Stacked(n.right)) == Ok((n.right, inner))
      && PAndOr(inner + Stacked(n.right)) == Ok((n.right, inner))
    decreases n, 0
  {
    var inner := base + [Tok(Lexer.RParen, ")")];
    UnitParses(n.left, inner + Stacked(n.right) + [OpTok(n)]);
    UnitParses(n.right, inner);
    AndOrParses(n.right, inner);
  }

  /** Popping the token pushed last gives back the stack below it. */
  lemma Pop(a: Stack, t: Lexer.Token)
    ensures |a + [t]| == |a| + 1 && (a + [t])[|a|] == t
    ensures (a + [t])[..|a|] == a
  {
  }

  /** One round of `parseAndOr`'s loop: the operator is popped and the
      negation level parses the right operand. */
  lemma AndOrTake(stub: Node, st: Stack, right: Node, rest: Stack)
    requires NextIs(st, Lexer.And) || NextIs(st, Lexer.Or)
    requires PNeg(st[..|st| - 1]) == Ok((right, rest))
    ensures AndOrLoop(stub, st)
         == AndOrLoop(if st[|st| - 1].kind == Lexer.And then And(stub, right) else Or(stub, right), rest)
  {
  }

  /** One round of `parseEquivImpl`'s loop: the arrow is popped and the
      and/or level parses the right operand. */
  lemma EquivImplTake(stub: Node, st: Stack, right: Node, rest: Stack)
    requires NextIs(st, Lexer.Equiv) || NextIs(st, Lexer.Impl)
    requires PAndOr(st[..|st| - 1]) == Ok((right, rest))
    ensures EquivImplLoop(stub, st)
         == EquivImplLoop(if st[|st| - 1].kind == Lexer.Equiv then Equiv(stub, right) else Impl(stub, right), rest)
  {
  }

  /** A parenthesised formula, as seen by `parseNeg`: `(` is popped, the
      formula parsed, and `)` popped. */
  lemma ParenTake(st: Stack, e: Node, rest: Stack)
    requires NextIs(st, Lexer.LParen)
    requires PEquivImpl(st[..|st| - 1]) == Ok((e, rest)) && NextIs(rest, Lexer.RParen)
    ensures PNeg(st) == Ok((e, rest[..|rest| - 1]))
  {
  }

  /** `(l & r)` and `(l | r)`, given how their operands parse: the
      operator is taken by `parseAndOr`'s loop. */
  lemma AndOrStep(sl: Stack, sr: Stack, l: Node, r: Node, op: Lexer.Token, base: Stack)
    requires op.kind == Lexer.And || op.kind == Lexer.Or
    requires Parsable(l) && Parsable(r)
    requires PNeg(base + [Tok(Lexer.RParen, ")")] + sr + [op] + sl) == Ok((l, base + [Tok(Lexer.RParen, ")")] + sr + [op]))
    requires PNeg(base + [Tok(Lexer.RParen, ")")] + sr) == Ok((r, base + [Tok(Lexer.RParen, ")")]))
    ensures PNeg(base + StackedBinary(sl, op, sr)) == Ok((if op.kind == Lexer.And then And(l, r) else Or(l, r), base))
  {
    var n := if op.kind == Lexer.And then And(l, r) else Or(l, r);
    var inner := base + [Tok(Lexer.RParen, ")")];
    var afterLeft := inner + sr + [op];
    var st := afterLeft + sl + [Tok(Lexer.LParen, "(")];
    assert base + StackedBinary(sl, op, sr) == st;
    Pop(afterLeft + sl, Tok(Lexer.LParen, "("));
    Pop(base, Tok(Lexer.RParen, ")"));
    AndOrPair(sl, sr, l, r, op, inner);
    assert EquivImplLoop(n, inner) == Ok((n, inner));
    ParenTake(st, n, inner);
  }

  /** `l & r` or `l | r` before a closing parenthesis, at the and/or level. */
  lemma AndOrPair(sl: Stack, sr: Stack, l: Node, r: Node, op: Lexer.Token, inner: Stack)
    requires op.kind == Lexer.And || op.kind == Lexer.Or
    requires NextIs(inner, Lexer.RParen)
    requires PNeg(inner + sr + [op] + sl) == Ok((l, inner + sr + [op]))
    requires PNeg(inner + sr) == Ok((r, inner))
    ensures PAndOr(inner + sr + [op] + sl) == Ok((if op.kind == Lexer.And then And(l, r) else Or(l, r), inner))
  {
    var n := if op.kind == Lexer.And then And(l, r) else Or(l, r);
    Pop(inner + sr, op);
    AndOrTake(l, inner + sr + [op], r, inner);
    assert AndOrLoop(n, inner) == Ok((n, inner));
  }

  /** `(l -> r)` and `(l <-> r)`, given how their operands parse: the
      operator is taken by `parseEquivImpl`'s loop. */
  lemma EquivImplStep(sl: Stack, sr: Stack, l: Node, r: Node, op: Lexer.Token, base: Stack)
    requires op.kind == Lexer.Impl || op.kind == Lexer.Equiv
    requires Parsable(l) && Parsable(r)
    requires PNeg(base + [Tok(Lexer.RParen, ")")] + sr + [op] + sl) == Ok((l, base + [Tok(Lexer.RParen, ")")] + sr + [op]))
    requires PAndOr(base + [Tok(Lexer.RParen, ")")] + sr) == Ok((r, base + [Tok(Lexer.RParen, ")")]))
    ensures PNeg(base + StackedBinary(sl, op, sr)) == Ok((if op.kind == Lexer.Equiv then Equiv(l, r) else Impl(l, r), base))
  {
    var n := if op.kind == Lexer.Equiv then Equiv(l, r) else Impl(l, r);
    var inner := base + [Tok(Lexer.RParen, ")")];
    var afterLeft := inner + sr + [op];
    var st := afterLeft + sl + [Tok(Lexer.LParen, "(")];
    assert base + StackedBinary(sl, op, sr) == st;
    Pop(afterLeft + sl, Tok(Lexer.LParen, "("));
    Pop(base, Tok(Lexer.RParen, ")"));
    EquivImplPair(sl, sr, l, r, op, inner);
    ParenTake(st, n, inner);
  }

  /** `l -> r` or `l <-> r` before a closing parenthesis, at the arrow level. */
  lemma EquivImplPair(sl: Stack, sr: Stack, l: Node, r: Node, op: Lexer.Token, inner: Stack)
    requires op.kind == Lexer.Impl || op.kind == Lexer.Equiv
    requires NextIs(inner, Lexer.RParen)
    requires PNeg(inner + sr + [op] + sl) == Ok((l, inner + sr + [op]))
    requires PAndOr(inner + sr) == Ok((r, inner))
    ensures PEquivImpl(inner + sr + [op] + sl) == Ok((if op.kind == Lexer.Equiv then Equiv(l, r) else Impl(l, r), inner))
  {
    var n := if op.kind == Lexer.Equiv then Equiv(l, r) else Impl(l, r);
    var afterLeft := inner + sr + [op];
    Pop(inner + sr, op);
    assert PAndOr(afterLeft + sl) == Ok((l, afterLeft));
    EquivImplTake(l, afterLeft, r, inner);
    assert EquivImplLoop(n, inner) == Ok((n, inner));
  }

  /** A printed node followed by anything but `&` or `|` is one operand
      of `parseEquivImpl`. */
  lemma {:induction false} AndOrParses(n: Node, base: Stack)
    requires Parsable(n) && !NextIs(base, Lexer.And) && !NextIs(base, Lexer.Or)
    ensures PAndOr(base + Stacked(n)) == Ok((n, base))
    decreases n, 2
  {
    UnitParses(n, base);
  }

  /** A printed node followed by anything that does not continue a
      formula parses back to itself. */
  lemma {:induction false} FormulaParses(n: Node, base: Stack)
    requires Parsable(n) && Stops(base)
    ensures PEquivImpl(base + Stacked(n)) == Ok((n, base))
    decreases n, 3
  {
    AndOrParses(n, base);
  }

  /** Round trip: parsing the printed tokens of a parsable node gives the
      node back. */
  lemma ParseInvertsEmit(n: Node)
    requires Parsable(n)
    ensures ParseTokens(Emit(n)) == Ok(n)
  {
    StackedIsReversed(n);
    FormulaParses(n, []);
    assert [] + Stacked(n) == Stacked(n);
  }

  /* ---------------------------------------------------------------------
     Precedence, associativity and the error cases, on concrete input.
     --------------------------------------------------------------------- */

  /** `x -> y -> z` is `(x -> y) -> z`: implication groups to the left,
      unlike the usual convention. */
  lemma ImplGroupsLeft(x: Node, y: Node, z: Node)
    requires Parsable(x) && Parsable(y) && Parsable(z)
    ensures PEquivImpl(Stacked(z) + [Tok(Lexer.Impl, "->")] + Stacked(y) + [Tok(Lexer.Impl, "->")] + Stacked(x))
         == Ok((Impl(Impl(x, y), z), []))
  {
    var im := Tok(Lexer.Impl, "->");
    var afterX := Stacked(z) + [im] + Stacked(y) + [im];
    var afterY := Stacked(z) + [im];
    AndOrParses(x, afterX);
    Pop(afterY + Stacked(y), im);
    AndOrParses(y, afterY);
    Pop(Stacked(z), im);
    assert [] + Stacked(z) == Stacked(z);
    AndOrParses(z, []);
    EquivImplTake(x, afterX, y, afterY);
    EquivImplTake(Impl(x, y), afterY, z, []);
    assert EquivImplLoop(Impl(Impl(x, y), z), []) == Ok((Impl(Impl(x, y), z), []));
  }

  /** `x -> y & z` is `x -> (y & z)`: `&` binds tighter than `->`. */
  lemma AndBindsTighterThanImpl(x: Node, y: Node, z: Node)
    requires Parsable(x) && Parsable(y) && Parsable(z)
    ensures PEquivImpl(Stacked(z) + [Tok(Lexer.And, "&")] + Stacked(y) + [Tok(Lexer.Impl, "->")] + Stacked(x))
         == Ok((Impl(x, And(y, z)), []))
  {
    var im, an := Tok(Lexer.Impl, "->"), Tok(Lexer.And, "&");
    var afterX := Stacked(z) + [an] + Stacked(y) + [im];
    var afterY := Stacked(z) + [an];
    AndOrParses(x, afterX);
    Pop(afterY + Stacked(y), im);
    UnitParses(y, afterY);
    Pop(Stacked(z), an);
    assert [] + Stacked(z) == Stacked(z);
    UnitParses(z, []);
    AndOrTake(y, afterY, z, []);
    assert AndOrLoop(And(y, z), []) == Ok((And(y, z), []));
    assert PAndOr(afterY + Stacked(y)) == Ok((And(y, z), []));
    EquivImplTake(x, afterX, And(y, z), []);
    assert EquivImplLoop(Impl(x, And(y, z)), []) == Ok((Impl(x, And(y, z)), []));
  }

  /** `x | y & z` is `(x | y) & z`: `&` and `|` share one level and group
      to the left. */
  lemma AndOrShareALevel(x: Node, y: Node, z: Node)
    requires Parsable(x) && Parsable(y) && Parsable(z)
    ensures PAndOr(Stacked(z) + [Tok(Lexer.And, "&")] + Stacked(y) + [Tok(Lexer.Or, "|")] + Stacked(x))
         == Ok((And(Or(x, y), z), []))
  {
    var an, or := Tok(Lexer.And, "&"), Tok(Lexer.Or, "|");
    var afterX := Stacked(z) + [an] + Stacked(y) + [or];
    var afterY := Stacked(z) + [an];
    UnitParses(x, afterX);
    Pop(afterY + Stacked(y), or);
    UnitParses(y, afterY);
    Pop(Stacked(z), an);
    assert [] + Stacked(z) == Stacked(z);
    UnitParses(z, []);
    AndOrTake(x, afterX, y, afterY);
    AndOrTake(Or(x, y), afterY, z, []);
    assert AndOrLoop(And(Or(x, y), z), []) == Ok((And(Or(x, y), z), []));
  }

  /** `!!a` is rejected: a negation applies to a parenthesised formula or
      an atom only, so the second `!` is not an identifier. */
  lemma DoubleNegationRejected(name: string, p: nat, q: nat, r: nat)
    ensures ParseTokens([Lexer.Token(Lexer.Not, "!", p), Lexer.Token(Lexer.Not, "!", q), Lexer.Token(Lexer.Ident, name, r)])
         == Err(UnexpectedToken(Identifier, "!"))
  {
    var ts := [Lexer.Token(Lexer.Not, "!", p), Lexer.Token(Lexer.Not, "!", q), Lexer.Token(Lexer.Ident, name, r)];
    var st := [Lexer.Token(Lexer.Ident, name, r), Lexer.Token(Lexer.Not, "!", q), Lexer.Token(Lexer.Not, "!", p)];
    assert Reverse(ts) == st;
    assert st[..2] == [Lexer.Token(Lexer.Ident, name, r), Lexer.Token(Lexer.Not, "!", q)];
    assert PAtom(st[..2]) == Err(UnexpectedToken(Identifier, "!"));
    assert PNeg(st) == Err(UnexpectedToken(Identifier, "!"));
    assert PAndOr(st) == Err(UnexpectedToken(Identifier, "!"));
    assert PEquivImpl(st) == Err(UnexpectedToken(Identifier, "!"));
  }

  /** The text `!!a` is rejected at the second `!`. */
  lemma DoubleNegationTextRejected()
    ensures Parse("!!a") == Err(UnexpectedToken(Identifier, "!"))
  {
    LexBangBang("!!a");
    DoubleNegationRejected("a", 0, 1, 2);
  }

  /** The tokens of `!!a`. */
  lemma LexBangBang(s: string)
    requires s == "!!a"
    ensures Lexer.Lex(s, 0) == Ok([Lexer.Token(Lexer.Not, "!", 0), Lexer.Token(Lexer.Not, "!", 1), Lexer.Token(Lexer.Ident, "a", 2)])
  {
    var n0, n1, a2 := Lexer.Token(Lexer.Not, "!", 0), Lexer.Token(Lexer.Not, "!", 1), Lexer.Token(Lexer.Ident, "a", 2);
    assert Lexer.AlnumRun(s, 3) == 0;
    assert Lexer.AlnumRun(s, 2) == 1;
    assert s[2..3] == "a";
    assert Lexer.GetToken(s, 2) == Ok((Lexer.Ident, "a", 1));
    assert Lexer.Lex(s, 3) == Ok([]);
    assert Lexer.Lex(s, 2) == Lexer.Prepend([a2], Ok([]));
    assert [a2] + [] == [a2];
    assert !Lexer.IsSpace(s[1]) && !Lexer.IsSpace(s[0]);
    assert Lexer.Lex(s, 1) == Lexer.Prepend([n1], Lexer.Lex(s, 2));
    assert [n1] + [a2] == [n1, a2];
    assert Lexer.Lex(s, 0) == Lexer.Prepend([n0], Lexer.Lex(s, 1));
    assert [n0] + [n1, a2] == [n0, n1, a2];
  }

  /** A complete formula followed by one more identifier is rejected with
      that identifier's spelling. */
  lemma TrailingTokenRejected(n: Node, name: string)
    requires Parsable(n)
    ensures ParseTokens(Emit(n) + [Tok(Lexer.Ident, name)]) == Err(TrailingInput(name))
  {
    var t := Tok(Lexer.Ident, name);
    ReverseConcat(Emit(n), [t]);
    StackedIsReversed(n);
    assert Reverse([t]) == [t];
    var st := [t] + Stacked(n);
    assert Reverse(Emit(n) + [t]) == st;
    FormulaParses(n, [t]);
    assert PEquivImpl(st) == Ok((n, [t]));
  }

  /** An opening parenthesis that is never closed runs out of tokens. */
  lemma UnclosedParenRejected(n: Node)
    requires Parsable(n)
    ensures ParseTokens([Tok(Lexer.LParen, "(")] + Emit(n)) == Err(UnexpectedEnd)
  {
    var lp := Tok(Lexer.LParen, "(");
    var st := Stacked(n) + [lp];
    OpenedReversed(n);
    Pop(Stacked(n), lp);
    FormulaParses(n, []);
    assert [] + Stacked(n) == Stacked(n);
    assert PNeg(st) == Err(UnexpectedEnd);
    assert PEquivImpl(st) == Err(UnexpectedEnd);
  }

  /** The stack of `(` followed by a printed node. */
  lemma OpenedReversed(n: Node)
    requires Parsable(n)
    ensures Reverse([Tok(Lexer.LParen, "(")] + Emit(n)) == Stacked(n) + [Tok(Lexer.LParen, "(")]
  {
    var lp := Tok(Lexer.LParen, "(");
    ReverseConcat([lp], Emit(n));
    StackedIsReversed(n);
    assert Reverse([lp]) == [lp];
  }

  /** `!a & y` is `(!a) & y`: a negation takes only the atom after it. */
  lemma NegBindsTighterThanAnd(a: string, y: Node)
    requires Parsable(y)
    ensures PAndOr(Stacked(y) + [Tok(Lexer.And, "&"), Tok(Lexer.Ident, a), Tok(Lexer.Not, "!")])
         == Ok((And(Neg(Atom(a)), y), []))
  {
    var an, id, not := Tok(Lexer.And, "&"), Tok(Lexer.Ident, a), Tok(Lexer.Not, "!");
    var afterA := Stacked(y) + [an];
    var st := afterA + [id] + [not];
    Pop(afterA + [id], not);
    Pop(afterA, id);
    assert PNeg(st) == Ok((Neg(Atom(a)), afterA));
    Pop(Stacked(y), an);
    UnitParses(y, []);
    assert [] + Stacked(y) == Stacked(y);
    AndOrTake(Neg(Atom(a)), afterA, y, []);
    assert AndOrLoop(And(Neg(Atom(a)), y), []) == Ok((And(Neg(Atom(a)), y), []));
    assert st == Stacked(y) + [an, id, not];
  }

  /** `a &` is rejected: the operand after `&` is missing at the end. */
  lemma MissingOperandAtEnd(a: string, p: nat, q: nat)
    ensures ParseTokens([Lexer.Token(Lexer.Ident, a, p), Lexer.Token(Lexer.And, "&", q)]) == Err(UnexpectedEnd)
  {
    var id, an := Lexer.Token(Lexer.Ident, a, p), Lexer.Token(Lexer.And, "&", q);
    var st := [an, id];
    assert Reverse([id, an]) == st;
    assert st[..1] == [an];
    assert PNeg(st) == Ok((Atom(a), [an]));
    assert [an][..0] == [];
    assert PNeg([]) == Err(UnexpectedEnd);
    assert AndOrLoop(Atom(a), [an]) == Err(UnexpectedEnd);
    assert PEquivImpl(st) == Err(UnexpectedEnd);
  }

  /** The text `a &` runs out of tokens. */
  lemma MissingOperandAtEndText()
    ensures Parse("a &") == Err(UnexpectedEnd)
  {
    var s := "a &";
    var a0, n2 := Lexer.Token(Lexer.Ident, "a", 0), Lexer.Token(Lexer.And, "&", 2);
    assert Lexer.Lex(s, 3) == Ok([]);
    assert !Lexer.IsSpace(s[2]) && !Lexer.IsSpace(s[0]);
    assert Lexer.GetToken(s, 2) == Ok((Lexer.And, "&", 1));
    assert Lexer.Lex(s, 2) == Lexer.Prepend([n2], Ok([]));
    assert [n2] + [] == [n2];
    assert Lexer.SpaceRun(s, 2) == 0;
    assert Lexer.SpaceRun(s, 1) == 1;
    assert Lexer.Lex(s, 1) == Ok([n2]);
    assert Lexer.AlnumRun(s, 1) == 0;
    assert Lexer.AlnumRun(s, 0) == 1;
    assert s[0..1] == "a";
    assert Lexer.GetToken(s, 0) == Ok((Lexer.Ident, "a", 1));
    assert Lexer.Lex(s, 0) == Lexer.Prepend([a0], Lexer.Lex(s, 1));
    assert [a0] + [n2] == [a0, n2];
    MissingOperandAtEnd("a", 0, 2);
  }

  /** `x & & y` is rejected: the second `&` is not an identifier. */
  lemma MissingOperandBeforeOperator(a: string, b: string, p: nat, q: nat, r: nat, t: nat)
    ensures ParseTokens([Lexer.Token(Lexer.Ident, a, p), Lexer.Token(Lexer.And, "&", q), Lexer.Token(Lexer.And, "&", r), Lexer.Token(Lexer.Ident, b, t)])
         == Err(UnexpectedToken(Identifier, "&"))
  {
    var ia, n1, n2, ib := Lexer.Token(Lexer.Ident, a, p), Lexer.Token(Lexer.And, "&", q), Lexer.Token(Lexer.And, "&", r), Lexer.Token(Lexer.Ident, b, t);
    var st := [ib, n2, n1, ia];
    assert Reverse([ia, n1, n2, ib]) == st;
    var mid := [ib, n2, n1];
    assert st[..3] == mid;
    assert PNeg(st) == Ok((Atom(a), mid));
    assert mid[..2] == [ib, n2];
    assert PNeg(mid[..2]) == Err(UnexpectedToken(Identifier, "&"));
    assert AndOrLoop(Atom(a), mid) == Err(UnexpectedToken(Identifier, "&"));
    assert PEquivImpl(st) == Err(UnexpectedToken(Identifier, "&"));
  }

  /** The text `a&&b` is rejected at the second `&`. */
  lemma MissingOperandBeforeOperatorText()
    ensures Parse("a&&b") == Err(UnexpectedToken(Identifier, "&"))
  {
    LexDoubledAnd("a&&b");
    MissingOperandBeforeOperator("a", "b", 0, 1, 2, 3);
  }

  /** The tokens of `a&&b`. */
  lemma LexDoubledAnd(s: string)
    requires s == "a&&b"
    ensures Lexer.Lex(s, 0)
         == Ok([Lexer.Token(Lexer.Ident, "a", 0), Lexer.Token(Lexer.And, "&", 1), Lexer.Token(Lexer.And, "&", 2), Lexer.Token(Lexer.Ident, "b", 3)])
  {
    var a0, n1, n2, b3 := Lexer.Token(Lexer.Ident, "a", 0), Lexer.Token(Lexer.And, "&", 1), Lexer.Token(Lexer.And, "&", 2), Lexer.Token(Lexer.Ident, "b", 3);
    LexDoubledAndTail(s);
    assert !Lexer.IsSpace(s[1]) && !Lexer.IsSpace(s[0]);
    assert Lexer.GetToken(s, 1) == Ok((Lexer.And, "&", 1));
    assert Lexer.Lex(s, 1) == Lexer.Prepend([n1], Lexer.Lex(s, 2));
    assert [n1] + [n2, b3] == [n1, n2, b3];
    assert Lexer.AlnumRun(s, 1) == 0;
    assert Lexer.AlnumRun(s, 0) == 1;
    assert s[0..1] == "a";
    assert Lexer.GetToken(s, 0) == Ok((Lexer.Ident, "a", 1));
    assert Lexer.Lex(s, 0) == Lexer.Prepend([a0], Lexer.Lex(s, 1));
    assert [a0] + [n1, n2, b3] == [a0, n1, n2, b3];
  }

  /** The tokens of `a&&b` from offset 2. */
  lemma LexDoubledAndTail(s: string)
    requires s == "a&&b"
    ensures Lexer.Lex(s, 2) == Ok([Lexer.Token(Lexer.And, "&", 2), Lexer.Token(Lexer.Ident, "b", 3)])
  {
    var n2, b3 := Lexer.Token(Lexer.And, "&", 2), Lexer.Token(Lexer.Ident, "b", 3);
    assert Lexer.AlnumRun(s, 4) == 0;
    assert Lexer.AlnumRun(s, 3) == 1;
    assert s[3..4] == "b";
    assert Lexer.GetToken(s, 3) == Ok((Lexer.Ident, "b", 1));
    assert Lexer.Lex(s, 4) == Ok([]);
    assert !Lexer.IsSpace(s[3]) && !Lexer.IsSpace(s[2]);
    assert Lexer.Lex(s, 3) == Lexer.Prepend([b3], Ok([]));
    assert [b3] + [] == [b3];
    assert Lexer.GetToken(s, 2) == Ok((Lexer.And, "&", 1));
    assert Lexer.Lex(s, 2) == Lexer.Prepend([n2], Lexer.Lex(s, 3));
    assert [n2] + [b3] == [n2, b3];
  }

  /** `x -> y <-> z` is `(x -> y) <-> z`: the two arrows share one level
      and group to the left. */
  lemma EquivImplShareALevel(x: Node, y: Node, z: Node)
    requires Parsable(x) && Parsable(y) && Parsable(z)
    ensures PEquivImpl(Stacked(z) + [Tok(Lexer.Equiv, "<->")] + Stacked(y) + [Tok(Lexer.Impl, "->")] + Stacked(x))
         == Ok((Equiv(Impl(x, y), z), []))
  {
    var im, eq := Tok(Lexer.Impl, "->"), Tok(Lexer.Equiv, "<->");
    var afterX := Stacked(z) + [eq] + Stacked(y) + [im];
    var afterY := Stacked(z) + [eq];
    AndOrParses(x, afterX);
    Pop(afterY + Stacked(y), im);
    AndOrParses(y, afterY);
    Pop(Stacked(z), eq);
    assert [] + Stacked(z) == Stacked(z);
    AndOrParses(z, []);
    EquivImplTake(x, afterX, y, afterY);
    EquivImplTake(Impl(x, y), afterY, z, []);
    assert EquivImplLoop(Equiv(Impl(x, y), z), []) == Ok((Equiv(Impl(x, y), z), []));
  }
}
