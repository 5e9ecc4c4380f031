/** The tokenizer of src/lib/logic/token.ts. The text still to tokenize,
    which the source keeps as `f` and shortens with `substring`, is always
    the input from offset `pos` on; here it is named by that offset. */
module Lexer {
  import opened Types

  datatype TokenKind = And | Or | Not | Impl | Equiv | LParen | RParen | Ident | Unknown

  /** A token with its spelling and the offset of its first character in
      the tokenized text. */
  datatype Token = Token(kind: TokenKind, spelling: string, srcPos: nat)

  /** The JavaScript regular-expression class `\s`. */
  predicate IsSpace(c: char) {
    || c == ' ' || c == '\t' || c == '\n' || c == '\r' || c == '\U{000B}' || c == '\U{000C}'
    || c == '\U{00A0}' || c == '\U{1680}' || ('\U{2000}' <= c <= '\U{200A}')
    || c == '\U{2028}' || c == '\U{2029}' || c == '\U{202F}' || c == '\U{205F}'
    || c == '\U{3000}' || c == '\U{FEFF}'
  }

  /** The regular-expression class `[a-zA-Z0-9]`. */
  predicate IsAlnum(c: char) {
    ('a' <= c <= 'z') || ('A' <= c <= 'Z') || ('0' <= c <= '9')
  }

  /** Length of the match of `/^\s+/` on the text from offset `i`, 0 when
      there is none. */
  function SpaceRun(s: string, i: nat): (l: nat)
    requires i <= |s|
    ensures i + l <= |s|
    ensures i + l == |s| || !IsSpace(s[i + l])
    decreases |s| - i
  {
    if i < |s| && IsSpace(s[i]) then 1 + SpaceRun(s, i + 1) else 0
  }

  /** Length of the match of `/^[a-zA-Z0-9]+/` on the text from offset `i`,
      0 when there is none. */
  function AlnumRun(s: string, i: nat): (l: nat)
    requires i <= |s|
    ensures i + l <= |s|
    ensures i + l == |s| || !IsAlnum(s[i + l])
    decreases |s| - i
  {
    if i < |s| && IsAlnum(s[i]) then 1 + AlnumRun(s, i + 1) else 0
  }

  /** The whole whitespace run is whitespace. */
  lemma {:induction false} SpaceRunIsSpace(s: string, i: nat)
    requires i <= |s|
    ensures forall k | i <= k < i + SpaceRun(s, i) :: IsSpace(s[k])
    decreases |s| - i
  {
    if i < |s| && IsSpace(s[i]) {
      SpaceRunIsSpace(s, i + 1);
    }
  }

  /** The whole identifier run is letters and digits. */
  lemma {:induction false} AlnumRunIsAlnum(s: string, i: nat)
    requires i <= |s|
    ensures forall k | i <= k < i + AlnumRun(s, i) :: IsAlnum(s[k])
    decreases |s| - i
  {
    if i < |s| && IsAlnum(s[i]) {
      AlnumRunIsAlnum(s, i + 1);
    }
  }

  /** The kind a token starting with `c` must have. */
  function KindFor(c: char): TokenKind {
    match c
    case '&' => TokenKind.And
    case '|' => TokenKind.Or
    case '!' => TokenKind.Not
    case '(' => TokenKind.LParen
    case ')' => TokenKind.RParen
    case '-' => TokenKind.Impl
    case '<' => TokenKind.Equiv
    case _ => TokenKind.Ident
  }

  /** `f.startsWith('->')` for the text from offset `i`. */
  predicate ArrowAt(s: string, i: nat) {
    i + 2 <= |s| && s[i] == '-' && s[i + 1] == '>'
  }

  /** `f.startsWith('<->')` for the text from offset `i`. */
  predicate DoubleArrowAt(s: string, i: nat) {
    i + 3 <= |s| && s[i] == '<' && s[i + 1] == '-' && s[i + 2] == '>'
  }

  /** True when no token can start at offset `i`. */
  predicate BadStart(s: string, i: nat)
    requires i < |s|
  {
    || (s[i] == '-' && !ArrowAt(s, i))
    || (s[i] == '<' && !DoubleArrowAt(s, i))
    || (s[i] !in "&|!()-<" && !IsAlnum(s[i]))
  }

  /** No character of `t` is whitespace. */
  predicate Solid(t: string) {
    forall k | 0 <= k < |t| :: !IsSpace(t[k])
  }

  /** `spelling` is the `len` characters from offset `i`, a token of the
      kind its first character calls for: an identifier is a maximal run
      of letters and digits, an implication is `->`, an equivalence `<->`,
      and every other operator is its one character. */
  predicate Classifies(s: string, i: nat, kind: TokenKind, spelling: string, len: nat) {
    && 1 <= len && i + len <= |s| && spelling == s[i..i + len]
    && kind == KindFor(s[i]) && kind != Unknown
    && (kind == Ident ==> (forall k | i <= k < i + len :: IsAlnum(s[k])) && (i + len == |s| || !IsAlnum(s[i + len])))
    && (kind == TokenKind.Impl ==> spelling == "->")
    && (kind == TokenKind.Equiv ==> spelling == "<->")
    && (kind != Ident && kind != TokenKind.Impl && kind != TokenKind.Equiv ==> len == 1)
    && Solid(spelling)
  }

  /** `getToken` on the text from offset `i`: its kind, spelling and
      length. A character that is neither an operator nor alphanumeric
      fails; the source reaches that failure through a null dereference in
      its guard rather than its intended message. */
  function GetToken(s: string, i: nat): (r: Result<(TokenKind, string, nat)>)
    requires i < |s|
    ensures r.Err? ==> r.error.LexError? && r.error.pos == i
    ensures r.Ok? ==> 1 <= r.value.2 && i + r.value.2 <= |s|
  {
    match s[i]
    case '&' => Ok((TokenKind.And, "&", 1))
    case '|' => Ok((TokenKind.Or, "|", 1))
    case '!' => Ok((TokenKind.Not, "!", 1))
    case '(' => Ok((TokenKind.LParen, "(", 1))
    case ')' => Ok((TokenKind.RParen, ")", 1))
    case '-' =>
      if ArrowAt(s, i) then Ok((TokenKind.Impl, "->", 2)) else Err(LexError(i, ImplArrow))
    case '<' =>
      if DoubleArrowAt(s, i) then Ok((TokenKind.Equiv, "<->", 3)) else Err(LexError(i, EquivArrow))
    case _ =>
      var len := AlnumRun(s, i);
      if len == 0 then Err(LexError(i, Identifier)) else Ok((Ident, s[i..i + len], len))
  }

  /** A token `getToken` finds is the text it starts with, of the kind its
      first character calls for. */
  lemma GetTokenClassifies(s: string, i: nat)
    requires i < |s| && GetToken(s, i).Ok?
    ensures var (kind, spelling, len) := GetToken(s, i).value; Classifies(s, i, kind, spelling, len)
  {
    AlnumRunIsAlnum(s, i);
    var (kind, spelling, len) := GetToken(s, i).value;
    if kind != Ident {
      assert spelling == s[i..i + len];
    }
  }

  /** `getToken` fails exactly when the text starts with a lone `-`, a `<`
      not followed by `->`, or a character that is neither an operator nor
      a letter or digit. */
  lemma GetTokenFailsExactly(s: string, i: nat)
    requires i < |s|
    ensures GetToken(s, i).Err? <==> BadStart(s, i)
  {
  }

  /** The text from offset `i` with every whitespace character removed. */
  function RemoveSpaces(s: string, i: nat): string
    requires i <= |s|
    decreases |s| - i
  {
    if i == |s| then ""
    else if IsSpace(s[i]) then RemoveSpaces(s, i + 1)
    else [s[i]] + RemoveSpaces(s, i + 1)
  }

  /** All spellings of `ts`, concatenated. */
  function Spellings(ts: seq<Token>): string {
    if |ts| == 0 then "" else ts[0].spelling + Spellings(ts[1..])
  }

  /** Each token's spelling is the text found at its offset, which is at
      least `i`; no token is empty or of kind Unknown; and the tokens follow
      one another without overlapping. */
  predicate WellPlaced(ts: seq<Token>, s: string, i: nat) {
    && (forall k | 0 <= k < |ts| ::
          && i <= ts[k].srcPos
          && ts[k].srcPos + |ts[k].spelling| <= |s|
          && s[ts[k].srcPos .. ts[k].srcPos + |ts[k].spelling|] == ts[k].spelling
          && |ts[k].spelling| > 0
          && ts[k].kind != Unknown)
    && (forall k | 0 <= k < |ts| - 1 :: ts[k].srcPos + |ts[k].spelling| <= ts[k + 1].srcPos)
  }

  /** Prepends the tokens already produced to the outcome for the rest. */
  function Prepend(toks: seq<Token>, r: Result<seq<Token>>): Result<seq<Token>> {
    match r
    case Ok(rest) => Ok(toks + rest)
    case Err(e) => Err(e)
  }

  /** What `tokenize` produces for the text from offset `i`: a whitespace
      run is skipped, anything else is classified by `getToken`, whose
      failure ends tokenizing. */
  function Lex(s: string, i: nat): (r: Result<seq<Token>>)
    requires i <= |s|
    ensures r.Err? ==> r.error.LexError? && i <= r.error.pos < |s|
    decreases |s| - i
  {
    if i == |s| then Ok([])
    else if IsSpace(s[i]) then Lex(s, i + SpaceRun(s, i))
    else
      var t := GetToken(s, i);
      if t.Err? then Err(t.error)
      else Prepend([Token(t.value.0, t.value.1, i)], Lex(s, i + t.value.2))
  }

  /** Every token `Lex` produces is the text found at its offset, and the
      tokens come in order without overlapping. */
  lemma {:induction false} LexWellPlaced(s: string, i: nat)
    requires i <= |s|
    ensures Lex(s, i).Ok? ==> WellPlaced(Lex(s, i).value, s, i)
    decreases |s| - i
  {
    if i == |s| {
    } else if IsSpace(s[i]) {
      var j := i + SpaceRun(s, i);
      LexWellPlaced(s, j);
      if Lex(s, j).Ok? {
        WellPlacedEarlier(Lex(s, j).value, s, i, j);
      }
    } else if GetToken(s, i).Ok? {
      LexWellPlaced(s, i + GetToken(s, i).value.2);
      TokenPlaced(s, i);
    }
  }

  /** The step of `LexWellPlaced` for a token: the token found at `i`,
      followed by well-placed tokens for the rest, is well placed. */
  lemma TokenPlaced(s: string, i: nat)
    requires i < |s| && !IsSpace(s[i]) && GetToken(s, i).Ok?
    requires var len := GetToken(s, i).value.2;
      Lex(s, i + len).Ok? ==> WellPlaced(Lex(s, i + len).value, s, i + len)
    ensures Lex(s, i).Ok? ==> WellPlaced(Lex(s, i).value, s, i)
  {
    var (kind, spelling, len) := GetToken(s, i).value;
    GetTokenClassifies(s, i);
    var rest := Lex(s, i + len);
    if rest.Ok? {
      assert Lex(s, i) == Ok([Token(kind, spelling, i)] + rest.value);
      ConsWellPlaced(s, i, Token(kind, spelling, i), len, rest.value);
    }
  }

  /** Tokens placed at or after offset `j` are also placed at or after any
      earlier offset. */
  lemma WellPlacedEarlier(ts: seq<Token>, s: string, i: nat, j: nat)
    requires i <= j && WellPlaced(ts, s, j)
    ensures WellPlaced(ts, s, i)
  {
  }

  /** Together the tokens `Lex` produces spell the text with its
      whitespace removed. */
  lemma {:induction false} LexSpelled(s: string, i: nat)
    requires i <= |s|
    ensures Lex(s, i).Ok? ==> Spellings(Lex(s, i).value) == RemoveSpaces(s, i)
    decreases |s| - i
  {
    if i == |s| {
    } else if IsSpace(s[i]) {
      var l := SpaceRun(s, i);
      LexSpelled(s, i + l);
      SpaceRunIsSpace(s, i);
      SpacesRemoved(s, i, l);
    } else if GetToken(s, i).Ok? {
      LexSpelled(s, i + GetToken(s, i).value.2);
      TokenSpelled(s, i);
    }
  }

  /** The step of `LexSpelled` for a token: a token has no whitespace, so
      when the tokens after it spell the rest of the text, the token and
      they spell the text from its own offset. */
  lemma TokenSpelled(s: string, i: nat)
    requires i < |s| && !IsSpace(s[i]) && GetToken(s, i).Ok?
    requires var len := GetToken(s, i).value.2;
      Lex(s, i + len).Ok? ==> Spellings(Lex(s, i + len).value) == RemoveSpaces(s, i + len)
    ensures Lex(s, i).Ok? ==> Spellings(Lex(s, i).value) == RemoveSpaces(s, i)
  {
    var (kind, spelling, len) := GetToken(s, i).value;
    GetTokenClassifies(s, i);
    var rest := Lex(s, i + len);
    if rest.Ok? {
      var t := Token(kind, spelling, i);
      assert Lex(s, i) == Ok([t] + rest.value);
      SolidText(s, i, len);
      SpellingRemoved(s, i, len);
      SpellingsCons(t, rest.value);
    }
  }

  /** A failure is reported at the offset of a non-whitespace character
      where no token can start. */
  lemma {:induction false} LexFailsAtBadStart(s: string, i: nat)
    requires i <= |s|
    ensures Lex(s, i).Err? ==>
      var k := Lex(s, i).error.pos; i <= k < |s| && !IsSpace(s[k]) && BadStart(s, k)
    decreases |s| - i
  {
    if i == |s| {
    } else if IsSpace(s[i]) {
      LexFailsAtBadStart(s, i + SpaceRun(s, i));
    } else if GetToken(s, i).Err? {
      GetTokenFailsExactly(s, i);
    } else {
      LexFailsAtBadStart(s, i + GetToken(s, i).value.2);
    }
  }

  /** Putting the token found at offset `i` in front of the well-placed
      tokens of the text after it keeps them well placed. */
  lemma ConsWellPlaced(s: string, i: nat, t: Token, len: nat, rest: seq<Token>)
    requires 1 <= len && i + len <= |s| && t.spelling == s[i..i + len] && t.srcPos == i && t.kind != Unknown
    requires WellPlaced(rest, s, i + len)
    ensures WellPlaced([t] + rest, s, i)
  {
    var ts := [t] + rest;
    assert forall k | 1 <= k < |ts| :: ts[k] == rest[k - 1];
  }

  lemma SolidText(s: string, i: nat, len: nat)
    requires i + len <= |s| && Solid(s[i..i + len])
    ensures forall k | i <= k < i + len :: !IsSpace(s[k])
  {
    forall k | i <= k < i + len ensures !IsSpace(s[k]) {
      assert s[k] == s[i..i + len][k - i];
    }
  }

  lemma SpellingsCons(t: Token, rest: seq<Token>)
    ensures Spellings([t] + rest) == t.spelling + Spellings(rest)
  {
    assert ([t] + rest)[1..] == rest;
  }

  lemma {:induction false} SpacesRemoved(s: string, i: nat, l: nat)
    requires i + l <= |s|
    requires forall k | i <= k < i + l :: IsSpace(s[k])
    ensures RemoveSpaces(s, i) == RemoveSpaces(s, i + l)
    decreases l
  {
    if l > 0 {
      SpacesRemoved(s, i + 1, l - 1);
    }
  }

  lemma ConcatAssoc(a: string, b: string, c: string)
    ensures a + (b + c) == (a + b) + c
  {
  }

  lemma {:induction false} SpellingRemoved(s: string, i: nat, len: nat)
    requires i + len <= |s|
    requires forall k | i <= k < i + len :: !IsSpace(s[k])
    ensures RemoveSpaces(s, i) == s[i..i + len] + RemoveSpaces(s, i + len)
    decreases len
  {
    if len > 0 {
      var head, tail, rest := s[i], s[i + 1..i + len], RemoveSpaces(s, i + len);
      assert !IsSpace(head);
      assert RemoveSpaces(s, i) == [head] + RemoveSpaces(s, i + 1);
      SpellingRemoved(s, i + 1, len - 1);
      assert s[i..i + len] == [head] + tail;
      ConcatAssoc([head], tail, rest);
    }
  }

  /** `tokenize`: strips leading whitespace runs, classifies the next
      token and records the offset it was found at. */
  method Tokenize(input: string) returns (r: Result<seq<Token>>)
    ensures r == Lex(input, 0)
  {
    var toks: seq<Token> := [];
    var pos: nat := 0;
    ghost var whole := Lex(input, 0);
    PrependNothing(whole);
    while pos < |input|
      invariant pos <= |input|
      invariant whole == Prepend(toks, Lex(input, pos))
      decreases |input| - pos
    {
      var l := SpaceRun(input, pos);
      if l > 0 {
        pos := pos + l;
      } else {
        var t := GetToken(input, pos);
        if t.Err? {
          return Err(t.error);
        }
        var tok := Token(t.value.0, t.value.1, pos);
        TakeToken(whole, toks, input, pos, tok, t.value.2);
        toks := toks + [tok];
        pos := pos + t.value.2;
      }
    }
    assert toks + [] == toks;
    return Ok(toks);
  }

  lemma PrependNothing(r: Result<seq<Token>>)
    ensures Prepend([], r) == r
  {
    if r.Ok? { assert [] + r.value == r.value; }
  }

  /** Taking the next token moves it from the tokens still to come to the
      tokens produced. */
  lemma TakeToken(whole: Result<seq<Token>>, toks: seq<Token>, s: string, i: nat, tok: Token, len: nat)
    requires i < |s| && !IsSpace(s[i])
    requires GetToken(s, i) == Ok((tok.kind, tok.spelling, len)) && tok.srcPos == i
    requires whole == Prepend(toks, Lex(s, i))
    ensures whole == Prepend(toks + [tok], Lex(s, i + len))
  {
    var r := Lex(s, i + len);
    assert Lex(s, i) == Prepend([tok], r);
    if r.Ok? { assert toks + ([tok] + r.value) == (toks + [tok]) + r.value; }
  }
}
