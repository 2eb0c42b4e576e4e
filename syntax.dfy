/** Tokens of a template attribute list as the attribute parser sees them,
    the parse errors it can raise, and the one-token readers it borrows from
    the parsing library (`Ident::parse_any`, `Ident::parse`, `Token![..]`,
    `Expr::parse`). Positions are cursor positions: an index into the token
    sequence, never beyond its end. */
module Syntax {

  /** One token tree. Identifier and keyword spellings are kept apart because
      `Ident::parse` refuses keywords while `Ident::parse_any` accepts them. */
  datatype Token =
    | Ident(name: string)        // an identifier that is not a keyword
    | Keyword(name: string)      // a keyword spelled like an identifier (`ref`, `type`, ...)
    | Hyphen                     // `-`
    | Colon                      // `:`
    | Eq                         // `=`
    | Comma                      // `,`
    | Expr(code: string)         // a whole value expression, kept opaque
    | Group(inner: seq<Token>)   // a parenthesised group `( ... )`

  /** A parse failure. Spans are not modelled. */
  datatype Error =
    | ExpectedIdent                      // no identifier-shaped token
    | KeywordIsNotIdent(keyword: string) // `Ident::parse` met a keyword
    | ExpectedToken(token: Token)        // a required punctuation token is missing
    | ExpectedExpr                       // no expression where the value belongs
    | ExpectedParens                     // no parenthesised group
    | UnknownDirective(name: string)     // `name:` with a name other than `on` and `bind`

  /** The diagnostic text of an error. */
  function Message(e: Error): string
  {
    match e
    case ExpectedIdent => "expected identifier"
    case KeywordIsNotIdent(k) => "expected identifier, found keyword `" + k + "`"
    case ExpectedToken(t) => "expected `" + Spelling(t) + "`"
    case ExpectedExpr => "expected expression"
    case ExpectedParens => "expected parentheses"
    case UnknownDirective(name) => "unknown directive `" + name + "`"
  }

  function Spelling(t: Token): string
  {
    match t
    case Ident(s) => s
    case Keyword(s) => s
    case Hyphen => "-"
    case Colon => ":"
    case Eq => "="
    case Comma => ","
    case Expr(code) => code
    case Group(_) => "(...)"
  }

  /** The outcome of a parse; failure-compatible so that `:-` plays the part
      of Rust's `?`. */
  datatype Result<+T> = Ok(value: T) | Err(error: Error) {
    predicate IsFailure() { Err? }
    function PropagateFailure<U>(): Result<U> requires Err? { Err(error) }
    function Extract(): T requires Ok? { value }
  }

  /** A parsed value together with the cursor position after it. */
  datatype Parsed<+T> = Parsed(value: T, next: nat)

  /** `input.peek(t)`: the next token is `t`. */
  predicate PeekAt(toks: seq<Token>, pos: nat, t: Token)
  {
    pos < |toks| && toks[pos] == t
  }

  /** The token spells the identifier `s`, keyword or not. */
  predicate IdentLike(t: Token, s: string)
  {
    t == Ident(s) || t == Keyword(s)
  }

  /** `Ident::parse_any`: any identifier-shaped token, keywords included. */
  function AnyIdentAt(toks: seq<Token>, pos: nat): Result<Parsed<string>>
  {
    if pos < |toks| && (toks[pos].Ident? || toks[pos].Keyword?) then
      Ok(Parsed(toks[pos].name, pos + 1))
    else
      Err(ExpectedIdent)
  }

  /** `Ident::parse`: an identifier that is not a keyword. */
  function IdentAt(toks: seq<Token>, pos: nat): Result<Parsed<string>>
  {
    if pos < |toks| && toks[pos].Ident? then
      Ok(Parsed(toks[pos].name, pos + 1))
    else if pos < |toks| && toks[pos].Keyword? then
      Err(KeywordIsNotIdent(toks[pos].name))
    else
      Err(ExpectedIdent)
  }

  /** `Token![-]`, `Token![:]`, `Token![=]`, `Token![,]`: the punctuation `t`. */
  function PunctAt(toks: seq<Token>, pos: nat, t: Token): Result<Parsed<Token>>
  {
    if PeekAt(toks, pos, t) then Ok(Parsed(t, pos + 1)) else Err(ExpectedToken(t))
  }

  /** `Expr::parse`: the expression is one opaque token. */
  function ExprAt(toks: seq<Token>, pos: nat): Result<Parsed<string>>
  {
    if pos < |toks| && toks[pos].Expr? then Ok(Parsed(toks[pos].code, pos + 1)) else Err(ExpectedExpr)
  }

  /** Prefix the values already collected to the rest of a sequence parse. */
  function Prepend<T>(xs: seq<T>, r: Result<Parsed<seq<T>>>): Result<Parsed<seq<T>>>
  {
    match r
    case Ok(Parsed(ys, q)) => Ok(Parsed(xs + ys, q))
    case Err(e) => Err(e)
  }

  /** Collecting in two steps is collecting once. */
  lemma PrependPrepend<T>(xs: seq<T>, ys: seq<T>, r: Result<Parsed<seq<T>>>)
    ensures Prepend(xs, Prepend(ys, r)) == Prepend(xs + ys, r)
  {
    if r.Ok? {
      assert xs + (ys + r.value.value) == (xs + ys) + r.value.value;
    }
  }

  lemma PrependNil<T>(r: Result<Parsed<seq<T>>>)
    ensures Prepend([], r) == r
  {
    if r.Ok? {
      assert [] + r.value.value == r.value.value;
    }
  }

  lemma PrependEnd<T>(xs: seq<T>, p: nat)
    ensures Prepend(xs, Ok(Parsed([], p))) == Ok(Parsed(xs, p))
  {
    assert xs + [] == xs;
  }
}
