/** The directive classifier (`AttributeType::parse`), one attribute
    `directive = expr` (`Attribute::parse`) and the parenthesised,
    comma-separated attribute list (`AttributeList::parse`), as functions of
    the token sequence and a cursor position. */
module Directives {
  import opened Syntax
  import opened Names
  import opened Punctuated

  /** Exactly one of the four attribute forms. */
  datatype AttributeType =
    | DomAttribute(name: AttributeName)   // `name` or `data-foo`
    | Event(event: string)                // `on:event`
    | Bind(prop: string)                  // `bind:prop`
    | Ref                                 // `ref`

  /** A directive with its value expression (the `=` token carries nothing). */
  datatype Attribute = Attribute(ty: AttributeType, expr: string)

  datatype AttributeList = AttributeList(attributes: seq<Attribute>)

  /** The decision taken once the name has been read and the cursor stands
      at `p`, as written: the full dashed display of the name is compared,
      and `ref` wins before any `:` is looked at. */
  function ClassifyByDisplay(name: AttributeName, toks: seq<Token>, p: nat): (r: Result<Parsed<AttributeType>>)
    requires p <= |toks|
  {
    var s := NameString(name);
    if s == "ref" then
      Ok(Parsed(Ref, p))
    else if PeekAt(toks, p, Colon) then
      // the colon is consumed before the name is inspected
      if s == "on" then
        var event :- AnyIdentAt(toks, p + 1);
        Ok(Parsed(Event(event.value), event.next))
      else if s == "bind" then
        var prop :- AnyIdentAt(toks, p + 1);
        Ok(Parsed(Bind(prop.value), prop.next))
      else
        Err(UnknownDirective(s))
    else
      Ok(Parsed(DomAttribute(name), p))
  }

  /** The same decision on the structure of the name: a display equals one
      of the dash-free words exactly when the name is that word alone
      (`ClassifyIsByDisplay`). */
  function Classify(name: AttributeName, toks: seq<Token>, p: nat): (r: Result<Parsed<AttributeType>>)
    requires p <= |toks|
    ensures r.Ok? ==> p <= r.value.next <= |toks|
  {
    if name == AttributeName("ref", []) then
      Ok(Parsed(Ref, p))
    else if PeekAt(toks, p, Colon) then
      if name == AttributeName("on", []) then
        var event :- AnyIdentAt(toks, p + 1);
        Ok(Parsed(Event(event.value), event.next))
      else if name == AttributeName("bind", []) then
        var prop :- AnyIdentAt(toks, p + 1);
        Ok(Parsed(Bind(prop.value), prop.next))
      else
        Err(UnknownDirective(NameString(name)))
    else
      Ok(Parsed(DomAttribute(name), p))
  }

  lemma ClassifyIsByDisplay(name: AttributeName, toks: seq<Token>, p: nat)
    requires p <= |toks|
    ensures Classify(name, toks, p) == ClassifyByDisplay(name, toks, p)
  {
    NameStringIsWord(name, "ref");
    NameStringIsWord(name, "on");
    NameStringIsWord(name, "bind");
  }

  /** `AttributeType::parse`. */
  function TypeAt(toks: seq<Token>, pos: nat): (r: Result<Parsed<AttributeType>>)
    requires pos <= |toks|
    ensures r.Ok? ==> pos < r.value.next <= |toks|
  {
    var name :- NameAt(toks, pos);
    Classify(name.value, toks, name.next)
  }

  /** `Attribute::parse`: directive, `=`, expression, in that order. */
  function AttributeAt(toks: seq<Token>, pos: nat): (r: Result<Parsed<Attribute>>)
    requires pos <= |toks|
    ensures r.Ok? ==> pos + 3 <= r.value.next <= |toks|
  {
    var ty :- TypeAt(toks, pos);
    var eq :- PunctAt(toks, ty.next, Eq);
    var expr :- ExprAt(toks, eq.next);
    Ok(Parsed(Attribute(ty.value, expr.value), expr.next))
  }

  /** The attribute reader may be handed to the sequence reader. */
  lemma AttributeAtAdvances(toks: seq<Token>)
    ensures Advances(AttributeAt, toks)
  {
  }

  /** `parse_terminated(Attribute::parse)` from the cursor `p` on:
      attributes separated by `,`, an optional trailing `,`, and the rest
      of the content consumed. */
  function TerminatedFrom(toks: seq<Token>, p: nat): (r: Result<Parsed<seq<Attribute>>>)
    requires p <= |toks|
    ensures r.Ok? ==> r.value.next == |toks|
  {
    AttributeAtAdvances(toks);
    Terminated(AttributeAt, toks, p)
  }

  /** The whole content of a group read as a terminated attribute sequence. */
  function TerminatedAt(toks: seq<Token>): (r: Result<Parsed<seq<Attribute>>>)
    ensures r.Ok? ==> r.value.next == |toks|
  {
    TerminatedFrom(toks, 0)
  }

  /** `AttributeList::parse`: a parenthesised group whose content is the
      terminated attribute sequence. */
  function ListAt(toks: seq<Token>, pos: nat): (r: Result<Parsed<AttributeList>>)
    requires pos <= |toks|
    ensures r.Ok? ==> r.value.next == pos + 1
  {
    if pos < |toks| && toks[pos].Group? then
      var content :- TerminatedAt(toks[pos].inner);
      Ok(Parsed(AttributeList(content.value), pos + 1))
    else
      Err(ExpectedParens)
  }

  // ------------------------------------------------------ the classifier

  /** `ref` (keyword or not) followed by anything but `-` is `Ref`, and
      nothing after it is consumed, not even a `:`. */
  lemma TypeAtRef(toks: seq<Token>, pos: nat, n: AttributeName, q: nat)
    requires pos <= |toks|
    requires NameSpelledAt(toks, pos, n, q) && NameString(n) == "ref"
    ensures TypeAt(toks, pos) == Ok(Parsed(Ref, q))
  {
    NameAtIff(toks, pos, n, q);
    ClassifyIsByDisplay(n, toks, q);
  }

  /** `on:event` yields `Event` carrying the qualifier, keywords allowed. */
  lemma TypeAtEvent(toks: seq<Token>, pos: nat, n: AttributeName, q: nat)
    requires pos <= |toks|
    requires NameSpelledAt(toks, pos, n, q) && NameString(n) == "on" && PeekAt(toks, q, Colon)
    ensures TypeAt(toks, pos) ==
              if q + 1 < |toks| && (toks[q + 1].Ident? || toks[q + 1].Keyword?)
              then Ok(Parsed(Event(toks[q + 1].name), q + 2))
              else Err(ExpectedIdent)
  {
    NameAtIff(toks, pos, n, q);
    ClassifyIsByDisplay(n, toks, q);
  }

  /** `bind:prop` yields `Bind` carrying the qualifier, keywords allowed. */
  lemma TypeAtBind(toks: seq<Token>, pos: nat, n: AttributeName, q: nat)
    requires pos <= |toks|
    requires NameSpelledAt(toks, pos, n, q) && NameString(n) == "bind" && PeekAt(toks, q, Colon)
    ensures TypeAt(toks, pos) ==
              if q + 1 < |toks| && (toks[q + 1].Ident? || toks[q + 1].Keyword?)
              then Ok(Parsed(Bind(toks[q + 1].name), q + 2))
              else Err(ExpectedIdent)
  {
    NameAtIff(toks, pos, n, q);
    ClassifyIsByDisplay(n, toks, q);
  }

  /** Any other name before `:`, dashed ones such as `data-on` included, is
      an unknown directive named by its full dashed form. */
  lemma TypeAtUnknownDirective(toks: seq<Token>, pos: nat, n: AttributeName, q: nat)
    requires pos <= |toks|
    requires NameSpelledAt(toks, pos, n, q) && PeekAt(toks, q, Colon)
    requires NameString(n) != "ref" && NameString(n) != "on" && NameString(n) != "bind"
    ensures TypeAt(toks, pos) == Err(UnknownDirective(NameString(n)))
  {
    NameAtIff(toks, pos, n, q);
    ClassifyIsByDisplay(n, toks, q);
  }

  /** Without `:` a name other than `ref` is a `DomAttribute` carrying the
      parsed name unchanged, hyphen segments included. */
  lemma TypeAtDomAttribute(toks: seq<Token>, pos: nat, n: AttributeName, q: nat)
    requires pos <= |toks|
    requires NameSpelledAt(toks, pos, n, q) && !PeekAt(toks, q, Colon) && NameString(n) != "ref"
    ensures TypeAt(toks, pos) == Ok(Parsed(DomAttribute(n), q))
  {
    NameAtIff(toks, pos, n, q);
    ClassifyIsByDisplay(n, toks, q);
  }

  /** Conversely, every classification that succeeds comes from one of the
      four cases above, read off the tokens. */
  lemma TypeAtSound(toks: seq<Token>, pos: nat)
    requires pos <= |toks|
    requires TypeAt(toks, pos).Ok?
    ensures var name := NameAt(toks, pos);
            name.Ok? && NameSpelledAt(toks, pos, name.value.value, name.value.next) &&
            var Parsed(n, q) := name.value;
            var s := NameString(n);
            match TypeAt(toks, pos).value.value
            case Ref => s == "ref" && TypeAt(toks, pos).value.next == q
            case Event(ev) =>
              s == "on" && PeekAt(toks, q, Colon) && q + 1 < |toks| && IdentLike(toks[q + 1], ev)
              && TypeAt(toks, pos).value.next == q + 2
            case Bind(prop) =>
              s == "bind" && PeekAt(toks, q, Colon) && q + 1 < |toks| && IdentLike(toks[q + 1], prop)
              && TypeAt(toks, pos).value.next == q + 2
            case DomAttribute(m) =>
              m == n && s != "ref" && !PeekAt(toks, q, Colon) && TypeAt(toks, pos).value.next == q
  {
    var name := NameAt(toks, pos);
    NameAtIff(toks, pos, name.value.value, name.value.next);
    ClassifyIsByDisplay(name.value.value, toks, name.value.next);
  }

  // ------------------------------------------------- spelling attributes

  /** The tokens of a directive as a template author writes it. */
  function DirectiveTokens(t: AttributeType): seq<Token>
  {
    match t
    case DomAttribute(n) => [Ident(n.tag)] + ExtensionTokens(n.extended)
    case Event(ev) => [Ident("on"), Colon, Ident(ev)]
    case Bind(prop) => [Ident("bind"), Colon, Ident(prop)]
    case Ref => [Keyword("ref")]
  }

  function AttributeTokens(a: Attribute): seq<Token>
  {
    DirectiveTokens(a.ty) + [Eq, Expr(a.expr)]
  }

  /** The content of a list: attributes joined by `,`, optionally with a
      trailing `,` (only when there is at least one attribute). */
  function ListTokens(attrs: seq<Attribute>, trailing: bool): seq<Token>
  {
    Spelled(AttributeTokens, attrs, trailing)
  }

  /** `a1, a2, ..., an,`: every attribute followed by `,`. */
  function CommaTerminatedTokens(attrs: seq<Attribute>): seq<Token>
  {
    EachWithComma(AttributeTokens, attrs)
  }

  /** Attributes that read back as themselves: a plain attribute named
      `ref` would be read as the `Ref` directive instead. */
  predicate Readable(a: Attribute)
  {
    a.ty.DomAttribute? ==> a.ty.name != AttributeName("ref", [])
  }

  predicate AllReadable(attrs: seq<Attribute>)
  {
    forall i :: 0 <= i < |attrs| ==> Readable(attrs[i])
  }

  /** Reading the tokens of a directive gives the directive back when `=`
      follows it at `q`. */
  lemma TypeAtRoundTrip(toks: seq<Token>, pos: nat, t: AttributeType, q: nat)
    requires t.DomAttribute? ==> t.name != AttributeName("ref", [])
    requires q == pos + |DirectiveTokens(t)| && q < |toks|
    requires toks[pos..q] == DirectiveTokens(t)
    requires toks[q] == Eq
    ensures TypeAt(toks, pos) == Ok(Parsed(t, q))
  {
    var d := DirectiveTokens(t);
    match t
    case DomAttribute(n) =>
      assert toks[pos] == d[0];
      assert toks[pos + 1..q] == d[1..] == ExtensionTokens(n.extended);
      NameStringIsWord(n, "ref");
      TypeAtDomAttribute(toks, pos, n, q);
    case Event(ev) =>
      assert toks[pos] == d[0] && toks[pos + 1] == d[1] && toks[pos + 2] == d[2];
      assert NameSpelledAt(toks, pos, AttributeName("on", []), pos + 1);
      TypeAtEvent(toks, pos, AttributeName("on", []), pos + 1);
    case Bind(prop) =>
      assert toks[pos] == d[0] && toks[pos + 1] == d[1] && toks[pos + 2] == d[2];
      assert NameSpelledAt(toks, pos, AttributeName("bind", []), pos + 1);
      TypeAtBind(toks, pos, AttributeName("bind", []), pos + 1);
    case Ref =>
      assert toks[pos] == d[0];
      assert NameSpelledAt(toks, pos, AttributeName("ref", []), pos + 1);
      TypeAtRef(toks, pos, AttributeName("ref", []), pos + 1);
  }

  /** Reading the tokens of an attribute, spelled from `pos` to `q`, gives
      the attribute back, whatever follows it. */
  lemma AttributeAtRoundTrip(toks: seq<Token>, pos: nat, a: Attribute, q: nat)
    requires Readable(a)
    requires q == pos + |AttributeTokens(a)| && q <= |toks|
    requires toks[pos..q] == AttributeTokens(a)
    ensures AttributeAt(toks, pos) == Ok(Parsed(a, q))
  {
    var w := AttributeTokens(a);
    var d := DirectiveTokens(a.ty);
    var m := pos + |d|;
    assert m + 2 == q;
    assert toks[pos..m] == d by { assert toks[pos..m] == w[..|d|]; }
    assert toks[m] == w[|d|] == Eq;
    assert toks[m + 1] == w[|d| + 1] == Expr(a.expr);
    TypeAtRoundTrip(toks, pos, a.ty, m);
  }

  /** `Attribute::parse` reads back the spelling of every readable
      attribute, which is what the sequence reader needs of its item. */
  lemma AttributeAtReadsBack()
    ensures ReadsBack(AttributeAt, AttributeTokens, Readable)
  {
    AttributeAtReadsBackWherever(AttributeAt, AttributeTokens, Readable);
  }

  /** `AttributeAtReadsBackAt` at every cursor, stated on the parser, the
      spelling and the readability test given as values. */
  lemma AttributeAtReadsBackWherever(item: (seq<Token>, nat) --> Result<Parsed<Attribute>>,
                                     spell: Attribute -> seq<Token>, ok: Attribute -> bool)
    requires item == AttributeAt && spell == AttributeTokens && ok == Readable
    ensures ReadsBack(item, spell, ok)
  {
    forall toks: seq<Token>, p: nat, a: Attribute |
      && p + |spell(a)| <= |toks|
      && toks[p..p + |spell(a)|] == spell(a)
      && ok(a)
      && item.requires(toks, p)
      ensures item(toks, p) == Ok(Parsed(a, p + |spell(a)|))
    {
      AttributeAtReadsBackAt(item, spell, ok, toks, p, a);
    }
    ReadsBackIntro(item, spell, ok);
  }

  lemma AttributeAtReadsBackAt(item: (seq<Token>, nat) --> Result<Parsed<Attribute>>,
                               spell: Attribute -> seq<Token>, ok: Attribute -> bool,
                               toks: seq<Token>, p: nat, a: Attribute)
    requires item == AttributeAt && spell == AttributeTokens && ok == Readable
    requires p + |spell(a)| <= |toks| && toks[p..p + |spell(a)|] == spell(a) && ok(a)
    requires item.requires(toks, p)
    ensures item(toks, p) == Ok(Parsed(a, p + |spell(a)|))
  {
    var w := AttributeTokens(a);
    assert spell(a) == w && Readable(a);
    AttributeAtRoundTrip(toks, p, a, p + |w|);
  }

  /** Reading list content gives back every attribute, in source order,
      with or without a trailing comma. */
  lemma TerminatedAtRoundTrip(attrs: seq<Attribute>, trailing: bool)
    requires AllReadable(attrs)
    ensures TerminatedAt(ListTokens(attrs, trailing)) == Ok(Parsed(attrs, |ListTokens(attrs, trailing)|))
  {
    AttributeAtReadsBack();
    AttributeAtAdvances(ListTokens(attrs, trailing));
    assert AllOk(Readable, attrs);
    SpelledRoundTrip(AttributeAt, AttributeTokens, Readable, attrs, trailing);
  }

  /** A parenthesised group of attributes reads back as that list. */
  lemma ListAtRoundTrip(toks: seq<Token>, pos: nat, attrs: seq<Attribute>, trailing: bool)
    requires AllReadable(attrs)
    requires pos < |toks| && toks[pos] == Group(ListTokens(attrs, trailing))
    ensures ListAt(toks, pos) == Ok(Parsed(AttributeList(attrs), pos + 1))
  {
    TerminatedAtRoundTrip(attrs, trailing);
  }

  /** The first attribute that fails to parse fails the whole list with its
      own error, however many good attributes precede it; none of them is
      returned. */
  lemma TerminatedAtFirstError(toks: seq<Token>, goods: seq<Attribute>, e: Error)
    requires AllReadable(goods)
    requires |CommaTerminatedTokens(goods)| < |toks|
    requires toks[..|CommaTerminatedTokens(goods)|] == CommaTerminatedTokens(goods)
    requires AttributeAt(toks, |CommaTerminatedTokens(goods)|) == Err(e)
    ensures TerminatedAt(toks) == Err(e)
  {
    AttributeAtReadsBack();
    AttributeAtAdvances(toks);
    assert AllOk(Readable, goods);
    EachWithCommaFirstError(AttributeAt, AttributeTokens, Readable, toks, goods, e);
  }

  /** An attribute that is neither last nor followed by `,` fails the list
      with a missing `,`, however many good attributes, each with its `,`,
      come before it. */
  lemma TerminatedAtMissingComma(goods: seq<Attribute>, a: Attribute, tail: seq<Token>)
    requires AllReadable(goods) && Readable(a)
    requires tail != [] && tail[0] != Comma
    ensures TerminatedAt(CommaTerminatedTokens(goods) + AttributeTokens(a) + tail) == Err(ExpectedToken(Comma))
  {
    var pre := CommaTerminatedTokens(goods);
    var w := AttributeTokens(a);
    var toks := pre + w + tail;
    var k := |pre|;
    CutAfter(pre, w, tail);
    AttributeAtReadsBack();
    AttributeAtAdvances(toks);
    assert AllOk(Readable, goods);
    EachWithCommaThen(AttributeAt, AttributeTokens, Readable, toks, goods);
    MissingCommaAt(toks, k, a, tail);
  }

  lemma CutAfter<T>(x: seq<T>, y: seq<T>, z: seq<T>)
    ensures (x + y + z)[..|x|] == x && (x + y + z)[|x|..] == y + z
  {
  }

  lemma MissingCommaAt(toks: seq<Token>, k: nat, a: Attribute, tail: seq<Token>)
    requires Readable(a) && tail != [] && tail[0] != Comma
    requires k <= |toks| && toks[k..] == AttributeTokens(a) + tail
    ensures TerminatedFrom(toks, k) == Err(ExpectedToken(Comma))
  {
    var w := AttributeTokens(a);
    var q := k + |w|;
    assert toks[k..q] == toks[k..][..|w|];
    assert toks[q] == toks[k..][|w|];
    AttributeAtRoundTrip(toks, k, a, q);
    AttributeAtAdvances(toks);
    TerminatedMissingComma(AttributeAt, toks, k, a, q);
  }

  /** Whatever list content reads successfully is attributes read one
      after the other, separated by `,`, with at most one trailing `,` and
      nothing else: no leading, doubled or missing `,`. */
  lemma TerminatedAtSound(toks: seq<Token>)
    ensures TerminatedAt(toks).Ok? ==>
              && Advances(AttributeAt, toks)
              && exists trailing :: ReadsAll(AttributeAt, toks, 0, TerminatedAt(toks).value.value, trailing)
  {
    AttributeAtAdvances(toks);
    TerminatedSound(AttributeAt, toks, 0);
  }

  /** A list that reads successfully is one parenthesised group whose
      content is its attributes, read as `TerminatedAtSound` says. */
  lemma ListAtSound(toks: seq<Token>, pos: nat)
    requires pos <= |toks|
    ensures ListAt(toks, pos).Ok? ==>
              && pos < |toks| && toks[pos].Group?
              && ListAt(toks, pos).value.value.attributes == TerminatedAt(toks[pos].inner).value.value
              && Advances(AttributeAt, toks[pos].inner)
              && exists trailing :: ReadsAll(AttributeAt, toks[pos].inner, 0, ListAt(toks, pos).value.value.attributes, trailing)
  {
    if pos < |toks| && toks[pos].Group? {
      TerminatedAtSound(toks[pos].inner);
    }
  }
}
