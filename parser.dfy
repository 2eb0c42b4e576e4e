/** The parse functions as they run: a `ParseStream` whose cursor every
    parse advances in place, and one method per `Parse` implementation of
    the attribute syntax. Each method is proved to yield exactly what the
    specification function of the same parse says, read from the cursor
    position it started at. */
module Parser {
  import opened Syntax
  import opened Names
  import opened Directives

  /** A token sequence with a cursor. The tokens never change; only the
      cursor moves. */
  class ParseStream {
    const toks: seq<Token>
    var pos: nat

    ghost predicate Valid()
      reads this
    {
      pos <= |toks|
    }

    /** The method's result agrees with the specification's: on success the
        same value, with the cursor moved to where the specification stops;
        on failure the same error (the cursor is then left unspecified, as
        the stream is abandoned). */
    ghost predicate Yields<T>(r: Result<T>, spec: Result<Parsed<T>>)
      reads this
    {
      match spec
      case Ok(Parsed(v, next)) => r == Ok(v) && pos == next
      case Err(e) => r == Err(e)
    }

    constructor (toks: seq<Token>)
      ensures Valid() && this.toks == toks && pos == 0
    {
      this.toks := toks;
      pos := 0;
    }

    /** `input.is_empty()`. */
    predicate IsEmpty()
      reads this
    {
      pos == |toks|
    }

    /** `input.peek(t)`. */
    predicate Peek(t: Token)
      reads this
    {
      PeekAt(toks, pos, t)
    }

    /** `Ident::parse_any`. */
    method ParseAnyIdent() returns (r: Result<string>)
      requires Valid()
      modifies this
      ensures Valid() && Yields(r, AnyIdentAt(toks, old(pos)))
    {
      if pos < |toks| && (toks[pos].Ident? || toks[pos].Keyword?) {
        r := Ok(toks[pos].name);
        pos := pos + 1;
      } else {
        r := Err(ExpectedIdent);
      }
    }

    /** `Ident::parse`: keywords are refused. */
    method ParseIdent() returns (r: Result<string>)
      requires Valid()
      modifies this
      ensures Valid() && Yields(r, IdentAt(toks, old(pos)))
    {
      if pos < |toks| && toks[pos].Ident? {
        r := Ok(toks[pos].name);
        pos := pos + 1;
      } else if pos < |toks| && toks[pos].Keyword? {
        r := Err(KeywordIsNotIdent(toks[pos].name));
      } else {
        r := Err(ExpectedIdent);
      }
    }

    /** `Token![-]`, `Token![:]`, `Token![=]` or `Token![,]`. */
    method ParsePunct(t: Token) returns (r: Result<Token>)
      requires Valid()
      modifies this
      ensures Valid() && Yields(r, PunctAt(toks, old(pos), t))
    {
      if Peek(t) {
        r := Ok(t);
        pos := pos + 1;
      } else {
        r := Err(ExpectedToken(t));
      }
    }

    /** `Expr::parse`, the expression being one token. */
    method ParseExpr() returns (r: Result<string>)
      requires Valid()
      modifies this
      ensures Valid() && Yields(r, ExprAt(toks, old(pos)))
    {
      if pos < |toks| && toks[pos].Expr? {
        r := Ok(toks[pos].code);
        pos := pos + 1;
      } else {
        r := Err(ExpectedExpr);
      }
    }

    /** `AttributeName::parse`: the tag, then `-` and a segment pushed onto
        `extended` for as long as a `-` comes next. */
    method ParseAttributeName() returns (r: Result<AttributeName>)
      requires Valid()
      modifies this
      ensures Valid() && Yields(r, NameAt(toks, old(pos)))
    {
      var tag := ParseAnyIdent();
      if tag.Err? {
        return Err(tag.error);
      }
      ghost var first := pos;
      var extended: seq<string> := [];
      PrependNil(ExtensionsAt(toks, pos));
      while Peek(Hyphen)
        invariant Valid() && first <= pos
        invariant ExtensionsAt(toks, first) == Prepend(extended, ExtensionsAt(toks, pos))
        decreases |toks| - pos
      {
        var _ := ParsePunct(Hyphen);
        var segment := ParseIdent();
        if segment.Err? {
          return Err(segment.error);
        }
        PrependPrepend(extended, [segment.value], ExtensionsAt(toks, pos));
        extended := extended + [segment.value];
      }
      PrependEnd(extended, pos);
      return Ok(AttributeName(tag.value, extended));
    }

    /** `AttributeType::parse`, as written: the name's display string is
        compared with `ref`, `on` and `bind`. */
    method ParseAttributeType() returns (r: Result<AttributeType>)
      requires Valid()
      modifies this
      ensures Valid() && Yields(r, TypeAt(toks, old(pos)))
    {
      var ident := ParseAttributeName();
      if ident.Err? {
        return Err(ident.error);
      }
      ClassifyIsByDisplay(ident.value, toks, pos);
      var identStr := DisplayName(ident.value);
      if identStr == "ref" {
        return Ok(Ref);
      } else if Peek(Colon) {
        var _ := ParsePunct(Colon);
        if identStr == "on" {
          var event := ParseAnyIdent();
          if event.Err? {
            return Err(event.error);
          }
          return Ok(Event(event.value));
        } else if identStr == "bind" {
          var prop := ParseAnyIdent();
          if prop.Err? {
            return Err(prop.error);
          }
          return Ok(Bind(prop.value));
        } else {
          return Err(UnknownDirective(identStr));
        }
      } else {
        return Ok(DomAttribute(ident.value));
      }
    }

    /** `Attribute::parse`: directive, `=`, expression. */
    method ParseAttribute() returns (r: Result<Attribute>)
      requires Valid()
      modifies this
      ensures Valid() && Yields(r, AttributeAt(toks, old(pos)))
    {
      var ty := ParseAttributeType();
      if ty.Err? {
        return Err(ty.error);
      }
      var eq := ParsePunct(Eq);
      if eq.Err? {
        return Err(eq.error);
      }
      var expr := ParseExpr();
      if expr.Err? {
        return Err(expr.error);
      }
      return Ok(Attribute(ty.value, expr.value));
    }

    /** `parse_terminated(Attribute::parse)`: until the stream is empty,
        read an attribute, stop if the stream is then empty, otherwise read
        a `,`. */
    method ParseTerminated() returns (r: Result<seq<Attribute>>)
      requires Valid()
      modifies this
      ensures Valid() && Yields(r, TerminatedFrom(toks, old(pos)))
    {
      ghost var start := pos;
      var attributes: seq<Attribute> := [];
      PrependNil(TerminatedFrom(toks, pos));
      while true
        invariant Valid()
        invariant TerminatedFrom(toks, start) == Prepend(attributes, TerminatedFrom(toks, pos))
        decreases |toks| - pos
      {
        if IsEmpty() {
          PrependEnd(attributes, pos);
          return Ok(attributes);
        }
        ghost var before := pos;
        var value := ParseAttribute();
        if value.Err? {
          return Err(value.error);
        }
        TerminatedFromStep(toks, before, value.value, pos);
        if IsEmpty() {
          PrependPrepend(attributes, [value.value], Ok(Parsed([], pos)));
          attributes := attributes + [value.value];
          return Ok(attributes);
        }
        var comma := ParsePunct(Comma);
        if comma.Err? {
          return Err(comma.error);
        }
        PrependPrepend(attributes, [value.value], TerminatedFrom(toks, pos));
        attributes := attributes + [value.value];
      }
    }

    /** `AttributeList::parse`: `parenthesized!` opens a stream on the
        group's content, which is read to its end. */
    method ParseAttributeList() returns (r: Result<AttributeList>)
      requires Valid()
      modifies this
      ensures Valid() && Yields(r, ListAt(toks, old(pos)))
    {
      if !(pos < |toks| && toks[pos].Group?) {
        return Err(ExpectedParens);
      }
      var content := new ParseStream(toks[pos].inner);
      pos := pos + 1;
      var attributes := content.ParseTerminated();
      if attributes.Err? {
        return Err(attributes.error);
      }
      return Ok(AttributeList(attributes.value));
    }
  }

  /** One step of the sequence reader, as the loop of `ParseTerminated`
      takes it: after an attribute read from `p` up to `q`, the input ends
      or a `,` and the rest follow. */
  lemma TerminatedFromStep(toks: seq<Token>, p: nat, a: Attribute, q: nat)
    requires p < |toks| && AttributeAt(toks, p) == Ok(Parsed(a, q))
    ensures q == |toks| ==> TerminatedFrom(toks, p) == Prepend([a], Ok(Parsed([], q)))
    ensures q < |toks| && toks[q] == Comma ==> TerminatedFrom(toks, p) == Prepend([a], TerminatedFrom(toks, q + 1))
    ensures q < |toks| && toks[q] != Comma ==> TerminatedFrom(toks, p) == Err(ExpectedToken(Comma))
  {
    AttributeAtAdvances(toks);
    assert [a] + [] == [a];
  }
}
