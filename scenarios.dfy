/** Concrete attributes, each read and lowered end to end. */
module Scenarios {
  import opened Syntax
  import opened Names
  import opened Punctuated
  import opened Directives
  import opened Lowering

  /** `a`, `a-b` and `a-b-c` display exactly as written. */
  lemma DisplayExamples()
    ensures NameString(AttributeName("a", [])) == "a"
    ensures NameString(AttributeName("a", ["b"])) == "a-b"
    ensures NameString(AttributeName("a", ["b", "c"])) == "a-b-c"
  {
    assert ["b", "c"][..1] == ["b"];
  }

  /** `data-on:click`: the full dashed name is compared, so this is no
      event but an unknown directive named `data-on`. */
  lemma DashedDirectiveIsUnknown()
    ensures TypeAt([Ident("data"), Hyphen, Ident("on"), Colon, Ident("click")], 0)
            == Err(UnknownDirective("data-on"))
  {
    var toks := [Ident("data"), Hyphen, Ident("on"), Colon, Ident("click")];
    var n := AttributeName("data", ["on"]);
    assert toks[1..3] == ExtensionTokens(["on"]);
    assert NameString(n) == "data-on";
    TypeAtUnknownDirective(toks, 0, n, 3);
  }

  /** `ref-x = e`: a dashed name that merely starts with `ref` is a plain
      attribute. */
  lemma RefPrefixIsDomAttribute()
    ensures TypeAt([Keyword("ref"), Hyphen, Ident("x"), Eq, Expr("e")], 0)
            == Ok(Parsed(DomAttribute(AttributeName("ref", ["x"])), 3))
  {
    var toks := [Keyword("ref"), Hyphen, Ident("x"), Eq, Expr("e")];
    var n := AttributeName("ref", ["x"]);
    assert toks[1..3] == ExtensionTokens(["x"]);
    assert NameString(n) == "ref-x";
    TypeAtDomAttribute(toks, 0, n, 3);
  }

  /** `ref:x`: `ref` wins before the `:` is looked at, and the cursor stays
      on the `:`. */
  lemma RefIgnoresColon()
    ensures TypeAt([Keyword("ref"), Colon, Ident("x")], 0) == Ok(Parsed(Ref, 1))
  {
    var toks := [Keyword("ref"), Colon, Ident("x")];
    assert toks[1..1] == ExtensionTokens([]);
    assert NameString(AttributeName("ref", [])) == "ref";
    TypeAtRef(toks, 0, AttributeName("ref", []), 1);
  }

  /** `data-type`: a keyword after `-` fails the name, it is not cut short
      to `data`. */
  lemma KeywordSegmentFails()
    ensures NameAt([Ident("data"), Hyphen, Keyword("type"), Eq, Expr("e")], 0)
            == Err(KeywordIsNotIdent("type"))
  {
    var toks := [Ident("data"), Hyphen, Keyword("type"), Eq, Expr("e")];
    assert toks[1..1] == ExtensionTokens([]);
    NameAtRejectsHyphen(toks, 0, "data", [], 1);
  }

  /** `on:type`: the event name may be a keyword. */
  lemma KeywordEventAccepted()
    ensures TypeAt([Ident("on"), Colon, Keyword("type")], 0) == Ok(Parsed(Event("type"), 3))
  {
    var toks := [Ident("on"), Colon, Keyword("type")];
    assert toks[1..1] == ExtensionTokens([]);
    assert NameString(AttributeName("on", [])) == "on";
    TypeAtEvent(toks, 0, AttributeName("on", []), 1);
  }

  /** `bind:foo = s` parses, and lowers to the unsupported-property error
      alone. */
  lemma UnsupportedBind()
    ensures AttributeAt([Ident("bind"), Colon, Ident("foo"), Eq, Expr("s")], 0)
            == Ok(Parsed(Attribute(Bind("foo"), "s"), 5))
    ensures Lowered(Attribute(Bind("foo"), "s")) == CompileError(UnsupportedBindMessage("foo"))
  {
    var toks := [Ident("bind"), Colon, Ident("foo"), Eq, Expr("s")];
    AttributeAtRoundTrip(toks, 0, Attribute(Bind("foo"), "s"), 5);
  }

  function SampleAttributes(): seq<Attribute>
  {
    [ Attribute(Bind("value"), "name"),
      Attribute(Event("click"), "handler"),
      Attribute(DomAttribute(AttributeName("data", ["id"])), "id"),
      Attribute(Ref, "node") ]
  }

  /** The tokens `bind:value = name, on:click = handler, data-id = id,
      ref = node,`, one attribute and its `,` per line. */
  function SampleContent(): seq<Token>
  {
    [Ident("bind"), Colon, Ident("value"), Eq, Expr("name")] + [Comma] +
    ([Ident("on"), Colon, Ident("click"), Eq, Expr("handler")] + [Comma] +
     ([Ident("data"), Hyphen, Ident("id"), Eq, Expr("id")] + [Comma] +
      ([Keyword("ref"), Eq, Expr("node")] + [Comma])))
  }

  /** One more attribute in front of a list spelled with a trailing `,`. */
  lemma SpellInFront(x: Attribute, rest: seq<Attribute>, w: seq<Token>, tail: seq<Token>)
    requires rest != [] && AttributeTokens(x) == w && ListTokens(rest, true) == tail
    ensures ListTokens([x] + rest, true) == w + [Comma] + tail
  {
    assert ([x] + rest)[1..] == rest;
    SpelledCons(AttributeTokens, [x] + rest, true);
  }

  /** The sample content is the spelling of the sample attributes with a
      trailing `,`. */
  lemma SampleSpelling()
    ensures ListTokens(SampleAttributes(), true) == SampleContent()
  {
    var attrs := SampleAttributes();
    var w0 := [Ident("bind"), Colon, Ident("value"), Eq, Expr("name")];
    var w1 := [Ident("on"), Colon, Ident("click"), Eq, Expr("handler")];
    var w2 := [Ident("data"), Hyphen, Ident("id"), Eq, Expr("id")];
    var w3 := [Keyword("ref"), Eq, Expr("node")];
    assert ExtensionTokens(["id"]) == [Hyphen, Ident("id")] by {
      assert ["id"][1..] == [];
    }
    SpelledSingle(AttributeTokens, attrs[3], true);
    var t3 := w3 + [Comma];
    SpellInFront(attrs[2], [attrs[3]], w2, t3);
    var t2 := w2 + [Comma] + t3;
    SpellInFront(attrs[1], [attrs[2], attrs[3]], w1, t2);
    var t1 := w1 + [Comma] + t2;
    SpellInFront(attrs[0], [attrs[1], attrs[2], attrs[3]], w0, t1);
    assert attrs == [attrs[0]] + [attrs[1], attrs[2], attrs[3]];
    assert [attrs[1]] + [attrs[2], attrs[3]] == [attrs[1], attrs[2], attrs[3]];
    assert [attrs[2]] + [attrs[3]] == [attrs[2], attrs[3]];
  }

  /** `(bind:value = name, on:click = handler, data-id = id, ref = node,)`
      reads back as those four attributes in order. */
  lemma SampleList()
    ensures ListAt([Group(SampleContent())], 0) == Ok(Parsed(AttributeList(SampleAttributes()), 1))
  {
    SampleSpelling();
    ListAtRoundTrip([Group(SampleContent())], 0, SampleAttributes(), true);
  }

  /** The sample attributes lower to one group each, in order. */
  lemma SampleLowered()
    ensures var attrs := SampleAttributes();
            [Lowered(attrs[0]), Lowered(attrs[1]), Lowered(attrs[2]), Lowered(attrs[3])]
            == [ BindGroup("value", "input", StringKind, "name"),
                 RegisterEvent("click", "handler"),
                 EffectSetAttribute("data-id", "id"),
                 NodeRefSet("node") ]
  {
    assert NameString(AttributeName("data", ["id"])) == "data-id";
  }

  /** `(data-a = x, b c)`: the second attribute lacks its `=`, and the whole
      list fails although the first attribute was good. */
  lemma SecondAttributeFails()
    ensures ListAt([Group([Ident("data"), Hyphen, Ident("a"), Eq, Expr("x"), Comma, Ident("b"), Expr("c")])], 0)
            == Err(ExpectedToken(Eq))
  {
    var content := [Ident("data"), Hyphen, Ident("a"), Eq, Expr("x"), Comma, Ident("b"), Expr("c")];
    var good := Attribute(DomAttribute(AttributeName("data", ["a"])), "x");
    assert ExtensionTokens(["a"]) == [Hyphen, Ident("a")] by {
      assert ["a"][1..] == [];
    }
    assert DirectiveTokens(good.ty) == [Ident("data"), Hyphen, Ident("a")];
    assert AttributeTokens(good) == [Ident("data"), Hyphen, Ident("a"), Eq, Expr("x")];
    assert AttributeTokens(good) == content[..5];
    assert CommaTerminatedTokens([good]) == content[..6] by {
      assert [good][1..] == [];
      assert EachWithComma(AttributeTokens, [good]) == AttributeTokens(good) + [Comma] + EachWithComma(AttributeTokens, []);
    }
    assert content[7..7] == ExtensionTokens([]);
    assert AttributeAt(content, 6) == Err(ExpectedToken(Eq)) by {
      TypeAtDomAttribute(content, 6, AttributeName("b", []), 7);
    }
    TerminatedAtFirstError(content, [good], ExpectedToken(Eq));
  }

  /** `(a = x, b = y c)`: the second attribute is good but not followed by
      `,`, and the whole list fails with a missing `,`. */
  lemma SecondCommaMissing()
    ensures TerminatedAt([Ident("a"), Eq, Expr("x"), Comma, Ident("b"), Eq, Expr("y"), Expr("c")])
            == Err(ExpectedToken(Comma))
  {
    var first := Attribute(DomAttribute(AttributeName("a", [])), "x");
    var second := Attribute(DomAttribute(AttributeName("b", [])), "y");
    assert CommaTerminatedTokens([first]) == [Ident("a"), Eq, Expr("x"), Comma] by {
      assert AttributeTokens(first) == [Ident("a"), Eq, Expr("x")];
      assert [first][1..] == [];
      assert EachWithComma(AttributeTokens, [first]) == AttributeTokens(first) + [Comma] + EachWithComma(AttributeTokens, []);
    }
    assert AttributeTokens(second) == [Ident("b"), Eq, Expr("y")];
    var w0 := [Ident("a"), Eq, Expr("x"), Comma];
    var w1 := [Ident("b"), Eq, Expr("y")];
    assert w0 + w1 + [Expr("c")] == [Ident("a"), Eq, Expr("x"), Comma, Ident("b"), Eq, Expr("y"), Expr("c")];
    TerminatedAtMissingComma([first], second, [Expr("c")]);
  }

  /** `(a = x,, b = y)`: after a `,` an attribute must follow, so a doubled
      `,` fails the list where the second `,` stands. */
  lemma DoubledCommaFails()
    ensures TerminatedAt([Ident("a"), Eq, Expr("x"), Comma, Comma, Ident("b"), Eq, Expr("y")])
            == Err(ExpectedIdent)
  {
    var content := [Ident("a"), Eq, Expr("x"), Comma, Comma, Ident("b"), Eq, Expr("y")];
    var first := Attribute(DomAttribute(AttributeName("a", [])), "x");
    assert CommaTerminatedTokens([first]) == content[..4] by {
      assert AttributeTokens(first) == [Ident("a"), Eq, Expr("x")];
      assert [first][1..] == [];
      assert EachWithComma(AttributeTokens, [first]) == AttributeTokens(first) + [Comma] + EachWithComma(AttributeTokens, []);
    }
    assert AttributeAt(content, 4) == Err(ExpectedIdent);
    TerminatedAtFirstError(content, [first], ExpectedIdent);
  }
}
