/** `AttributeName`: a tag followed by hyphen-joined extension segments
    (`data-foo-bar`), how it is read from tokens, and its dashed display. */
module Names {
  import opened Syntax

  /** `tag` may be a keyword; each extension segment is a plain identifier. */
  datatype AttributeName = AttributeName(tag: string, extended: seq<string>)

  // ---------------------------------------------------------------- parsing

  /** The greedy `while input.peek(Token![-])` loop: each `-` must be
      followed by a non-keyword identifier, otherwise the parse fails. */
  function ExtensionsAt(toks: seq<Token>, p: nat): (r: Result<Parsed<seq<string>>>)
    requires p <= |toks|
    ensures r.Ok? ==> r.value.next == p + 2 * |r.value.value| <= |toks|
    decreases |toks| - p
  {
    if PeekAt(toks, p, Hyphen) then
      // after the peek, reading the `-` itself cannot fail
      var segment :- IdentAt(toks, p + 1);
      Prepend([segment.value], ExtensionsAt(toks, segment.next))
    else
      Ok(Parsed([], p))
  }

  /** `AttributeName::parse`: an identifier-shaped tag (keywords allowed),
      then the hyphen extensions. */
  function NameAt(toks: seq<Token>, pos: nat): (r: Result<Parsed<AttributeName>>)
    requires pos <= |toks|
    ensures r.Ok? ==> r.value.next == pos + 1 + 2 * |r.value.value.extended| <= |toks|
  {
    var tag :- AnyIdentAt(toks, pos);
    var ext :- ExtensionsAt(toks, tag.next);
    Ok(Parsed(AttributeName(tag.value, ext.value), ext.next))
  }

  /** The tokens `- s1 - s2 ...` that spell the extension segments. */
  function ExtensionTokens(segments: seq<string>): (ts: seq<Token>)
    ensures |ts| == 2 * |segments|
  {
    if segments == [] then [] else [Hyphen, Ident(segments[0])] + ExtensionTokens(segments[1..])
  }

  /** The tokens from `pos` to `q` spell the name `n`, and no `-` follows. */
  ghost predicate NameSpelledAt(toks: seq<Token>, pos: nat, n: AttributeName, q: nat)
  {
    && pos < q <= |toks|
    && q == pos + 1 + 2 * |n.extended|
    && IdentLike(toks[pos], n.tag)
    && toks[pos + 1..q] == ExtensionTokens(n.extended)
    && !PeekAt(toks, q, Hyphen)
  }

  lemma {:induction false} ExtensionsAtSound(toks: seq<Token>, p: nat)
    requires p <= |toks|
    ensures ExtensionsAt(toks, p).Ok? ==>
              var Parsed(segs, q) := ExtensionsAt(toks, p).value;
              toks[p..q] == ExtensionTokens(segs) && !PeekAt(toks, q, Hyphen)
    decreases |toks| - p
  {
    if PeekAt(toks, p, Hyphen) && IdentAt(toks, p + 1).Ok? {
      ExtensionsAtSound(toks, p + 2);
      var r := ExtensionsAt(toks, p + 2);
      if r.Ok? {
        var Parsed(rest, q) := r.value;
        assert ExtensionsAt(toks, p).value == Parsed([toks[p + 1].name] + rest, q);
        assert toks[p..q] == [toks[p], toks[p + 1]] + toks[p + 2..q];
      }
    }
  }

  lemma {:induction false} ExtensionsAtComplete(toks: seq<Token>, p: nat, segs: seq<string>)
    requires p + 2 * |segs| <= |toks|
    requires toks[p..p + 2 * |segs|] == ExtensionTokens(segs)
    requires !PeekAt(toks, p + 2 * |segs|, Hyphen)
    ensures ExtensionsAt(toks, p) == Ok(Parsed(segs, p + 2 * |segs|))
    decreases |segs|
  {
    if segs != [] {
      var q := p + 2 * |segs|;
      assert toks[p] == ExtensionTokens(segs)[0] == Hyphen;
      assert toks[p + 1] == ExtensionTokens(segs)[1] == Ident(segs[0]);
      assert toks[p + 2..q] == toks[p..q][2..] == ExtensionTokens(segs[1..]);
      ExtensionsAtComplete(toks, p + 2, segs[1..]);
      assert [segs[0]] + segs[1..] == segs;
    } else {
      assert !PeekAt(toks, p, Hyphen);
    }
  }

  /** The error `Ident::parse` raises at `i` when no plain identifier is there. */
  function SegmentError(toks: seq<Token>, i: nat): Error
  {
    if i < |toks| && toks[i].Keyword? then KeywordIsNotIdent(toks[i].name) else ExpectedIdent
  }

  /** A `-` at `h`, after a correctly spelled prefix, that is not followed
      by a non-keyword identifier fails the whole parse; no shorter name is
      returned. */
  lemma {:induction false} ExtensionsAtRejects(toks: seq<Token>, p: nat, segs: seq<string>, h: nat)
    requires h == p + 2 * |segs| && h < |toks|
    requires toks[p..h] == ExtensionTokens(segs)
    requires toks[h] == Hyphen
    requires !(h + 1 < |toks| && toks[h + 1].Ident?)
    ensures ExtensionsAt(toks, p) == Err(SegmentError(toks, h + 1))
    decreases |segs|
  {
    if segs != [] {
      assert toks[p] == ExtensionTokens(segs)[0] == Hyphen;
      assert toks[p + 1] == ExtensionTokens(segs)[1] == Ident(segs[0]);
      assert toks[p + 2..h] == toks[p..h][2..] == ExtensionTokens(segs[1..]);
      ExtensionsAtRejects(toks, p + 2, segs[1..], h);
    }
  }

  /** Name parsing succeeds with `n`, ending at `q`, exactly when the
      tokens spell `n` and the next token is not `-` (greedy, no
      backtracking). */
  lemma NameAtIff(toks: seq<Token>, pos: nat, n: AttributeName, q: nat)
    requires pos <= |toks|
    ensures NameAt(toks, pos) == Ok(Parsed(n, q)) <==> NameSpelledAt(toks, pos, n, q)
  {
    if NameAt(toks, pos) == Ok(Parsed(n, q)) {
      ExtensionsAtSound(toks, pos + 1);
    }
    if NameSpelledAt(toks, pos, n, q) {
      ExtensionsAtComplete(toks, pos + 1, n.extended);
    }
  }

  /** A first token that is not identifier-shaped fails at once. */
  lemma NameAtRejectsTag(toks: seq<Token>, pos: nat)
    requires pos <= |toks|
    requires !(pos < |toks| && (toks[pos].Ident? || toks[pos].Keyword?))
    ensures NameAt(toks, pos) == Err(ExpectedIdent)
  {
  }

  /** A `-` at `h`, after a spelled prefix, that is not followed by a
      non-keyword identifier fails the name parse. */
  lemma NameAtRejectsHyphen(toks: seq<Token>, pos: nat, tag: string, segs: seq<string>, h: nat)
    requires h == pos + 1 + 2 * |segs| && h < |toks|
    requires IdentLike(toks[pos], tag)
    requires toks[pos + 1..h] == ExtensionTokens(segs)
    requires toks[h] == Hyphen
    requires !(h + 1 < |toks| && toks[h + 1].Ident?)
    ensures NameAt(toks, pos) == Err(SegmentError(toks, h + 1))
  {
    ExtensionsAtRejects(toks, pos + 1, segs, h);
    NameAtExtensionsError(toks, pos, tag, SegmentError(toks, h + 1));
  }

  /** A tag followed by failing extensions fails the name with their error. */
  lemma NameAtExtensionsError(toks: seq<Token>, pos: nat, tag: string, e: Error)
    requires pos < |toks| && IdentLike(toks[pos], tag)
    requires ExtensionsAt(toks, pos + 1) == Err(e)
    ensures NameAt(toks, pos) == Err(e)
  {
  }

  // ---------------------------------------------------------------- display

  /** `-s1-s2...` for the extension segments, built left to right as the
      `Display` loop writes them. */
  function Dashed(segments: seq<string>): string
    decreases |segments|
  {
    if segments == [] then "" else Dashed(segments[..|segments| - 1]) + "-" + segments[|segments| - 1]
  }

  /** The canonical dashed form used as the DOM attribute name. */
  function NameString(n: AttributeName): string
  {
    n.tag + Dashed(n.extended)
  }

  /** `impl Display for AttributeName`: writes the tag, then `-segment` for
      every extension in order. */
  method DisplayName(n: AttributeName) returns (s: string)
    ensures s == NameString(n)
  {
    s := n.tag;
    for i := 0 to |n.extended|
      invariant s == n.tag + Dashed(n.extended[..i])
    {
      assert n.extended[..i + 1][..i] == n.extended[..i];
      s := s + "-" + n.extended[i];
    }
    assert n.extended[..|n.extended|] == n.extended;
  }

  /** Splitting a string at every `-`: an independent reading of a dashed
      name back into its segments. */
  function SplitDash(s: string): (parts: seq<string>)
    ensures |parts| > 0
    decreases |s|
  {
    if s == [] then [""]
    else
      var init := SplitDash(s[..|s| - 1]);
      var c := s[|s| - 1];
      if c == '-' then init + [""]
      else init[..|init| - 1] + [init[|init| - 1] + [c]]
  }

  /** An identifier's text: never contains `-`. */
  predicate DashFree(s: string)
  {
    forall i :: 0 <= i < |s| ==> s[i] != '-'
  }

  /** One more character: a `-` opens a new empty part, any other
      character extends the last part. */
  lemma SplitDashPush(y: string, c: char)
    ensures var sy := SplitDash(y);
            SplitDash(y + [c]) ==
              if c == '-' then sy + [""] else sy[..|sy| - 1] + [sy[|sy| - 1] + [c]]
  {
    assert (y + [c])[..|y + [c]| - 1] == y;
  }

  /** A character other than `-` extends the last part. */
  lemma SplitDashExtendLast(y: string, c: char, pre: seq<string>, last: string)
    requires c != '-' && SplitDash(y) == pre + [last]
    ensures SplitDash(y + [c]) == pre + [last + [c]]
  {
    SplitDashPush(y, c);
    assert (pre + [last])[..|pre|] == pre;
  }

  lemma DashFreeButLast(w: string)
    requires w != [] && DashFree(w)
    ensures DashFree(w[..|w| - 1]) && w[|w| - 1] != '-'
  {
    var w' := w[..|w| - 1];
    forall i | 0 <= i < |w'| ensures w'[i] != '-' {
      assert w'[i] == w[i];
    }
  }

  /** The last character of dash-free text extends the last part. */
  lemma SplitDashAppendStep(x: string, w: string, pre: seq<string>, last: string)
    requires w != [] && w[|w| - 1] != '-'
    requires SplitDash(x + w[..|w| - 1]) == pre + [last + w[..|w| - 1]]
    ensures SplitDash(x + w) == pre + [last + w]
  {
    var w' := w[..|w| - 1];
    var c := w[|w| - 1];
    ButLastAndLast(w);
    AppendLast(x, w', c);
    AppendLast(last, w', c);
    SplitDashExtendLast(x + w', c, pre, last + w');
  }

  /** Dash-free text extends the last part and opens no new one. */
  lemma {:induction false} SplitDashAppend(x: string, w: string, pre: seq<string>, last: string)
    requires DashFree(w) && SplitDash(x) == pre + [last]
    ensures SplitDash(x + w) == pre + [last + w]
    decreases |w|
  {
    if w == [] {
      assert x + w == x && last + w == last;
    } else {
      DashFreeButLast(w);
      SplitDashAppend(x, w[..|w| - 1], pre, last);
      SplitDashAppendStep(x, w, pre, last);
    }
  }

  /** A `-` and a dash-free segment add exactly that segment as a new part. */
  lemma SplitDashSegment(x: string, w: string)
    requires DashFree(w)
    ensures SplitDash((x + "-") + w) == SplitDash(x) + [w]
  {
    var sx := SplitDash(x);
    SplitDashPush(x, '-');
    assert SplitDash(x + "-") == sx + [""] by { assert x + "-" == x + ['-']; }
    SplitDashAppend(x + "-", w, sx, "");
    assert "" + w == w;
  }

  lemma AppendLast<T>(x: seq<T>, w: seq<T>, c: T)
    ensures x + (w + [c]) == (x + w) + [c]
  {
  }

  lemma ButLastAndLast<T>(s: seq<T>)
    requires s != []
    ensures s == s[..|s| - 1] + [s[|s| - 1]]
  {
  }

  /** Splitting the display string of a name whose segments are identifiers
      gives back exactly the tag and the segments, in order: the display
      joins them with single `-` and loses nothing. */
  lemma {:induction false} SplitDisplay(n: AttributeName)
    requires DashFree(n.tag)
    requires forall i :: 0 <= i < |n.extended| ==> DashFree(n.extended[i])
    ensures SplitDash(NameString(n)) == [n.tag] + n.extended
    decreases |n.extended|
  {
    var ext := n.extended;
    if ext == [] {
      SplitDashAppend("", n.tag, [], "");
      assert "" + n.tag == n.tag;
      assert NameString(n) == n.tag;
    } else {
      var init := ext[..|ext| - 1];
      var last := ext[|ext| - 1];
      var m := AttributeName(n.tag, init);
      SegmentsDashFreeInit(ext, init);
      SplitDisplay(m);
      SplitDisplayStep(n);
    }
  }

  /** Splitting the display of a name with segments, given the split of the
      display without its last segment. */
  lemma SplitDisplayStep(n: AttributeName)
    requires n.extended != [] && DashFree(n.extended[|n.extended| - 1])
    requires SplitDash(NameString(AttributeName(n.tag, n.extended[..|n.extended| - 1])))
             == [n.tag] + n.extended[..|n.extended| - 1]
    ensures SplitDash(NameString(n)) == [n.tag] + n.extended
  {
    var ext := n.extended;
    var init := ext[..|ext| - 1];
    var last := ext[|ext| - 1];
    DisplayLast(n);
    SplitDashSegment(NameString(AttributeName(n.tag, init)), last);
    ButLastAndLast(ext);
    ConsAppendLast(n.tag, init, last);
  }

  lemma SegmentsDashFreeInit(ext: seq<string>, init: seq<string>)
    requires ext != [] && init == ext[..|ext| - 1]
    requires forall i :: 0 <= i < |ext| ==> DashFree(ext[i])
    ensures DashFree(ext[|ext| - 1])
    ensures forall i :: 0 <= i < |init| ==> DashFree(init[i])
  {
  }

  /** The display of a name with segments is the display without the last
      segment, then `-` and that segment. */
  lemma DisplayLast(n: AttributeName)
    requires n.extended != []
    ensures NameString(n) ==
              (NameString(AttributeName(n.tag, n.extended[..|n.extended| - 1])) + "-") + n.extended[|n.extended| - 1]
  {
    var ext := n.extended;
    AppendAssoc3(n.tag, Dashed(ext[..|ext| - 1]), "-", ext[|ext| - 1]);
  }

  lemma AppendAssoc3<T>(a: seq<T>, b: seq<T>, c: seq<T>, d: seq<T>)
    ensures a + ((b + c) + d) == ((a + b) + c) + d
  {
  }

  lemma ConsAppendLast<T>(a: T, init: seq<T>, last: T)
    ensures ([a] + init) + [last] == [a] + (init + [last])
  {
  }

  /** A name's display is dash-free, as `ref`, `on` and `bind` are, exactly
      when its tag is and it has no extension segments. */
  lemma DisplayDashFree(n: AttributeName)
    ensures DashFree(NameString(n)) <==> DashFree(n.tag) && n.extended == []
  {
    if n.extended != [] {
      var init := Dashed(n.extended[..|n.extended| - 1]);
      assert NameString(n) == (n.tag + init) + "-" + n.extended[|n.extended| - 1];
      assert NameString(n)[|n.tag + init|] == '-';
    } else {
      assert NameString(n) == n.tag;
    }
    if DashFree(n.tag) && n.extended == [] {
      assert NameString(n) == n.tag;
    }
  }

  /** A dash-free word such as `ref`, `on` or `bind` is the display of
      exactly one name: that word as a tag with no extension segments. */
  lemma NameStringIsWord(n: AttributeName, w: string)
    requires DashFree(w)
    ensures NameString(n) == w <==> n == AttributeName(w, [])
  {
    DisplayDashFree(n);
    if n.extended == [] {
      assert NameString(n) == n.tag;
    }
  }
}
