/** `parse_terminated`, the parsing library's reader for a sequence of items
    separated by `,` with an optional trailing `,`, generic over the item
    parser as the library's own is. */
module Punctuated {
  import opened Syntax

  /** An item parser the sequence reader may call at any cursor: it reads
      whole tokens, and whenever it succeeds it consumes at least one. */
  ghost predicate Advances<T>(item: (seq<Token>, nat) --> Result<Parsed<T>>, toks: seq<Token>)
  {
    forall q: nat :: q <= |toks| ==>
      item.requires(toks, q) && (item(toks, q).Ok? ==> q < item(toks, q).value.next <= |toks|)
  }

  /** Items separated by `,`, an optional trailing `,`, and the whole input
      consumed: stop at the end, otherwise read an item, stop at the end,
      otherwise read a `,` and go on. The first failure is the result. */
  function Terminated<T>(item: (seq<Token>, nat) --> Result<Parsed<T>>, toks: seq<Token>, p: nat): (r: Result<Parsed<seq<T>>>)
    requires p <= |toks| && Advances(item, toks)
    ensures r.Ok? ==> r.value.next == |toks|
    decreases |toks| - p
  {
    if p == |toks| then
      Ok(Parsed([], p))
    else
      var value :- item(toks, p);
      if value.next == |toks| then
        Ok(Parsed([value.value], value.next))
      else
        var comma :- PunctAt(toks, value.next, Comma);
        Prepend([value.value], Terminated(item, toks, comma.next))
  }

  /** The items `xs` are read one after the other from `p`, each but the
      last followed by `,`, the last followed by `,` exactly when `trailing`,
      and then the input ends. */
  ghost predicate ReadsAll<T>(item: (seq<Token>, nat) --> Result<Parsed<T>>, toks: seq<Token>, p: nat, xs: seq<T>, trailing: bool)
    requires p <= |toks| && Advances(item, toks)
    decreases |xs|
  {
    if xs == [] then
      p == |toks|
    else
      var r := item(toks, p);
      && r.Ok?
      && r.value.value == xs[0]
      && if |xs| == 1 then
           if trailing then PeekAt(toks, r.value.next, Comma) && r.value.next + 1 == |toks|
           else r.value.next == |toks|
         else
           PeekAt(toks, r.value.next, Comma) && ReadsAll(item, toks, r.value.next + 1, xs[1..], trailing)
  }

  /** The items `xs` are read one after the other from `p`, each followed by
      `,`, and the cursor then stands at `q`. */
  ghost predicate ReadsEachWithComma<T>(item: (seq<Token>, nat) --> Result<Parsed<T>>, toks: seq<Token>, p: nat, xs: seq<T>, q: nat)
    requires p <= |toks| && Advances(item, toks)
    decreases |xs|
  {
    if xs == [] then
      p == q
    else
      var r := item(toks, p);
      && r.Ok?
      && r.value.value == xs[0]
      && PeekAt(toks, r.value.next, Comma)
      && ReadsEachWithComma(item, toks, r.value.next + 1, xs[1..], q)
  }

  lemma ReadsAllLast<T>(item: (seq<Token>, nat) --> Result<Parsed<T>>, toks: seq<Token>, p: nat, xs: seq<T>, trailing: bool, q: nat)
    requires p <= |toks| && Advances(item, toks)
    requires |xs| == 1 && item(toks, p) == Ok(Parsed(xs[0], q))
    requires if trailing then PeekAt(toks, q, Comma) && q + 1 == |toks| else q == |toks|
    ensures ReadsAll(item, toks, p, xs, trailing)
  {
  }

  lemma ReadsAllCons<T>(item: (seq<Token>, nat) --> Result<Parsed<T>>, toks: seq<Token>, p: nat, xs: seq<T>, trailing: bool, q: nat)
    requires p <= |toks| && Advances(item, toks)
    requires |xs| >= 2 && item(toks, p) == Ok(Parsed(xs[0], q))
    requires PeekAt(toks, q, Comma) && ReadsAll(item, toks, q + 1, xs[1..], trailing)
    ensures ReadsAll(item, toks, p, xs, trailing)
  {
  }

  lemma ReadsEachWithCommaCons<T>(item: (seq<Token>, nat) --> Result<Parsed<T>>, toks: seq<Token>, p: nat, xs: seq<T>, q: nat, m: nat)
    requires p <= |toks| && Advances(item, toks)
    requires xs != [] && item(toks, p) == Ok(Parsed(xs[0], m))
    requires PeekAt(toks, m, Comma) && ReadsEachWithComma(item, toks, m + 1, xs[1..], q)
    ensures ReadsEachWithComma(item, toks, p, xs, q)
  {
  }

  // ------------------------------------------------ spelled sequences

  /** `, x2, x3 ...`: every item after the first, each preceded by `,`. */
  function Continued<T>(spell: T -> seq<Token>, xs: seq<T>): seq<Token>
  {
    if xs == [] then [] else [Comma] + spell(xs[0]) + Continued(spell, xs[1..])
  }

  /** Items joined by `,`. */
  function Separated<T>(spell: T -> seq<Token>, xs: seq<T>): seq<Token>
  {
    if xs == [] then [] else spell(xs[0]) + Continued(spell, xs[1..])
  }

  /** Items joined by `,`, with a trailing `,` when asked for and there is
      at least one item. */
  function Spelled<T>(spell: T -> seq<Token>, xs: seq<T>, trailing: bool): seq<Token>
  {
    Separated(spell, xs) + if trailing && xs != [] then [Comma] else []
  }

  /** `x1, x2, ..., xn,`: every item followed by `,`. */
  function EachWithComma<T>(spell: T -> seq<Token>, xs: seq<T>): seq<Token>
  {
    if xs == [] then [] else spell(xs[0]) + [Comma] + EachWithComma(spell, xs[1..])
  }

  /** The item parser reads back the spelling of every item satisfying `ok`,
      whatever follows it. */
  ghost predicate ReadsBack<T(!new)>(item: (seq<Token>, nat) --> Result<Parsed<T>>, spell: T -> seq<Token>, ok: T -> bool)
  {
    forall toks: seq<Token>, p: nat, x: T ::
      && p + |spell(x)| <= |toks|
      && toks[p..p + |spell(x)|] == spell(x)
      && ok(x)
      && Advances(item, toks)
      ==> item(toks, p) == Ok(Parsed(x, p + |spell(x)|))
  }

  /** `ReadsBack` from reading back wherever the item parser may be called. */
  lemma ReadsBackIntro<T(!new)>(item: (seq<Token>, nat) --> Result<Parsed<T>>, spell: T -> seq<Token>, ok: T -> bool)
    requires forall toks: seq<Token>, p: nat, x: T ::
               && p + |spell(x)| <= |toks|
               && toks[p..p + |spell(x)|] == spell(x)
               && ok(x)
               && item.requires(toks, p)
               ==> item(toks, p) == Ok(Parsed(x, p + |spell(x)|))
    ensures ReadsBack(item, spell, ok)
  {
    forall toks: seq<Token>, p: nat, x: T |
      && p + |spell(x)| <= |toks|
      && toks[p..p + |spell(x)|] == spell(x)
      && ok(x)
      && Advances(item, toks)
      ensures item(toks, p) == Ok(Parsed(x, p + |spell(x)|))
    {
      assert item.requires(toks, p);
    }
  }

  /** One use of `ReadsBack`. */
  lemma ReadBackAt<T(!new)>(item: (seq<Token>, nat) --> Result<Parsed<T>>, spell: T -> seq<Token>, ok: T -> bool,
                            toks: seq<Token>, p: nat, x: T, q: nat)
    requires ReadsBack(item, spell, ok) && Advances(item, toks) && ok(x)
    requires q == p + |spell(x)| && q <= |toks| && toks[p..q] == spell(x)
    ensures item(toks, p) == Ok(Parsed(x, q))
  {
  }

  predicate AllOk<T>(ok: T -> bool, xs: seq<T>)
  {
    forall i :: 0 <= i < |xs| ==> ok(xs[i])
  }

  lemma SpelledSingle<T>(spell: T -> seq<Token>, x: T, trailing: bool)
    ensures Spelled(spell, [x], trailing) == spell(x) + (if trailing then [Comma] else [])
  {
    assert [x][1..] == [];
  }

  lemma SpelledCons<T>(spell: T -> seq<Token>, xs: seq<T>, trailing: bool)
    requires |xs| >= 2
    ensures Spelled(spell, xs, trailing) == spell(xs[0]) + [Comma] + Spelled(spell, xs[1..], trailing)
  {
  }

  /** Cutting `w , rest` out of the tokens at `p`, with `w` ending at `q`. */
  lemma SliceComma(toks: seq<Token>, p: nat, w: seq<Token>, rest: seq<Token>, q: nat)
    requires p <= |toks| && toks[p..] == w + [Comma] + rest
    requires q == p + |w|
    ensures q < |toks| && toks[p..q] == w && toks[q] == Comma && toks[q + 1..] == rest
  {
    assert toks[p..q] == toks[p..][..|w|];
    assert toks[q + 1..] == toks[p..][|w| + 1..];
  }

  /** Cutting `w` and an optional `,` out of the tokens at `p`. */
  lemma SliceLast(toks: seq<Token>, p: nat, w: seq<Token>, trailing: bool, q: nat)
    requires p <= |toks| && toks[p..] == w + (if trailing then [Comma] else [])
    requires q == p + |w|
    ensures q <= |toks| && toks[p..q] == w
    ensures if trailing then PeekAt(toks, q, Comma) && q + 1 == |toks| else q == |toks|
  {
    assert toks[p..q] == toks[p..][..|w|];
    if trailing {
      assert toks[q] == toks[p..][|w|];
    }
  }

  lemma AllOkTail<T>(ok: T -> bool, xs: seq<T>)
    requires xs != [] && AllOk(ok, xs)
    ensures ok(xs[0]) && AllOk(ok, xs[1..])
  {
    forall i | 0 <= i < |xs[1..]| ensures ok(xs[1..][i]) {
      assert xs[1..][i] == xs[i + 1];
    }
  }

  /** The last item of a spelled sequence, and its optional `,`. */
  lemma SpelledReadsOne<T(!new)>(item: (seq<Token>, nat) --> Result<Parsed<T>>, spell: T -> seq<Token>, ok: T -> bool,
                                 toks: seq<Token>, p: nat, xs: seq<T>, trailing: bool)
    requires ReadsBack(item, spell, ok) && Advances(item, toks) && |xs| == 1 && ok(xs[0])
    requires p <= |toks| && toks[p..] == Spelled(spell, xs, trailing)
    ensures ReadsAll(item, toks, p, xs, trailing)
  {
    var q := p + |spell(xs[0])|;
    assert xs == [xs[0]];
    SpelledSingle(spell, xs[0], trailing);
    SliceLast(toks, p, spell(xs[0]), trailing, q);
    ReadBackAt(item, spell, ok, toks, p, xs[0], q);
    ReadsAllLast(item, toks, p, xs, trailing, q);
  }

  /** The first of several items of a spelled sequence, and the `,` after it. */
  lemma SpelledReadsHead<T(!new)>(item: (seq<Token>, nat) --> Result<Parsed<T>>, spell: T -> seq<Token>, ok: T -> bool,
                                  toks: seq<Token>, p: nat, xs: seq<T>, trailing: bool) returns (q: nat)
    requires ReadsBack(item, spell, ok) && Advances(item, toks) && |xs| >= 2 && ok(xs[0])
    requires p <= |toks| && toks[p..] == Spelled(spell, xs, trailing)
    ensures item(toks, p) == Ok(Parsed(xs[0], q))
    ensures PeekAt(toks, q, Comma) && toks[q + 1..] == Spelled(spell, xs[1..], trailing)
  {
    q := p + |spell(xs[0])|;
    SpelledCons(spell, xs, trailing);
    SliceComma(toks, p, spell(xs[0]), Spelled(spell, xs[1..], trailing), q);
    ReadBackAt(item, spell, ok, toks, p, xs[0], q);
  }

  /** A spelled sequence is read back item by item. */
  lemma {:induction false} SpelledReadsAll<T(!new)>(item: (seq<Token>, nat) --> Result<Parsed<T>>, spell: T -> seq<Token>, ok: T -> bool,
                                                    toks: seq<Token>, p: nat, xs: seq<T>, trailing: bool)
    requires ReadsBack(item, spell, ok) && Advances(item, toks) && AllOk(ok, xs)
    requires p <= |toks| && toks[p..] == Spelled(spell, xs, trailing)
    ensures ReadsAll(item, toks, p, xs, trailing)
    decreases |xs|
  {
    if xs == [] {
      assert |toks[p..]| == 0;
    } else {
      AllOkTail(ok, xs);
      if |xs| == 1 {
        SpelledReadsOne(item, spell, ok, toks, p, xs, trailing);
      } else {
        var q := SpelledReadsHead(item, spell, ok, toks, p, xs, trailing);
        SpelledReadsAll(item, spell, ok, toks, q + 1, xs[1..], trailing);
        ReadsAllCons(item, toks, p, xs, trailing, q);
      }
    }
  }

  /** Cutting `w , rest` out of the tokens from `p` to `m`, with `w` ending
      at `q`. */
  lemma SliceCommaBefore(toks: seq<Token>, p: nat, m: nat, w: seq<Token>, rest: seq<Token>, q: nat)
    requires p <= m <= |toks| && toks[p..m] == w + [Comma] + rest
    requires q == p + |w|
    ensures q < m && toks[p..q] == w && toks[q] == Comma && toks[q + 1..m] == rest
  {
    assert toks[p..q] == toks[p..m][..|w|];
    assert toks[q] == toks[p..m][|w|];
    assert toks[q + 1..m] == toks[p..m][|w| + 1..];
  }

  /** The first item of a sequence spelled each with a `,`, and its `,`. */
  lemma EachWithCommaHead<T(!new)>(item: (seq<Token>, nat) --> Result<Parsed<T>>, spell: T -> seq<Token>, ok: T -> bool,
                                   toks: seq<Token>, p: nat, xs: seq<T>, m: nat) returns (q: nat)
    requires ReadsBack(item, spell, ok) && Advances(item, toks) && xs != [] && ok(xs[0])
    requires p <= m <= |toks| && toks[p..m] == EachWithComma(spell, xs)
    ensures item(toks, p) == Ok(Parsed(xs[0], q))
    ensures PeekAt(toks, q, Comma) && q < m && toks[q + 1..m] == EachWithComma(spell, xs[1..])
  {
    q := p + |spell(xs[0])|;
    SliceCommaBefore(toks, p, m, spell(xs[0]), EachWithComma(spell, xs[1..]), q);
    ReadBackAt(item, spell, ok, toks, p, xs[0], q);
  }

  /** Items spelled each with a `,` between `p` and `m` are read back one by
      one, and the cursor then stands at `m`. */
  lemma {:induction false} EachWithCommaReads<T(!new)>(item: (seq<Token>, nat) --> Result<Parsed<T>>, spell: T -> seq<Token>, ok: T -> bool,
                                                       toks: seq<Token>, p: nat, xs: seq<T>, m: nat)
    requires ReadsBack(item, spell, ok) && Advances(item, toks) && AllOk(ok, xs)
    requires p <= m <= |toks| && toks[p..m] == EachWithComma(spell, xs)
    ensures ReadsEachWithComma(item, toks, p, xs, m)
    decreases |xs|
  {
    if xs == [] {
      assert |toks[p..m]| == 0;
    } else {
      AllOkTail(ok, xs);
      var q := EachWithCommaHead(item, spell, ok, toks, p, xs, m);
      EachWithCommaReads(item, spell, ok, toks, q + 1, xs[1..], m);
      ReadsEachWithCommaCons(item, toks, p, xs, m, q);
    }
  }

  /** Reading the items one after the other is exactly what the sequence
      reader returns. */
  lemma {:induction false} TerminatedReadsAll<T>(item: (seq<Token>, nat) --> Result<Parsed<T>>, toks: seq<Token>, p: nat, xs: seq<T>, trailing: bool)
    requires p <= |toks| && Advances(item, toks)
    requires ReadsAll(item, toks, p, xs, trailing)
    ensures Terminated(item, toks, p) == Ok(Parsed(xs, |toks|))
    decreases |xs|
  {
    if xs != [] {
      var q := item(toks, p).value.next;
      if |xs| == 1 {
        assert [xs[0]] == xs;
        if trailing {
          assert Terminated(item, toks, q + 1) == Ok(Parsed([], |toks|));
          assert [xs[0]] + [] == xs;
        }
      } else {
        TerminatedReadsAll(item, toks, q + 1, xs[1..], trailing);
        assert [xs[0]] + xs[1..] == xs;
      }
    }
  }

  /** After items each followed by `,`, an item that fails fails the whole
      sequence with its own error: nothing read before it is returned. */
  lemma {:induction false} TerminatedFirstError<T>(item: (seq<Token>, nat) --> Result<Parsed<T>>, toks: seq<Token>, p: nat, xs: seq<T>, q: nat, e: Error)
    requires p <= |toks| && Advances(item, toks)
    requires ReadsEachWithComma(item, toks, p, xs, q)
    requires q < |toks| && item(toks, q) == Err(e)
    ensures Terminated(item, toks, p) == Err(e)
    decreases |xs|
  {
    if xs != [] {
      var m := item(toks, p).value.next;
      TerminatedFirstError(item, toks, m + 1, xs[1..], q, e);
    }
  }

  /** An item that does not end the input and is not followed by `,` fails
      the sequence with a missing `,`. */
  lemma TerminatedMissingComma<T>(item: (seq<Token>, nat) --> Result<Parsed<T>>, toks: seq<Token>, p: nat, x: T, q: nat)
    requires p <= |toks| && Advances(item, toks)
    requires item(toks, p) == Ok(Parsed(x, q))
    requires q < |toks| && toks[q] != Comma
    ensures Terminated(item, toks, p) == Err(ExpectedToken(Comma))
  {
  }

  /** After items each followed by `,`, the reader carries on from where
      they end, and whatever it returns from there comes after them: their
      values in front of a success, or the failure unchanged. */
  lemma {:induction false} TerminatedAfterEach<T>(item: (seq<Token>, nat) --> Result<Parsed<T>>, toks: seq<Token>, p: nat, xs: seq<T>, q: nat)
    requires p <= |toks| && Advances(item, toks)
    requires ReadsEachWithComma(item, toks, p, xs, q)
    ensures q <= |toks| && Terminated(item, toks, p) == Prepend(xs, Terminated(item, toks, q))
    decreases |xs|
  {
    if xs == [] {
      PrependNil(Terminated(item, toks, q));
    } else {
      var m := item(toks, p).value.next;
      TerminatedAfterEach(item, toks, m + 1, xs[1..], q);
      PrependPrepend([xs[0]], xs[1..], Terminated(item, toks, q));
      assert [xs[0]] + xs[1..] == xs;
    }
  }

  /** Whatever the reader returns was read item by item: every item parsed
      where the one before it and its `,` ended, `,` between items, at most
      one trailing `,`, and nothing else in the input. */
  lemma {:induction false} TerminatedSound<T>(item: (seq<Token>, nat) --> Result<Parsed<T>>, toks: seq<Token>, p: nat)
    requires p <= |toks| && Advances(item, toks)
    ensures Terminated(item, toks, p).Ok? ==>
              exists trailing :: ReadsAll(item, toks, p, Terminated(item, toks, p).value.value, trailing)
    decreases |toks| - p
  {
    var r := Terminated(item, toks, p);
    if r.Ok? && p == |toks| {
      assert ReadsAll(item, toks, p, [], false);
    } else if r.Ok? {
      var v := item(toks, p).value.value;
      var n := item(toks, p).value.next;
      if n == |toks| {
        ReadsAllLast(item, toks, p, [v], false, n);
      } else {
        TerminatedSound(item, toks, n + 1);
        var ys := Terminated(item, toks, n + 1).value.value;
        assert r.value.value == [v] + ys;
        if n + 1 == |toks| {
          assert [v] + ys == [v];
          ReadsAllLast(item, toks, p, [v], true, n);
        } else {
          var t :| ReadsAll(item, toks, n + 1, ys, t);
          assert ys != [];
          assert ([v] + ys)[1..] == ys;
          ReadsAllCons(item, toks, p, [v] + ys, t, n);
        }
      }
    }
  }

  /** Items spelled each with `,` at the start of the input: the reader
      goes on after them and puts them in front of what it reads there. */
  lemma EachWithCommaThen<T(!new)>(item: (seq<Token>, nat) --> Result<Parsed<T>>, spell: T -> seq<Token>, ok: T -> bool,
                                   toks: seq<Token>, xs: seq<T>)
    requires ReadsBack(item, spell, ok) && Advances(item, toks) && AllOk(ok, xs)
    requires |EachWithComma(spell, xs)| <= |toks|
    requires toks[..|EachWithComma(spell, xs)|] == EachWithComma(spell, xs)
    ensures Terminated(item, toks, 0) == Prepend(xs, Terminated(item, toks, |EachWithComma(spell, xs)|))
  {
    var q := |EachWithComma(spell, xs)|;
    assert toks[0..q] == toks[..q];
    EachWithCommaReads(item, spell, ok, toks, 0, xs, q);
    TerminatedAfterEach(item, toks, 0, xs, q);
  }

  /** Reading a spelled sequence gives back every item, in order, with or
      without a trailing `,`. */
  lemma SpelledRoundTrip<T(!new)>(item: (seq<Token>, nat) --> Result<Parsed<T>>, spell: T -> seq<Token>, ok: T -> bool, xs: seq<T>, trailing: bool)
    requires ReadsBack(item, spell, ok) && AllOk(ok, xs)
    requires Advances(item, Spelled(spell, xs, trailing))
    ensures var toks := Spelled(spell, xs, trailing);
            Terminated(item, toks, 0) == Ok(Parsed(xs, |toks|))
  {
    var toks := Spelled(spell, xs, trailing);
    assert toks[0..] == toks;
    SpelledReadsAll(item, spell, ok, toks, 0, xs, trailing);
    TerminatedReadsAll(item, toks, 0, xs, trailing);
  }

  /** Good items each followed by `,` and then an item that fails: the
      sequence fails with that item's error. */
  lemma EachWithCommaFirstError<T(!new)>(item: (seq<Token>, nat) --> Result<Parsed<T>>, spell: T -> seq<Token>, ok: T -> bool,
                                   toks: seq<Token>, xs: seq<T>, e: Error)
    requires ReadsBack(item, spell, ok) && Advances(item, toks) && AllOk(ok, xs)
    requires |EachWithComma(spell, xs)| < |toks|
    requires toks[..|EachWithComma(spell, xs)|] == EachWithComma(spell, xs)
    requires item(toks, |EachWithComma(spell, xs)|) == Err(e)
    ensures Terminated(item, toks, 0) == Err(e)
  {
    var q := |EachWithComma(spell, xs)|;
    assert toks[0..q] == toks[..q];
    EachWithCommaReads(item, spell, ok, toks, 0, xs, q);
    TerminatedFirstError(item, toks, 0, xs, q, e);
  }
}
