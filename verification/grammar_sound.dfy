/** The other direction of the `make_enum!` grammar: whatever the parsers
    accept has the shape of the printed value they return. Spans and the
    spacing of punctuation are not part of that shape, since the printer
    places its own tokens at the call site; `Erase` forgets both. */
module GrammarSound {
  import opened Diagnostics
  import opened Syntax
  import opened MacroGrammar

  // ---------------------------------------------------------------------------
  // Tokens up to spans and spacing

  function EraseTree(t: TokenTree): TokenTree
    decreases t
  {
    match t
    case Group(d, s, _) => Group(d, Erase(s), CallSite)
    case Word(id) => Word(Ident(id.text, CallSite))
    case Punct(c, _, _) => Punct(c, false, CallSite)
    case Literal(l) => Literal(l.(span := CallSite))
  }

  function Erase(ts: seq<TokenTree>): (r: seq<TokenTree>)
    decreases ts
    ensures |r| == |ts|
  {
    if ts == [] then [] else [EraseTree(ts[0])] + Erase(ts[1..])
  }

  lemma EraseCons(t: TokenTree, ts: seq<TokenTree>)
    ensures Erase([t] + ts) == [EraseTree(t)] + Erase(ts)
  {
    assert ([t] + ts)[1..] == ts;
  }

  /** Erasure works token by token. */
  lemma {:induction false} EraseAppend(a: seq<TokenTree>, b: seq<TokenTree>)
    ensures Erase(a + b) == Erase(a) + Erase(b)
    decreases |a|
  {
    if a == [] {
      assert a + b == b;
    } else {
      assert a + b == [a[0]] + (a[1..] + b);
      EraseCons(a[0], a[1..] + b);
      EraseAppend(a[1..], b);
      HeadTail(a);
      EraseCons(a[0], a[1..]);
    }
  }

  lemma {:induction false} EraseIndex(ts: seq<TokenTree>, i: int)
    requires 0 <= i < |ts|
    ensures Erase(ts)[i] == EraseTree(ts[i])
    decreases i
  {
    if i > 0 {
      EraseIndex(ts[1..], i - 1);
    }
  }

  /** Sequences of equal length erase alike when their tokens do. */
  lemma EraseAlike(a: seq<TokenTree>, b: seq<TokenTree>)
    requires |a| == |b| && forall i :: 0 <= i < |a| ==> EraseTree(a[i]) == EraseTree(b[i])
    ensures Erase(a) == Erase(b)
  {
    forall i | 0 <= i < |a| ensures Erase(a)[i] == Erase(b)[i] {
      EraseIndex(a, i);
      EraseIndex(b, i);
    }
  }

  /** Tokens that begin with something erasing like `pre` erase as `pre`
      followed by the rest. */
  lemma ErasePrefix(ts: seq<TokenTree>, pre: seq<TokenTree>)
    requires |pre| <= |ts| && forall i :: 0 <= i < |pre| ==> EraseTree(ts[i]) == EraseTree(pre[i])
    ensures Erase(ts) == Erase(pre) + Erase(ts[|pre|..])
  {
    var k := |pre|;
    TakeDrop(ts, k);
    forall i | 0 <= i < k ensures EraseTree(ts[..k][i]) == EraseTree(pre[i]) {
      assert ts[..k][i] == ts[i];
    }
    EraseAlike(ts[..k], pre);
    EraseAppend(ts[..k], ts[k..]);
  }

  /** `a` then `b` then `c`, erased, regrouped. */
  lemma EraseThen(a: seq<TokenTree>, b: seq<TokenTree>, c: seq<TokenTree>)
    ensures Erase(a) + (Erase(b) + Erase(c)) == Erase(a + b) + Erase(c)
  {
    EraseAppend(a, b);
    ConcatAssoc(Erase(a), Erase(b), Erase(c));
  }

  // ---------------------------------------------------------------------------
  // Paths and attributes

  /** One step of `ModSegments` on accepted input. */
  lemma ModSegmentsStep(ts: seq<TokenTree>, end: Span, afterSep: bool)
    requires ModSegments(ts, end, afterSep).Ok?
    ensures |ts| >= 1 && ts[0].Word?
    ensures var p := ModSegments(ts, end, afterSep).value; var seg := PathSegment(ts[0].ident, NoArguments);
      (PathSepAt(ts[1..]) ==>
         |ts| >= 3 && ModSegments(ts[3..], end, true).Ok?
         && p == Parsed([seg] + ModSegments(ts[3..], end, true).value.value, ModSegments(ts[3..], end, true).value.rest))
      && (!PathSepAt(ts[1..]) ==> p == Parsed([seg], ts[1..]))
  {
  }

  lemma SegmentsTokensCons(seg: PathSegment, more: seq<PathSegment>)
    requires seg.arguments.NoArguments? && |more| >= 1
    ensures SegmentsTokens([seg] + more) == [Word(seg.ident)] + (SeparatorTokens() + SegmentsTokens(more))
  {
    assert ([seg] + more)[1..] == more;
  }

  /** A word, a `::` and more tokens erase as the word, `::` and the rest. */
  lemma EraseAfterSep(ts: seq<TokenTree>)
    requires |ts| >= 3 && PathSepAt(ts[1..])
    ensures Erase(ts) == [EraseTree(ts[0])] + (Erase(SeparatorTokens()) + Erase(ts[3..]))
  {
    HeadTail(ts);
    EraseCons(ts[0], ts[1..]);
    assert ts[1..] == [ts[1], ts[2]] + ts[3..];
    EraseAlike([ts[1], ts[2]], SeparatorTokens());
    EraseAppend([ts[1], ts[2]], ts[3..]);
  }

  /** Accepted segments are the printed segments, then what is left. */
  lemma {:induction false} ModSegmentsSound(ts: seq<TokenTree>, end: Span, afterSep: bool)
    requires ModSegments(ts, end, afterSep).Ok?
    ensures var p := ModSegments(ts, end, afterSep).value;
      Erase(ts) == Erase(SegmentsTokens(p.value)) + Erase(p.rest)
    decreases |ts|
  {
    ModSegmentsStep(ts, end, afterSep);
    var p := ModSegments(ts, end, afterSep).value;
    var seg := PathSegment(ts[0].ident, NoArguments);
    var w := Word(ts[0].ident);
    assert EraseTree(ts[0]) == EraseTree(w);
    if PathSepAt(ts[1..]) {
      var more := ModSegments(ts[3..], end, true).value;
      ModSegmentsSound(ts[3..], end, true);
      EraseAfterSep(ts);
      SegmentsTokensCons(seg, more.value);
      var sep, tail := SeparatorTokens(), SegmentsTokens(more.value);
      EraseCons(w, sep + tail);
      EraseAppend(sep, tail);
      ConcatAssoc(Erase(sep), Erase(tail), Erase(more.rest));
      ConcatAssoc([EraseTree(w)], Erase(sep) + Erase(tail), Erase(more.rest));
    } else {
      assert SegmentsTokens([seg]) == [w];
      HeadTail(ts);
      EraseCons(ts[0], ts[1..]);
      EraseCons(w, []);
    }
  }

  /** `Path::parse_mod_style` on accepted input: an optional `::`, then segments. */
  lemma ParseModPathStep(ts: seq<TokenTree>, end: Span)
    requires ParseModPath(ts, end).Ok?
    ensures var p := ParseModPath(ts, end).value; var k := if PathSepAt(ts) then 2 else 0;
      |ts| >= k && ModSegments(ts[k..], end, false).Ok?
      && p == Parsed(Path(if PathSepAt(ts) then Some(ts[0].SpanOf()) else None,
                          ModSegments(ts[k..], end, false).value.value),
                     ModSegments(ts[k..], end, false).value.rest)
  {
  }

  /** An accepted module-style path is the printed path, then what is left. */
  lemma ParseModPathSound(ts: seq<TokenTree>, end: Span)
    requires ParseModPath(ts, end).Ok?
    ensures var p := ParseModPath(ts, end).value;
      Erase(ts) == Erase(PathTokens(p.value)) + Erase(p.rest)
  {
    ParseModPathStep(ts, end);
    var p := ParseModPath(ts, end).value;
    var segs := SegmentsTokens(p.value.segments);
    if PathSepAt(ts) {
      ModSegmentsSound(ts[2..], end, false);
      assert ts == [ts[0], ts[1]] + ts[2..];
      var colon := LeadingColonTokens(ts[0].SpanOf());
      EraseAlike([ts[0], ts[1]], colon);
      EraseAppend([ts[0], ts[1]], ts[2..]);
      assert PathTokens(p.value) == colon + segs;
      EraseAppend(colon, segs);
      ConcatAssoc(Erase(colon), Erase(segs), Erase(p.rest));
    } else {
      ModSegmentsSound(ts, end, false);
      assert ts[0..] == ts;
      assert PathTokens(p.value) == [] + segs;
      assert [] + segs == segs;
    }
  }

  /** `#` and a bracket group whose contents erase as an attribute's body
      erase as that attribute. */
  lemma EraseAttrShape(ts: seq<TokenTree>, a: Attribute)
    requires |ts| >= 2 && IsPunct(ts[0], '#') && ts[1].Group? && ts[1].delimiter == Bracket
    requires Erase(ts[1].stream) == Erase(PathTokens(a.path) + a.tokens)
    ensures Erase(ts) == Erase(AttrTokens(a)) + Erase(ts[2..])
  {
    assert EraseTree(ts[1]) == EraseTree(AttrTokens(a)[1]);
    ErasePrefix(ts, AttrTokens(a));
  }

  /** One outer attribute: `#`, then a bracket group holding a path and the
      attribute's tokens. */
  lemma ParseAttrSound(ts: seq<TokenTree>, end: Span)
    requires |ts| > 0 && IsPunct(ts[0], '#') && ParseAttr(ts, end).Ok?
    ensures var a := ParseAttr(ts, end).value;
      Erase(ts) == Erase(AttrTokens(a.value)) + Erase(a.rest)
  {
    var a := ParseAttr(ts, end).value;
    var g := ts[1];
    var p := ParseModPath(g.stream, g.span).value;
    assert a == Parsed(Attribute(p.value, p.rest), ts[2..]);
    ParseModPathSound(g.stream, g.span);
    EraseAppend(PathTokens(p.value), p.rest);
    EraseAttrShape(ts, a.value);
  }

  /** `Attribute::parse_outer` reads exactly the printed attributes. */
  lemma {:induction false} ParseAttrsSound(ts: seq<TokenTree>, end: Span)
    requires ParseAttrs(ts, end).Ok?
    ensures var r := ParseAttrs(ts, end).value;
      Erase(ts) == Erase(AttrsTokens(r.value)) + Erase(r.rest)
    decreases |ts|
  {
    var r := ParseAttrs(ts, end).value;
    if |ts| > 0 && IsPunct(ts[0], '#') {
      var a := ParseAttr(ts, end).value;
      var more := ParseAttrs(a.rest, end).value;
      assert r == Parsed([a.value] + more.value, more.rest);
      ParseAttrSound(ts, end);
      ParseAttrsSound(a.rest, end);
      assert ([a.value] + more.value)[1..] == more.value;
      assert AttrsTokens(r.value) == AttrTokens(a.value) + AttrsTokens(more.value);
      EraseThen(AttrTokens(a.value), AttrsTokens(more.value), more.rest);
    } else {
      assert AttrsTokens([]) == [];
    }
  }

  // ---------------------------------------------------------------------------
  // Visibility

  /** `pub(in path)` as read. */
  lemma VisInSound(ts: seq<TokenTree>, end: Span)
    requires ParseVisibility(ts, end).Ok? && ParseVisibility(ts, end).value.value.Restricted?
    requires ParseVisibility(ts, end).value.value.inToken
    ensures var r := ParseVisibility(ts, end).value;
      Erase(ts) == Erase(VisTokens(r.value)) + Erase(r.rest)
  {
    ParseVisibilityInStep(ts, end);
    var content := ts[1].stream;
    var p := ParseModPath(content[1..], ts[1].span).value;
    ParseModPathSound(content[1..], ts[1].span);
    EraseVisInShape(ts, p.value);
  }

  /** `pub` and parentheses whose contents erase as `in path` erase as that
      restriction. */
  lemma EraseVisInShape(ts: seq<TokenTree>, p: Path)
    requires |ts| > 1 && IsWord(ts[0], "pub") && ts[1].Group? && ts[1].delimiter == Parenthesis
    requires |ts[1].stream| > 0 && IsWord(ts[1].stream[0], "in")
    requires Erase(ts[1].stream[1..]) == Erase(PathTokens(p)) + Erase([])
    ensures Erase(ts) == Erase(VisTokens(Restricted(ts[0].ident.span, true, p))) + Erase(ts[2..])
  {
    var content := ts[1].stream;
    assert Erase(content[1..]) == Erase(PathTokens(p));
    ErasePrefix(content, [CallSiteWord("in")]);
    EraseAppend([CallSiteWord("in")], PathTokens(p));
    ErasePrefix(ts, VisTokens(Restricted(ts[0].ident.span, true, p)));
  }

  /** Every visibility form reads exactly the printed visibility. */
  lemma ParseVisibilitySound(ts: seq<TokenTree>, end: Span)
    requires ParseVisibility(ts, end).Ok?
    ensures var r := ParseVisibility(ts, end).value;
      Erase(ts) == Erase(VisTokens(r.value)) + Erase(r.rest)
  {
    var r := ParseVisibility(ts, end).value;
    match r.value
    case Inherited =>
      assert r.rest == ts;
    case Public(_) =>
      ParseVisibilityWordStep(ts, end);
      EraseWordShape(ts, r.value);
    case CrateVis(_) =>
      ParseVisibilityWordStep(ts, end);
      EraseWordShape(ts, r.value);
    case Restricted(_, inToken, _) =>
      if inToken {
        VisInSound(ts, end);
      } else {
        ParseVisibilityScopeStep(ts, end);
        EraseVisScopeShape(ts);
      }
  }

  /** A visibility printed as one word erases as the tokens starting with that
      word. */
  lemma EraseWordShape(ts: seq<TokenTree>, v: Visibility)
    requires v.Public? || v.CrateVis?
    requires |ts| > 0 && ts[0] == VisTokens(v)[0]
    ensures Erase(ts) == Erase(VisTokens(v)) + Erase(ts[1..])
  {
    ErasePrefix(ts, VisTokens(v));
  }

  /** `pub` and parentheses holding one word erase as that restriction. */
  lemma EraseVisScopeShape(ts: seq<TokenTree>)
    requires |ts| > 1 && IsWord(ts[0], "pub") && ts[1].Group? && ts[1].delimiter == Parenthesis
    requires |ts[1].stream| == 1 && ts[1].stream[0].Word?
    ensures Erase(ts) == Erase(VisTokens(Restricted(ts[0].ident.span, false, PathOf(ts[1].stream[0].ident)))) + Erase(ts[2..])
  {
    var p := PathOf(ts[1].stream[0].ident);
    assert [] + PathTokens(p) == ts[1].stream;
    ErasePrefix(ts, VisTokens(Restricted(ts[0].ident.span, false, p)));
  }

  // ---------------------------------------------------------------------------
  // Variants

  /** `(CONST)` or `(CONST = expr)` as read. */
  lemma ParseFieldsSound(ts: seq<TokenTree>, end: Span)
    requires ParseFieldsMacro(ts, end).Ok?
    ensures var r := ParseFieldsMacro(ts, end).value;
      Erase(ts) == Erase(FieldsTokens(r.value)) + Erase(r.rest)
  {
    var r := ParseFieldsMacro(ts, end).value;
    var f := r.value;
    var st := ts[0].stream;
    var w := Word(f.ident);
    var disc := match f.discriminant
      case None => []
      case Some(d) => [Punct('=', false, d.eqSpan)] + d.expr;
    if |st| > 1 {
      var d := f.discriminant.value;
      assert d.expr == st[2..];
      ErasePrefix(st, [w, Punct('=', false, d.eqSpan)]);
      EraseAppend([w, Punct('=', false, d.eqSpan)], d.expr);
      assert [w] + disc == [w, Punct('=', false, d.eqSpan)] + d.expr;
    } else {
      assert st == [w] + disc;
    }
    ErasePrefix(ts, FieldsTokens(f));
  }

  /** A variant: attributes, name and fields, as printed. */
  lemma ParseVariantSound(ts: seq<TokenTree>, end: Span)
    requires ParseVariantMacro(ts, end).Ok?
    ensures var r := ParseVariantMacro(ts, end).value;
      Erase(ts) == Erase(VariantTokens(r.value)) + Erase(r.rest)
  {
    var r := ParseVariantMacro(ts, end).value;
    var attrs := ParseAttrs(ts, end).value;
    var w := Word(attrs.rest[0].ident);
    var fields := ParseFieldsMacro(attrs.rest[1..], end).value;
    assert r == Parsed(VariantMacro(attrs.value, attrs.rest[0].ident, fields.value), fields.rest);
    ParseAttrsSound(ts, end);
    ErasePrefix(attrs.rest, [w]);
    ParseFieldsSound(attrs.rest[1..], end);
    EraseThen([w], FieldsTokens(fields.value), fields.rest);
    EraseThen(AttrsTokens(attrs.value), [w] + FieldsTokens(fields.value), fields.rest);
    ConcatAssoc(AttrsTokens(attrs.value), [w], FieldsTokens(fields.value));
  }

  /** A last variant, then nothing or a final comma, erases as the printed
      one-element list. */
  lemma EraseVariantsLast(ts: seq<TokenTree>, v: VariantMacro, rest: seq<TokenTree>, trailingComma: bool)
    requires Erase(ts) == Erase(VariantTokens(v)) + Erase(rest)
    requires trailingComma ==> |rest| == 1 && IsPunct(rest[0], ',')
    requires !trailingComma ==> rest == []
    ensures Erase(ts) == Erase(VariantsTokens([v], trailingComma))
  {
    var vt := VariantTokens(v);
    var comma := if trailingComma then [Punct(',', false, CallSite)] else [];
    assert VariantsTokens([v], trailingComma) == vt + comma;
    EraseAlike(rest, comma);
    EraseAppend(vt, comma);
  }

  /** A variant, a comma, then a printed list, erases as the longer list. */
  lemma EraseVariantsCons(ts: seq<TokenTree>, v: VariantMacro, rest: seq<TokenTree>,
                          more: seq<VariantMacro>, trailingComma: bool)
    requires Erase(ts) == Erase(VariantTokens(v)) + Erase(rest)
    requires |rest| > 1 && IsPunct(rest[0], ',') && |more| >= 1
    requires Erase(rest[1..]) == Erase(VariantsTokens(more, trailingComma))
    ensures Erase(ts) == Erase(VariantsTokens([v] + more, trailingComma))
  {
    var vt := VariantTokens(v);
    var comma := [Punct(',', false, CallSite)];
    var tail := VariantsTokens(more, trailingComma);
    assert ([v] + more)[1..] == more;
    assert VariantsTokens([v] + more, trailingComma) == vt + comma + tail;
    ErasePrefix(rest, comma);
    EraseThen(vt, comma, tail);
    EraseAppend(vt + comma, tail);
  }

  /** `parse_terminated` reads exactly the printed comma-separated list. */
  lemma {:induction false} ParseVariantsSound(ts: seq<TokenTree>, end: Span)
    requires ParseVariants(ts, end).Ok?
    ensures var r := ParseVariants(ts, end).value;
      Erase(ts) == Erase(VariantsTokens(r.0, r.1))
    decreases |ts|
  {
    if ts != [] {
      var r := ParseVariants(ts, end).value;
      ParseVariantsStep(ts, end);
      var v := ParseVariantMacro(ts, end).value;
      ParseVariantSound(ts, end);
      if |v.rest| > 1 {
        var more := ParseVariants(v.rest[1..], end).value;
        ParseVariantsSound(v.rest[1..], end);
        EraseVariantsCons(ts, v.value, v.rest, more.0, more.1);
      } else {
        EraseVariantsLast(ts, v.value, v.rest, r.1);
      }
    }
  }

  // ---------------------------------------------------------------------------
  // The whole input

  /** `enum Name: Repr -> Default { variants }` as read. */
  lemma ParseHeaderSound(ts: seq<TokenTree>, end: Span)
    requires ParseHeader(ts, end).Ok?
    ensures Erase(ts) == Erase(HeaderTokens(ParseHeader(ts, end).value))
  {
    var h := ParseHeader(ts, end).value;
    ParseVariantsSound(ts[7].stream, ts[7].span);
    EraseHeaderShape(ts, h);
  }

  /** Eight tokens shaped like a header, whose names are the header's and
      whose brace group erases as its variants, erase as that header. */
  lemma EraseHeaderShape(ts: seq<TokenTree>, h: Header)
    requires SignatureAt(ts) && |ts| == 8 && ts[7].Group? && ts[7].delimiter == Brace
    requires h.ident == ts[1].ident && h.repr == ts[3].ident && h.default == ts[6].ident
    requires Erase(ts[7].stream) == Erase(VariantsTokens(h.variants, h.trailingComma))
    ensures Erase(ts) == Erase(HeaderTokens(h))
  {
    var pre := HeaderTokens(h);
    assert EraseTree(ts[7]) == EraseTree(pre[7]);
    EraseAlike(ts, pre);
  }

  /** Three layers read one after the other erase as their printed forms
      concatenated. */
  lemma EraseLayers(ts: seq<TokenTree>, a: seq<TokenTree>, rest: seq<TokenTree>,
                    b: seq<TokenTree>, rest2: seq<TokenTree>, c: seq<TokenTree>)
    requires Erase(ts) == Erase(a) + Erase(rest)
    requires Erase(rest) == Erase(b) + Erase(rest2)
    requires Erase(rest2) == Erase(c)
    ensures Erase(ts) == Erase(a + (b + c))
  {
    EraseAppend(b, c);
    EraseAppend(a, b + c);
  }

  /** An accepted `make_enum!` input: attributes, then a visibility, then the
      header, each read from what the previous one left. */
  lemma ParseEnumMacroStep(ts: seq<TokenTree>)
    requires ParseEnumMacro(ts).Ok?
    ensures ParseAttrs(ts, CallSite).Ok?
    ensures ParseVisibility(ParseAttrs(ts, CallSite).value.rest, CallSite).Ok?
    ensures var attrs := ParseAttrs(ts, CallSite).value;
      var vis := ParseVisibility(attrs.rest, CallSite).value;
      ParseHeader(vis.rest, CallSite).Ok? &&
      var h := ParseHeader(vis.rest, CallSite).value;
      ParseEnumMacro(ts).value == EnumMacro(attrs.value, vis.value, h.ident, h.repr, h.default, h.variants, h.trailingComma)
  { }

  /** Whatever `make_enum!` accepts is, up to spans and spacing, the printed
      form of the declaration it returns. */
  lemma ParseEnumMacroSound(ts: seq<TokenTree>)
    requires ParseEnumMacro(ts).Ok?
    ensures Erase(ts) == Erase(EnumMacroTokens(ParseEnumMacro(ts).value))
  {
    ParseEnumMacroStep(ts);
    var em := ParseEnumMacro(ts).value;
    var attrs := ParseAttrs(ts, CallSite).value;
    var vis := ParseVisibility(attrs.rest, CallSite).value;
    var h := ParseHeader(vis.rest, CallSite).value;
    assert EnumMacroHeader(em) == h;
    ParseAttrsSound(ts, CallSite);
    ParseVisibilitySound(attrs.rest, CallSite);
    ParseHeaderSound(vis.rest, CallSite);
    EnumMacroTokensSplit(em);
    EraseLayers(ts, AttrsTokens(attrs.value), attrs.rest, VisTokens(vis.value), vis.rest, HeaderTokens(h));
  }

  /** Printing an accepted declaration and reading it again gives the same
      declaration. */
  lemma ReparseAccepted(ts: seq<TokenTree>)
    requires ParseEnumMacro(ts).Ok?
    ensures ParseEnumMacro(EnumMacroTokens(ParseEnumMacro(ts).value)) == ParseEnumMacro(ts)
  {
    var em := ParseEnumMacro(ts).value;
    EnumMacroRoundTrip(em, []);
    assert EnumMacroTokens(em) + [] == EnumMacroTokens(em);
  }
}
