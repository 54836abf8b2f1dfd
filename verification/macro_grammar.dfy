/** The input grammar of `make_enum!` (src/ast/enum_repr.rs, `EnumMacro`,
    `VariantMacro`, `FieldsMacro`), with the parts of syn 1.0's grammar it
    calls: outer attributes, module-style paths and visibilities.

      make_enum! { #[attrs] vis enum Name: Repr -> Default {
                     #[attrs] Variant(CONST = expr), ... } }

    Parsers work on a token sequence and return what they read with the
    tokens after it. `end` is where an error about running out of tokens is
    placed: the call site at the top level, the group inside a group. */
module MacroGrammar {
  import opened Diagnostics
  import opened Syntax

  datatype Parsed<+T> = Parsed(value: T, rest: seq<TokenTree>)

  /** `syn::Visibility`. A `pub(in path)` restriction records the `in`. */
  datatype Visibility =
    | Inherited
    | Public(pubSpan: Span)
    | Restricted(pubSpan: Span, inToken: bool, path: Path)
    | CrateVis(crateSpan: Span)

  /** `= expr` after the constant name; the expression is kept as tokens. */
  datatype Discr = Discr(eqSpan: Span, expr: seq<TokenTree>)

  /** `FieldsMacro`: `(CONST_NAME)` or `(CONST_NAME = expr)`. */
  datatype FieldsMacro = FieldsMacro(ident: Ident, discriminant: Option<Discr>)

  /** `VariantMacro`. */
  datatype VariantMacro = VariantMacro(attrs: seq<Attribute>, ident: Ident, fields: FieldsMacro)

  /** `EnumMacro`: the tokens `enum`, `:`, `->` and the braces are implied. */
  datatype EnumMacro = EnumMacro(attrs: seq<Attribute>, vis: Visibility, ident: Ident, repr: Ident,
                                 default: Ident, variants: seq<VariantMacro>, trailingComma: bool)

  /** `rest` is what is left of `ts` after a prefix has been read. */
  predicate Suffix(rest: seq<TokenTree>, ts: seq<TokenTree>)
  {
    |rest| <= |ts| && rest == ts[|ts| - |rest|..]
  }

  lemma SuffixTrans(a: seq<TokenTree>, b: seq<TokenTree>, c: seq<TokenTree>)
    requires Suffix(a, b) && Suffix(b, c)
    ensures Suffix(a, c)
  {
    assert c[|c| - |b|..][|b| - |a|..] == c[|c| - |a|..];
  }

  predicate IsPunct(t: TokenTree, c: char)
  {
    t.Punct? && t.ch == c
  }

  predicate IsWord(t: TokenTree, w: string)
  {
    t.Word? && t.ident.text == w
  }

  /** The sequence starts with `::`: a `:` joined to the next `:`. */
  predicate PathSepAt(ts: seq<TokenTree>)
  {
    |ts| >= 2 && IsPunct(ts[0], ':') && ts[0].joint && IsPunct(ts[1], ':')
  }

  /** A word allowed as a segment of a module-style path. */
  predicate IsModWordText(s: string)
  {
    s !in KEYWORDS || s in {"super", "self", "Self", "crate"}
  }

  /** syn's error for a missing keyword, identifier or group: at the next
      token, or at `end` with an "unexpected end of input" prefix. */
  function Expected<T>(ts: seq<TokenTree>, end: Span, what: string): (r: Result<T>)
    ensures r.Err?
    ensures ts != [] ==> r.error == Error(ts[0].SpanOf(), "expected " + what)
    ensures ts == [] ==> r.error == Error(end, "unexpected end of input, expected " + what)
  {
    if ts == [] then Err(Error(end, "unexpected end of input, expected " + what))
    else Err(Error(ts[0].SpanOf(), "expected " + what))
  }

  /** syn's error for missing punctuation: at the next token, or at `end`,
      with no prefix either way. */
  function ExpectedPunct<T>(ts: seq<TokenTree>, end: Span, what: string): (r: Result<T>)
    ensures r.Err?
    ensures ts != [] ==> r.error == Error(ts[0].SpanOf(), "expected " + what)
    ensures ts == [] ==> r.error == Error(end, "expected " + what)
  {
    Err(Error(if ts == [] then end else ts[0].SpanOf(), "expected " + what))
  }

  // ---------------------------------------------------------------------------
  // Single tokens

  /** `Ident::parse`: a word that is not a keyword. */
  function ParseIdentTok(ts: seq<TokenTree>, end: Span): (r: Result<Parsed<Ident>>)
    ensures r.Ok? <==> |ts| > 0 && IsIdentToken(ts[0])
    ensures r.Ok? ==> r.value == Parsed(ts[0].ident, ts[1..])
  {
    if |ts| > 0 && IsIdentToken(ts[0]) then Ok(Parsed(ts[0].ident, ts[1..]))
    else Expected(ts, end, "identifier")
  }

  /** A keyword token such as `enum`. */
  function ExpectWord(ts: seq<TokenTree>, end: Span, w: string): (r: Result<Parsed<Span>>)
    ensures r.Ok? <==> |ts| > 0 && IsWord(ts[0], w)
    ensures r.Ok? ==> r.value == Parsed(ts[0].ident.span, ts[1..])
  {
    if |ts| > 0 && IsWord(ts[0], w) then Ok(Parsed(ts[0].ident.span, ts[1..]))
    else Expected(ts, end, "`" + w + "`")
  }

  /** A one-character punctuation token, whatever its spacing. */
  function ExpectPunct(ts: seq<TokenTree>, end: Span, c: char): (r: Result<Parsed<Span>>)
    ensures r.Ok? <==> |ts| > 0 && IsPunct(ts[0], c)
    ensures r.Ok? ==> r.value == Parsed(ts[0].span, ts[1..])
    ensures r.Err? ==> r.error == Error(if ts == [] then end else ts[0].SpanOf(), "expected `" + [c] + "`")
  {
    if |ts| > 0 && IsPunct(ts[0], c) then Ok(Parsed(ts[0].span, ts[1..]))
    else ExpectedPunct(ts, end, "`" + [c] + "`")
  }

  /** `->`: a `-` joined to a `>`. */
  function ParseArrow(ts: seq<TokenTree>, end: Span): (r: Result<Parsed<Span>>)
    ensures r.Ok? <==> |ts| >= 2 && IsPunct(ts[0], '-') && ts[0].joint && IsPunct(ts[1], '>')
    ensures r.Ok? ==> r.value == Parsed(ts[0].span, ts[2..])
    ensures r.Err? ==> r.error == Error(if ts == [] then end else ts[0].SpanOf(), "expected `->`")
  {
    if |ts| >= 2 && IsPunct(ts[0], '-') && ts[0].joint && IsPunct(ts[1], '>') then Ok(Parsed(ts[0].span, ts[2..]))
    else ExpectedPunct(ts, end, "`->`")
  }

  /** `braced!`, `parenthesized!`, `bracketed!`: the next token is a group with
      the given delimiter. */
  function ExpectGroup(ts: seq<TokenTree>, end: Span, d: Delimiter, what: string): (r: Result<Parsed<TokenTree>>)
    ensures r.Ok? <==> |ts| > 0 && ts[0].Group? && ts[0].delimiter == d
    ensures r.Ok? ==> r.value == Parsed(ts[0], ts[1..])
  {
    if |ts| > 0 && ts[0].Group? && ts[0].delimiter == d then Ok(Parsed(ts[0], ts[1..]))
    else Expected(ts, end, what)
  }

  // ---------------------------------------------------------------------------
  // Paths, attributes, visibility

  /** The segments of `Path::parse_mod_style`: words separated by `::`; a
      separator must be followed by another segment. */
  function ModSegments(ts: seq<TokenTree>, end: Span, afterSep: bool): (r: Result<Parsed<seq<PathSegment>>>)
    ensures r.Ok? ==> Suffix(r.value.rest, ts) && |r.value.rest| < |ts| && !PathSepAt(r.value.rest)
    ensures r.Ok? ==> |r.value.value| >= 1
    ensures r.Ok? ==> forall i :: 0 <= i < |r.value.value| ==>
                        r.value.value[i].arguments.NoArguments? && IsModWordText(r.value.value[i].ident.text)
    decreases |ts|
  {
    if |ts| == 0 || !ts[0].Word? || !IsModWordText(ts[0].ident.text) then
      if afterSep then Expected(ts, end, "path segment") else Expected(ts, end, "path")
    else
      var seg := PathSegment(ts[0].ident, NoArguments);
      if PathSepAt(ts[1..]) then
        var more :- ModSegments(ts[3..], end, true);
        SuffixTrans(more.rest, ts[3..], ts);
        Ok(Parsed([seg] + more.value, more.rest))
      else
        Ok(Parsed([seg], ts[1..]))
  }

  /** A path that `Path::parse_mod_style` produces. */
  predicate WfModPath(p: Path)
  {
    |p.segments| >= 1
    && forall i :: 0 <= i < |p.segments| ==>
         p.segments[i].arguments.NoArguments? && IsModWordText(p.segments[i].ident.text)
  }

  /** `Path::parse_mod_style`: an optional leading `::`, then segments. */
  function ParseModPath(ts: seq<TokenTree>, end: Span): (r: Result<Parsed<Path>>)
    ensures r.Ok? ==> Suffix(r.value.rest, ts) && |r.value.rest| < |ts| && !PathSepAt(r.value.rest)
    ensures r.Ok? ==> WfModPath(r.value.value)
  {
    if PathSepAt(ts) then
      var segs :- ModSegments(ts[2..], end, false);
      SuffixTrans(segs.rest, ts[2..], ts);
      Ok(Parsed(Path(Some(ts[0].SpanOf()), segs.value), segs.rest))
    else
      var segs :- ModSegments(ts, end, false);
      Ok(Parsed(Path(None, segs.value), segs.rest))
  }

  /** One outer attribute `#[path tokens]`. */
  function ParseAttr(ts: seq<TokenTree>, end: Span): (r: Result<Parsed<Attribute>>)
    requires |ts| > 0 && IsPunct(ts[0], '#')
    ensures r.Ok? ==> Suffix(r.value.rest, ts) && |r.value.rest| < |ts|
    ensures r.Ok? ==> WfModPath(r.value.value.path) && !PathSepAt(r.value.value.tokens)
  {
    var g :- ExpectGroup(ts[1..], end, Bracket, "square brackets");
    var p :- ParseModPath(g.value.stream, g.value.span);
    assert ts[2..] == ts[1..][1..];
    Ok(Parsed(Attribute(p.value, p.rest), ts[2..]))
  }

  /** `Attribute::parse_outer`: attributes as long as the next token is `#`. */
  function ParseAttrs(ts: seq<TokenTree>, end: Span): (r: Result<Parsed<seq<Attribute>>>)
    ensures r.Ok? ==> Suffix(r.value.rest, ts) && !(|r.value.rest| > 0 && IsPunct(r.value.rest[0], '#'))
    ensures !(|ts| > 0 && IsPunct(ts[0], '#')) ==> r == Ok(Parsed([], ts))
    decreases |ts|
  {
    if |ts| > 0 && IsPunct(ts[0], '#') then
      var a :- ParseAttr(ts, end);
      var more :- ParseAttrs(a.rest, end);
      SuffixTrans(more.rest, a.rest, ts);
      Ok(Parsed([a.value] + more.value, more.rest))
    else
      Ok(Parsed([], ts))
  }

  /** `Visibility::parse`: `pub`, `pub(crate)`/`pub(self)`/`pub(super)`,
      `pub(in path)`, `crate`, or nothing. `pub` followed by any other
      parenthesised group is plain `pub`, leaving the group unread; `crate`
      followed by `::` begins a path, not a visibility. */
  function ParseVisibility(ts: seq<TokenTree>, end: Span): (r: Result<Parsed<Visibility>>)
    ensures r.Ok? ==> Suffix(r.value.rest, ts) && WfVis(r.value.value)
    ensures !(|ts| > 0 && (IsWord(ts[0], "pub") || IsWord(ts[0], "crate"))) ==> r == Ok(Parsed(Inherited, ts))
    ensures |ts| > 0 && IsWord(ts[0], "pub") ==> r.Ok? ==> !r.value.value.Inherited? && !r.value.value.CrateVis?
  {
    if |ts| > 0 && IsWord(ts[0], "pub") then
      var pubSpan := ts[0].ident.span;
      if |ts| > 1 && ts[1].Group? && ts[1].delimiter == Parenthesis then
        var content := ts[1].stream;
        if |content| > 0 && content[0].Word? && content[0].ident.text in {"crate", "self", "super"} then
          if |content| == 1 then Ok(Parsed(Restricted(pubSpan, false, PathOf(content[0].ident)), ts[2..]))
          else Ok(Parsed(Public(pubSpan), ts[1..]))
        else if |content| > 0 && IsWord(content[0], "in") then
          var p :- ParseModPath(content[1..], ts[1].span);
          if p.rest != [] then Err(Error(p.rest[0].SpanOf(), "unexpected token"))
          else Ok(Parsed(Restricted(pubSpan, true, p.value), ts[2..]))
        else
          Ok(Parsed(Public(pubSpan), ts[1..]))
      else
        Ok(Parsed(Public(pubSpan), ts[1..]))
    else if |ts| > 0 && IsWord(ts[0], "crate") then
      if PathSepAt(ts[1..]) then Ok(Parsed(Inherited, ts))
      else Ok(Parsed(CrateVis(ts[0].ident.span), ts[1..]))
    else
      Ok(Parsed(Inherited, ts))
  }

  // ---------------------------------------------------------------------------
  // The macro's own grammar

  /** `FieldsMacro::parse`: a parenthesised constant name, optionally followed
      by `=` and an expression that takes the rest of the parentheses. */
  function ParseFieldsMacro(ts: seq<TokenTree>, end: Span): (r: Result<Parsed<FieldsMacro>>)
    ensures r.Ok? <==> (|ts| > 0 && ts[0].Group? && ts[0].delimiter == Parenthesis
                        && |ts[0].stream| > 0 && IsIdentToken(ts[0].stream[0])
                        && (|ts[0].stream| == 1 || (IsPunct(ts[0].stream[1], '=') && |ts[0].stream| > 2)))
    ensures r.Ok? ==> r.value.rest == ts[1..] && r.value.value.ident == ts[0].stream[0].ident
    ensures r.Ok? ==> (r.value.value.discriminant.Some? <==> |ts[0].stream| > 1)
    ensures r.Ok? ==> WfFields(r.value.value)
  {
    var g :- ExpectGroup(ts, end, Parenthesis, "parentheses");
    var id :- ParseIdentTok(g.value.stream, g.value.span);
    if |id.rest| > 0 && IsPunct(id.rest[0], '=') then
      if |id.rest| == 1 then Err(Error(g.value.span, "unexpected end of input, expected expression"))
      else Ok(Parsed(FieldsMacro(id.value, Some(Discr(id.rest[0].span, id.rest[1..]))), g.rest))
    else if id.rest != [] then
      Err(Error(id.rest[0].SpanOf(), "unexpected token"))
    else
      Ok(Parsed(FieldsMacro(id.value, None), g.rest))
  }

  /** `VariantMacro::parse`: attributes, the variant name, its fields. */
  function ParseVariantMacro(ts: seq<TokenTree>, end: Span): (r: Result<Parsed<VariantMacro>>)
    ensures r.Ok? ==> Suffix(r.value.rest, ts) && |r.value.rest| < |ts|
    ensures r.Ok? ==> WfVariant(r.value.value)
  {
    ParseAttrsWf(ts, end);
    var attrs :- ParseAttrs(ts, end);
    var id :- ParseIdentTok(attrs.rest, end);
    var fields :- ParseFieldsMacro(id.rest, end);
    assert fields.rest == attrs.rest[2..];
    SuffixTrans(fields.rest, attrs.rest, ts);
    Ok(Parsed(VariantMacro(attrs.value, id.value, fields.value), fields.rest))
  }

  /** `parse_terminated(VariantMacro::parse)`: variants separated by commas,
      with an optional trailing comma, up to the end of the braces. */
  function ParseVariants(ts: seq<TokenTree>, end: Span): (r: Result<(seq<VariantMacro>, bool)>)
    ensures ts == [] ==> r == Ok(([], false))
    ensures r.Ok? ==> |r.value.0| <= |ts| && (|r.value.0| == 0 <==> ts == [])
    ensures r.Ok? && ts == [] ==> !r.value.1
    decreases |ts|
  {
    if ts == [] then Ok(([], false))
    else
      var v :- ParseVariantMacro(ts, end);
      if v.rest == [] then Ok(([v.value], false))
      else if !IsPunct(v.rest[0], ',') then Err(Error(v.rest[0].SpanOf(), "expected `,`"))
      else if v.rest[1..] == [] then Ok(([v.value], true))
      else
        var more :- ParseVariants(v.rest[1..], end);
        Ok(([v.value] + more.0, more.1))
  }

  /** What follows the visibility: `enum Name: Repr -> Default { variants }`. */
  datatype Header = Header(ident: Ident, repr: Ident, default: Ident, variants: seq<VariantMacro>, trailingComma: bool)

  /** The tokens begin `enum Name: Repr -> Default`: the keyword, three
      non-keyword identifiers, a `:` and a `-` joined to a `>`. */
  predicate SignatureAt(ts: seq<TokenTree>)
  {
    |ts| >= 7 && IsWord(ts[0], "enum") && IsIdentToken(ts[1]) && IsPunct(ts[2], ':') && IsIdentToken(ts[3])
    && IsPunct(ts[4], '-') && ts[4].joint && IsPunct(ts[5], '>') && IsIdentToken(ts[6])
  }

  /** `enum Name: Repr -> Default`, the seven tokens before the braces. */
  function ParseSignature(ts: seq<TokenTree>, end: Span): (r: Result<Parsed<(Ident, Ident, Ident)>>)
    ensures r.Ok? <==> SignatureAt(ts)
    ensures r.Ok? ==> r.value == Parsed((ts[1].ident, ts[3].ident, ts[6].ident), ts[7..])
    ensures r.Ok? ==> IsIdentToken(Word(r.value.value.0)) && IsIdentToken(Word(r.value.value.1))
    ensures r.Ok? ==> IsIdentToken(Word(r.value.value.2))
  {
    var enumKw :- ExpectWord(ts, end, "enum");
    var id :- ParseIdentTok(enumKw.rest, end);
    var colon :- ExpectPunct(id.rest, end, ':');
    var repr :- ParseIdentTok(colon.rest, end);
    var arrow :- ParseArrow(repr.rest, end);
    var default :- ParseIdentTok(arrow.rest, end);
    assert default.rest == ts[7..];
    Ok(Parsed((id.value, repr.value, default.value), default.rest))
  }

  /** The declaration after the visibility, which must take every remaining
      token: anything after the braces is an unexpected token. */
  function ParseHeader(ts: seq<TokenTree>, end: Span): (r: Result<Header>)
    ensures r.Ok? <==> SignatureAt(ts) && |ts| == 8 && ts[7].Group? && ts[7].delimiter == Brace
                       && ParseVariants(ts[7].stream, ts[7].span).Ok?
    ensures r.Ok? ==> r.value == Header(ts[1].ident, ts[3].ident, ts[6].ident,
                                        ParseVariants(ts[7].stream, ts[7].span).value.0,
                                        ParseVariants(ts[7].stream, ts[7].span).value.1)
    ensures r.Ok? ==> WfHeader(r.value)
  {
    var sig :- ParseSignature(ts, end);
    var body :- ExpectGroup(sig.rest, end, Brace, "curly braces");
    var variants :- ParseVariants(body.value.stream, body.value.span);
    ParseVariantsWf(body.value.stream, body.value.span);
    assert body.rest == ts[8..];
    if body.rest != [] then Err(Error(body.rest[0].SpanOf(), "unexpected token"))
    else Ok(Header(sig.value.0, sig.value.1, sig.value.2, variants.0, variants.1))
  }

  /** `EnumMacro::parse` under `syn::parse2`: every token must be read. */
  function ParseEnumMacro(ts: seq<TokenTree>): (r: Result<EnumMacro>)
    ensures r.Ok? ==> WfEnumMacro(r.value)
  {
    ParseAttrsWf(ts, CallSite);
    var attrs :- ParseAttrs(ts, CallSite);
    var vis :- ParseVisibility(attrs.rest, CallSite);
    var h :- ParseHeader(vis.rest, CallSite);
    Ok(EnumMacro(attrs.value, vis.value, h.ident, h.repr, h.default, h.variants, h.trailingComma))
  }

  // ---------------------------------------------------------------------------
  // Printing, the inverse of parsing on well-formed values. Punctuation and
  // keywords whose spans are not kept are printed at the call site.

  function CallSiteWord(w: string): TokenTree
  {
    Word(Ident(w, CallSite))
  }

  function AttrTokens(a: Attribute): seq<TokenTree>
  {
    [Punct('#', false, CallSite), Group(Bracket, PathTokens(a.path) + a.tokens, CallSite)]
  }

  function AttrsTokens(attrs: seq<Attribute>): seq<TokenTree>
  {
    if attrs == [] then [] else AttrTokens(attrs[0]) + AttrsTokens(attrs[1..])
  }

  function VisTokens(v: Visibility): seq<TokenTree>
  {
    match v
    case Inherited => []
    case Public(s) => [Word(Ident("pub", s))]
    case CrateVis(s) => [Word(Ident("crate", s))]
    case Restricted(s, inToken, p) =>
      [Word(Ident("pub", s)),
       Group(Parenthesis, (if inToken then [CallSiteWord("in")] else []) + PathTokens(p), CallSite)]
  }

  function FieldsTokens(f: FieldsMacro): seq<TokenTree>
  {
    var disc := match f.discriminant
      case None => []
      case Some(d) => [Punct('=', false, d.eqSpan)] + d.expr;
    [Group(Parenthesis, [Word(f.ident)] + disc, CallSite)]
  }

  function VariantTokens(v: VariantMacro): seq<TokenTree>
  {
    AttrsTokens(v.attrs) + [Word(v.ident)] + FieldsTokens(v.fields)
  }

  function VariantsTokens(vs: seq<VariantMacro>, trailingComma: bool): seq<TokenTree>
  {
    if vs == [] then []
    else if |vs| == 1 then VariantTokens(vs[0]) + (if trailingComma then [Punct(',', false, CallSite)] else [])
    else VariantTokens(vs[0]) + [Punct(',', false, CallSite)] + VariantsTokens(vs[1..], trailingComma)
  }

  function EnumMacroTokens(em: EnumMacro): seq<TokenTree>
  {
    AttrsTokens(em.attrs) + VisTokens(em.vis)
    + [CallSiteWord("enum"), Word(em.ident), Punct(':', false, CallSite), Word(em.repr),
       Punct('-', true, CallSite), Punct('>', false, CallSite), Word(em.default),
       Group(Brace, VariantsTokens(em.variants, em.trailingComma), CallSite)]
  }

  // ---------------------------------------------------------------------------
  // Well-formed values: those the parsers can produce.

  predicate WfAttr(a: Attribute)
  {
    WfModPath(a.path) && !PathSepAt(a.tokens)
  }

  predicate WfAttrs(attrs: seq<Attribute>)
  {
    forall i :: 0 <= i < |attrs| ==> WfAttr(attrs[i])
  }

  predicate WfVis(v: Visibility)
  {
    match v
    case Restricted(_, false, p) =>
      p.leadingColon.None? && |p.segments| == 1 && p.segments[0].arguments.NoArguments?
      && p.segments[0].ident.text in {"crate", "self", "super"}
    case Restricted(_, true, p) => WfModPath(p)
    case _ => true
  }

  predicate WfFields(f: FieldsMacro)
  {
    IsIdentToken(Word(f.ident)) && (f.discriminant.Some? ==> |f.discriminant.value.expr| > 0)
  }

  predicate WfVariant(v: VariantMacro)
  {
    WfAttrs(v.attrs) && IsIdentToken(Word(v.ident)) && WfFields(v.fields)
  }

  predicate WfVariants(vs: seq<VariantMacro>)
  {
    forall i :: 0 <= i < |vs| ==> WfVariant(vs[i])
  }

  lemma WfVariantsCons(v: VariantMacro, more: seq<VariantMacro>)
    requires WfVariant(v) && WfVariants(more)
    ensures WfVariants([v] + more)
  {
    assert forall i :: 0 < i < |[v] + more| ==> ([v] + more)[i] == more[i - 1];
  }

  predicate WfEnumMacro(em: EnumMacro)
  {
    WfAttrs(em.attrs) && WfVis(em.vis)
    && IsIdentToken(Word(em.ident)) && IsIdentToken(Word(em.repr)) && IsIdentToken(Word(em.default))
    && WfVariants(em.variants)
    && (|em.variants| == 0 ==> !em.trailingComma)
  }

  /** Every attribute `Attribute::parse_outer` reads is well formed. */
  lemma WfAttrsCons(a: Attribute, more: seq<Attribute>)
    requires WfAttr(a) && WfAttrs(more)
    ensures WfAttrs([a] + more)
  {
    forall i | 0 <= i < |[a] + more| ensures WfAttr(([a] + more)[i]) {
      if i > 0 { assert ([a] + more)[i] == more[i - 1]; }
    }
  }

  /** An accepted attribute list that starts with `#`: one attribute, then an
      accepted list. */
  lemma ParseAttrsStep(ts: seq<TokenTree>, end: Span)
    requires |ts| > 0 && IsPunct(ts[0], '#') && ParseAttrs(ts, end).Ok?
    ensures ParseAttr(ts, end).Ok? && ParseAttrs(ParseAttr(ts, end).value.rest, end).Ok?
    ensures ParseAttrs(ts, end).value.value
            == [ParseAttr(ts, end).value.value] + ParseAttrs(ParseAttr(ts, end).value.rest, end).value.value
  { }

  lemma {:induction false} ParseAttrsWf(ts: seq<TokenTree>, end: Span)
    ensures ParseAttrs(ts, end).Ok? ==> WfAttrs(ParseAttrs(ts, end).value.value)
    decreases |ts|
  {
    if |ts| > 0 && IsPunct(ts[0], '#') && ParseAttrs(ts, end).Ok? {
      ParseAttrsStep(ts, end);
      var a := ParseAttr(ts, end).value;
      ParseAttrsWf(a.rest, end);
      WfAttrsCons(a.value, ParseAttrs(a.rest, end).value.value);
    }
  }

  /** One step of `parse_terminated` on accepted input: a variant, then
      either the end, a final comma, or a comma and more variants. */
  lemma ParseVariantsStep(ts: seq<TokenTree>, end: Span)
    requires ts != [] && ParseVariants(ts, end).Ok?
    ensures ParseVariantMacro(ts, end).Ok?
    ensures var v := ParseVariantMacro(ts, end).value; var r := ParseVariants(ts, end).value;
      (v.rest == [] ==> r == ([v.value], false))
      && (v.rest != [] ==> IsPunct(v.rest[0], ',') && |v.rest| >= 1)
      && (|v.rest| == 1 ==> r == ([v.value], true))
      && (|v.rest| > 1 ==>
            ParseVariants(v.rest[1..], end).Ok?
            && r == ([v.value] + ParseVariants(v.rest[1..], end).value.0, ParseVariants(v.rest[1..], end).value.1))
  {
  }

  /** Every variant list `parse_terminated` reads is well formed. */
  lemma {:induction false} ParseVariantsWf(ts: seq<TokenTree>, end: Span)
    ensures ParseVariants(ts, end).Ok? ==> WfVariants(ParseVariants(ts, end).value.0)
    decreases |ts|
  {
    if ts != [] && ParseVariants(ts, end).Ok? {
      ParseVariantsStep(ts, end);
      var v := ParseVariantMacro(ts, end).value;
      if |v.rest| > 1 {
        ParseVariantsWf(v.rest[1..], end);
        WfVariantsCons(v.value, ParseVariants(v.rest[1..], end).value.0);
      } else {
        assert WfVariant(ParseVariants(ts, end).value.0[0]);
      }
    }
  }

  // ---------------------------------------------------------------------------
  // Round trips

  lemma {:induction false} ModSegmentsRoundTrip(segs: seq<PathSegment>, rest: seq<TokenTree>, end: Span, afterSep: bool)
    requires |segs| >= 1
    requires forall i :: 0 <= i < |segs| ==> segs[i].arguments.NoArguments? && IsModWordText(segs[i].ident.text)
    requires !PathSepAt(rest)
    ensures ModSegments(SegmentsTokens(segs) + rest, end, afterSep) == Ok(Parsed(segs, rest))
    decreases |segs|, 1
  {
    var ts := SegmentsTokens(segs) + rest;
    var w := Word(segs[0].ident);
    assert PathSegment(segs[0].ident, NoArguments) == segs[0];
    if |segs| == 1 {
      assert SegmentsTokens(segs) == [w];
      assert ts == [w] + rest;
      assert ts[0] == w && ts[1..] == rest;
      assert ModSegments(ts, end, afterSep) == Ok(Parsed([segs[0]], rest));
      assert segs == [segs[0]];
    } else {
      ModSegmentsRoundTripMany(segs, rest, end, afterSep);
    }
  }

  lemma {:induction false} ModSegmentsRoundTripMany(segs: seq<PathSegment>, rest: seq<TokenTree>, end: Span, afterSep: bool)
    requires |segs| >= 2
    requires forall i :: 0 <= i < |segs| ==> segs[i].arguments.NoArguments? && IsModWordText(segs[i].ident.text)
    requires !PathSepAt(rest)
    ensures ModSegments(SegmentsTokens(segs) + rest, end, afterSep) == Ok(Parsed(segs, rest))
    decreases |segs|, 0
  {
    var ts := SegmentsTokens(segs) + rest;
    var w := Word(segs[0].ident);
    var tail := SegmentsTokens(segs[1..]);
    assert PathSegment(segs[0].ident, NoArguments) == segs[0];
    assert SegmentsTokens(segs) == [w] + SeparatorTokens() + tail;
    assert ts == [w] + (SeparatorTokens() + (tail + rest));
    assert ts[0] == w;
    assert PathSepAt(ts[1..]);
    assert ts[3..] == tail + rest;
    ModSegmentsRoundTrip(segs[1..], rest, end, true);
    assert ModSegments(ts, end, afterSep) == Ok(Parsed([segs[0]] + segs[1..], rest));
    HeadTail(segs);
  }

  /** A printed segment list begins with its first segment's word. */
  lemma SegmentsStartWithWord(segs: seq<PathSegment>)
    requires |segs| >= 1
    ensures |SegmentsTokens(segs)| >= 1 && SegmentsTokens(segs)[0] == Word(segs[0].ident)
  {
  }

  /** After a leading `::`, the path is read from the tokens that follow it. */
  lemma ParseModPathColon(ts: seq<TokenTree>, s: Span, body: seq<TokenTree>, end: Span)
    requires ts == LeadingColonTokens(s) + body
    ensures ParseModPath(ts, end) ==
      match ModSegments(body, end, false)
      case Ok(segs) => Ok(Parsed(Path(Some(s), segs.value), segs.rest))
      case Err(e) => Err(e)
  {
    assert PathSepAt(ts);
    assert ts[2..] == body;
  }

  /** Without a leading `::`, the path is read from the tokens as they are. */
  lemma ParseModPathPlain(ts: seq<TokenTree>, end: Span)
    requires !PathSepAt(ts)
    ensures ParseModPath(ts, end) ==
      match ModSegments(ts, end, false)
      case Ok(segs) => Ok(Parsed(Path(None, segs.value), segs.rest))
      case Err(e) => Err(e)
  {
  }

  /** Reading a printed module-style path gives the path and stops where it ends. */
  lemma ModPathRoundTrip(p: Path, rest: seq<TokenTree>, end: Span)
    requires WfModPath(p) && !PathSepAt(rest)
    ensures ParseModPath(PathTokens(p) + rest, end) == Ok(Parsed(p, rest))
  {
    var ts := PathTokens(p) + rest;
    var body := SegmentsTokens(p.segments) + rest;
    ModSegmentsRoundTrip(p.segments, rest, end, false);
    SegmentsStartWithWord(p.segments);
    assert !PathSepAt(body);
    if p.leadingColon.Some? {
      ConcatAssoc(LeadingColonTokens(p.leadingColon.value), SegmentsTokens(p.segments), rest);
      ParseModPathColon(ts, p.leadingColon.value, body, end);
    } else {
      assert [] + SegmentsTokens(p.segments) == SegmentsTokens(p.segments);
      ParseModPathPlain(ts, end);
    }
    assert p == Path(p.leadingColon, p.segments);
  }

  /** Reading printed attributes gives them back, up to the first token that
      is not `#`. */
  lemma {:induction false} AttrsRoundTrip(attrs: seq<Attribute>, rest: seq<TokenTree>, end: Span)
    requires WfAttrs(attrs)
    requires !(|rest| > 0 && IsPunct(rest[0], '#'))
    ensures ParseAttrs(AttrsTokens(attrs) + rest, end) == Ok(Parsed(attrs, rest))
    decreases |attrs|
  {
    if attrs == [] {
      assert AttrsTokens(attrs) + rest == rest;
    } else {
      var a := attrs[0];
      var ts := AttrsTokens(attrs) + rest;
      var after := AttrsTokens(attrs[1..]) + rest;
      assert ts == AttrTokens(a) + after;
      assert ts[1..][0] == Group(Bracket, PathTokens(a.path) + a.tokens, CallSite);
      assert ts[2..] == after;
      ModPathRoundTrip(a.path, a.tokens, CallSite);
      assert ParseAttr(ts, end) == Ok(Parsed(a, after));
      assert WfAttrs(attrs[1..]);
      AttrsRoundTrip(attrs[1..], rest, end);
      assert [a] + attrs[1..] == attrs;
    }
  }

  /** Reading a printed visibility gives it back when `enum` follows. */
  /** An accepted `pub` or `crate` on its own: that one word. */
  lemma ParseVisibilityWordStep(ts: seq<TokenTree>, end: Span)
    requires ParseVisibility(ts, end).Ok?
    requires ParseVisibility(ts, end).value.value.Public? || ParseVisibility(ts, end).value.value.CrateVis?
    ensures |ts| > 0 && ts[0].Word? && ParseVisibility(ts, end).value.rest == ts[1..]
    ensures var v := ParseVisibility(ts, end).value.value;
      ts[0].ident == Ident(if v.Public? then "pub" else "crate", if v.Public? then v.pubSpan else v.crateSpan)
  { }

  /** An accepted `pub(crate)`, `pub(self)` or `pub(super)`: `pub`, then
      parentheses holding that one word. */
  lemma ParseVisibilityScopeStep(ts: seq<TokenTree>, end: Span)
    requires ParseVisibility(ts, end).Ok? && ParseVisibility(ts, end).value.value.Restricted?
    requires !ParseVisibility(ts, end).value.value.inToken
    ensures |ts| > 1 && IsWord(ts[0], "pub") && ts[1].Group? && ts[1].delimiter == Parenthesis
    ensures |ts[1].stream| == 1 && ts[1].stream[0].Word?
    ensures ParseVisibility(ts, end).value
            == Parsed(Restricted(ts[0].ident.span, false, PathOf(ts[1].stream[0].ident)), ts[2..])
  { }

  /** An accepted `pub(in path)`: `pub`, then parentheses holding `in` and a
      path that fills them. */
  lemma ParseVisibilityInStep(ts: seq<TokenTree>, end: Span)
    requires ParseVisibility(ts, end).Ok? && ParseVisibility(ts, end).value.value.Restricted?
    requires ParseVisibility(ts, end).value.value.inToken
    ensures |ts| > 1 && IsWord(ts[0], "pub") && ts[1].Group? && ts[1].delimiter == Parenthesis
    ensures |ts[1].stream| > 0 && IsWord(ts[1].stream[0], "in")
    ensures ParseModPath(ts[1].stream[1..], ts[1].span).Ok?
    ensures var p := ParseModPath(ts[1].stream[1..], ts[1].span).value;
      p.rest == [] && ParseVisibility(ts, end).value == Parsed(Restricted(ts[0].ident.span, true, p.value), ts[2..])
  { }

  lemma VisRoundTrip(v: Visibility, rest: seq<TokenTree>, end: Span)
    requires WfVis(v)
    requires |rest| > 0 && IsWord(rest[0], "enum")
    ensures ParseVisibility(VisTokens(v) + rest, end) == Ok(Parsed(v, rest))
  {
    var ts := VisTokens(v) + rest;
    match v
    case Inherited =>
      assert ts == rest;
    case Public(s) =>
      assert ts[1..] == rest;
    case CrateVis(s) =>
      assert ts[1..] == rest;
    case Restricted(s, inToken, p) =>
      if inToken {
        VisInRoundTrip(s, p, rest, end);
      } else {
        VisScopeRoundTrip(s, p, rest, end);
      }
  }

  /** `pub(in path)` read back. */
  lemma VisInRoundTrip(s: Span, p: Path, rest: seq<TokenTree>, end: Span)
    requires WfModPath(p)
    ensures ParseVisibility(VisTokens(Restricted(s, true, p)) + rest, end) == Ok(Parsed(Restricted(s, true, p), rest))
  {
    var ts := VisTokens(Restricted(s, true, p)) + rest;
    var content := [CallSiteWord("in")] + PathTokens(p);
    assert ts == [Word(Ident("pub", s))] + ([Group(Parenthesis, content, CallSite)] + rest);
    assert ts[2..] == rest;
    assert content[1..] == PathTokens(p) + [];
    ModPathRoundTrip(p, [], CallSite);
  }

  /** `pub(crate)`, `pub(self)` and `pub(super)` read back. */
  lemma VisScopeRoundTrip(s: Span, p: Path, rest: seq<TokenTree>, end: Span)
    requires WfVis(Restricted(s, false, p))
    ensures ParseVisibility(VisTokens(Restricted(s, false, p)) + rest, end) == Ok(Parsed(Restricted(s, false, p), rest))
  {
    var ts := VisTokens(Restricted(s, false, p)) + rest;
    var content := PathTokens(p);
    assert content == [Word(p.segments[0].ident)];
    assert [] + content == content;
    assert ts == [Word(Ident("pub", s))] + ([Group(Parenthesis, content, CallSite)] + rest);
    assert ts[2..] == rest;
    assert p == PathOf(p.segments[0].ident);
  }

  /** Reading printed fields gives them back. */
  lemma FieldsRoundTrip(f: FieldsMacro, rest: seq<TokenTree>, end: Span)
    requires WfFields(f)
    ensures ParseFieldsMacro(FieldsTokens(f) + rest, end) == Ok(Parsed(f, rest))
  {
    var ts := FieldsTokens(f) + rest;
    assert ts[1..] == rest;
    match f.discriminant
    case None =>
    case Some(d) =>
      var content := [Word(f.ident)] + ([Punct('=', false, d.eqSpan)] + d.expr);
      assert ts[0].stream == content;
      assert content[1..][1..] == d.expr;
  }

  lemma VariantTokensNonEmpty(v: VariantMacro)
    ensures |VariantTokens(v)| > 0
  {
  }

  /** Reading a printed variant gives it back. */
  lemma VariantRoundTrip(v: VariantMacro, rest: seq<TokenTree>, end: Span)
    requires WfVariant(v)
    ensures ParseVariantMacro(VariantTokens(v) + rest, end) == Ok(Parsed(v, rest))
  {
    var afterAttrs := [Word(v.ident)] + (FieldsTokens(v.fields) + rest);
    assert VariantTokens(v) + rest == AttrsTokens(v.attrs) + afterAttrs;
    AttrsRoundTrip(v.attrs, afterAttrs, end);
    var attrs := ParseAttrs(AttrsTokens(v.attrs) + afterAttrs, end);
    assert attrs == Ok(Parsed(v.attrs, afterAttrs));
    assert afterAttrs[1..] == FieldsTokens(v.fields) + rest;
    assert ParseIdentTok(afterAttrs, end) == Ok(Parsed(v.ident, FieldsTokens(v.fields) + rest));
    FieldsRoundTrip(v.fields, rest, end);
  }

  /** One variant followed by a comma and more tokens. */
  lemma ParseVariantsCons(ts: seq<TokenTree>, end: Span, v: VariantMacro, tail: seq<TokenTree>)
    requires ts != [] && tail != []
    requires ParseVariantMacro(ts, end) == Ok(Parsed(v, [Punct(',', false, CallSite)] + tail))
    ensures ParseVariants(ts, end) ==
      (match ParseVariants(tail, end) case Ok(m) => Ok(([v] + m.0, m.1)) case Err(e) => Err(e))
  {
    assert ([Punct(',', false, CallSite)] + tail)[1..] == tail;
  }

  /** The last variant, with or without a trailing comma. */
  lemma ParseVariantsLast(ts: seq<TokenTree>, end: Span, v: VariantMacro, trailingComma: bool)
    requires ts != []
    requires ParseVariantMacro(ts, end) ==
      Ok(Parsed(v, if trailingComma then [Punct(',', false, CallSite)] else []))
    ensures ParseVariants(ts, end) == Ok(([v], trailingComma))
  {
  }

  /** Reading a printed comma-separated variant list gives it back, with the
      trailing comma if there was one. */
  lemma {:induction false} VariantsRoundTrip(vs: seq<VariantMacro>, trailingComma: bool, end: Span)
    requires forall i :: 0 <= i < |vs| ==> WfVariant(vs[i])
    requires |vs| == 0 ==> !trailingComma
    ensures ParseVariants(VariantsTokens(vs, trailingComma), end) == Ok((vs, trailingComma))
    decreases |vs|, 2
  {
    if |vs| == 1 {
      VariantsRoundTripOne(vs[0], trailingComma, end);
      assert [vs[0]] == vs;
    } else if |vs| > 1 {
      VariantsRoundTripMany(vs, trailingComma, end);
    }
  }

  lemma VariantsRoundTripOne(v: VariantMacro, trailingComma: bool, end: Span)
    requires WfVariant(v)
    ensures ParseVariants(VariantsTokens([v], trailingComma), end) == Ok(([v], trailingComma))
  {
    var ts := VariantsTokens([v], trailingComma);
    var after: seq<TokenTree> := if trailingComma then [Punct(',', false, CallSite)] else [];
    VariantTokensNonEmpty(v);
    assert ts == VariantTokens(v) + after;
    VariantRoundTrip(v, after, end);
    ParseVariantsLast(ts, end, v, trailingComma);
  }

  lemma {:induction false} VariantsRoundTripMany(vs: seq<VariantMacro>, trailingComma: bool, end: Span)
    requires |vs| > 1
    requires forall i :: 0 <= i < |vs| ==> WfVariant(vs[i])
    ensures ParseVariants(VariantsTokens(vs, trailingComma), end) == Ok((vs, trailingComma))
    decreases |vs|, 1
  {
    var ts := VariantsTokens(vs, trailingComma);
    var tail := VariantsTokens(vs[1..], trailingComma);
    var comma := Punct(',', false, CallSite);
    VariantsTokensLayout(vs, trailingComma);
    VariantRoundTrip(vs[0], [comma] + tail, end);
    ParseVariantsCons(ts, end, vs[0], tail);
    VariantsRoundTripTail(vs, trailingComma, end);
    HeadTail(vs);
  }

  lemma HeadTail<T>(s: seq<T>)
    requires |s| > 0
    ensures [s[0]] + s[1..] == s
  {
    assert ([s[0]] + s[1..])[0] == s[0];
  }

  /** With two variants or more, the first is printed, then a comma, then the
      rest, which is not empty. */
  lemma VariantsTokensLayout(vs: seq<VariantMacro>, trailingComma: bool)
    requires |vs| > 1
    ensures VariantsTokens(vs, trailingComma) ==
      VariantTokens(vs[0]) + ([Punct(',', false, CallSite)] + VariantsTokens(vs[1..], trailingComma))
    ensures VariantsTokens(vs, trailingComma) != [] && VariantsTokens(vs[1..], trailingComma) != []
  {
    VariantTokensNonEmpty(vs[0]);
    VariantTokensNonEmpty(vs[1]);
    assert vs[1..][0] == vs[1];
  }

  lemma {:induction false} VariantsRoundTripTail(vs: seq<VariantMacro>, trailingComma: bool, end: Span)
    requires |vs| > 1
    requires forall i :: 0 <= i < |vs| ==> WfVariant(vs[i])
    ensures ParseVariants(VariantsTokens(vs[1..], trailingComma), end) == Ok((vs[1..], trailingComma))
    decreases |vs|, 0
  {
    assert forall i :: 0 <= i < |vs[1..]| ==> vs[1..][i] == vs[i + 1];
    VariantsRoundTrip(vs[1..], trailingComma, end);
  }

  function HeaderTokens(h: Header): seq<TokenTree>
  {
    [CallSiteWord("enum"), Word(h.ident), Punct(':', false, CallSite), Word(h.repr),
     Punct('-', true, CallSite), Punct('>', false, CallSite), Word(h.default),
     Group(Brace, VariantsTokens(h.variants, h.trailingComma), CallSite)]
  }

  predicate WfHeader(h: Header)
  {
    IsIdentToken(Word(h.ident)) && IsIdentToken(Word(h.repr)) && IsIdentToken(Word(h.default))
    && WfVariants(h.variants)
    && (|h.variants| == 0 ==> !h.trailingComma)
  }

  /** The seven signature tokens of a printed header read back as its names. */
  lemma SignatureRoundTrip(h: Header, after: seq<TokenTree>)
    requires IsIdentToken(Word(h.ident)) && IsIdentToken(Word(h.repr)) && IsIdentToken(Word(h.default))
    ensures ParseSignature(HeaderTokens(h)[..7] + after, CallSite) == Ok(Parsed((h.ident, h.repr, h.default), after))
  {
    var ts := HeaderTokens(h)[..7] + after;
    var last := [Word(h.default)] + after;
    assert ts[1..][1..][1..][1..][2..] == last;
    assert ExpectWord(ts, CallSite, "enum").value.rest == ts[1..];
    assert ParseIdentTok(ts[1..], CallSite) == Ok(Parsed(h.ident, ts[1..][1..]));
    assert ExpectPunct(ts[1..][1..], CallSite, ':').value.rest == ts[1..][1..][1..];
    assert ParseIdentTok(ts[1..][1..][1..], CallSite) == Ok(Parsed(h.repr, ts[1..][1..][1..][1..]));
    assert ParseArrow(ts[1..][1..][1..][1..], CallSite).value.rest == last;
    assert ParseIdentTok(last, CallSite) == Ok(Parsed(h.default, last[1..]));
  }

  /** Reading a printed declaration gives it back; anything after the braces
      is rejected. */
  lemma HeaderRoundTrip(h: Header, extra: seq<TokenTree>)
    requires WfHeader(h)
    ensures ParseHeader(HeaderTokens(h) + extra, CallSite) ==
      if extra == [] then Ok(h) else Err(Error(extra[0].SpanOf(), "unexpected token"))
  {
    var ts := HeaderTokens(h) + extra;
    var body := Group(Brace, VariantsTokens(h.variants, h.trailingComma), CallSite);
    assert ts == HeaderTokens(h)[..7] + ([body] + extra);
    SignatureRoundTrip(h, [body] + extra);
    assert ([body] + extra)[1..] == extra;
    assert ExpectGroup([body] + extra, CallSite, Brace, "curly braces") == Ok(Parsed(body, extra));
    VariantsRoundTrip(h.variants, h.trailingComma, CallSite);
  }

  function EnumMacroHeader(em: EnumMacro): Header
  {
    Header(em.ident, em.repr, em.default, em.variants, em.trailingComma)
  }

  lemma EnumMacroTokensSplit(em: EnumMacro)
    ensures EnumMacroTokens(em) == AttrsTokens(em.attrs) + (VisTokens(em.vis) + HeaderTokens(EnumMacroHeader(em)))
  {
  }

  /** Reading the printed macro input gives the same `EnumMacro` back, and
      tokens after the closing brace make the input fail. */
  lemma EnumMacroRoundTrip(em: EnumMacro, extra: seq<TokenTree>)
    requires WfEnumMacro(em)
    ensures extra == [] ==> ParseEnumMacro(EnumMacroTokens(em) + extra) == Ok(em)
    ensures extra != [] ==> ParseEnumMacro(EnumMacroTokens(em) + extra).Err?
  {
    var h := EnumMacroHeader(em);
    var tail := HeaderTokens(h) + extra;
    var visTail := VisTokens(em.vis) + tail;
    EnumMacroTokensSplit(em);
    assert EnumMacroTokens(em) + extra == AttrsTokens(em.attrs) + visTail;
    assert visTail[0].Word?;
    AttrsRoundTrip(em.attrs, visTail, CallSite);
    VisRoundTrip(em.vis, tail, CallSite);
    HeaderRoundTrip(h, extra);
  }
}
