/** The function-like macros of src/func.rs: `forward_impl`, and `make_enum`,
    which reads the `EnumMacro` grammar and writes out an enum that the
    `EnumRepr` derive then reads back through its attributes. */
module Func {
  import opened Diagnostics
  import opened Syntax
  import opened Symbols
  import opened Parser
  import opened Attrs
  import opened MacroGrammar
  import opened EnumRepr

  /** `forward_impl`: the input tokens, unchanged. */
  function ForwardImpl(ts: seq<TokenTree>): (r: Result<seq<TokenTree>>)
    ensures r.Ok? && r.value == ts
  {
    Ok(ts)
  }

  /** The enum item `make_enum` writes out: attributes, visibility, name and
      variants, as the compiler reads them back. It has no generics. */
  datatype EnumItem = EnumItem(attrs: seq<Attribute>, vis: Visibility, ident: Ident, variants: seq<SynVariant>)

  /** The derive input the item becomes. The compiler hands a derive the item
      without its `#[derive(..)]` attributes; this one keeps the emitted
      `#[derive(EnumRepr)]`. Nothing changes by it: every classifier skips an
      attribute whose path is not `enum_repr`, so the only cost is that the
      frontend must also read that attribute back (`FaithfulFor`). */
  function AsDeriveInput(item: EnumItem): DeriveInput
  {
    DeriveInput(item.attrs, item.ident, Generics([]), DataEnum(item.variants))
  }

  // ---------------------------------------------------------------------------
  // The emitted attributes. `quote!` places its own tokens at the call site.

  /** The path `key` written by `quote!`. */
  function KeyPath(key: string): Path
  {
    PathOf(Ident(key, CallSite))
  }

  /** `#[path(nested, ...)]` as printed. */
  function ListAttr(l: MetaList): Attribute
  {
    Attribute(l.path, [Group(Parenthesis, NestedTokens(l.nested, l.trailingComma), CallSite)])
  }

  /** `#[repr(#repr)]`. */
  function ReprMeta(repr: Ident): MetaList
  {
    MetaList(KeyPath(REPR.text), [NestedItem(PathForm(PathOf(repr)))], false)
  }

  /** `#[derive(EnumRepr)]`. */
  function DeriveMeta(): MetaList
  {
    MetaList(KeyPath("derive"), [NestedItem(PathForm(KeyPath("EnumRepr")))], false)
  }

  /** `#[enum_repr(key = #lit)]`. */
  function EnumReprMeta(key: Symbol, lit: Lit): MetaList
  {
    MetaList(KeyPath(ID.text), [NestedItem(NameValueForm(MetaNameValue(KeyPath(key.text), lit)))], false)
  }

  /** The string literal `lit_from_token` makes of one identifier. */
  function IdentLit(fe: Frontend, id: Ident): Lit
  {
    LitFromToken(fe, [Word(id)]).value
  }

  /** One declared variant: its own attributes, then
      `#[enum_repr(discr = "CONST")]`, then the name and `= expr` when the
      macro input gave one. The variant has no fields. */
  function LowerVariant(fe: Frontend, v: VariantMacro): (r: SynVariant)
    ensures r.ident == v.ident && r.fields == Fields([])
    ensures |r.attrs| == |v.attrs| + 1 && r.attrs[..|v.attrs|] == v.attrs
    ensures r.attrs[|v.attrs|] == ListAttr(EnumReprMeta(DISCR, Str(fe.render([Word(v.fields.ident)]), v.fields.ident.span)))
    ensures r.discriminant.Some? <==> v.fields.discriminant.Some?
    ensures r.discriminant.Some? ==> r.discriminant.value == v.fields.discriminant.value.expr
  {
    var disp := match LitFromToken(fe, [Word(v.fields.ident)])
      case Ok(l) => [ListAttr(EnumReprMeta(DISCR, l))]
      case Err(_) => [];
    var e := match v.fields.discriminant
      case Some(d) => Some(d.expr)
      case None => None;
    assert (v.attrs + disp)[..|v.attrs|] == v.attrs;
    SynVariant(v.attrs + disp, v.ident, Fields([]), e)
  }

  /** The variants in declaration order. */
  function LowerVariants(fe: Frontend, vs: seq<VariantMacro>): (r: seq<SynVariant>)
    ensures |r| == |vs|
    ensures forall i :: 0 <= i < |vs| ==> r[i] == LowerVariant(fe, vs[i])
  {
    seq(|vs|, i requires 0 <= i < |vs| => LowerVariant(fe, vs[i]))
  }

  /** The three attributes written after the user's own. */
  function EmittedAttrs(fe: Frontend, em: EnumMacro): seq<Attribute>
  {
    [ListAttr(ReprMeta(em.repr)), ListAttr(DeriveMeta()), ListAttr(EnumReprMeta(DEFAULT, IdentLit(fe, em.default)))]
  }

  /** The enum `make_enum` writes for a parsed input: the input's attributes,
      then `#[repr(Repr)]`, `#[derive(EnumRepr)]` and
      `#[enum_repr(default = "Default")]`; the same visibility and name; the
      variants lowered one by one, in order. */
  function Lower(fe: Frontend, em: EnumMacro): (r: EnumItem)
    ensures r.vis == em.vis && r.ident == em.ident
    ensures |r.attrs| == |em.attrs| + 3 && r.attrs[..|em.attrs|] == em.attrs
    ensures r.attrs[|em.attrs|] == ListAttr(ReprMeta(em.repr))
    ensures r.attrs[|em.attrs| + 1] == ListAttr(DeriveMeta())
    ensures r.attrs[|em.attrs| + 2] == ListAttr(EnumReprMeta(DEFAULT, Str(fe.render([Word(em.default)]), em.default.span)))
    ensures |r.variants| == |em.variants|
    ensures forall i :: 0 <= i < |em.variants| ==> r.variants[i] == LowerVariant(fe, em.variants[i])
  {
    var default := IdentLit(fe, em.default);
    var attrs := em.attrs + [ListAttr(ReprMeta(em.repr)), ListAttr(DeriveMeta()), ListAttr(EnumReprMeta(DEFAULT, default))];
    assert attrs[..|em.attrs|] == em.attrs;
    EnumItem(attrs, em.vis, em.ident, LowerVariants(fe, em.variants))
  }

  /** `make_enum`: a parse error is returned unchanged; otherwise the parsed
      input is lowered. */
  function MakeEnum(fe: Frontend, ts: seq<TokenTree>): (r: Result<EnumItem>)
    ensures r.Err? <==> ParseEnumMacro(ts).Err?
    ensures r.Err? ==> r.error == ParseEnumMacro(ts).error
    ensures r.Ok? ==> r.value == Lower(fe, ParseEnumMacro(ts).value)
  {
    var em :- ParseEnumMacro(ts);
    Ok(Lower(fe, em))
  }

  /** Expanding the printed macro input lowers exactly that input. */
  lemma MakeEnumOfPrinted(fe: Frontend, em: EnumMacro)
    requires WfEnumMacro(em)
    ensures MakeEnum(fe, EnumMacroTokens(em)) == Ok(Lower(fe, em))
  {
    EnumMacroRoundTrip(em, []);
    assert EnumMacroTokens(em) + [] == EnumMacroTokens(em);
  }

  /** Tokens after the closing brace make the expansion fail. */
  lemma MakeEnumRejectsTrailing(fe: Frontend, em: EnumMacro, extra: seq<TokenTree>)
    requires WfEnumMacro(em) && extra != []
    ensures MakeEnum(fe, EnumMacroTokens(em) + extra).Err?
  {
    EnumMacroRoundTrip(em, extra);
  }

  // ---------------------------------------------------------------------------
  // Reading the expansion back through the `EnumRepr` derive

  /** The frontend reads a printed list attribute back as that list. */
  predicate ReadsBack(fe: Frontend, l: MetaList)
  {
    fe.parseMeta(ListAttr(l)) == Ok(ListForm(l))
  }

  /** Rendering one identifier gives its text. */
  predicate RendersIdent(fe: Frontend, id: Ident)
  {
    fe.render([Word(id)]) == id.text
  }

  /** Lexing the text of an identifier gives that one word back. */
  predicate LexesIdent(fe: Frontend, s: string)
  {
    fe.lex(s).Ok? && |fe.lex(s).value| == 1 && fe.lex(s).value[0].Word? && fe.lex(s).value[0].ident.text == s
  }

  /** An attribute outside the `enum_repr` namespace whose meta parses. */
  predicate Foreign(fe: Frontend, a: Attribute)
  {
    !PathEq(a.path, ID) && fe.parseMeta(a).Ok? && !PathEq(fe.parseMeta(a).value.GetPath(), ID)
  }

  /** A bucket step over a single-entry `enum_repr(...)` list adds exactly what
      its entry converts to. */
  lemma StepSingle<A>(fe: Frontend, key: Symbol, lit: Lit, c: Classifier<A>)
    requires ReadsBack(fe, EnumReprMeta(key, lit))
    requires c.nameValue(MetaNameValue(KeyPath(key.text), lit)).Ok?
    ensures Step(fe, ListAttr(EnumReprMeta(key, lit)), c) == Ok({c.nameValue(MetaNameValue(KeyPath(key.text), lit)).value})
  {
    var l := EnumReprMeta(key, lit);
    var n := NestedItem(NameValueForm(MetaNameValue(KeyPath(key.text), lit)));
    assert l.nested == [n];
    PathOfEq(Ident(ID.text, CallSite), ID);
    assert PathEq(ListForm(l).GetPath(), ID);
    var x := c.nameValue(MetaNameValue(KeyPath(key.text), lit)).value;
    assert ClassifyNested(fe, n, c) == Ok(x);
    assert Classified(fe, l.nested, c) == {x} by {
      assert forall y :: y in Classified(fe, l.nested, c) ==> y == x;
      assert ClassifyNested(fe, l.nested[0], c).value == x;
    }
    assert fe.parseMeta(ListAttr(l)) == Ok(ListForm(l));
    var g := GetAttr(fe, ListForm(l), {}, c);
    assert g.Ok? && g.value == {} + {x};
    assert {} + {x} == {x};
    assert Step(fe, ListAttr(l), c) == g;
  }

  /** A foreign attribute adds nothing to a bucket. */
  lemma StepForeign<A>(fe: Frontend, a: Attribute, c: Classifier<A>)
    requires Foreign(fe, a)
    ensures Step(fe, a, c) == Ok({})
  {
  }

  /** `#[repr(..)]` and `#[derive(..)]` as read back are foreign. */
  lemma EmittedForeign(fe: Frontend, repr: Ident)
    requires ReadsBack(fe, ReprMeta(repr)) && ReadsBack(fe, DeriveMeta())
    ensures Foreign(fe, ListAttr(ReprMeta(repr))) && Foreign(fe, ListAttr(DeriveMeta()))
  {
    PathOfEq(Ident(REPR.text, CallSite), ID);
    PathOfEq(Ident("derive", CallSite), ID);
  }

  /** `#[enum_repr(default = "D")]` classifies as `Default(D)` when the
      identifier renders and lexes back as itself. */
  lemma DefaultAttrClassified(fe: Frontend, d: Ident)
    requires IsIdentToken(Word(d)) && RendersIdent(fe, d) && LexesIdent(fe, d.text)
    requires ReadsBack(fe, EnumReprMeta(DEFAULT, IdentLit(fe, d)))
    ensures Step(fe, ListAttr(EnumReprMeta(DEFAULT, IdentLit(fe, d))), ContainerClassifier(fe)) == Ok({Default(d.text)})
  {
    var lit := IdentLit(fe, d);
    var nv := MetaNameValue(KeyPath(DEFAULT.text), lit);
    PathOfEq(Ident(DEFAULT.text, CallSite), DEFAULT);
    assert lit.Str? && lit.value == d.text;
    var ts := fe.lex(d.text).value;
    RespanStreamIndex(ts, STR_VALUE_SPAN, 0);
    assert RespanStream(ts, STR_VALUE_SPAN)[0] == Word(Ident(d.text, STR_VALUE_SPAN));
    assert ParseIdent(RespanStream(ts, STR_VALUE_SPAN)) == Ok(Ident(d.text, STR_VALUE_SPAN));
    assert ContainerFromNameValue(fe, nv) == Ok(Default(d.text));
    StepSingle(fe, DEFAULT, lit, ContainerClassifier(fe));
  }

  /** `#[enum_repr(discr = "CONST")]` classifies as `Discriminant(CONST)` when
      the identifier renders as itself. */
  lemma DiscrAttrClassified(fe: Frontend, c: Ident)
    requires RendersIdent(fe, c)
    requires ReadsBack(fe, EnumReprMeta(DISCR, IdentLit(fe, c)))
    ensures Step(fe, ListAttr(EnumReprMeta(DISCR, IdentLit(fe, c))), VariantClassifier(fe)) == Ok({Discriminant(c.text)})
  {
    var lit := IdentLit(fe, c);
    PathOfEq(Ident(DISCR.text, CallSite), DISCR);
    assert VariantFromNameValue(fe, MetaNameValue(KeyPath(DISCR.text), lit)) == Ok(Discriminant(c.text));
    StepSingle(fe, DISCR, lit, VariantClassifier(fe));
  }

  /** What the frontend must do for the expansion to be read back as printed:
      parse the emitted attributes as written, render identifiers as their
      text and lex the default's text to that one identifier. */
  predicate FaithfulFor(fe: Frontend, em: EnumMacro)
  {
    ReadsBack(fe, ReprMeta(em.repr)) && ReadsBack(fe, DeriveMeta())
    && ReadsBack(fe, EnumReprMeta(DEFAULT, IdentLit(fe, em.default)))
    && RendersIdent(fe, em.default) && LexesIdent(fe, em.default.text)
    && forall i :: 0 <= i < |em.variants| ==>
         RendersIdent(fe, em.variants[i].fields.ident)
         && ReadsBack(fe, EnumReprMeta(DISCR, IdentLit(fe, em.variants[i].fields.ident)))
  }

  /** The container bucket of an accepted expansion holds `Default` of the
      declared default. */
  lemma LoweredDefault(fe: Frontend, em: EnumMacro)
    requires IsIdentToken(Word(em.default)) && FaithfulFor(fe, em)
    requires EnumParse(fe, AsDeriveInput(Lower(fe, em))).Ok?
    ensures Default(em.default.text) in EnumParse(fe, AsDeriveInput(Lower(fe, em))).value.attrs
  {
    var attrs := Lower(fe, em).attrs;
    var last := |attrs| - 1;
    assert attrs[last] == ListAttr(EnumReprMeta(DEFAULT, IdentLit(fe, em.default)));
    DefaultAttrClassified(fe, em.default);
    GetAttrsSpec(fe, attrs, ContainerClassifier(fe));
    assert Default(em.default.text) in Step(fe, attrs[last], ContainerClassifier(fe)).value;
  }

  /** A lowered variant that converts holds `Discriminant` of its constant. */
  lemma LoweredVariantDiscr(fe: Frontend, v: VariantMacro)
    requires RendersIdent(fe, v.fields.ident)
    requires ReadsBack(fe, EnumReprMeta(DISCR, IdentLit(fe, v.fields.ident)))
    requires VariantTryFrom(fe, LowerVariant(fe, v)).Ok?
    ensures VariantTryFrom(fe, LowerVariant(fe, v)).value.ident == v.ident
    ensures Discriminant(v.fields.ident.text) in VariantTryFrom(fe, LowerVariant(fe, v)).value.attrs
  {
    var sv := LowerVariant(fe, v);
    var j := |sv.attrs| - 1;
    assert sv.attrs[j] == ListAttr(EnumReprMeta(DISCR, IdentLit(fe, v.fields.ident)));
    DiscrAttrClassified(fe, v.fields.ident);
    GetAttrsSpec(fe, sv.attrs, VariantClassifier(fe));
    assert Discriminant(v.fields.ident.text) in Step(fe, sv.attrs[j], VariantClassifier(fe)).value;
  }

  /** Every variant of an accepted expansion is a declared variant whose
      bucket holds `Discriminant` of that variant's constant. */
  lemma LoweredVariants(fe: Frontend, em: EnumMacro)
    requires FaithfulFor(fe, em)
    requires EnumParse(fe, AsDeriveInput(Lower(fe, em))).Ok?
    ensures var e := EnumParse(fe, AsDeriveInput(Lower(fe, em))).value;
      forall k :: 0 <= k < |e.variants| ==>
        exists i :: (0 <= i < |em.variants| && e.variants[k].ident == em.variants[i].ident
                     && Discriminant(em.variants[i].fields.ident.text) in e.variants[k].attrs)
  {
    var vs := Lower(fe, em).variants;
    var e := EnumParse(fe, AsDeriveInput(Lower(fe, em))).value;
    assert e.variants == Surviving(fe, vs);
    SurvivingFromDeclared(fe, vs);
    forall k | 0 <= k < |e.variants|
      ensures exists i :: (0 <= i < |em.variants| && e.variants[k].ident == em.variants[i].ident
                           && Discriminant(em.variants[i].fields.ident.text) in e.variants[k].attrs)
    {
      var i :| 0 <= i < |vs| && VariantTryFrom(fe, vs[i]) == Ok(e.variants[k]);
      assert vs[i] == LowerVariant(fe, em.variants[i]);
      LoweredVariantDiscr(fe, em.variants[i]);
    }
  }

  /** Attributes that add nothing, then one that adds exactly `x`: the bucket
      is exactly `{x}`. */
  lemma BucketOfLast<A>(fe: Frontend, pre: seq<Attribute>, a: Attribute, c: Classifier<A>, x: A)
    requires forall i :: 0 <= i < |pre| ==> Step(fe, pre[i], c) == Ok({})
    requires Step(fe, a, c) == Ok({x})
    ensures GetContainerAttrs(fe, pre + [a], c) == Ok({x})
  {
    var attrs := pre + [a];
    assert forall i :: 0 <= i < |pre| ==> attrs[i] == pre[i];
    assert attrs[|pre|] == a;
    GetAttrsSpec(fe, attrs, c);
    var r := GetContainerAttrs(fe, attrs, c);
    assert r.Ok?;
    forall y | y in r.value ensures y == x {
      GetAttrsFromSpec(fe, attrs, {}, c);
      StepUnionIff(fe, attrs, c, y);
      var i :| 0 <= i < |attrs| && y in Step(fe, attrs[i], c).value;
      assert i == |pre|;
    }
    assert x in Step(fe, attrs[|pre|], c).value;
    GetAttrsFromSpec(fe, attrs, {}, c);
    StepUnionIff(fe, attrs, c, x);
    assert x in r.value;
    assert r.value == {x};
  }

  /** A lowered variant whose own attributes are all foreign converts, with
      exactly `Discriminant` of its constant in its bucket. */
  lemma LoweredVariantExact(fe: Frontend, v: VariantMacro)
    requires RendersIdent(fe, v.fields.ident)
    requires ReadsBack(fe, EnumReprMeta(DISCR, IdentLit(fe, v.fields.ident)))
    requires forall j :: 0 <= j < |v.attrs| ==> Foreign(fe, v.attrs[j])
    ensures VariantTryFrom(fe, LowerVariant(fe, v)) == Ok(Variant({Discriminant(v.fields.ident.text)}, v.ident, Fields([])))
  {
    var sv := LowerVariant(fe, v);
    var d := ListAttr(EnumReprMeta(DISCR, IdentLit(fe, v.fields.ident)));
    assert sv.attrs == v.attrs + [d];
    forall j | 0 <= j < |v.attrs| ensures Step(fe, v.attrs[j], VariantClassifier(fe)) == Ok({}) {
      StepForeign(fe, v.attrs[j], VariantClassifier(fe));
    }
    DiscrAttrClassified(fe, v.fields.ident);
    BucketOfLast(fe, v.attrs, d, VariantClassifier(fe), Discriminant(v.fields.ident.text));
    GetAttrsSpec(fe, sv.attrs, VariantClassifier(fe));
  }

  /** With only foreign attributes of its own, the expansion's attributes are
      accepted and its container bucket is exactly `{Default(D)}`. */
  lemma LoweredAttrsExact(fe: Frontend, em: EnumMacro)
    requires IsIdentToken(Word(em.default)) && FaithfulFor(fe, em)
    requires forall i :: 0 <= i < |em.attrs| ==> Foreign(fe, em.attrs[i])
    ensures GetAllAttrs(fe, Lower(fe, em).attrs).Ok?
    ensures GetContainerAttrs(fe, Lower(fe, em).attrs, ContainerClassifier(fe)) == Ok({Default(em.default.text)})
  {
    var attrs := Lower(fe, em).attrs;
    var c := ContainerClassifier(fe);
    var pre := em.attrs + [ListAttr(ReprMeta(em.repr)), ListAttr(DeriveMeta())];
    var dflt := ListAttr(EnumReprMeta(DEFAULT, IdentLit(fe, em.default)));
    assert attrs == pre + [dflt];
    EmittedForeign(fe, em.repr);
    forall i | 0 <= i < |pre| ensures Foreign(fe, pre[i]) {
      if i < |em.attrs| { assert pre[i] == em.attrs[i]; }
    }
    // `get_all_attrs` accepts: every attribute is foreign or an `enum_repr(...)` list.
    forall i | 0 <= i < |attrs| ensures ListShaped(fe, attrs[i]) {
      if i < |pre| { assert attrs[i] == pre[i]; }
    }
    GetAllAttrsSpec(fe, attrs);
    forall i | 0 <= i < |pre| ensures Step(fe, pre[i], c) == Ok({}) {
      StepForeign(fe, pre[i], c);
    }
    DefaultAttrClassified(fe, em.default);
    BucketOfLast(fe, pre, dflt, c, Default(em.default.text));
  }

  /** With only foreign attributes on its variants, no lowered variant is
      dropped and each one's bucket is exactly `{Discriminant(CONST)}`. */
  lemma LoweredVariantsExact(fe: Frontend, em: EnumMacro)
    requires FaithfulFor(fe, em)
    requires forall i, j :: 0 <= i < |em.variants| && 0 <= j < |em.variants[i].attrs| ==>
      Foreign(fe, em.variants[i].attrs[j])
    ensures var r := Surviving(fe, Lower(fe, em).variants);
      |r| == |em.variants|
      && forall i :: 0 <= i < |em.variants| ==>
           r[i] == Variant({Discriminant(em.variants[i].fields.ident.text)}, em.variants[i].ident, Fields([]))
  {
    var vs := Lower(fe, em).variants;
    forall i | 0 <= i < |vs|
      ensures VariantTryFrom(fe, vs[i]) == Ok(Variant({Discriminant(em.variants[i].fields.ident.text)}, em.variants[i].ident, Fields([])))
    {
      LoweredVariantExact(fe, em.variants[i]);
    }
    SurvivingAllConvert(fe, vs);
  }

  /** With only foreign attributes of its own, an expansion is accepted: the
      container bucket is exactly `{Default(D)}`, no variant is dropped, and
      each variant's bucket is exactly `{Discriminant(CONST)}`. */
  lemma LoweredExact(fe: Frontend, em: EnumMacro)
    requires IsIdentToken(Word(em.default)) && FaithfulFor(fe, em)
    requires forall i :: 0 <= i < |em.attrs| ==> Foreign(fe, em.attrs[i])
    requires forall i, j :: 0 <= i < |em.variants| && 0 <= j < |em.variants[i].attrs| ==>
      Foreign(fe, em.variants[i].attrs[j])
    ensures EnumParse(fe, AsDeriveInput(Lower(fe, em))).Ok?
    ensures var e := EnumParse(fe, AsDeriveInput(Lower(fe, em))).value;
      e.attrs == {Default(em.default.text)} && |e.variants| == |em.variants|
      && forall i :: 0 <= i < |em.variants| ==>
           e.variants[i].ident == em.variants[i].ident
           && e.variants[i].attrs == {Discriminant(em.variants[i].fields.ident.text)}
  {
    LoweredAttrsExact(fe, em);
    LoweredVariantsExact(fe, em);
  }

  /** End to end: whenever the derive accepts the expansion, its container
      bucket holds `Default` of the declared default, and every variant it
      keeps is a declared variant whose bucket holds `Discriminant` of that
      variant's constant. */
  lemma MakeEnumClassified(fe: Frontend, ts: seq<TokenTree>)
    requires MakeEnum(fe, ts).Ok?
    requires FaithfulFor(fe, ParseEnumMacro(ts).value)
    requires EnumParse(fe, AsDeriveInput(MakeEnum(fe, ts).value)).Ok?
    ensures var em := ParseEnumMacro(ts).value;
      var e := EnumParse(fe, AsDeriveInput(MakeEnum(fe, ts).value)).value;
      Default(em.default.text) in e.attrs
      && forall k :: 0 <= k < |e.variants| ==>
           exists i :: (0 <= i < |em.variants| && e.variants[k].ident == em.variants[i].ident
                        && Discriminant(em.variants[i].fields.ident.text) in e.variants[k].attrs)
  {
    var em := ParseEnumMacro(ts).value;
    assert MakeEnum(fe, ts).value == Lower(fe, em);
    LoweredDefault(fe, em);
    LoweredVariants(fe, em);
  }
}
