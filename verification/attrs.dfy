/** src/ast/attr.rs: the two attribute buckets, `ContainerAttr` for the enum
    and `VariantAttr` for its variants, and the conversions from the metas
    nested in `#[enum_repr(...)]`. */
module Attrs {
  import opened Diagnostics
  import opened Syntax
  import opened Symbols
  import opened Case
  import opened Parser

  /** `ContainerAttr`. Identifiers are kept as text: the bucket is a hash set,
      and identifiers compare and hash by text alone. `Repr` and `Trans` are
      declared but no conversion produces them. */
  datatype ContainerAttr =
    | RenameAll(rule: RenameRule)
    | Repr(name: string)
    | Default(name: string)
    | Trans
    | Other(text: string)
    | Attr(text: string)
    | From(name: string)
    | Into(name: string)
    | TryFrom(name: string)

  /** `VariantAttr`. `Default` and `Trans` are declared; only `Trans` is ever
      produced. */
  datatype VariantAttr =
    | VDefault(flag: bool)
    | Discriminant(value: string)
    | Rename(rule: RenameRule)
    | VTrans
    | VOther(text: string)

  /** The list holds exactly one entry, a bare identifier that syn accepts as
      an `Ident`, with no trailing comma. */
  predicate SingleIdentArg(m: MetaList)
  {
    |m.nested| == 1 && !m.trailingComma && m.nested[0].NestedItem?
    && m.nested[0].meta.PathForm? && m.nested[0].meta.path.GetIdent().Some?
    && m.nested[0].meta.path.GetIdent().value.text !in KEYWORDS
  }

  /** `syn::parse2::<Ident>(list.to_token_stream())` for `key(Name)`. */
  function ListIdent(m: MetaList): (r: Result<string>)
    ensures r.Ok? <==> SingleIdentArg(m)
    ensures r.Ok? ==> r.value == m.nested[0].meta.path.GetIdent().value.text
  {
    NestedTokensSingle(m.nested, m.trailingComma);
    var id :- ParseIdent(NestedTokens(m.nested, m.trailingComma));
    Ok(id.text)
  }

  /** The rendering of a meta, as stored by `Other` and `Attr`. */
  function ListText(fe: Frontend, m: MetaList): string
  {
    fe.render(MetaTokens(ListForm(m)))
  }

  function NameValueText(fe: Frontend, m: MetaNameValue): string
  {
    fe.render(MetaTokens(NameValueForm(m)))
  }

  /** A container key given in list form: `default`, `from`, `into`,
      `try_from` with one identifier; `attr`, `attrr_nest`, `other` recorded
      verbatim; anything else rejected at the meta. */
  predicate ContainerListKey(p: Path)
  {
    PathEq(p, DEFAULT) || PathEq(p, FROM) || PathEq(p, INTO) || PathEq(p, TRY_FROM)
    || PathEq(p, ATTR) || PathEq(p, ATTR_NEST) || PathEq(p, OTHER)
  }

  /** `TryFrom<MetaList> for ContainerAttr`. */
  function ContainerFromList(fe: Frontend, m: MetaList): (r: Result<ContainerAttr>)
    ensures PathEq(m.path, DEFAULT) ==>
              (r.Ok? <==> SingleIdentArg(m)) && (r.Ok? ==> r.value == Default(m.nested[0].meta.path.GetIdent().value.text))
    ensures PathEq(m.path, FROM) ==>
              (r.Ok? <==> SingleIdentArg(m)) && (r.Ok? ==> r.value == From(m.nested[0].meta.path.GetIdent().value.text))
    ensures PathEq(m.path, INTO) ==>
              (r.Ok? <==> SingleIdentArg(m)) && (r.Ok? ==> r.value == Into(m.nested[0].meta.path.GetIdent().value.text))
    ensures PathEq(m.path, TRY_FROM) ==>
              (r.Ok? <==> SingleIdentArg(m)) && (r.Ok? ==> r.value == TryFrom(m.nested[0].meta.path.GetIdent().value.text))
    ensures PathEq(m.path, ATTR) || PathEq(m.path, ATTR_NEST) || PathEq(m.path, OTHER) ==>
      r == Ok(Other(ListText(fe, m)))
    ensures !ContainerListKey(m.path) ==> r.Err? && r.error.span == MetaSpan(ListForm(m))
    ensures r.Ok? ==> ContainerListKey(m.path)
  {
    if PathEq(m.path, DEFAULT) then
      var name :- ListIdent(m);
      Ok(Default(name))
    else if PathEq(m.path, FROM) then
      var name :- ListIdent(m);
      Ok(From(name))
    else if PathEq(m.path, INTO) then
      var name :- ListIdent(m);
      Ok(Into(name))
    else if PathEq(m.path, TRY_FROM) then
      var name :- ListIdent(m);
      Ok(TryFrom(name))
    else if PathEq(m.path, ATTR) || PathEq(m.path, ATTR_NEST) || PathEq(m.path, OTHER) then
      Ok(Other(ListText(fe, m)))
    else
      ErrAt(MetaSpan(ListForm(m)), "unexpected container attribute " + ListText(fe, m))
  }

  /** `default = "Name"` reparses the literal as an identifier placed at the
      span of the reparsed string value. */
  function DefaultFromLit(fe: Frontend, lit: Lit): (r: Result<ContainerAttr>)
    ensures r.Ok? <==> TokenFromLit(fe, lit, STR_VALUE_SPAN, ParseIdent).Ok?
    ensures r.Ok? ==> r == Ok(Default(TokenFromLit(fe, lit, STR_VALUE_SPAN, ParseIdent).value.text))
    ensures r.Err? ==> r.error == TokenFromLit(fe, lit, STR_VALUE_SPAN, ParseIdent).error
  {
    var id :- TokenFromLit(fe, lit, STR_VALUE_SPAN, ParseIdent);
    Ok(Default(id.text))
  }

  /** A container key given in name-value form. */
  predicate ContainerNameValueKey(p: Path)
  {
    PathEq(p, DEFAULT) || PathEq(p, RENAME_ALL) || PathEq(p, OTHER) || PathEq(p, ATTR)
  }

  /** `TryFrom<MetaNameValue> for ContainerAttr`. The `default` key takes any
      literal to the reparse, so a non-string literal fails there; only
      `rename_all` reaches the "expected attribute value" error. */
  function ContainerFromNameValue(fe: Frontend, m: MetaNameValue): (r: Result<ContainerAttr>)
    ensures PathEq(m.path, DEFAULT) ==> r == DefaultFromLit(fe, m.lit)
    ensures PathEq(m.path, RENAME_ALL) && m.lit.Str? ==>
      (r.Ok? <==> m.lit.value in SPELLINGS)
      && (r.Ok? ==> r.value.RenameAll? && Display(r.value.rule) == m.lit.value)
      && (r.Err? ==> r.error.span == CallSite)
    ensures PathEq(m.path, RENAME_ALL) && !m.lit.Str? ==> r.Err? && r.error.span == CallSite
    ensures PathEq(m.path, OTHER) ==> r == Ok(Other(NameValueText(fe, m)))
    ensures PathEq(m.path, ATTR) ==> r == Ok(Attr(NameValueText(fe, m)))
    ensures !ContainerNameValueKey(m.path) ==> r.Err? && r.error.span == MetaSpan(NameValueForm(m))
    ensures r.Ok? ==> ContainerNameValueKey(m.path)
  {
    if PathEq(m.path, DEFAULT) then
      DefaultFromLit(fe, m.lit)
    else if PathEq(m.path, RENAME_ALL) && m.lit.Str? then
      var rule :- FromStr(m.lit.value);
      DisplayFromStr(m.lit.value, rule);
      Ok(RenameAll(rule))
    else if PathEq(m.path, RENAME_ALL) then
      ErrCallSite("expected attribute value " + NameValueText(fe, m) + ", expected "
                  + fe.render(PathTokens(m.path)) + " = \"str literal\"")
    else if PathEq(m.path, OTHER) then
      Ok(Other(NameValueText(fe, m)))
    else if PathEq(m.path, ATTR) then
      Ok(Attr(NameValueText(fe, m)))
    else
      ErrAt(MetaSpan(NameValueForm(m)), "unexpected container attribute " + NameValueText(fe, m))
  }

  /** A variant key given in name-value form. */
  predicate VariantNameValueKey(p: Path)
  {
    PathEq(p, DISCR) || PathEq(p, RENAME) || PathEq(p, OTHER)
  }

  /** `TryFrom<MetaNameValue> for VariantAttr`. */
  function VariantFromNameValue(fe: Frontend, m: MetaNameValue): (r: Result<VariantAttr>)
    ensures PathEq(m.path, DISCR) && m.lit.Str? ==> r == Ok(Discriminant(m.lit.value))
    ensures PathEq(m.path, RENAME) && m.lit.Str? ==>
      (r.Ok? <==> m.lit.value in SPELLINGS)
      && (r.Ok? ==> r.value.Rename? && Display(r.value.rule) == m.lit.value)
      && (r.Err? ==> r.error.span == CallSite)
    ensures (PathEq(m.path, DISCR) || PathEq(m.path, RENAME)) && !m.lit.Str? ==>
      r.Err? && r.error.span == MetaSpan(NameValueForm(m))
    ensures PathEq(m.path, OTHER) ==> r == Ok(VOther(NameValueText(fe, m)))
    ensures !VariantNameValueKey(m.path) ==> r.Err? && r.error.span == MetaSpan(NameValueForm(m))
    ensures r.Ok? ==> VariantNameValueKey(m.path)
  {
    if PathEq(m.path, DISCR) && m.lit.Str? then
      Ok(Discriminant(m.lit.value))
    else if PathEq(m.path, RENAME) && m.lit.Str? then
      var rule :- FromStr(m.lit.value);
      DisplayFromStr(m.lit.value, rule);
      Ok(Rename(rule))
    else if PathEq(m.path, RENAME) || PathEq(m.path, DISCR) then
      ErrAt(MetaSpan(NameValueForm(m)), "unexpected attribute value " + NameValueText(fe, m)
            + ", expected " + fe.render(PathTokens(m.path)) + " = \"str literal\"")
    else if PathEq(m.path, OTHER) then
      Ok(VOther(NameValueText(fe, m)))
    else
      ErrAt(MetaSpan(NameValueForm(m)), "unexpected attribute " + fe.debug(MetaTokens(NameValueForm(m))))
  }

  /** `TryFrom<MetaList> for VariantAttr`: only `other(...)`, whatever it holds. */
  function VariantFromList(fe: Frontend, m: MetaList): (r: Result<VariantAttr>)
    ensures r.Ok? <==> PathEq(m.path, OTHER)
    ensures r.Ok? ==> r.value == VTrans
    ensures r.Err? ==> r.error.span == MetaSpan(ListForm(m))
  {
    if PathEq(m.path, OTHER) then Ok(VTrans)
    else ErrAt(MetaSpan(ListForm(m)), "unexpected attribute " + fe.debug(MetaTokens(ListForm(m))))
  }

  /** A key written with a leading `::` is never a known key, and every
      classifier reports it at the `::`. */
  lemma LeadingColonKeyAtColon(fe: Frontend, s: Span, segs: seq<PathSegment>,
                               lit: Lit, nested: seq<NestedMeta>, tc: bool)
    ensures var nv := MetaNameValue(Path(Some(s), segs), lit);
      ContainerFromNameValue(fe, nv).Err? && ContainerFromNameValue(fe, nv).error.span == s
      && VariantFromNameValue(fe, nv).Err? && VariantFromNameValue(fe, nv).error.span == s
    ensures var l := MetaList(Path(Some(s), segs), nested, tc);
      ContainerFromList(fe, l).Err? && ContainerFromList(fe, l).error.span == s
      && VariantFromList(fe, l).Err? && VariantFromList(fe, l).error.span == s
  {
    var p := Path(Some(s), segs);
    assert p.GetIdent().None?;
    assert !PathEq(p, DEFAULT) && !PathEq(p, DISCR) && !PathEq(p, RENAME) && !PathEq(p, OTHER);
  }

  function ContainerClassifier(fe: Frontend): Classifier<ContainerAttr>
  {
    Classifier(nv => ContainerFromNameValue(fe, nv), l => ContainerFromList(fe, l))
  }

  function VariantClassifier(fe: Frontend): Classifier<VariantAttr>
  {
    Classifier(nv => VariantFromNameValue(fe, nv), l => VariantFromList(fe, l))
  }

  /** No conversion produces `ContainerAttr::Repr` or `ContainerAttr::Trans`,
      nor `VariantAttr::Default`. */
  lemma UnproducedCases(fe: Frontend, n: NestedMeta)
    ensures var r := ClassifyNested(fe, n, ContainerClassifier(fe));
            r.Ok? ==> !r.value.Repr? && !r.value.Trans?
    ensures var r := ClassifyNested(fe, n, VariantClassifier(fe));
            r.Ok? ==> !r.value.VDefault?
  {
  }

  function IdPath(sp: Span): Path
  {
    PathOf(Ident(ID.text, sp))
  }

  /** `rename_all` entries with different rules all stay in the container
      bucket: nothing checks that at most one is given. */
  lemma RenameAllCoexist(fe: Frontend, sp: Span, p1: Path, p2: Path, s1: Lit, s2: Lit,
                          r1: RenameRule, r2: RenameRule, tc: bool)
    requires PathEq(p1, RENAME_ALL) && PathEq(p2, RENAME_ALL)
    requires s1.Str? && s2.Str? && s1.value == Display(r1) && s2.value == Display(r2)
    ensures GetAttr(fe, ListForm(MetaList(IdPath(sp),
              [NestedItem(NameValueForm(MetaNameValue(p1, s1))),
               NestedItem(NameValueForm(MetaNameValue(p2, s2)))], tc)),
              {}, ContainerClassifier(fe)) == Ok({RenameAll(r1), RenameAll(r2)})
  {
    var ns := [NestedItem(NameValueForm(MetaNameValue(p1, s1))), NestedItem(NameValueForm(MetaNameValue(p2, s2)))];
    var c := ContainerClassifier(fe);
    var l := MetaList(IdPath(sp), ns, tc);
    assert PathEq(ListForm(l).GetPath(), ID);
    DisplayCanonical(r1);
    DisplayCanonical(r2);
    FromStrDisplay(r1);
    FromStrDisplay(r2);
    assert ClassifyNested(fe, ns[0], c) == Ok(RenameAll(r1));
    assert ClassifyNested(fe, ns[1], c) == Ok(RenameAll(r2));
    assert Classified(fe, ns, c) == {RenameAll(r1), RenameAll(r2)} by {
      forall x | x in Classified(fe, ns, c) ensures x in {RenameAll(r1), RenameAll(r2)} {
        var i :| 0 <= i < |ns| && ClassifyNested(fe, ns[i], c).Ok? && ClassifyNested(fe, ns[i], c).value == x;
      }
      assert RenameAll(r1) == ClassifyNested(fe, ns[0], c).value;
      assert RenameAll(r2) == ClassifyNested(fe, ns[1], c).value;
    }
    assert forall i :: 0 <= i < |l.nested| ==> ClassifyNested(fe, l.nested[i], c).Ok?;
    var cs: set<ContainerAttr> := Classified(fe, ns, c);
    assert GetAttr(fe, ListForm(l), {}, c).value == {} + cs;
    assert {} + cs == cs;
    assert GetAttr(fe, ListForm(l), {}, c) == Ok({RenameAll(r1), RenameAll(r2)});
  }

  /** An unknown key anywhere in a container `enum_repr(...)` rejects the
      whole attribute. */
  lemma UnknownContainerKeyRejects(fe: Frontend, l: MetaList, i: int)
    requires PathEq(l.path, ID) && 0 <= i < |l.nested| && l.nested[i].NestedItem?
    requires l.nested[i].meta.NameValueForm? ==> !ContainerNameValueKey(l.nested[i].meta.GetPath())
    requires l.nested[i].meta.ListForm? ==> !ContainerListKey(l.nested[i].meta.GetPath())
    ensures GetAttr(fe, ListForm(l), {}, ContainerClassifier(fe)).Err?
  {
    assert ClassifyNested(fe, l.nested[i], ContainerClassifier(fe)).Err?;
  }

  /** A repeated container entry collapses to a single bucket element. */
  lemma ContainerDuplicateCollapses(fe: Frontend, l: MetaList, n: NestedMeta)
    requires PathEq(l.path, ID) && l.nested == [n, n]
    ensures GetAttr(fe, ListForm(l), {}, ContainerClassifier(fe)) ==
            GetAttr(fe, ListForm(l.(nested := [n])), {}, ContainerClassifier(fe))
  {
    var c := ContainerClassifier(fe);
    var l1 := l.(nested := [n]);
    assert PathEq(l1.path, ID);
    if ClassifyNested(fe, n, c).Ok? {
      assert Classified(fe, [n, n], c) == Classified(fe, [n], c) by {
        assert ClassifyNested(fe, [n, n][1], c) == ClassifyNested(fe, [n][0], c);
      }
    }
  }
}
