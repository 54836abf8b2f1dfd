/** The `EnumRepr` derive input of src/ast/enum_repr.rs: an enum declaration
    read into its container bucket and the buckets of its variants. */
module EnumRepr {
  import opened Diagnostics
  import opened Syntax
  import opened Parser
  import opened Attrs

  /** Fields and generics pass through unexamined: their tokens. */
  datatype Fields = Fields(tokens: seq<TokenTree>)
  datatype Generics = Generics(tokens: seq<TokenTree>)

  /** `syn::Variant`: attributes, name, fields and an optional `= expr`. */
  datatype SynVariant = SynVariant(attrs: seq<Attribute>, ident: Ident, fields: Fields,
                                   discriminant: Option<seq<TokenTree>>)

  /** `syn::Data`. */
  datatype Data = DataEnum(variants: seq<SynVariant>) | DataStruct | DataUnion

  /** `syn::DeriveInput`, as syn has parsed it from the item. */
  datatype DeriveInput = DeriveInput(attrs: seq<Attribute>, ident: Ident, generics: Generics, data: Data)

  /** `Variant`: the variant's bucket, name and fields; its discriminant is
      not kept. */
  datatype Variant = Variant(attrs: set<VariantAttr>, ident: Ident, fields: Fields)

  /** `Enum`. */
  datatype Enum = Enum(attrs: set<ContainerAttr>, ident: Ident, generics: Generics, variants: seq<Variant>)

  /** `TryFrom<syn::Variant> for Variant`: classify the variant's attributes. */
  function VariantTryFrom(fe: Frontend, v: SynVariant): (r: Result<Variant>)
    ensures r.Ok? <==> GetVariantAttrs(fe, v.attrs, VariantClassifier(fe)).Ok?
    ensures r.Ok? ==> r.value.ident == v.ident && r.value.fields == v.fields
    ensures r.Ok? ==> forall a :: a in r.value.attrs <==>
      exists i :: 0 <= i < |v.attrs| && Step(fe, v.attrs[i], VariantClassifier(fe)).Ok?
        && a in Step(fe, v.attrs[i], VariantClassifier(fe)).value
    ensures r.Err? ==> r.error == GetVariantAttrs(fe, v.attrs, VariantClassifier(fe)).error
  {
    GetAttrsSpec(fe, v.attrs, VariantClassifier(fe));
    var attrs :- GetVariantAttrs(fe, v.attrs, VariantClassifier(fe));
    Ok(Variant(attrs, v.ident, v.fields))
  }

  /** `.flat_map(Variant::try_from)`: the variants that convert, in order; a
      variant whose attributes fail is dropped without an error. */
  function Surviving(fe: Frontend, vs: seq<SynVariant>): (r: seq<Variant>)
    ensures |r| <= |vs|
    decreases |vs|
  {
    if vs == [] then []
    else (match VariantTryFrom(fe, vs[0]) case Ok(v) => [v] case Err(_) => []) + Surviving(fe, vs[1..])
  }

  lemma {:induction false} SurvivingAppend(fe: Frontend, a: seq<SynVariant>, b: seq<SynVariant>)
    ensures Surviving(fe, a + b) == Surviving(fe, a) + Surviving(fe, b)
    decreases |a|
  {
    if a == [] {
      assert a + b == b;
    } else {
      assert (a + b)[0] == a[0];
      assert (a + b)[1..] == a[1..] + b;
      SurvivingAppend(fe, a[1..], b);
    }
  }

  /** A variant that fails to convert vanishes from the list; one that converts
      stays, in its place. */
  lemma SurvivingOne(fe: Frontend, a: seq<SynVariant>, v: SynVariant, b: seq<SynVariant>)
    ensures VariantTryFrom(fe, v).Err? ==> Surviving(fe, a + [v] + b) == Surviving(fe, a + b)
    ensures VariantTryFrom(fe, v).Ok? ==>
      Surviving(fe, a + [v] + b) == Surviving(fe, a) + [VariantTryFrom(fe, v).value] + Surviving(fe, b)
  {
    SurvivingAppend(fe, a + [v], b);
    SurvivingAppend(fe, a, [v]);
    SurvivingAppend(fe, a, b);
    assert [v][1..] == [];
    assert Surviving(fe, [v]) == (match VariantTryFrom(fe, v) case Ok(x) => [x] case Err(_) => []) + Surviving(fe, []);
  }

  /** When every variant converts, none is lost and each keeps its position. */
  lemma {:induction false} SurvivingAllConvert(fe: Frontend, vs: seq<SynVariant>)
    requires forall i :: 0 <= i < |vs| ==> VariantTryFrom(fe, vs[i]).Ok?
    ensures |Surviving(fe, vs)| == |vs|
    ensures forall i :: 0 <= i < |vs| ==> Surviving(fe, vs)[i] == VariantTryFrom(fe, vs[i]).value
    decreases |vs|
  {
    if vs != [] {
      var tail := vs[1..];
      assert forall i :: 0 <= i < |tail| ==> tail[i] == vs[i + 1];
      SurvivingAllConvert(fe, tail);
    }
  }

  /** Every surviving variant is the conversion of some declared variant. */
  lemma {:induction false} SurvivingFromDeclared(fe: Frontend, vs: seq<SynVariant>)
    ensures forall k :: 0 <= k < |Surviving(fe, vs)| ==>
      exists i :: 0 <= i < |vs| && VariantTryFrom(fe, vs[i]) == Ok(Surviving(fe, vs)[k])
    decreases |vs|
  {
    if vs != [] {
      var tail := vs[1..];
      SurvivingFromDeclared(fe, tail);
      var h := match VariantTryFrom(fe, vs[0]) case Ok(x) => [x] case Err(_) => [];
      var r := Surviving(fe, vs);
      assert r == h + Surviving(fe, tail);
      forall k | 0 <= k < |r|
        ensures exists i :: 0 <= i < |vs| && VariantTryFrom(fe, vs[i]) == Ok(r[k])
      {
        if k < |h| {
          assert VariantTryFrom(fe, vs[0]) == Ok(r[k]);
        } else {
          assert r[k] == Surviving(fe, tail)[k - |h|];
          var i :| 0 <= i < |tail| && VariantTryFrom(fe, tail[i]) == Ok(Surviving(fe, tail)[k - |h|]);
          assert vs[i + 1] == tail[i];
        }
      }
    } else {
      assert Surviving(fe, vs) == [];
    }
  }

  /** `Enum::parse` after syn has read the item: only enums are accepted, the
      `enum_repr` attributes must all be lists, the container bucket is
      classified, and the variants that convert are kept. */
  function EnumParse(fe: Frontend, di: DeriveInput): (r: Result<Enum>)
    ensures !di.data.DataEnum? ==> r == Err(Error(di.ident.span, "only work for enum"))
    ensures di.data.DataEnum? && GetAllAttrs(fe, di.attrs).Err? ==> r == Err(Error(CallSite, EXPECTED_LIST))
    ensures di.data.DataEnum? && GetAllAttrs(fe, di.attrs).Ok? ==>
      (r.Ok? <==> GetContainerAttrs(fe, di.attrs, ContainerClassifier(fe)).Ok?)
      && (r.Err? ==> r.error == GetContainerAttrs(fe, di.attrs, ContainerClassifier(fe)).error)
    ensures r.Ok? ==> r.value.ident == di.ident && r.value.generics == di.generics
    ensures r.Ok? ==> r.value.attrs == GetContainerAttrs(fe, di.attrs, ContainerClassifier(fe)).value
    ensures r.Ok? ==> r.value.variants == Surviving(fe, di.data.variants)
  {
    if !di.data.DataEnum? then Err(Error(di.ident.span, "only work for enum"))
    else
      GetAllAttrsSpec(fe, di.attrs);
      var _ :- GetAllAttrs(fe, di.attrs);
      var attrs :- GetContainerAttrs(fe, di.attrs, ContainerClassifier(fe));
      Ok(Enum(attrs, di.ident, di.generics, Surviving(fe, di.data.variants)))
  }

  /** A variant with a bad attribute never makes the parse fail: the result
      is the parse of the enum without that variant. */
  lemma BadVariantSkipped(fe: Frontend, di: DeriveInput, i: int)
    requires di.data.DataEnum? && 0 <= i < |di.data.variants|
    requires VariantTryFrom(fe, di.data.variants[i]).Err?
    ensures EnumParse(fe, di) ==
      EnumParse(fe, di.(data := DataEnum(di.data.variants[..i] + di.data.variants[i + 1..])))
  {
    var vs := di.data.variants;
    assert vs == vs[..i] + [vs[i]] + vs[i + 1..];
    SurvivingOne(fe, vs[..i], vs[i], vs[i + 1..]);
  }

  /** A variant with a bad attribute is missing from the parsed enum, whatever
      else it declares. */
  lemma BadVariantMissing(fe: Frontend, di: DeriveInput, i: int)
    requires di.data.DataEnum? && 0 <= i < |di.data.variants|
    requires VariantTryFrom(fe, di.data.variants[i]).Err?
    requires forall j :: 0 <= j < |di.data.variants| && j != i ==> di.data.variants[j].ident.text != di.data.variants[i].ident.text
    requires EnumParse(fe, di).Ok?
    ensures forall v :: v in EnumParse(fe, di).value.variants ==> v.ident.text != di.data.variants[i].ident.text
  {
    var vs := di.data.variants;
    var r := EnumParse(fe, di).value.variants;
    SurvivingFromDeclared(fe, vs);
    forall v | v in r
      ensures v.ident.text != vs[i].ident.text
    {
      var k :| 0 <= k < |r| && r[k] == v;
      var j :| 0 <= j < |vs| && VariantTryFrom(fe, vs[j]) == Ok(r[k]);
      assert j != i;
    }
  }
}
