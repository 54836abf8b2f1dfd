/** The helpers of src/util.rs: the attribute filters `strip!`/`take!` and
    their `doc`/`cfg` instances, and `wrap_in_const`, which hides a derived
    impl inside an anonymous constant. (`err!` is `ErrAt`/`ErrCallSite` in
    the Diagnostics module.) */
module Util {
  import opened Diagnostics
  import opened Syntax

  // ---------------------------------------------------------------------------
  // Attribute filters

  /** The filter both macros expand to: the attributes whose path is (`keep`)
      or is not (`!keep`) the identifier `what`, in their original order. */
  function Select(attrs: seq<Attribute>, what: string, keep: bool): (r: seq<Attribute>)
    ensures |r| <= |attrs|
    decreases |attrs|
  {
    if attrs == [] then []
    else (if attrs[0].path.IsIdent(what) == keep then [attrs[0]] else []) + Select(attrs[1..], what, keep)
  }

  lemma {:induction false} SelectMember(attrs: seq<Attribute>, what: string, keep: bool, x: Attribute)
    ensures x in Select(attrs, what, keep) <==> x in attrs && x.path.IsIdent(what) == keep
    decreases |attrs|
  {
    if attrs != [] {
      SelectMember(attrs[1..], what, keep, x);
      assert attrs == [attrs[0]] + attrs[1..];
    }
  }

  lemma SelectMembers(attrs: seq<Attribute>, what: string, keep: bool)
    ensures forall x :: x in Select(attrs, what, keep) <==> x in attrs && x.path.IsIdent(what) == keep
  {
    forall x ensures x in Select(attrs, what, keep) <==> x in attrs && x.path.IsIdent(what) == keep {
      SelectMember(attrs, what, keep, x);
    }
  }

  /** One step of the filter: the head is judged on its own. */
  lemma SelectCons(x: Attribute, rest: seq<Attribute>, what: string, keep: bool)
    ensures Select([x] + rest, what, keep) == (if x.path.IsIdent(what) == keep then [x] else []) + Select(rest, what, keep)
  {
    assert ([x] + rest)[1..] == rest;
  }

  /** The filter works attribute by attribute, so it keeps the order: the
      filter of a concatenation is the concatenation of the filters. */
  lemma {:induction false} SelectAppend(a: seq<Attribute>, b: seq<Attribute>, what: string, keep: bool)
    ensures Select(a + b, what, keep) == Select(a, what, keep) + Select(b, what, keep)
    decreases |a|
  {
    if a == [] {
      assert a + b == b;
    } else {
      assert a == [a[0]] + a[1..];
      assert a + b == [a[0]] + (a[1..] + b);
      SelectCons(a[0], a[1..] + b, what, keep);
      SelectCons(a[0], a[1..], what, keep);
      SelectAppend(a[1..], b, what, keep);
    }
  }

  /** `take!(attrs, what)`: the attributes whose path is the identifier `what`. */
  function Take(attrs: seq<Attribute>, what: string): (r: seq<Attribute>)
    ensures |r| <= |attrs|
    ensures forall a :: a in r <==> a in attrs && a.path.IsIdent(what)
  {
    SelectMembers(attrs, what, true);
    Select(attrs, what, true)
  }

  /** `strip!(attrs, what)`: the attributes whose path is not the identifier `what`. */
  function Strip(attrs: seq<Attribute>, what: string): (r: seq<Attribute>)
    ensures |r| <= |attrs|
    ensures forall a :: a in r <==> a in attrs && !a.path.IsIdent(what)
  {
    SelectMembers(attrs, what, false);
    Select(attrs, what, false)
  }

  /** `strip_doc!`: everything but the doc comments. */
  function StripDoc(attrs: seq<Attribute>): (r: seq<Attribute>)
    ensures forall a :: a in r <==> a in attrs && !a.path.IsIdent("doc")
  {
    Strip(attrs, "doc")
  }

  /** `take_cfg!`: only the `#[cfg]` attributes. */
  function TakeCfg(attrs: seq<Attribute>): (r: seq<Attribute>)
    ensures forall a :: a in r <==> a in attrs && a.path.IsIdent("cfg")
  {
    Take(attrs, "cfg")
  }

  lemma TakeAppend(a: seq<Attribute>, b: seq<Attribute>, what: string)
    ensures Take(a + b, what) == Take(a, what) + Take(b, what)
  {
    SelectAppend(a, b, what, true);
  }

  lemma StripAppend(a: seq<Attribute>, b: seq<Attribute>, what: string)
    ensures Strip(a + b, what) == Strip(a, what) + Strip(b, what)
  {
    SelectAppend(a, b, what, false);
  }

  /** `take!` and `strip!` split the attributes between them: every attribute
      goes to exactly one of the two, as often as it occurs. */
  lemma {:induction false} FiltersPartition(attrs: seq<Attribute>, what: string)
    ensures multiset(Take(attrs, what)) + multiset(Strip(attrs, what)) == multiset(attrs)
    ensures |Take(attrs, what)| + |Strip(attrs, what)| == |attrs|
    decreases |attrs|
  {
    if attrs != [] {
      FiltersPartition(attrs[1..], what);
      assert attrs == [attrs[0]] + attrs[1..];
    }
  }

  /** Filtering again by the same identifier changes nothing, and the other
      filter then leaves nothing. */
  lemma {:induction false} FiltersIdempotent(attrs: seq<Attribute>, what: string)
    ensures Take(Take(attrs, what), what) == Take(attrs, what)
    ensures Strip(Strip(attrs, what), what) == Strip(attrs, what)
    ensures Strip(Take(attrs, what), what) == []
    ensures Take(Strip(attrs, what), what) == []
    decreases |attrs|
  {
    if attrs != [] {
      var h := attrs[0];
      FiltersIdempotent(attrs[1..], what);
      var t := if h.path.IsIdent(what) then [h] else [];
      var s := if h.path.IsIdent(what) then [] else [h];
      TakeAppend(t, Take(attrs[1..], what), what);
      StripAppend(t, Take(attrs[1..], what), what);
      TakeAppend(s, Strip(attrs[1..], what), what);
      StripAppend(s, Strip(attrs[1..], what), what);
      assert [h][1..] == [];
      assert Take([h], what) == t + Take([], what);
      assert Strip([h], what) == s + Strip([], what);
    }
  }

  // ---------------------------------------------------------------------------
  // wrap_in_const

  /** How the generated code reaches the crate's runtime items. */
  datatype Prelude =
    | UseAs(path: Path, alias: string)
    | ExternCrate(crateName: string, alias: string, lints: seq<LintAllow>)

  /** An `allow` attribute on the `extern crate` item: unconditional, or a
      `cfg_attr` that applies it only when a feature is enabled. */
  datatype LintAllow =
    | Allow(lint: string)
    | AllowWhen(feature: string, lint: string)

  /** `const NAME: () = { prelude code };`, with the lints it allows. */
  datatype ConstBlock = ConstBlock(allows: seq<string>, name: Ident, prelude: Prelude, code: seq<TokenTree>)

  const NAME_PREFIX: string := "_IMPL_NL_"
  const NAME_INFIX: string := "_FOR_"
  const ALIAS: string := "_derive"
  const CRATE_NAME: string := "mac_derive"
  const CONST_ALLOWS: seq<string> := ["non_upper_case_globals", "unused_attributes", "unused_qualifications"]
  const CLIPPY_FEATURE: string := "cargo-clippy"
  const EXTERN_LINTS: seq<LintAllow> :=
    [Allow("unknown_lints"), AllowWhen(CLIPPY_FEATURE, "useless_attribute"), Allow("rust_2018_idioms")]

  /** The lints a list of `allow` attributes silences when `features` are the
      enabled features, in order. */
  function AllowedLints(allows: seq<LintAllow>, features: set<string>): (r: seq<string>)
    ensures |r| <= |allows|
    ensures forall l :: l in r <==> exists i :: 0 <= i < |allows| && allows[i].lint == l
                                                  && (allows[i].AllowWhen? ==> allows[i].feature in features)
  {
    if allows == [] then []
    else
      var more := AllowedLints(allows[1..], features);
      assert forall i :: 0 <= i < |allows[1..]| ==> allows[1..][i] == allows[i + 1];
      if allows[0].AllowWhen? && allows[0].feature !in features then more
      else [allows[0].lint] + more
  }

  /** `extern crate` always silences `unknown_lints` and `rust_2018_idioms`,
      and silences `useless_attribute` exactly when clippy is running. */
  lemma ExternLintsUnderClippy(features: set<string>)
    ensures "unknown_lints" in AllowedLints(EXTERN_LINTS, features)
    ensures "rust_2018_idioms" in AllowedLints(EXTERN_LINTS, features)
    ensures "useless_attribute" in AllowedLints(EXTERN_LINTS, features) <==> CLIPPY_FEATURE in features
  {
    assert EXTERN_LINTS[0].lint == "unknown_lints";
    assert EXTERN_LINTS[2].lint == "rust_2018_idioms";
    if "useless_attribute" in AllowedLints(EXTERN_LINTS, features) {
      var i :| 0 <= i < |EXTERN_LINTS| && EXTERN_LINTS[i].lint == "useless_attribute"
               && (EXTERN_LINTS[i].AllowWhen? ==> EXTERN_LINTS[i].feature in features);
      assert i == 1;
    }
    if CLIPPY_FEATURE in features {
      assert EXTERN_LINTS[1].lint == "useless_attribute";
    }
  }

  /** The dummy constant's name. */
  function DummyName(trait_: string, ty: Ident): string
  {
    NAME_PREFIX + trait_ + NAME_INFIX + ty.text
  }

  /** `wrap_in_const`: the code goes unchanged into a constant named after the
      trait and the type, placed at the call site; a given path is imported as
      `_derive`, otherwise the crate itself is. */
  function WrapInConst(nlPath: Option<Path>, trait_: string, ty: Ident, code: seq<TokenTree>): (r: ConstBlock)
    ensures r.code == code && r.allows == CONST_ALLOWS
    ensures r.name.span == CallSite
    ensures |r.name.text| == |NAME_PREFIX| + |trait_| + |NAME_INFIX| + |ty.text|
    ensures r.name.text[..|NAME_PREFIX|] == NAME_PREFIX
    ensures r.name.text[|r.name.text| - |ty.text|..] == ty.text
    ensures r.name.text[|NAME_PREFIX|..|NAME_PREFIX| + |trait_|] == trait_
    ensures r.name.text[|NAME_PREFIX| + |trait_|..|r.name.text| - |ty.text|] == NAME_INFIX
    ensures nlPath.Some? ==> r.prelude == UseAs(nlPath.value, ALIAS)
    ensures nlPath.None? ==> r.prelude == ExternCrate(CRATE_NAME, ALIAS, EXTERN_LINTS)
  {
    var name := DummyName(trait_, ty);
    assert name == NAME_PREFIX + (trait_ + (NAME_INFIX + ty.text));
    var prelude := match nlPath
      case Some(p) => UseAs(p, ALIAS)
      case None => ExternCrate(CRATE_NAME, ALIAS, EXTERN_LINTS);
    ConstBlock(CONST_ALLOWS, Ident(name, CallSite), prelude, code)
  }

  /** For one trait, distinct types get distinct constants. */
  lemma WrapNameInjectiveInType(p1: Option<Path>, p2: Option<Path>, trait_: string, ty1: Ident, ty2: Ident,
                                 c1: seq<TokenTree>, c2: seq<TokenTree>)
    requires WrapInConst(p1, trait_, ty1, c1).name == WrapInConst(p2, trait_, ty2, c2).name
    ensures ty1.text == ty2.text
  {
    assert DummyName(trait_, ty1) == DummyName(trait_, ty2);
    var p := NAME_PREFIX + trait_ + NAME_INFIX;
    assert DummyName(trait_, ty1)[|p|..] == ty1.text;
    assert DummyName(trait_, ty2)[|p|..] == ty2.text;
  }

  /** For one type, distinct traits get distinct constants. */
  lemma WrapNameInjectiveInTrait(p1: Option<Path>, p2: Option<Path>, t1: string, t2: string, ty: Ident,
                                  c1: seq<TokenTree>, c2: seq<TokenTree>)
    requires WrapInConst(p1, t1, ty, c1).name == WrapInConst(p2, t2, ty, c2).name
    ensures t1 == t2
  {
    assert DummyName(t1, ty) == DummyName(t2, ty);
    var n := DummyName(t1, ty);
    var k := |NAME_INFIX + ty.text|;
    assert |t1| == |t2|;
    assert n[|NAME_PREFIX|..|n| - k] == t1;
    assert DummyName(t2, ty)[|NAME_PREFIX|..|n| - k] == t2;
  }
}
