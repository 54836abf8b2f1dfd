/** The symbol table of src/ast/symbol.rs: the fixed key strings and how a
    parsed path is compared with them. */
module Symbols {
  import opened Syntax

  /** A static key string. */
  datatype Symbol = Symbol(text: string)

  const ID: Symbol := Symbol("enum_repr")
  const CRATE: Symbol := Symbol("crate")
  const ALIAS: Symbol := Symbol("alias")
  const BORROW: Symbol := Symbol("borrow")
  const BOUND: Symbol := Symbol("bound")
  const CONTENT: Symbol := Symbol("content")
  const DEFAULT: Symbol := Symbol("default")
  const DENY_UNKNOWN_FIELDS: Symbol := Symbol("deny_unknown_fields")
  const FIELD_IDENTIFIER: Symbol := Symbol("field_identifier")
  const FLATTEN: Symbol := Symbol("flatten")
  const FROM: Symbol := Symbol("from")
  const GETTER: Symbol := Symbol("getter")
  const SETTER: Symbol := Symbol("setter")
  const INTO: Symbol := Symbol("into")
  const OTHER: Symbol := Symbol("other")
  const RENAME: Symbol := Symbol("rename")
  const DISCR: Symbol := Symbol("discr")
  const DISPLAY: Symbol := Symbol("display")
  const RENAME_ALL: Symbol := Symbol("rename_all")
  const SKIP: Symbol := Symbol("skip")
  const TAG: Symbol := Symbol("tag")
  const TRANSPARENT: Symbol := Symbol("transparent")
  const TRY_FROM: Symbol := Symbol("try_from")
  const UNTAGGED: Symbol := Symbol("untagged")
  const VARIANT_IDENTIFIER: Symbol := Symbol("variant_identifier")
  const WITH: Symbol := Symbol("with")
  const REPR: Symbol := Symbol("repr")
  const ATTR: Symbol := Symbol("attr")
  const CFG_ATTR: Symbol := Symbol("cfg_attr")
  /** Spelled with a doubled `r`: the key `attr_nest` is not recognised. */
  const ATTR_NEST: Symbol := Symbol("attrr_nest")

  /** Every constant of the table, in declaration order. */
  const TABLE: seq<Symbol> := [
    ID, CRATE, ALIAS, BORROW, BOUND, CONTENT, DEFAULT, DENY_UNKNOWN_FIELDS,
    FIELD_IDENTIFIER, FLATTEN, FROM, GETTER, SETTER, INTO, OTHER, RENAME,
    DISCR, DISPLAY, RENAME_ALL, SKIP, TAG, TRANSPARENT, TRY_FROM, UNTAGGED,
    VARIANT_IDENTIFIER, WITH, REPR, ATTR, CFG_ATTR, ATTR_NEST
  ]

  /** `impl PartialEq<Symbol> for Path` (and for `&Path`, which is the same
      comparison): the path is the single identifier `s`. */
  predicate PathEq(p: Path, s: Symbol)
  {
    p.IsIdent(s.text)
  }

  /** `impl PartialEq<T: AsRef<str>> for Symbol`. */
  predicate SymbolEq(s: Symbol, word: string)
  {
    s.text == word
  }

  /** `AsRef<str>`, `Debug` and `Display` all write the stored string. */
  function AsRef(s: Symbol): string { s.text }
  function DebugText(s: Symbol): string { s.text }
  function DisplayText(s: Symbol): string { s.text }

  /** A path equals a symbol exactly when it is one plain identifier (no
      leading `::`, one segment, no generic arguments) spelled as the symbol. */
  lemma PathEqIff(p: Path, s: Symbol)
    ensures PathEq(p, s) <==>
      p.leadingColon.None? && |p.segments| == 1 && p.segments[0].arguments.NoArguments?
      && p.segments[0].ident.text == s.text
  {
  }

  /** A single-identifier path equals a symbol exactly when the texts agree,
      wherever the identifier sits in the source. */
  lemma PathOfEq(id: Ident, s: Symbol)
    ensures PathEq(PathOf(id), s) <==> SymbolEq(s, id.text)
  {
  }

  /** A path is equal to at most one symbol. */
  lemma PathEqUnique(p: Path, s1: Symbol, s2: Symbol)
    requires PathEq(p, s1) && PathEq(p, s2)
    ensures s1 == s2
  {
  }

  /** The three renderings of a symbol agree with its string. */
  lemma RenderingsAgree(s: Symbol)
    ensures AsRef(s) == DebugText(s) == DisplayText(s) == s.text
  {
  }

  /** No two constants share a string, so dispatching on a key is unambiguous. */
  lemma TableDistinct()
    ensures |TABLE| == 30
    ensures forall i, j :: 0 <= i < j < |TABLE| ==> TABLE[i].text != TABLE[j].text
  {
  }

  /** The namespace key, and the misspelled nesting key. */
  lemma KeyTexts(sp: Diagnostics.Span)
    ensures ID.text == "enum_repr"
    ensures ATTR_NEST.text == "attrr_nest"
    ensures !PathEq(PathOf(Ident("attr_nest", sp)), ATTR_NEST)
    ensures PathEq(PathOf(Ident("attrr_nest", sp)), ATTR_NEST)
  {
  }
}
