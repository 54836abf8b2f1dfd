/** src/ast/parser.rs: reinterpreting literals as tokens, respanning token
    trees, and extracting the `enum_repr` metas of a declaration's attributes. */
module Parser {
  import opened Diagnostics
  import opened Syntax
  import opened Symbols
  import Utf8

  // ---------------------------------------------------------------------------
  // Respanning

  /** `respan_token_tree`: the token, and inside a group every token at every
      depth, moved to `sp`. */
  function RespanTree(t: TokenTree, sp: Span): TokenTree
    decreases t
  {
    match t
    case Group(d, s, _) => Group(d, RespanStream(s, sp), sp)
    case Word(id) => Word(Ident(id.text, sp))
    case Punct(c, j, _) => Punct(c, j, sp)
    case Literal(l) => Literal(l.(span := sp))
  }

  /** `respan_token_stream`. */
  function RespanStream(ts: seq<TokenTree>, sp: Span): (r: seq<TokenTree>)
    decreases ts
    ensures |r| == |ts|
  {
    if ts == [] then [] else [RespanTree(ts[0], sp)] + RespanStream(ts[1..], sp)
  }

  /** Every token of the tree, at every depth, is at `sp`. */
  predicate TreeAt(t: TokenTree, sp: Span)
    decreases t
  {
    t.SpanOf() == sp && (t.Group? ==> StreamAt(t.stream, sp))
  }

  predicate StreamAt(ts: seq<TokenTree>, sp: Span)
    decreases ts
  {
    forall i :: 0 <= i < |ts| ==> TreeAt(ts[i], sp)
  }

  /** Two literals that differ at most in their span. */
  predicate SameLit(a: Lit, b: Lit)
  {
    a.(span := CallSite) == b.(span := CallSite)
  }

  /** Two trees with the same tokens in the same order, the same kinds, texts
      and delimiters, whatever their spans. */
  predicate SameTree(a: TokenTree, b: TokenTree)
    decreases a
  {
    match a
    case Group(d, s, _) => b.Group? && b.delimiter == d && SameStream(s, b.stream)
    case Word(id) => b.Word? && b.ident.text == id.text
    case Punct(c, j, _) => b.Punct? && b.ch == c && b.joint == j
    case Literal(l) => b.Literal? && SameLit(l, b.lit)
  }

  predicate SameStream(a: seq<TokenTree>, b: seq<TokenTree>)
    decreases a
  {
    |a| == |b| && forall i :: 0 <= i < |a| ==> SameTree(a[i], b[i])
  }

  lemma RespanStreamIndex(ts: seq<TokenTree>, sp: Span, i: int)
    requires 0 <= i < |ts|
    ensures RespanStream(ts, sp)[i] == RespanTree(ts[i], sp)
  {
    if i > 0 {
      RespanStreamIndex(ts[1..], sp, i - 1);
    }
  }

  /** Respanning puts every token at every depth at the target span and keeps
      the number, order, kinds, texts and delimiters of the tokens. */
  lemma {:induction false} RespanTreeSpec(t: TokenTree, sp: Span)
    ensures TreeAt(RespanTree(t, sp), sp)
    ensures SameTree(t, RespanTree(t, sp))
    decreases t, 1
  {
    match t
    case Group(d, s, _) =>
      RespanStreamSpec(s, sp);
    case Word(id) =>
    case Punct(c, j, _) =>
    case Literal(l) =>
  }

  lemma {:induction false} RespanStreamSpec(ts: seq<TokenTree>, sp: Span)
    ensures StreamAt(RespanStream(ts, sp), sp)
    ensures SameStream(ts, RespanStream(ts, sp))
    decreases ts, 0
  {
    var r := RespanStream(ts, sp);
    forall i | 0 <= i < |ts|
      ensures TreeAt(r[i], sp) && SameTree(ts[i], r[i])
    {
      RespanStreamIndex(ts, sp, i);
      RespanTreeSpec(ts[i], sp);
    }
  }

  /** The respanned tree is the only tree of the same shape whose tokens are
      all at the target span. */
  lemma {:induction false} RespanTreeUnique(t: TokenTree, u: TokenTree, sp: Span)
    requires SameTree(t, u) && TreeAt(u, sp)
    ensures u == RespanTree(t, sp)
    decreases t, 1
  {
    match t
    case Group(d, s, _) =>
      RespanStreamUnique(s, u.stream, sp);
    case Word(id) =>
    case Punct(c, j, _) =>
    case Literal(l) =>
  }

  lemma {:induction false} RespanStreamUnique(ts: seq<TokenTree>, us: seq<TokenTree>, sp: Span)
    requires SameStream(ts, us) && StreamAt(us, sp)
    ensures us == RespanStream(ts, sp)
    decreases ts, 0
  {
    var r := RespanStream(ts, sp);
    forall i | 0 <= i < |ts|
      ensures us[i] == r[i]
    {
      RespanStreamIndex(ts, sp, i);
      RespanTreeUnique(ts[i], us[i], sp);
    }
  }

  // ---------------------------------------------------------------------------
  // Literals and tokens

  /** The span a `&str` reports: proc_macro2 turns it into a new string literal
      token at the call site. Reparsed text is respanned here, not to the span
      of the literal the text came from. */
  const STR_VALUE_SPAN: Span := CallSite

  /** `spanned_tokens`: lex the text, then respan every token to `sp`. */
  function SpannedTokens(fe: Frontend, s: string, sp: Span): (r: Result<seq<TokenTree>>)
    ensures r.Ok? <==> fe.lex(s).Ok?
    ensures r.Err? ==> r.error == fe.lex(s).error
    ensures r.Ok? ==> StreamAt(r.value, sp) && SameStream(fe.lex(s).value, r.value)
  {
    var ts :- fe.lex(s);
    RespanStreamSpec(ts, sp);
    Ok(RespanStream(ts, sp))
  }

  /** `token_from_str`: parse the respanned tokens of a text with `parse`
      (`syn::parse2` at the requested type). */
  function TokenFromStr<T>(fe: Frontend, s: string, sp: Span, parse: seq<TokenTree> -> Result<T>): (r: Result<T>)
    ensures fe.lex(s).Err? ==> r == Err(fe.lex(s).error)
    ensures fe.lex(s).Ok? ==> r == parse(RespanStream(fe.lex(s).value, sp))
  {
    var ts :- SpannedTokens(fe, s, sp);
    parse(ts)
  }

  /** `token_from_lit`: a string literal is reparsed from its value, a byte
      string from the lossy UTF-8 decoding of its bytes, and every other kind
      of literal is an error at the literal. */
  function TokenFromLit<T>(fe: Frontend, lit: Lit, sp: Span, parse: seq<TokenTree> -> Result<T>): (r: Result<T>)
    ensures lit.Str? ==> r == TokenFromStr(fe, lit.value, sp, parse)
    ensures lit.ByteStr? ==> r == TokenFromStr(fe, Utf8.FromUtf8Lossy(lit.bytes, fe.lossy), sp, parse)
    ensures !lit.Str? && !lit.ByteStr? ==> r == Err(Error(lit.span, "unsupported literal type"))
  {
    match lit
    case Str(v, _) => TokenFromStr(fe, v, sp, parse)
    case ByteStr(b, _) => TokenFromStr(fe, Utf8.FromUtf8Lossy(b, fe.lossy), sp, parse)
    case _ => Err(Error(lit.span, "unsupported literal type"))
  }

  /** A byte string holding the UTF-8 encoding of a text reparses exactly as the
      string literal of that text, wherever either literal is. */
  lemma ByteStrLikeStr<T>(fe: Frontend, s: string, sb: Span, ss: Span, sp: Span, parse: seq<TokenTree> -> Result<T>)
    ensures TokenFromLit(fe, ByteStr(Utf8.Encode(s), sb), sp, parse) == TokenFromLit(fe, Str(s, ss), sp, parse)
  {
    Utf8.LossyOnEncoded(s, fe.lossy);
  }

  /** Where a string literal sits does not affect what it reparses to. */
  lemma ReparseIgnoresLiteralSpan<T>(fe: Frontend, v: string, b: seq<Utf8.uint8>, s1: Span, s2: Span, sp: Span, parse: seq<TokenTree> -> Result<T>)
    ensures TokenFromLit(fe, Str(v, s1), sp, parse) == TokenFromLit(fe, Str(v, s2), sp, parse)
    ensures TokenFromLit(fe, ByteStr(b, s1), sp, parse) == TokenFromLit(fe, ByteStr(b, s2), sp, parse)
  {
  }

  /** An identifier reparsed from a literal is the one word the text lexes to,
      placed at the respan target `sp` rather than at the literal. */
  lemma ReparsedIdent(fe: Frontend, lit: Lit, sp: Span, id: Ident)
    requires TokenFromLit(fe, lit, sp, ParseIdent) == Ok(id)
    ensures lit.Str? || lit.ByteStr?
    ensures id.span == sp
    ensures var text := if lit.Str? then lit.value else Utf8.FromUtf8Lossy(lit.bytes, fe.lossy);
            fe.lex(text).Ok? && |fe.lex(text).value| == 1 && fe.lex(text).value[0].Word?
            && fe.lex(text).value[0].ident.text == id.text && id.text !in KEYWORDS
  {
    var text := if lit.Str? then lit.value else Utf8.FromUtf8Lossy(lit.bytes, fe.lossy);
    var ts := fe.lex(text).value;
    RespanStreamIndex(ts, sp, 0);
  }

  /** `lit_from_token`: a string literal holding the rendered text of the
      tokens, at the tokens' span. */
  function LitFromToken(fe: Frontend, ts: seq<TokenTree>): (r: Result<Lit>)
    ensures r.Ok? && r.value.Str?
    ensures r.value.value == fe.render(ts) && r.value.span == FirstSpan(ts)
  {
    Ok(Str(fe.render(ts), FirstSpan(ts)))
  }

  /** `string_from_lit`: the value of a string literal; any other literal is an
      error at the literal. */
  function StringFromLit(lit: Lit): (r: Result<string>)
    ensures r.Ok? <==> lit.Str?
    ensures r.Ok? ==> r.value == lit.value
    ensures r.Err? ==> r.error == Error(lit.span, "unsupported literal")
  {
    match lit
    case Str(v, _) => Ok(v)
    case _ => Err(Error(lit.span, "unsupported literal"))
  }

  /** Reading back the literal made from tokens yields their rendering. */
  lemma StringFromLitFromToken(fe: Frontend, ts: seq<TokenTree>)
    ensures StringFromLit(LitFromToken(fe, ts).value) == Ok(fe.render(ts))
  {
  }

  /** Shared by `parse_lit_str_into_ty` and `parse_lit_into_path`: reparse a
      string literal, replacing a failure by one at the literal that quotes it. */
  function ParseLitStrInto<T>(fe: Frontend, s: Lit, target: string, parse: seq<TokenTree> -> Result<T>): (r: Result<T>)
    requires s.Str?
    ensures r.Ok? <==> TokenFromStr(fe, s.value, STR_VALUE_SPAN, parse).Ok?
    ensures r.Ok? ==> r == TokenFromStr(fe, s.value, STR_VALUE_SPAN, parse)
    ensures r.Err? ==> r.error.span == s.span && Contains(r.error.message, s.value)
                       && Contains(r.error.message, target)
  {
    match TokenFromStr(fe, s.value, STR_VALUE_SPAN, parse)
    case Ok(t) => Ok(t)
    case Err(e) =>
      var msg := "failed to parse literal `" + s.value + "` into `" + target + "`\ngot: " + e.message;
      ContainsMiddle("failed to parse literal `", s.value, "` into `" + target + "`\ngot: " + e.message);
      assert msg == "failed to parse literal `" + s.value + ("` into `" + target + "`\ngot: " + e.message);
      assert msg == ("failed to parse literal `" + s.value + "` into `") + target + ("`\ngot: " + e.message);
      ContainsMiddle("failed to parse literal `" + s.value + "` into `", target, "`\ngot: " + e.message);
      Err(Error(s.span, msg))
  }

  /** `parse_lit_str_into_ty`, with the `Type` grammar as `parseType`. */
  function ParseLitStrIntoTy<T>(fe: Frontend, s: Lit, parseType: seq<TokenTree> -> Result<T>): Result<T>
    requires s.Str?
  {
    ParseLitStrInto(fe, s, "Type", parseType)
  }

  /** `parse_lit_into_path`, with the `Path` grammar as `parsePath`. */
  function ParseLitIntoPath<T>(fe: Frontend, s: Lit, parsePath: seq<TokenTree> -> Result<T>): Result<T>
    requires s.Str?
  {
    ParseLitStrInto(fe, s, "Path", parsePath)
  }

  // ---------------------------------------------------------------------------
  // Metas compared as `HashSet<Meta>` compares them: syn's equality and hashing
  // of identifiers and literals ignore spans, so a set holds metas with every
  // span erased.

  function UnspannedIdent(id: Ident): Ident
  {
    Ident(id.text, CallSite)
  }

  function UnspannedArguments(a: PathArguments): PathArguments
  {
    match a
    case NoArguments => NoArguments
    case AngleBracketed(args) => AngleBracketed(RespanStream(args, CallSite))
    case Parenthesized(args) => Parenthesized(RespanStream(args, CallSite))
  }

  function UnspannedSegments(segs: seq<PathSegment>): (r: seq<PathSegment>)
    ensures |r| == |segs|
  {
    if segs == [] then []
    else [PathSegment(UnspannedIdent(segs[0].ident), UnspannedArguments(segs[0].arguments))]
         + UnspannedSegments(segs[1..])
  }

  function UnspannedPath(p: Path): Path
  {
    Path(if p.leadingColon.Some? then Some(CallSite) else None, UnspannedSegments(p.segments))
  }

  function UnspannedMeta(m: Meta): Meta
    decreases m
  {
    match m
    case PathForm(p) => PathForm(UnspannedPath(p))
    case NameValueForm(nv) => NameValueForm(MetaNameValue(UnspannedPath(nv.path), nv.lit.(span := CallSite)))
    case ListForm(l) => ListForm(MetaList(UnspannedPath(l.path), UnspannedNested(l.nested), l.trailingComma))
  }

  function UnspannedNestedMeta(n: NestedMeta): NestedMeta
    decreases n
  {
    match n
    case NestedItem(m) => NestedItem(UnspannedMeta(m))
    case NestedLit(l) => NestedLit(l.(span := CallSite))
  }

  function UnspannedNested(ns: seq<NestedMeta>): (r: seq<NestedMeta>)
    decreases ns
    ensures |r| == |ns|
  {
    if ns == [] then [] else [UnspannedNestedMeta(ns[0])] + UnspannedNested(ns[1..])
  }

  lemma {:induction false} UnspannedNestedIndex(ns: seq<NestedMeta>, i: int)
    requires 0 <= i < |ns|
    ensures UnspannedNested(ns)[i] == UnspannedNestedMeta(ns[i])
    decreases i
  {
    var head := [UnspannedNestedMeta(ns[0])];
    assert UnspannedNested(ns) == head + UnspannedNested(ns[1..]);
    if i > 0 {
      UnspannedNestedIndex(ns[1..], i - 1);
      assert ns[1..][i - 1] == ns[i];
    }
  }

  // ---------------------------------------------------------------------------
  // Meta extraction

  /** The metas nested in a list, literals skipped, as a set entry each. */
  function NestedMetaSet(ns: seq<NestedMeta>): set<Meta>
  {
    set n | n in UnspannedNested(ns) && n.NestedItem? :: n.meta
  }

  /** A meta is in the set exactly when some nested entry is that meta, up to spans. */
  lemma NestedMetaSetIff(ns: seq<NestedMeta>, m: Meta)
    ensures m in NestedMetaSet(ns) <==>
      exists i :: 0 <= i < |ns| && ns[i].NestedItem? && UnspannedMeta(ns[i].meta) == m
  {
    var u := UnspannedNested(ns);
    if m in NestedMetaSet(ns) {
      var n :| n in u && n.NestedItem? && n.meta == m;
      var i :| 0 <= i < |u| && u[i] == n;
      UnspannedNestedIndex(ns, i);
    }
    if exists i :: 0 <= i < |ns| && ns[i].NestedItem? && UnspannedMeta(ns[i].meta) == m {
      var i :| 0 <= i < |ns| && ns[i].NestedItem? && UnspannedMeta(ns[i].meta) == m;
      UnspannedNestedIndex(ns, i);
      assert u[i] in u;
    }
  }

  /** The metas nested in a list, literals skipped, in order. */
  function NestedMetaSeq(ns: seq<NestedMeta>): (r: seq<Meta>)
    ensures |r| <= |ns|
  {
    if ns == [] then []
    else (if ns[0].NestedItem? then [ns[0].meta] else []) + NestedMetaSeq(ns[1..])
  }

  lemma {:induction false} NestedMetaSeqIff(ns: seq<NestedMeta>, m: Meta)
    ensures m in NestedMetaSeq(ns) <==> NestedItem(m) in ns
  {
    if ns != [] {
      NestedMetaSeqIff(ns[1..], m);
      assert ns == [ns[0]] + ns[1..];
    }
  }

  /** An attribute `get_meta_items` accepts: not in the `enum_repr` namespace,
      or `enum_repr(...)` in list form. */
  predicate ListShaped(fe: Frontend, attr: Attribute)
  {
    !PathEq(attr.path, ID) || (fe.parseMeta(attr).Ok? && fe.parseMeta(attr).value.ListForm?)
  }

  /** The metas an accepted attribute contributes. */
  function AttrMetas(fe: Frontend, attr: Attribute): set<Meta>
    requires ListShaped(fe, attr)
  {
    if !PathEq(attr.path, ID) then {} else NestedMetaSet(fe.parseMeta(attr).value.list.nested)
  }

  const EXPECTED_LIST: string := "expected #[enum_repr(...)]"

  /** `get_meta_items`: foreign attributes add nothing; `enum_repr(...)` adds
      each nested meta and skips nested literals; any other `enum_repr` form,
      and a meta that does not parse, is an error at the call site. */
  function GetMetaItems(fe: Frontend, attr: Attribute, acc: set<Meta>): (r: Result<set<Meta>>)
    ensures r.Ok? <==> ListShaped(fe, attr)
    ensures r.Ok? ==> r.value == acc + AttrMetas(fe, attr)
    ensures r.Err? ==> r.error == Error(CallSite, EXPECTED_LIST)
  {
    if !PathEq(attr.path, ID) then Ok(acc)
    else
      match fe.parseMeta(attr)
      case Ok(ListForm(l)) => Ok(acc + NestedMetaSet(l.nested))
      case _ => ErrCallSite(EXPECTED_LIST)
  }

  /** `get_meta_items2`: as `get_meta_items`, keeping order and duplicates. */
  function GetMetaItems2(fe: Frontend, attr: Attribute): (r: Result<seq<Meta>>)
    ensures r.Ok? <==> ListShaped(fe, attr)
    ensures r.Ok? && !PathEq(attr.path, ID) ==> r.value == []
    ensures r.Ok? && PathEq(attr.path, ID) ==>
      forall m :: m in r.value <==> NestedItem(m) in fe.parseMeta(attr).value.list.nested
    ensures r.Err? ==> r.error == Error(CallSite, EXPECTED_LIST)
  {
    if !PathEq(attr.path, ID) then Ok([])
    else
      match fe.parseMeta(attr)
      case Ok(ListForm(l)) =>
        assert forall m :: m in NestedMetaSeq(l.nested) <==> NestedItem(m) in l.nested by {
          forall m { NestedMetaSeqIff(l.nested, m); }
        }
        Ok(NestedMetaSeq(l.nested))
      case _ => ErrCallSite(EXPECTED_LIST)
  }

  function GetAllAttrsFrom(fe: Frontend, attrs: seq<Attribute>, acc: set<Meta>): Result<set<Meta>>
    decreases |attrs|
  {
    if attrs == [] then Ok(acc)
    else
      var acc' :- GetMetaItems(fe, attrs[0], acc);
      GetAllAttrsFrom(fe, attrs[1..], acc')
  }

  /** `get_all_attrs`: the union of the metas of every attribute; the first
      attribute `get_meta_items` refuses aborts. */
  function GetAllAttrs(fe: Frontend, attrs: seq<Attribute>): Result<set<Meta>>
  {
    GetAllAttrsFrom(fe, attrs, {})
  }

  lemma {:induction false} GetAllAttrsFromSpec(fe: Frontend, attrs: seq<Attribute>, acc: set<Meta>)
    ensures GetAllAttrsFrom(fe, attrs, acc).Ok? <==> forall i :: 0 <= i < |attrs| ==> ListShaped(fe, attrs[i])
    ensures GetAllAttrsFrom(fe, attrs, acc).Ok? ==>
      forall m :: m in GetAllAttrsFrom(fe, attrs, acc).value <==>
        m in acc || exists i :: 0 <= i < |attrs| && m in AttrMetas(fe, attrs[i])
    ensures GetAllAttrsFrom(fe, attrs, acc).Err? ==>
      GetAllAttrsFrom(fe, attrs, acc).error == Error(CallSite, EXPECTED_LIST)
    decreases |attrs|
  {
    if attrs != [] {
      var r0 := GetMetaItems(fe, attrs[0], acc);
      if r0.Ok? {
        var tail := attrs[1..];
        GetAllAttrsFromSpec(fe, tail, r0.value);
        assert forall i :: 1 <= i < |attrs| ==> attrs[i] == tail[i - 1];
        if GetAllAttrsFrom(fe, attrs, acc).Ok? {
          forall m | m in GetAllAttrsFrom(fe, attrs, acc).value
            ensures m in acc || exists i :: 0 <= i < |attrs| && m in AttrMetas(fe, attrs[i])
          {
            if m !in acc && m !in AttrMetas(fe, attrs[0]) {
              var j :| 0 <= j < |tail| && m in AttrMetas(fe, tail[j]);
              assert m in AttrMetas(fe, attrs[j + 1]);
            }
          }
        }
      }
    }
  }

  /** `get_all_attrs` succeeds exactly when every attribute is foreign or an
      `enum_repr(...)` list, and then holds exactly the metas those lists nest. */
  lemma GetAllAttrsSpec(fe: Frontend, attrs: seq<Attribute>)
    ensures GetAllAttrs(fe, attrs).Ok? <==> forall i :: 0 <= i < |attrs| ==> ListShaped(fe, attrs[i])
    ensures GetAllAttrs(fe, attrs).Ok? ==>
      forall m :: m in GetAllAttrs(fe, attrs).value <==> exists i :: 0 <= i < |attrs| && m in AttrMetas(fe, attrs[i])
    ensures GetAllAttrs(fe, attrs).Err? ==> GetAllAttrs(fe, attrs).error == Error(CallSite, EXPECTED_LIST)
  {
    GetAllAttrsFromSpec(fe, attrs, {});
  }

  /** Two `enum_repr` lists that differ at most in spans contribute one set of
      metas: a repeated attribute collapses. */
  lemma GetAllAttrsCollapse(fe: Frontend, a: Attribute, b: Attribute)
    requires PathEq(a.path, ID) && PathEq(b.path, ID)
    requires fe.parseMeta(a).Ok? && fe.parseMeta(a).value.ListForm?
    requires fe.parseMeta(b).Ok? && fe.parseMeta(b).value.ListForm?
    requires UnspannedNested(fe.parseMeta(a).value.list.nested) == UnspannedNested(fe.parseMeta(b).value.list.nested)
    ensures GetAllAttrs(fe, [a, b]) == GetAllAttrs(fe, [a])
  {
    var sa := NestedMetaSet(fe.parseMeta(a).value.list.nested);
    assert NestedMetaSet(fe.parseMeta(b).value.list.nested) == sa;
    assert [a, b][1..] == [b];
    assert [a][1..] == [] && [b][1..] == [];
    assert AttrMetas(fe, a) == sa;
    assert {} + sa == sa;
    assert GetMetaItems(fe, a, {}) == Ok(sa);
    assert GetAllAttrsFrom(fe, [], sa) == Ok(sa);
    assert GetAllAttrs(fe, [a]) == Ok(sa);
    assert GetMetaItems(fe, b, sa) == Ok(sa);
    assert GetAllAttrsFrom(fe, [b], sa) == Ok(sa);
  }

  function AllMetas2(fe: Frontend, attrs: seq<Attribute>): seq<Meta>
    decreases |attrs|
  {
    if attrs == [] then []
    else
      (match GetMetaItems2(fe, attrs[0]) case Ok(ms) => ms case Err(_) => [])
      + AllMetas2(fe, attrs[1..])
  }

  /** `get_all_attrs2`: the metas of every attribute concatenated in order;
      an attribute `get_meta_items2` refuses is dropped without an error. */
  function GetAllAttrs2(fe: Frontend, attrs: seq<Attribute>): (r: Result<seq<Meta>>)
    ensures r.Ok?
  {
    Ok(AllMetas2(fe, attrs))
  }

  /** The metas of two runs of attributes are the metas of each, in order. */
  lemma {:induction false} GetAllAttrs2Append(fe: Frontend, a: seq<Attribute>, b: seq<Attribute>)
    ensures GetAllAttrs2(fe, a + b).value == GetAllAttrs2(fe, a).value + GetAllAttrs2(fe, b).value
    decreases |a|
  {
    if a != [] {
      assert (a + b)[0] == a[0];
      assert (a + b)[1..] == a[1..] + b;
      GetAllAttrs2Append(fe, a[1..], b);
      var h := match GetMetaItems2(fe, a[0]) case Ok(ms) => ms case Err(_) => [];
      assert AllMetas2(fe, a + b) == h + AllMetas2(fe, a[1..] + b);
      assert AllMetas2(fe, a) == h + AllMetas2(fe, a[1..]);
    } else {
      assert a + b == b;
    }
  }

  /** A malformed `enum_repr` attribute vanishes from `get_all_attrs2` but makes
      `get_all_attrs` fail. */
  lemma MalformedDroppedOrFatal(fe: Frontend, a: seq<Attribute>, x: Attribute, b: seq<Attribute>)
    requires !ListShaped(fe, x)
    ensures GetAllAttrs(fe, a + [x] + b).Err?
    ensures GetAllAttrs2(fe, a + [x] + b) == GetAllAttrs2(fe, a + b)
  {
    GetAllAttrs2Append(fe, a + [x], b);
    GetAllAttrs2Append(fe, a, [x]);
    GetAllAttrs2Append(fe, a, b);
    assert GetAllAttrs2(fe, [x]).value == [] by {
      assert [x][1..] == [];
      assert AllMetas2(fe, [x]) == [] + AllMetas2(fe, []);
    }
    assert AllMetas2(fe, a + [x] + b) == AllMetas2(fe, a) + [] + AllMetas2(fe, b);
    assert AllMetas2(fe, a) + [] + AllMetas2(fe, b) == AllMetas2(fe, a + b);
    var all := a + [x] + b;
    assert all[|a|] == x;
    GetAllAttrsSpec(fe, all);
    assert !ListShaped(fe, all[|a|]);
  }

  // ---------------------------------------------------------------------------
  // Classification into a bucket

  /** An `AttributesBucket`: the two conversions from a name-value and from a
      list meta. */
  datatype Classifier<A> = Classifier(nameValue: MetaNameValue -> Result<A>, list: MetaList -> Result<A>)

  /** One entry nested in `enum_repr(...)`: a name-value or list entry is
      converted, a bare path or literal is an error at the entry. */
  function ClassifyNested<A>(fe: Frontend, n: NestedMeta, c: Classifier<A>): (r: Result<A>)
    ensures n.NestedItem? && n.meta.NameValueForm? ==> r == c.nameValue(n.meta.nv)
    ensures n.NestedItem? && n.meta.ListForm? ==> r == c.list(n.meta.list)
    ensures n.NestedLit? || n.meta.PathForm? ==> r.Err? && r.error.span == NestedSpan(n)
  {
    match n
    case NestedItem(NameValueForm(nv)) => c.nameValue(nv)
    case NestedItem(ListForm(l)) => c.list(l)
    case _ => ErrAt(NestedSpan(n), "unexpected attribute " + fe.render(NestedMetaTokens(n)) + "!")
  }

  /** A bare path with a leading `::` is reported at the `::`. */
  lemma BareLeadingColonAtColon<A>(fe: Frontend, s: Span, segs: seq<PathSegment>, c: Classifier<A>)
    ensures var r := ClassifyNested(fe, NestedItem(PathForm(Path(Some(s), segs))), c);
      r.Err? && r.error.span == s
  { }

  /** The values of the nested entries that convert. */
  function Classified<A(==)>(fe: Frontend, ns: seq<NestedMeta>, c: Classifier<A>): set<A>
  {
    set i | 0 <= i < |ns| && ClassifyNested(fe, ns[i], c).Ok? :: ClassifyNested(fe, ns[i], c).value
  }

  function GetNested<A(==)>(fe: Frontend, ns: seq<NestedMeta>, acc: set<A>, c: Classifier<A>): Result<set<A>>
    decreases |ns|
  {
    if ns == [] then Ok(acc)
    else
      var a :- ClassifyNested(fe, ns[0], c);
      GetNested(fe, ns[1..], acc + {a}, c)
  }

  /** The entries of a list are converted in order into the set; the first
      entry that fails aborts with its error. */
  lemma {:induction false} GetNestedSpec<A>(fe: Frontend, ns: seq<NestedMeta>, acc: set<A>, c: Classifier<A>)
    ensures GetNested(fe, ns, acc, c).Ok? <==> forall i :: 0 <= i < |ns| ==> ClassifyNested(fe, ns[i], c).Ok?
    ensures GetNested(fe, ns, acc, c).Ok? ==> GetNested(fe, ns, acc, c).value == acc + Classified(fe, ns, c)
    ensures GetNested(fe, ns, acc, c).Err? ==>
      exists k :: 0 <= k < |ns| && (forall i :: 0 <= i < k ==> ClassifyNested(fe, ns[i], c).Ok?)
        && ClassifyNested(fe, ns[k], c).Err? && GetNested(fe, ns, acc, c).error == ClassifyNested(fe, ns[k], c).error
    decreases |ns|
  {
    if ns != [] {
      var r0 := ClassifyNested(fe, ns[0], c);
      if r0.Ok? {
        var tail := ns[1..];
        GetNestedSpec(fe, tail, acc + {r0.value}, c);
        assert forall i :: 1 <= i < |ns| ==> ns[i] == tail[i - 1];
        if GetNested(fe, ns, acc, c).Ok? {
          assert Classified(fe, ns, c) == {r0.value} + Classified(fe, tail, c) by {
            forall x | x in Classified(fe, ns, c) ensures x in {r0.value} + Classified(fe, tail, c) {
              var i :| 0 <= i < |ns| && ClassifyNested(fe, ns[i], c).Ok? && ClassifyNested(fe, ns[i], c).value == x;
              if i > 0 {
                assert ClassifyNested(fe, tail[i - 1], c).value == x;
              }
            }
            forall x | x in Classified(fe, tail, c) ensures x in Classified(fe, ns, c) {
              var j :| 0 <= j < |tail| && ClassifyNested(fe, tail[j], c).Ok? && ClassifyNested(fe, tail[j], c).value == x;
              assert ClassifyNested(fe, ns[j + 1], c).value == x;
            }
          }
        } else {
          var k :| 0 <= k < |tail| && (forall i :: 0 <= i < k ==> ClassifyNested(fe, tail[i], c).Ok?)
            && ClassifyNested(fe, tail[k], c).Err? && GetNested(fe, tail, acc + {r0.value}, c).error == ClassifyNested(fe, tail[k], c).error;
          assert ClassifyNested(fe, ns[k + 1], c).Err?;
        }
      } else {
        assert ClassifyNested(fe, ns[0], c).Err?;
      }
    }
  }

  /** `get_attr`: metas outside `enum_repr` leave the set alone; each entry of
      `enum_repr(...)` is converted and inserted; `enum_repr = lit` is
      converted directly; bare `enum_repr` is an error at the meta. */
  function GetAttr<A(==)>(fe: Frontend, meta: Meta, acc: set<A>, c: Classifier<A>): (r: Result<set<A>>)
    ensures !PathEq(meta.GetPath(), ID) ==> r == Ok(acc)
    ensures PathEq(meta.GetPath(), ID) && meta.PathForm? ==> r.Err? && r.error.span == MetaSpan(meta)
    ensures PathEq(meta.GetPath(), ID) && meta.NameValueForm? ==>
      (r.Ok? <==> c.nameValue(meta.nv).Ok?) && (r.Ok? ==> r.value == acc + {c.nameValue(meta.nv).value})
    ensures PathEq(meta.GetPath(), ID) && meta.ListForm? ==>
      (r.Ok? <==> forall i :: 0 <= i < |meta.list.nested| ==> ClassifyNested(fe, meta.list.nested[i], c).Ok?)
      && (r.Ok? ==> r.value == acc + Classified(fe, meta.list.nested, c))
  {
    if !PathEq(meta.GetPath(), ID) then Ok(acc)
    else
      match meta
      case ListForm(l) =>
        GetNestedSpec(fe, l.nested, acc, c);
        GetNested(fe, l.nested, acc, c)
      case NameValueForm(nv) =>
        var a :- c.nameValue(nv);
        Ok(acc + {a})
      case PathForm(_) =>
        ErrAt(MetaSpan(meta), "unexpected attribute " + fe.render(MetaTokens(meta)) + "!")
  }

  /** What `get_attr` adds for one attribute, or the error it stops with. */
  function Step<A(==)>(fe: Frontend, attr: Attribute, c: Classifier<A>): Result<set<A>>
  {
    var meta :- fe.parseMeta(attr);
    GetAttr(fe, meta, {}, c)
  }

  /** `get_attr` adds the same entries whatever the set already holds. */
  lemma GetAttrAccumulates<A>(fe: Frontend, meta: Meta, acc: set<A>, c: Classifier<A>)
    ensures GetAttr(fe, meta, acc, c).Ok? <==> GetAttr(fe, meta, {}, c).Ok?
    ensures GetAttr(fe, meta, acc, c).Ok? ==> GetAttr(fe, meta, acc, c).value == acc + GetAttr(fe, meta, {}, c).value
    ensures GetAttr(fe, meta, acc, c).Err? ==> GetAttr(fe, meta, acc, c).error == GetAttr(fe, meta, {}, c).error
  {
    if PathEq(meta.GetPath(), ID) && meta.ListForm? {
      GetNestedSpec(fe, meta.list.nested, acc, c);
      GetNestedSpec(fe, meta.list.nested, {}, c);
    }
  }

  function GetAttrsFrom<A(==)>(fe: Frontend, attrs: seq<Attribute>, acc: set<A>, c: Classifier<A>): Result<set<A>>
    decreases |attrs|
  {
    if attrs == [] then Ok(acc)
    else
      var meta :- fe.parseMeta(attrs[0]);
      var acc' :- GetAttr(fe, meta, acc, c);
      GetAttrsFrom(fe, attrs[1..], acc', c)
  }

  /** `get_container_attrs`: `parse_meta` then `get_attr` on every attribute. */
  function GetContainerAttrs<A(==)>(fe: Frontend, attrs: seq<Attribute>, c: Classifier<A>): Result<set<A>>
  {
    GetAttrsFrom(fe, attrs, {}, c)
  }

  /** `get_variant_attrs`: the same fold as `get_container_attrs`. */
  function GetVariantAttrs<A(==)>(fe: Frontend, attrs: seq<Attribute>, c: Classifier<A>): Result<set<A>>
  {
    GetAttrsFrom(fe, attrs, {}, c)
  }

  /** Everything the attributes add, when every one of them succeeds. */
  function StepUnion<A(==)>(fe: Frontend, attrs: seq<Attribute>, c: Classifier<A>): set<A>
    requires forall i :: 0 <= i < |attrs| ==> Step(fe, attrs[i], c).Ok?
    decreases |attrs|
  {
    if attrs == [] then {} else Step(fe, attrs[0], c).value + StepUnion(fe, attrs[1..], c)
  }

  lemma {:induction false} StepUnionIff<A>(fe: Frontend, attrs: seq<Attribute>, c: Classifier<A>, x: A)
    requires forall i :: 0 <= i < |attrs| ==> Step(fe, attrs[i], c).Ok?
    ensures x in StepUnion(fe, attrs, c) <==> exists i :: 0 <= i < |attrs| && x in Step(fe, attrs[i], c).value
    decreases |attrs|
  {
    if attrs != [] {
      var tail := attrs[1..];
      assert forall i :: 0 <= i < |tail| ==> tail[i] == attrs[i + 1];
      StepUnionIff(fe, tail, c, x);
      if x in StepUnion(fe, tail, c) {
        var j :| 0 <= j < |tail| && x in Step(fe, tail[j], c).value;
        assert x in Step(fe, attrs[j + 1], c).value;
      }
      if exists i :: 0 <= i < |attrs| && x in Step(fe, attrs[i], c).value {
        var i :| 0 <= i < |attrs| && x in Step(fe, attrs[i], c).value;
        if i > 0 {
          assert x in Step(fe, tail[i - 1], c).value;
        }
      }
    }
  }

  lemma {:induction false} GetAttrsFromSpec<A>(fe: Frontend, attrs: seq<Attribute>, acc: set<A>, c: Classifier<A>)
    ensures GetAttrsFrom(fe, attrs, acc, c).Ok? <==> forall i :: 0 <= i < |attrs| ==> Step(fe, attrs[i], c).Ok?
    ensures GetAttrsFrom(fe, attrs, acc, c).Ok? ==>
      GetAttrsFrom(fe, attrs, acc, c).value == acc + StepUnion(fe, attrs, c)
    ensures GetAttrsFrom(fe, attrs, acc, c).Err? ==>
      exists k :: 0 <= k < |attrs| && (forall i :: 0 <= i < k ==> Step(fe, attrs[i], c).Ok?)
        && Step(fe, attrs[k], c).Err? && GetAttrsFrom(fe, attrs, acc, c).error == Step(fe, attrs[k], c).error
    decreases |attrs|
  {
    if attrs != [] {
      var tail := attrs[1..];
      assert forall i :: 1 <= i < |attrs| ==> attrs[i] == tail[i - 1];
      if fe.parseMeta(attrs[0]).Ok? {
        var meta := fe.parseMeta(attrs[0]).value;
        assert Step(fe, attrs[0], c) == GetAttr(fe, meta, {}, c);
        GetAttrAccumulates(fe, meta, acc, c);
        var r0 := GetAttr(fe, meta, acc, c);
        if r0.Ok? {
          GetAttrsFromSpec(fe, tail, r0.value, c);
          var r := GetAttrsFrom(fe, attrs, acc, c);
          assert r == GetAttrsFrom(fe, tail, r0.value, c);
          if r.Err? {
            var k :| 0 <= k < |tail| && (forall i :: 0 <= i < k ==> Step(fe, tail[i], c).Ok?)
              && Step(fe, tail[k], c).Err? && r.error == Step(fe, tail[k], c).error;
            assert Step(fe, attrs[k + 1], c).Err?;
          }
        } else {
          assert Step(fe, attrs[0], c).Err?;
        }
      } else {
        assert Step(fe, attrs[0], c).Err?;
      }
    }
  }

  /** The bucket of a list of attributes is the union of what each attribute
      adds; every attribute is meta-parsed, foreign ones included, and the
      first attribute that fails aborts with its error. */
  lemma GetAttrsSpec<A>(fe: Frontend, attrs: seq<Attribute>, c: Classifier<A>)
    ensures GetContainerAttrs(fe, attrs, c) == GetVariantAttrs(fe, attrs, c)
    ensures GetContainerAttrs(fe, attrs, c).Ok? <==> forall i :: 0 <= i < |attrs| ==> Step(fe, attrs[i], c).Ok?
    ensures GetContainerAttrs(fe, attrs, c).Ok? ==>
      forall x :: x in GetContainerAttrs(fe, attrs, c).value <==>
        exists i :: 0 <= i < |attrs| && x in Step(fe, attrs[i], c).value
    ensures GetContainerAttrs(fe, attrs, c).Err? ==>
      exists k :: 0 <= k < |attrs| && (forall i :: 0 <= i < k ==> Step(fe, attrs[i], c).Ok?)
        && Step(fe, attrs[k], c).Err? && GetContainerAttrs(fe, attrs, c).error == Step(fe, attrs[k], c).error
  {
    GetAttrsFromSpec(fe, attrs, {}, c);
    if GetContainerAttrs(fe, attrs, c).Ok? {
      forall x { StepUnionIff(fe, attrs, c, x); }
    }
  }

  /** A meta-parse failure on any attribute, in the namespace or not, fails the fold. */
  lemma MetaParseFailureAborts<A>(fe: Frontend, attrs: seq<Attribute>, c: Classifier<A>, i: int)
    requires 0 <= i < |attrs| && fe.parseMeta(attrs[i]).Err?
    ensures GetContainerAttrs(fe, attrs, c).Err?
  {
    GetAttrsSpec(fe, attrs, c);
    assert Step(fe, attrs[i], c).Err?;
  }
}
