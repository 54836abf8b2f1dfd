/** The fragment of proc_macro2 / syn the macro works on: token trees, literals,
    paths, attribute metas and attributes, and the library behaviour the macro
    calls into but does not implement (lexing, meta parsing, rendering). */
module Syntax {
  import opened Diagnostics
  import Utf8

  /** `proc_macro2::Ident`: the identifier's text (raw identifiers keep their
      `r#` prefix) and its span. */
  datatype Ident = Ident(text: string, span: Span)

  datatype Delimiter = Parenthesis | Brace | Bracket | NoDelimiter

  /** `syn::Lit`, one constructor per literal kind, each with its span. Numeric
      literals keep their digits as text; suffixes are not modelled. */
  datatype Lit =
    | Str(value: string, span: Span)
    | ByteStr(bytes: seq<Utf8.uint8>, span: Span)
    | Byte(byte: Utf8.uint8, span: Span)
    | Char(ch: char, span: Span)
    | Int(digits: string, span: Span)
    | Float(digits: string, span: Span)
    | Bool(flag: bool, span: Span)
    | Verbatim(text: string, span: Span)

  /** `proc_macro2::TokenTree`. A literal leaf carries the literal it denotes. */
  datatype TokenTree =
    | Group(delimiter: Delimiter, stream: seq<TokenTree>, span: Span)
    | Word(ident: Ident)
    | Punct(ch: char, joint: bool, span: Span)
    | Literal(lit: Lit)
  {
    function SpanOf(): Span
    {
      match this
      case Group(_, _, s) => s
      case Word(id) => id.span
      case Punct(_, _, s) => s
      case Literal(l) => l.span
    }
  }

  /** `Spanned::span` of a token sequence: proc-macro spans cannot be joined on
      a stable toolchain, so the span is that of the first token, and the call
      site for an empty sequence. */
  function FirstSpan(ts: seq<TokenTree>): Span
  {
    if ts == [] then CallSite else ts[0].SpanOf()
  }

  datatype PathArguments =
    | NoArguments
    | AngleBracketed(args: seq<TokenTree>)
    | Parenthesized(args: seq<TokenTree>)

  datatype PathSegment = PathSegment(ident: Ident, arguments: PathArguments)

  /** `syn::Path`: an optional leading `::`, kept as the span of its first
      `:`, and `::`-separated segments. */
  datatype Path = Path(leadingColon: Option<Span>, segments: seq<PathSegment>) {
    /** `Path::get_ident`: the identifier of a path that is one plain
        identifier, with no leading `::` and no generic arguments. */
    function GetIdent(): (r: Option<Ident>)
      ensures r.Some? <==> leadingColon.None? && |segments| == 1 && segments[0].arguments.NoArguments?
      ensures r.Some? ==> r.value == segments[0].ident
    {
      if leadingColon.None? && |segments| == 1 && segments[0].arguments.NoArguments?
      then Some(segments[0].ident)
      else None
    }

    /** `Path::is_ident`. */
    predicate IsIdent(word: string)
    {
      GetIdent().Some? && GetIdent().value.text == word
    }
  }

  /** `Path::from(ident)`. */
  function PathOf(id: Ident): (p: Path)
    ensures p.GetIdent() == Some(id)
  {
    Path(None, [PathSegment(id, NoArguments)])
  }

  /** `syn::Meta` and its parts. `Meta::Path`, `Meta::NameValue` and
      `Meta::List` are `PathForm`, `NameValueForm` and `ListForm`. */
  datatype Meta =
    | PathForm(path: Path)
    | NameValueForm(nv: MetaNameValue)
    | ListForm(list: MetaList)
  {
    /** `Meta::path`. */
    function GetPath(): Path
    {
      match this
      case PathForm(p) => p
      case NameValueForm(nv) => nv.path
      case ListForm(l) => l.path
    }
  }

  datatype MetaNameValue = MetaNameValue(path: Path, lit: Lit)

  /** `path(nested, ...)`; `trailingComma` records a comma after the last entry. */
  datatype MetaList = MetaList(path: Path, nested: seq<NestedMeta>, trailingComma: bool)

  /** `syn::NestedMeta`: a nested meta or a bare literal. */
  datatype NestedMeta = NestedItem(meta: Meta) | NestedLit(lit: Lit)

  /** An outer attribute `#[path tokens]`. */
  datatype Attribute = Attribute(path: Path, tokens: seq<TokenTree>)

  /** Library behaviour the macro relies on without implementing it:
      - `lex`: `syn::parse_str::<TokenStream>`, lexing text into tokens;
      - `parseMeta`: `Attribute::parse_meta`;
      - `render` and `debug`: the `Display` and `Debug` text of a token stream;
      - `lossy`: what `String::from_utf8_lossy` produces for bytes that are not
        well-formed UTF-8. */
  datatype Frontend = Frontend(
    lex: string -> Result<seq<TokenTree>>,
    parseMeta: Attribute -> Result<Meta>,
    render: seq<TokenTree> -> string,
    debug: seq<TokenTree> -> string,
    lossy: seq<Utf8.uint8> -> string)

  /** Words syn 1.0 refuses as an `Ident` (`accept_as_ident`). */
  const KEYWORDS: set<string> := {
    "_", "abstract", "as", "become", "box", "break", "const", "continue",
    "crate", "do", "else", "enum", "extern", "false", "final", "fn",
    "for", "if", "impl", "in", "let", "loop", "macro", "match",
    "mod", "move", "mut", "override", "priv", "pub", "ref",
    "return", "Self", "self", "static", "struct", "super", "trait",
    "true", "type", "typeof", "unsafe", "unsized", "use", "virtual",
    "where", "while", "yield"
  }

  /** A token syn accepts as an `Ident`. */
  predicate IsIdentToken(t: TokenTree)
  {
    t.Word? && t.ident.text !in KEYWORDS
  }

  /** `syn::parse2::<Ident>`: the stream must be exactly one identifier. */
  function ParseIdent(ts: seq<TokenTree>): (r: Result<Ident>)
    ensures r.Ok? <==> |ts| == 1 && IsIdentToken(ts[0])
    ensures r.Ok? ==> r.value == ts[0].ident
  {
    if |ts| == 0 then
      ErrCallSite("unexpected end of input, expected identifier")
    else if IsIdentToken(ts[0]) then
      if |ts| == 1 then Ok(ts[0].ident) else ErrAt(ts[1].SpanOf(), "unexpected token")
    else
      ErrAt(ts[0].SpanOf(), "expected identifier")
  }

  // ---------------------------------------------------------------------------
  // `ToTokens` for paths and metas. Punctuation rebuilt here (`::`, `=`, `,`,
  // `<`, `>`, the parentheses of a list) is placed at the call site.

  function SeparatorTokens(): seq<TokenTree>
  {
    [Punct(':', true, CallSite), Punct(':', false, CallSite)]
  }

  /** A leading `::`, both colons at the span recorded for it. */
  function LeadingColonTokens(s: Span): seq<TokenTree>
  {
    [Punct(':', true, s), Punct(':', false, s)]
  }

  function ArgumentTokens(a: PathArguments): seq<TokenTree>
  {
    match a
    case NoArguments => []
    case AngleBracketed(args) => [Punct('<', false, CallSite)] + args + [Punct('>', false, CallSite)]
    case Parenthesized(args) => [Group(Parenthesis, args, CallSite)]
  }

  function SegmentsTokens(segs: seq<PathSegment>): seq<TokenTree>
  {
    if segs == [] then []
    else
      [Word(segs[0].ident)] + ArgumentTokens(segs[0].arguments)
      + (if |segs| == 1 then [] else SeparatorTokens() + SegmentsTokens(segs[1..]))
  }

  function PathTokens(p: Path): seq<TokenTree>
  {
    (if p.leadingColon.Some? then LeadingColonTokens(p.leadingColon.value) else []) + SegmentsTokens(p.segments)
  }

  function MetaTokens(m: Meta): seq<TokenTree>
    decreases m
  {
    match m
    case PathForm(p) => PathTokens(p)
    case NameValueForm(nv) => PathTokens(nv.path) + [Punct('=', false, CallSite), Literal(nv.lit)]
    case ListForm(l) =>
      PathTokens(l.path) + [Group(Parenthesis, NestedTokens(l.nested, l.trailingComma), CallSite)]
  }

  function NestedMetaTokens(n: NestedMeta): seq<TokenTree>
    decreases n
  {
    match n
    case NestedItem(m) => MetaTokens(m)
    case NestedLit(l) => [Literal(l)]
  }

  /** The tokens of a `Punctuated<NestedMeta, Token![,]>`. */
  function NestedTokens(ns: seq<NestedMeta>, trailingComma: bool): seq<TokenTree>
    decreases ns
  {
    if ns == [] then []
    else if |ns| == 1 then
      NestedMetaTokens(ns[0]) + (if trailingComma then [Punct(',', false, CallSite)] else [])
    else
      NestedMetaTokens(ns[0]) + [Punct(',', false, CallSite)] + NestedTokens(ns[1..], trailingComma)
  }

  /** The span `Spanned::span` gives a path: that of its first token, the
      leading `::` when there is one, else the first identifier. */
  function PathSpan(p: Path): Span
  {
    if p.leadingColon.Some? then p.leadingColon.value
    else if |p.segments| > 0 then p.segments[0].ident.span
    else CallSite
  }

  function MetaSpan(m: Meta): Span
  {
    PathSpan(m.GetPath())
  }

  function NestedSpan(n: NestedMeta): Span
  {
    match n
    case NestedItem(m) => MetaSpan(m)
    case NestedLit(l) => l.span
  }

  lemma PathTokensStart(p: Path)
    requires p.leadingColon.None? && |p.segments| > 0
    ensures |PathTokens(p)| > 0 && PathTokens(p)[0] == Word(p.segments[0].ident)
  {
  }

  /** A path that prints anything is reported at the span of the first token
      it prints. */
  lemma PathSpanIsFirstToken(p: Path)
    requires p.leadingColon.Some? || |p.segments| > 0
    ensures |PathTokens(p)| > 0 && PathSpan(p) == PathTokens(p)[0].SpanOf()
  {
    if p.leadingColon.None? {
      PathTokensStart(p);
    }
  }

  /** A meta is reported at the span of the first token it prints: the leading
      `::` of its path when there is one, otherwise the path's first
      identifier. */
  lemma MetaSpanIsFirstToken(m: Meta)
    requires m.GetPath().leadingColon.Some? || |m.GetPath().segments| > 0
    ensures |MetaTokens(m)| > 0 && MetaSpan(m) == MetaTokens(m)[0].SpanOf()
  {
    var p := m.GetPath();
    PathSpanIsFirstToken(p);
    match m
    case PathForm(_) =>
    case NameValueForm(nv) =>
      assert MetaTokens(m)[0] == PathTokens(p)[0];
    case ListForm(l) =>
      assert MetaTokens(m)[0] == PathTokens(p)[0];
  }

  /** A nested entry is reported at the span of its first token. */
  lemma NestedSpanIsFirstToken(n: NestedMeta)
    requires n.NestedItem? ==> n.meta.GetPath().leadingColon.Some? || |n.meta.GetPath().segments| > 0
    ensures |NestedMetaTokens(n)| > 0 && NestedSpan(n) == NestedMetaTokens(n)[0].SpanOf()
  {
    if n.NestedItem? {
      MetaSpanIsFirstToken(n.meta);
    }
  }

  /** A path renders as a single identifier token exactly when it is one
      plain identifier; that token is the identifier. */
  lemma PathTokensSingle(p: Path)
    ensures |PathTokens(p)| == 1 && PathTokens(p)[0].Word? <==> p.GetIdent().Some?
    ensures p.GetIdent().Some? ==> PathTokens(p) == [Word(p.GetIdent().value)]
  {
    if p.leadingColon.None? && |p.segments| >= 2 {
      assert |SegmentsTokens(p.segments)| >= 3;
    }
  }

  /** A list's contents are one identifier token exactly when they are one bare
      identifier path with no trailing comma; that token is the identifier. */
  lemma NestedTokensSingle(ns: seq<NestedMeta>, trailingComma: bool)
    ensures |NestedTokens(ns, trailingComma)| == 1 && NestedTokens(ns, trailingComma)[0].Word?
            <==> |ns| == 1 && !trailingComma && ns[0].NestedItem? && ns[0].meta.PathForm?
                 && ns[0].meta.path.GetIdent().Some?
    ensures |ns| == 1 && !trailingComma && ns[0].NestedItem? && ns[0].meta.PathForm?
            && ns[0].meta.path.GetIdent().Some?
            ==> NestedTokens(ns, trailingComma) == [Word(ns[0].meta.path.GetIdent().value)]
  {
    var ts := NestedTokens(ns, trailingComma);
    if |ns| >= 2 {
      var head := NestedMetaTokens(ns[0]);
      assert ts == head + [Punct(',', false, CallSite)] + NestedTokens(ns[1..], trailingComma);
      if |ts| == 1 {
        assert head == [];
        assert ts[0] == Punct(',', false, CallSite);
      }
    } else if |ns| == 1 {
      var head := NestedMetaTokens(ns[0]);
      if trailingComma {
        assert ts == head + [Punct(',', false, CallSite)];
        if |ts| == 1 {
          assert ts[0] == Punct(',', false, CallSite);
        }
      } else {
        assert ts == head;
        match ns[0]
        case NestedLit(l) =>
        case NestedItem(m) =>
          assert ts == MetaTokens(m);
          match m
          case PathForm(p) =>
            assert ts == PathTokens(p);
            PathTokensSingle(p);
          case NameValueForm(nv) =>
            assert |ts| >= 2;
          case ListForm(l) =>
            if |ts| == 1 {
              assert ts[0].Group?;
            }
      }
    }
  }
}
