# enum_repr, modelled in Dafny

This project models the core of `mac_derive`, a Rust procedural-macro crate.
The crate provides an `EnumRepr` derive and a `make_enum` function-like macro
that writes a `#[repr(..)]` enum already annotated for that derive. The model
follows the pipeline as the crate implements it:

- **Symbols and rename rules** (`symbols.dfy`, `case.dfy`). These are the
  attribute-key table, path/symbol equality, and the five `RenameRule`
  spellings with their parse and display.
- **Attribute plumbing** (`parser.dfy`). It re-parses string literals into
  tokens and respans them. It converts tokens to a literal and a literal to
  a string. It collects `#[enum_repr(..)]` metas (`get_meta_items`,
  `get_all_attrs`, and their sequence variants `..2`). It folds attributes
  into a set-valued bucket (`get_attr`, `get_container_attrs`,
  `get_variant_attrs`).
- **Attribute classifiers** (`attrs.dfy`). These are `ContainerAttr` and
  `VariantAttr`, built from name-value and list metas.
- **Derive input** (`enum_repr.dfy`). This is `Enum::parse` and
  `Variant::try_from`, including the silent loss of variants whose
  attributes fail.
- **The `make_enum` grammar** (`macro_grammar.dfy`). It covers
  `EnumMacro`, `VariantMacro` and `FieldsMacro`, with token printers, and
  proves that parsing a printed declaration gives it back.
- **Soundness of that grammar** (`grammar_sound.dfy`). Whatever the grammar
  accepts is the printed form of what it returns, up to spans and the
  spacing of punctuation. `Erase` makes that comparison: it sets every span to
  the call site and marks every punctuation token as standing alone.
- **`make_enum` and `forward_impl`** (`func.dfy`). The derive input that
  `make_enum` emits is classified by the derive as the declaration asked.
- **Utilities** (`util.dfy`, `diagnostics.dfy`). These are `strip!`,
  `take!`, `strip_doc!`, `take_cfg!`, `wrap_in_const` and `err!`.
- **UTF-8** (`utf8.dfy`). Encoding and decoding are modelled only as far as
  byte-string literals need them.

What syn and proc_macro2 do internally is not modelled. Their lexer, the
`Attribute::parse_meta` parser, token rendering, and the lossy-UTF-8
fallback are fields of a `Frontend` value that every operation takes as a
parameter. Where a property needs the frontend to behave well, the lemma
says so in its `requires` (`ReadsBack`, `RendersIdent`, `LexesIdent`,
`Foreign`).

Spans are `CallSite` or an opaque source position `Site(n)`. A bucket holds
identifier texts, because proc-macro identifiers compare without their
spans. For the same reason the metas collected by `get_all_attrs` are held
with their spans erased.

Some behaviour is kept exactly as the code has it, even where the crate's
documentation says otherwise:

- A re-parsed string literal gets the span of the `&str` passed to
  `spanned_tokens`. That is the call site, not the literal's own span
  (`Parser.ReparseIgnoresLiteralSpan`, `Parser.ReparsedIdent`).
- The symbol for the nested-attribute key is spelled `attrr_nest`, so
  `attr_nest` is an unknown key (`Symbols.KeyTexts`).
- Container `from`, `into` and `try_from` are accepted only in list form,
  `from(T)`. The name-value form is an error.
- A container `default(..)` in list form takes exactly one identifier.
- There is no classifier arm for `repr`, so `#[enum_repr(repr = ..)]` is
  rejected.
- A variant `default = ..` is rejected. In name-value form a variant takes
  only `discr`, `rename` and `other`.
- Several `rename_all` values with different rules coexist in one bucket,
  and none is reported as a conflict (`Attrs.RenameAllCoexist`).
- A variant whose attributes fail to classify vanishes from the parsed enum,
  and no error is reported (`EnumRepr.BadVariantSkipped`).

## Model

| member | source | states |
|---|---|---|
| Diagnostics.ErrAt | src/util.rs:142-147 | `err!(x: ..)` fails, carrying exactly the given span and formatted message |
| Diagnostics.ErrCallSite | src/util.rs:148-153 | `err!(..)` without a span fails at the macro call site, with the message |
| Case.FromStr | src/ast/case.rs:21-34 | parsing succeeds exactly for the five documented spellings; any other input fails at the call site, with a message naming both the input and the list of valid spellings |
| Case.InvalidMessageMentions | src/ast/case.rs:28-32 | the rejection message contains the rejected text and the full list of valid spellings |
| Case.FromStrTable | src/ast/case.rs:22-27 | each spelling maps to its own rule: UPPERCASE to Upper, lowercase to Lower, PascalCase to Pascal, snake_case to Snake, SCREAMING_SNAKE_CASE to Scream |
| Case.DisplayCanonical | src/ast/case.rs:37-46 | every rule displays as one of the spellings the parser accepts |
| Case.FromStrDisplay | src/ast/case.rs:21-46 | parsing the displayed form of a rule gives the rule back |
| Case.DisplayFromStr | src/ast/case.rs:21-46 | a string that parses to a rule is exactly that rule's displayed form |
| Case.DisplayInjective | src/ast/case.rs:37-46 | distinct rules display differently |
| Symbols.PathEqIff | src/ast/symbol.rs:7-13 | a path equals a symbol iff it is a single plain identifier segment, with no leading `::` or arguments, whose text is the symbol's |
| Symbols.PathOfEq | src/ast/symbol.rs:7-17 | for a one-identifier path, path-to-symbol equality agrees with symbol-to-string equality on the identifier's text |
| Symbols.PathEqUnique | src/ast/symbol.rs:7-13 | a path equals at most one symbol |
| Symbols.RenderingsAgree | src/ast/symbol.rs:19-33 | `as_ref`, `Debug` and `Display` of a symbol all give its text |
| Symbols.TableDistinct | src/ast/symbol.rs:44-75 | the table holds 30 symbols with pairwise distinct texts |
| Symbols.KeyTexts | src/ast/symbol.rs:45-74 | the attribute name is `enum_repr`; the nested key is `attrr_nest`, so a path `attr_nest` does not match it |
| Syntax.PathSpanIsFirstToken | src/util.rs:141-147 | a path is reported at the span of the first token it prints: the leading `::` when there is one, else its first identifier |
| Syntax.MetaSpanIsFirstToken | src/util.rs:141-147 | a meta is reported at the span of the first token it prints |
| Syntax.NestedSpanIsFirstToken | src/util.rs:141-147 | a nested entry is reported at the span of the first token it prints |
| Syntax.ParseIdent | src/ast/attr.rs:69-72 | an identifier parses from a token stream iff the stream is a single non-keyword word, and the result is that word |
| Utf8.DecodeIff | src/ast/parser.rs:41-43 | strict UTF-8 decoding of bytes gives a string iff the bytes are that string's encoding |
| Utf8.LossyOnEncoded | src/ast/parser.rs:41-43 | lossy decoding of a valid encoding returns the encoded string, whatever the fallback does |
| Parser.RespanStream | src/ast/parser.rs:61-66 | respanning keeps the number of tokens |
| Parser.RespanStreamIndex | src/ast/parser.rs:61-66 | the i-th respanned token is the respan of the i-th token |
| Parser.RespanTreeSpec | src/ast/parser.rs:68-74 | a respanned tree carries the given span everywhere, groups included, and is otherwise the same tree |
| Parser.RespanStreamSpec | src/ast/parser.rs:61-74 | a respanned stream carries the given span everywhere and is token-for-token the same stream |
| Parser.RespanTreeUnique | src/ast/parser.rs:68-74 | respanning is the only way to give a tree the span while keeping it otherwise the same |
| Parser.RespanStreamUnique | src/ast/parser.rs:61-74 | likewise for streams |
| Parser.SpannedTokens | src/ast/parser.rs:56-59 | lexing fails iff the frontend lexer fails, with its error; on success every token carries the given span and the stream is the lexed one |
| Parser.TokenFromStr | src/ast/parser.rs:48-54 | a lex error is returned unchanged; otherwise the target parser runs on the respanned tokens |
| Parser.TokenFromLit | src/ast/parser.rs:38-46 | a string literal is re-parsed from its value, and a byte string from its lossy UTF-8 text; any other literal fails at its span with "unsupported literal type" |
| Parser.ByteStrLikeStr | src/ast/parser.rs:38-46 | a byte string holding the UTF-8 encoding of a text re-parses exactly like the string literal of that text |
| Parser.ReparseIgnoresLiteralSpan | src/ast/parser.rs:56-59 | the literal's own span has no influence on the re-parse |
| Parser.ReparsedIdent | src/ast/parser.rs:56-59 | an identifier re-parsed from a literal comes from a string or byte string, carries the requested span, and is the single non-keyword word that the literal's text lexes to |
| Parser.LitFromToken | src/ast/parser.rs:76-80 | always a string literal, holding the tokens' rendering, at the first token's span |
| Parser.StringFromLit | src/ast/parser.rs:82-87 | succeeds iff the literal is a string, giving its value; otherwise fails at the literal's span |
| Parser.StringFromLitFromToken | src/ast/parser.rs:76-87 | converting tokens to a literal and back to a string gives the tokens' rendering |
| Parser.ParseLitStrInto | src/ast/parser.rs:12-36 | succeeds iff the re-parse at the call site succeeds, with the same value; a failure is reported at the literal's span, with a message naming its value |
| Parser.NestedMetaSetIff | src/ast/parser.rs:114-118 | the set collected from nested items holds a meta iff some nested item has that meta, spans aside; literals are skipped |
| Parser.NestedMetaSeqIff | src/ast/parser.rs:95-102 | the sequence collected from nested items contains a meta iff it occurs as a nested item |
| Parser.GetMetaItems | src/ast/parser.rs:107-124 | succeeds iff the attribute's meta parses in list form; the result adds its metas to the accumulator; otherwise fails with "expected #[enum_repr(...)]" |
| Parser.GetMetaItems2 | src/ast/parser.rs:89-105 | succeeds iff the meta parses in list form; for `enum_repr`, a meta is in the result iff it is one of the nested items, and for any other path the result is empty; a failure is "expected #[enum_repr(...)]" |
| Parser.GetAllAttrsFromSpec | src/ast/parser.rs:134-140 | the fold succeeds iff every attribute is list-shaped; on success the result is the accumulator plus every attribute's metas, and nothing else |
| Parser.GetAllAttrsSpec | src/ast/parser.rs:134-140 | from an empty start: succeeds iff every attribute is list-shaped; on success the result is the union of their metas; a failure is "expected #[enum_repr(...)]" at the call site |
| Parser.GetAllAttrsCollapse | src/ast/parser.rs:107-140 | two `enum_repr` attributes with the same nested items, spans aside, collect the same set as one |
| Parser.GetAllAttrs2 | src/ast/parser.rs:126-132 | never fails |
| Parser.GetAllAttrs2Append | src/ast/parser.rs:126-132 | the sequence collected from a concatenation is the concatenation of the sequences |
| Parser.MalformedDroppedOrFatal | src/ast/parser.rs:126-140 | an attribute that is not list-shaped makes the set collection fail, while the sequence collection silently skips it |
| Parser.ClassifyNested | src/ast/parser.rs:174-187 | a nested name-value or list meta goes to the bucket's matching conversion; a nested literal or bare path fails at its own span, which is its first token's: the literal, the leading `::`, or the first identifier |
| Parser.BareLeadingColonAtColon | src/ast/parser.rs:183-185 | a bare nested path written with a leading `::` is reported at the `::` |
| Parser.GetNestedSpec | src/ast/parser.rs:173-191 | the loop over nested items succeeds iff every item classifies; the bucket then grows by exactly their classifications; the first failure's error is returned |
| Parser.GetAttr | src/ast/parser.rs:164-201 | a meta whose path is not `enum_repr` leaves the bucket unchanged; a bare `enum_repr` fails at its span; the name-value and list forms classify as stated |
| Parser.GetAttrAccumulates | src/ast/parser.rs:164-201 | classifying into a non-empty bucket is the union of that bucket with classifying into an empty one, and the errors agree |
| Parser.GetAttrsFromSpec | src/ast/parser.rs:142-151 | the fold succeeds iff every attribute's step succeeds; the bucket then holds the start plus exactly the steps' results; otherwise the first failing step's error |
| Parser.GetAttrsSpec | src/ast/parser.rs:142-162 | the container and variant folds are the same function; it succeeds iff each attribute's step succeeds; an item is in the bucket iff some attribute's step produced it |
| Parser.MetaParseFailureAborts | src/ast/parser.rs:146-150 | one attribute whose meta does not parse makes the whole fold fail |
| Attrs.ListIdent | src/ast/attr.rs:69-84 | succeeds iff the list holds exactly one bare non-keyword identifier, and gives that identifier's text |
| Attrs.ContainerFromList | src/ast/attr.rs:65-93 | `default`, `from`, `into` and `try_from` take one identifier; `attr`, `attrr_nest` and `other` keep the list's rendering; any other key fails at the meta's span, that of its first token |
| Attrs.DefaultFromLit | src/ast/attr.rs:100-102 | `default = "X"` succeeds iff the literal re-parses as one identifier at the call site, giving that identifier's text, and otherwise gives the re-parse error |
| Attrs.ContainerFromNameValue | src/ast/attr.rs:95-124 | `default` re-parses its literal; `rename_all` accepts exactly a rule's spelling and fails at the call site otherwise; `other` and `attr` keep the rendering; any other key fails at the meta's span, that of its first token |
| Attrs.VariantFromNameValue | src/ast/attr.rs:142-165 | `discr` keeps a string's value; `rename` accepts exactly a rule's spelling; a non-string literal for either fails; `other` keeps the rendering; any other key fails at the meta's span, that of its first token |
| Attrs.VariantFromList | src/ast/attr.rs:167-176 | a variant's list meta succeeds iff its key is `other`, giving `Trans`; otherwise fails at the meta's span, that of its first token |
| Attrs.LeadingColonKeyAtColon | src/ast/attr.rs:65-176 | a key written with a leading `::` is unknown to all four classifiers, and each reports it at the `::` |
| Attrs.UnproducedCases | src/ast/attr.rs:51-63 | no conversion produces the container's `Repr` or `Trans`, nor the variant's `Default`: those cases are declared but never built |
| Attrs.RenameAllCoexist | src/ast/attr.rs:103-112 | `rename_all` with two different rules in one attribute yields a bucket that holds both |
| Attrs.UnknownContainerKeyRejects | src/ast/attr.rs:88-90 | an `enum_repr` list containing a key the container does not know makes classification fail |
| Attrs.ContainerDuplicateCollapses | src/ast/attr.rs:39-40 | a nested item repeated in one attribute classifies the same as a single occurrence |
| EnumRepr.VariantTryFrom | src/ast/enum_repr.rs:110-123 | a variant converts iff its attributes classify, keeping its name and fields; its bucket holds exactly what its attributes produce, and a failure carries the fold's error |
| EnumRepr.SurvivingAppend | src/ast/enum_repr.rs:95-99 | the variants kept from a concatenation are the concatenation of the kept variants |
| EnumRepr.SurvivingOne | src/ast/enum_repr.rs:95-99 | a variant that fails disappears and leaves the others in order; one that converts stays in its place |
| EnumRepr.SurvivingAllConvert | src/ast/enum_repr.rs:95-99 | when every variant converts, all are kept, each at its own index |
| EnumRepr.SurvivingFromDeclared | src/ast/enum_repr.rs:95-99 | every kept variant is the conversion of some declared variant |
| EnumRepr.EnumParse | src/ast/enum_repr.rs:42-108 | a non-enum fails with "only work for enum" at the type's name; a non-list `enum_repr` fails; otherwise it succeeds iff the container attributes classify, keeping the name and generics, with the container bucket and the surviving variants |
| EnumRepr.BadVariantSkipped | src/ast/enum_repr.rs:95-99 | a variant with a failing attribute changes nothing: the parse equals the parse of the enum without that variant |
| EnumRepr.BadVariantMissing | src/ast/enum_repr.rs:95-99 | such a variant, if its name is unique, is absent from the parsed enum |
| MacroGrammar.ParseIdentTok | src/ast/enum_repr.rs:180 | an identifier is read iff the next token is a non-keyword word, consuming exactly that token |
| MacroGrammar.ExpectWord | src/ast/enum_repr.rs:179 | the `enum` keyword is accepted iff it is the next token |
| MacroGrammar.ExpectPunct | src/ast/enum_repr.rs:181 | the `:` is accepted iff it is the next token; otherwise the error is "expected `:`" at the next token, or at the end with no end-of-input prefix |
| MacroGrammar.ParseArrow | src/ast/enum_repr.rs:183 | `->` is accepted iff the next two tokens are a joint `-` followed by `>`; otherwise the error is "expected `->`" at the next token or at the end |
| MacroGrammar.ExpectGroup | src/ast/enum_repr.rs:185 | the body is accepted iff the next token is a group with the expected delimiter |
| MacroGrammar.ParseModPath | src/ast/enum_repr.rs:177 | an attribute path is read from a proper suffix and is a well-formed path of module words |
| MacroGrammar.ParseAttrs | src/ast/enum_repr.rs:177 | outer attributes are read until the next token is not `#`; with no `#`, nothing is consumed |
| MacroGrammar.ParseVisibility | src/ast/enum_repr.rs:178 | without `pub` or `crate` the visibility is inherited and nothing is consumed; after `pub` it is a `pub` form; a restricted path is well formed |
| MacroGrammar.ParseSignature | src/ast/enum_repr.rs:179-184 | accepted iff the input starts with `enum`, an identifier, `:`, an identifier, a joint `-`, `>` and an identifier; the result is those three identifiers and the tokens after the seventh |
| MacroGrammar.ParseFieldsMacro | src/ast/enum_repr.rs:213-233 | accepted iff the next token is a parenthesised group that starts with an identifier, followed by nothing or by `=` and a non-empty expression; the discriminant is present iff more than the identifier follows; the result is well formed |
| MacroGrammar.ParseVariantMacro | src/ast/enum_repr.rs:203-211 | a variant consumes tokens and is well formed: well-formed attributes, a non-keyword identifier name and well-formed fields |
| MacroGrammar.ParseVariants | src/ast/enum_repr.rs:186 | an empty body has no variants and no trailing comma; a non-empty body has at least one variant and never more variants than tokens |
| MacroGrammar.ParseHeader | src/ast/enum_repr.rs:179-186 | accepted iff the input is exactly a signature and one brace group whose contents parse as variants; the header holds the signature's three names and those variants, and is well formed |
| MacroGrammar.ParseEnumMacro | src/ast/enum_repr.rs:173-201 | a parsed declaration is well formed: attributes, visibility, names and variants all satisfy the printer's invariant |
| MacroGrammar.ParseAttrsWf | src/ast/enum_repr.rs:177 | parsed outer attributes have well-formed paths |
| MacroGrammar.ParseVariantsStep | src/ast/enum_repr.rs:185-186 | an accepted list is a variant then nothing, a final comma, or a comma and an accepted list |
| MacroGrammar.ParseVariantsWf | src/ast/enum_repr.rs:186 | every parsed variant is well formed |
| MacroGrammar.ModSegmentsRoundTrip | src/ast/enum_repr.rs:177 | printed path segments parse back, leaving the rest untouched |
| MacroGrammar.ModPathRoundTrip | src/ast/enum_repr.rs:177 | a printed attribute path parses back |
| MacroGrammar.AttrsRoundTrip | src/ast/enum_repr.rs:177 | printed outer attributes parse back, leaving what follows |
| MacroGrammar.VisRoundTrip | src/ast/enum_repr.rs:178 | a printed visibility parses back before `enum` |
| MacroGrammar.VisInRoundTrip | src/ast/enum_repr.rs:178 | a printed `pub(in path)` parses back |
| MacroGrammar.VisScopeRoundTrip | src/ast/enum_repr.rs:178 | a printed `pub(crate)`, `pub(self)` or `pub(super)` parses back |
| MacroGrammar.FieldsRoundTrip | src/ast/enum_repr.rs:213-233 | a printed `(ident)` or `(ident = expr)` parses back |
| MacroGrammar.VariantRoundTrip | src/ast/enum_repr.rs:203-211 | a printed variant parses back |
| MacroGrammar.VariantsRoundTrip | src/ast/enum_repr.rs:185-186 | printed comma-separated variants, with or without a trailing comma, parse back to the same list and the same trailing-comma flag |
| MacroGrammar.HeaderRoundTrip | src/ast/enum_repr.rs:179-186 | a printed header parses back; any token after it fails with "unexpected token" at that token |
| MacroGrammar.SignatureRoundTrip | src/ast/enum_repr.rs:179-184 | a printed signature parses back to its three names, leaving the tokens after it untouched |
| MacroGrammar.EnumMacroRoundTrip | src/ast/enum_repr.rs:173-201 | a printed well-formed declaration parses back to itself, and fails when anything follows it |
| GrammarSound.ModSegmentsSound | src/ast/enum_repr.rs:177 | the tokens path segments are read from are, up to spans and spacing, the printed segments followed by what is left |
| GrammarSound.ParseModPathSound | src/ast/enum_repr.rs:177 | an accepted attribute path is its printed form followed by what is left |
| GrammarSound.ParseAttrSound | src/ast/enum_repr.rs:177 | one accepted `#[..]` is its printed attribute followed by what is left |
| GrammarSound.ParseAttrsSound | src/ast/enum_repr.rs:177 | the accepted outer attributes are their printed forms followed by what is left |
| GrammarSound.VisInSound | src/ast/enum_repr.rs:178 | an accepted `pub(in path)` is its printed form followed by what is left |
| GrammarSound.ParseVisibilitySound | src/ast/enum_repr.rs:178 | every accepted visibility is its printed form followed by what is left |
| GrammarSound.ParseFieldsSound | src/ast/enum_repr.rs:213-233 | an accepted `(ident)` or `(ident = expr)` is its printed form followed by what is left |
| GrammarSound.ParseVariantSound | src/ast/enum_repr.rs:203-211 | an accepted variant is its printed form followed by what is left |
| GrammarSound.ParseVariantsSound | src/ast/enum_repr.rs:185-186 | an accepted body is exactly the printed comma-separated list, with its trailing comma iff one was read |
| GrammarSound.ParseHeaderSound | src/ast/enum_repr.rs:179-186 | an accepted header is exactly its printed form |
| GrammarSound.ParseEnumMacroSound | src/ast/enum_repr.rs:173-201 | an accepted input is exactly the printed form of the declaration read from it, up to spans and punctuation spacing |
| GrammarSound.ReparseAccepted | src/ast/enum_repr.rs:173-201 | printing an accepted declaration and reading it again gives the same declaration |
| Func.ForwardImpl | src/func.rs:5-9 | the input tokens come back unchanged and never fail |
| Func.LowerVariant | src/func.rs:17-33 | an emitted variant keeps its attributes and name, gains `#[enum_repr(discr = "..")]` holding its inner identifier, and has `= e` exactly when the declaration gave one |
| Func.LowerVariants | src/func.rs:17-34 | variants are emitted one for one, in order |
| Func.Lower | src/func.rs:36-44 | the emitted enum keeps the user's attributes and visibility, then adds `#[repr(R)]`, `#[derive(EnumRepr)]` and `#[enum_repr(default = "D")]` |
| Func.MakeEnum | src/func.rs:11-47 | `make_enum` fails iff the declaration does not parse, with the parser's error; otherwise it emits the lowered declaration |
| Func.MakeEnumOfPrinted | src/func.rs:11-47 | `make_enum` on a printed well-formed declaration emits that declaration, lowered |
| Func.MakeEnumRejectsTrailing | src/func.rs:12 | tokens after the declaration make `make_enum` fail |
| Func.DefaultAttrClassified | src/func.rs:15 | the emitted `default` attribute reads back, through the derive's classifier, as exactly `Default(D)` |
| Func.DiscrAttrClassified | src/func.rs:20-22 | the emitted `discr` attribute reads back as exactly `Discriminant(C)` |
| Func.LoweredDefault | src/func.rs:36-44 | when the derive accepts `make_enum`'s output, its container bucket holds the declared default |
| Func.LoweredVariantDiscr | src/func.rs:17-33 | an emitted variant that converts keeps its name, and its bucket holds its declared discriminant |
| Func.LoweredVariants | src/func.rs:17-44 | every variant the derive keeps comes from a declared variant with the same name and carries its discriminant |
| Func.LoweredVariantExact | src/func.rs:17-33 | with only foreign user attributes, an emitted variant converts to exactly its name, `Discriminant(C)` and no fields |
| Func.LoweredExact | src/func.rs:11-47 | with only foreign user attributes, the derive accepts the output; the container bucket is exactly `{Default(D)}`, and every variant survives in order with exactly its discriminant |
| Func.LoweredAttrsExact | src/func.rs:11-47 | with only foreign user attributes, the output's attributes are accepted and its container bucket is exactly `{Default(D)}` |
| Func.LoweredVariantsExact | src/func.rs:11-47 | with only foreign variant attributes, every lowered variant survives in order with exactly its discriminant |
| Func.MakeEnumClassified | src/func.rs:11-47 | for any input `make_enum` accepts, when the derive accepts its output, the default and each kept variant's discriminant are classified as declared |
| Util.SelectMember | src/util.rs:69-87 | an attribute survives the shared filter iff it is in the input and whether its path is the identifier matches what the filter keeps |
| Util.SelectAppend | src/util.rs:69-87 | the shared filter distributes over concatenation, so relative order is kept |
| Util.Take | src/util.rs:83-87 | keeps exactly the attributes whose path is the given identifier |
| Util.Strip | src/util.rs:69-73 | keeps exactly the attributes whose path is not the given identifier |
| Util.StripDoc | src/util.rs:76-80 | removes exactly the `doc` attributes |
| Util.TakeCfg | src/util.rs:90-94 | keeps exactly the `cfg` attributes |
| Util.TakeAppend | src/util.rs:83-87 | take distributes over concatenation, so the order is kept |
| Util.StripAppend | src/util.rs:69-73 | strip distributes over concatenation |
| Util.FiltersPartition | src/util.rs:69-87 | take and strip split the attributes: together they hold each one exactly as often as the input does |
| Util.FiltersIdempotent | src/util.rs:69-87 | each filter is idempotent, and applying the other filter after one leaves nothing |
| Util.WrapInConst | src/util.rs:107-139 | the code is kept under the three allowed lints; the constant, at the call site, is named `_IMPL_NL_<trait>_FOR_<type>`; the given path is imported as `_derive`, else the crate itself is, under its three lint attributes |
| Util.AllowedLints | src/util.rs:123-125 | a lint is silenced iff an attribute allows it unconditionally, or under a feature that is enabled |
| Util.ExternLintsUnderClippy | src/util.rs:123-125 | the `extern crate` always silences `unknown_lints` and `rust_2018_idioms`, and silences `useless_attribute` exactly when the `cargo-clippy` feature is on |
| Util.WrapNameInjectiveInType | src/util.rs:113-116 | for one trait, two types whose constants share a name have the same text |
| Util.WrapNameInjectiveInTrait | src/util.rs:113-116 | for one type, two traits whose constants share a name are equal |

## Left out

- Syn's lexer, `Attribute::parse_meta`, token rendering (`Display`, `to_token_stream`) and the replacement-character fallback of `String::from_utf8_lossy` are foreign code. They are the `Frontend` parameter, and only their interfaces are modelled.
- Syn's parse of the whole item into a `DeriveInput` (src/ast/enum_repr.rs:45-47) is foreign. `EnumParse` starts from the parsed input.
- The debug dump in `Enum::parse` (src/ast/enum_repr.rs:53-92) is not modelled. After `get_all_attrs` succeeds, it formats the metas and writes them to `/tmp/parse.rs`, before the container attributes are classified. Opening and writing the file are unwrapped, so the derive panics when either fails; the model assumes both succeed. The `dump!`, `split!`, `split_owned!`, `count!` and `call!` macros are not modelled either.
- The proc-macro entry points in src/lib.rs and src/derive.rs, src/attr.rs, src/ast/mod.rs and the example crate are thin glue over the functions above, and are not modelled.
- MacroGrammar.ParseFieldsMacro: the discriminant expression is everything after `=` inside the parentheses. Syn's full `Expr` grammar is not modelled, so an expression syn rejects is accepted here.
- Groups with no delimiter, which syn sees through transparently, are not modelled by the grammar.
- MacroGrammar.ParseEnumMacro: the model reports an "unexpected token" left inside a group at once. Syn records it when the group's buffer is dropped and raises it only after the whole parse. A later parse error is reported instead when there is one. Acceptance and rejection agree, but the reported error, both span and message, can differ. For `enum E: u8 -> A { V(C x) W(D) }` the model reports "unexpected token" at `x`, and syn reports "expected `,`" at `W`.
- Func.MakeEnum: the output is a structured `EnumItem`, not a token stream. Its agreement with the printed tokens is assumed through the frontend (`ReadsBack`), not proved.
- Func.LowerVariant: `lit_from_token` never fails, so the `unwrap_or` fallback (src/func.rs:22) cannot occur and is not modelled.
- Util.WrapInConst: `Ident::new` panics on a name that is not an identifier (a trait string with spaces, for example); the model builds the name without that check.
- Spans are opaque. `err!(m: ..)` places its error at `m.span()`. Without span joining, which stable proc-macro lacks, syn's `Spanned::span` gives the span of the first token: the leading `::` of the path when there is one, otherwise the first identifier. A leading `::` keeps the span of its first colon, and the model prints both colons there. Other punctuation that the model prints carries the call-site span.
- Hashing is replaced by set semantics, and hash iteration order is not modelled. Buckets are sets compared by value.
- Raw identifiers (`r#name`) are not distinguished from plain ones.
