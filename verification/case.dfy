/** The rename rules of src/ast/case.rs: an exact parser for five spellings
    and the printer that writes them back. */
module Case {
  import opened Diagnostics

  datatype RenameRule = Upper | Lower | Pascal | Snake | Scream

  /** `RenameRule::ALL`, quoted in the error for an unknown spelling. */
  const ALL: string := "UPPERCASE | lowercase | PascalCase | snake_case | SCREAMING_SNAKE_CASE"

  /** The five accepted spellings. */
  const SPELLINGS: set<string> := {"UPPERCASE", "lowercase", "PascalCase", "snake_case", "SCREAMING_SNAKE_CASE"}

  /** The message for a spelling that names no rule. */
  function InvalidMessage(s: string): string
  {
    "invalid rename attribute: " + s + ", expected #[enum_repr(rename = \"" + ALL + "\")]"
  }

  /** The message quotes the rejected text and the list of valid spellings. */
  lemma InvalidMessageMentions(s: string)
    ensures Contains(InvalidMessage(s), s) && Contains(InvalidMessage(s), ALL)
  {
    var pre, post, close := "invalid rename attribute: ", ", expected #[enum_repr(rename = \"", "\")]";
    ContainsMiddle(pre + s + post, ALL, close);
    ConcatAssoc(pre + s + post, ALL, close);
    ConcatAssoc(pre + s, post, ALL + close);
    ContainsMiddle(pre, s, post + (ALL + close));
  }

  /** `FromStr::from_str`: only the exact spellings are accepted; anything else,
      including other capitalisations and padded text, is an error at the call
      site naming the input and listing every valid spelling. */
  function FromStr(s: string): (r: Result<RenameRule>)
    ensures r.Ok? <==> s in SPELLINGS
    ensures r.Err? ==> r.error.span == CallSite
    ensures r.Err? ==> Contains(r.error.message, s) && Contains(r.error.message, ALL)
  {
    match s
    case "UPPERCASE" => Ok(Upper)
    case "lowercase" => Ok(Lower)
    case "PascalCase" => Ok(Pascal)
    case "snake_case" => Ok(Snake)
    case "SCREAMING_SNAKE_CASE" => Ok(Scream)
    case _ =>
      InvalidMessageMentions(s);
      ErrCallSite(InvalidMessage(s))
  }

  /** `Display::fmt`: the canonical spelling of a rule. */
  function Display(r: RenameRule): string
  {
    match r
    case Upper => "UPPERCASE"
    case Lower => "lowercase"
    case Pascal => "PascalCase"
    case Snake => "snake_case"
    case Scream => "SCREAMING_SNAKE_CASE"
  }

  /** Each spelling maps to its rule. */
  lemma FromStrTable()
    ensures FromStr("UPPERCASE") == Ok(Upper)
    ensures FromStr("lowercase") == Ok(Lower)
    ensures FromStr("PascalCase") == Ok(Pascal)
    ensures FromStr("snake_case") == Ok(Snake)
    ensures FromStr("SCREAMING_SNAKE_CASE") == Ok(Scream)
  {
  }

  /** Printing is total and always yields an accepted spelling. */
  lemma DisplayCanonical(r: RenameRule)
    ensures Display(r) in SPELLINGS
  {
  }

  /** Parsing what was printed gives the rule back. */
  lemma FromStrDisplay(r: RenameRule)
    ensures FromStr(Display(r)) == Ok(r)
  {
  }

  /** Printing what was parsed gives the text back. */
  lemma DisplayFromStr(s: string, r: RenameRule)
    requires FromStr(s) == Ok(r)
    ensures Display(r) == s
  {
  }

  /** Distinct rules print distinctly. */
  lemma DisplayInjective(r1: RenameRule, r2: RenameRule)
    requires Display(r1) == Display(r2)
    ensures r1 == r2
  {
  }
}
