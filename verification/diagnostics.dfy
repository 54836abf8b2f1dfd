/** Source positions and positioned diagnostics: the model of `proc_macro2::Span`
    and `syn::Error`, plus the `err!` helper of src/util.rs. */
module Diagnostics {

  /** An opaque source position. `CallSite` is the position of the macro
      invocation; `Site(n)` is any other position in the user's source. */
  datatype Span = CallSite | Site(id: nat)

  /** A diagnostic: a human-readable message anchored at a span. */
  datatype Error = Error(span: Span, message: string)

  datatype Option<+T> = None | Some(value: T)

  /** `syn::Result`: a value or a positioned diagnostic. */
  datatype Result<+T> = Ok(value: T) | Err(error: Error) {
    predicate IsFailure() { Err? }

    function PropagateFailure<U>(): Result<U>
      requires Err?
    {
      Err(error)
    }

    function Extract(): T
      requires Ok?
    {
      value
    }
  }

  /** `err!(x: ...)`: an error anchored at the span of the fragment `x`. */
  function ErrAt<T>(span: Span, message: string): (r: Result<T>)
    ensures r.Err? && r.error.span == span && r.error.message == message
  {
    Err(Error(span, message))
  }

  /** `err!(...)` without a fragment: an error anchored at the call site. */
  function ErrCallSite<T>(message: string): (r: Result<T>)
    ensures r.Err? && r.error.span == CallSite && r.error.message == message
  {
    Err(Error(CallSite, message))
  }

  /** `needle` occurs in `hay` starting at index `i`. */
  predicate OccursAt(hay: string, needle: string, i: int)
  {
    0 <= i && i + |needle| <= |hay| && hay[i..i + |needle|] == needle
  }

  /** `needle` occurs as a contiguous piece of `hay`. */
  predicate Contains(hay: string, needle: string)
  {
    exists i :: 0 <= i <= |hay| && OccursAt(hay, needle, i)
  }

  /** Concatenation is associative. */
  lemma ConcatAssoc<T>(a: seq<T>, b: seq<T>, c: seq<T>)
    ensures (a + b) + c == a + (b + c)
  {
  }

  lemma TakeDrop<T>(s: seq<T>, k: nat)
    requires k <= |s|
    ensures s[..k] + s[k..] == s
  {
  }

  lemma ContainsMiddle(a: string, b: string, c: string)
    ensures Contains(a + b + c, b)
  {
    var h := a + b + c;
    assert h[|a|..|a| + |b|] == b;
    assert OccursAt(h, b, |a|);
  }
}
