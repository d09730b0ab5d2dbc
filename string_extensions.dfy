/** `EnsureStartsWith` and `EnsureEndsWith`, the extension methods on `string`. */
module StringExtensions {
  import opened DotNetText

  /** `input` with `toStartWith` put in front, unless it already starts with it. */
  function EnsureStartsWith(input: string, toStartWith: string): (r: string)
    ensures StartsWith(r, toStartWith)
    ensures EndsWith(r, input)
    ensures StartsWith(input, toStartWith) ==> r == input
    ensures !StartsWith(input, toStartWith) ==> r == toStartWith + input
  {
    if StartsWith(input, toStartWith) then input else toStartWith + input
  }

  /** `input` with `toEndWith` put after it, unless it already ends with it. */
  function EnsureEndsWith(input: string, toEndWith: string): (r: string)
    ensures EndsWith(r, toEndWith)
    ensures StartsWith(r, input)
    ensures EndsWith(input, toEndWith) ==> r == input
    ensures !EndsWith(input, toEndWith) ==> r == input + toEndWith
  {
    if EndsWith(input, toEndWith) then input else input + toEndWith
  }

  /** A second `EnsureStartsWith` changes nothing. */
  lemma {:induction false} EnsureStartsWithIdempotent(input: string, toStartWith: string)
    ensures EnsureStartsWith(EnsureStartsWith(input, toStartWith), toStartWith)
         == EnsureStartsWith(input, toStartWith)
  {
  }

  /** A second `EnsureEndsWith` changes nothing. */
  lemma {:induction false} EnsureEndsWithIdempotent(input: string, toEndWith: string)
    ensures EnsureEndsWith(EnsureEndsWith(input, toEndWith), toEndWith)
         == EnsureEndsWith(input, toEndWith)
  {
  }

  /** The input is unchanged exactly when it already has the prefix. */
  lemma {:induction false} EnsureStartsWithUnchanged(input: string, toStartWith: string)
    ensures EnsureStartsWith(input, toStartWith) == input <==> StartsWith(input, toStartWith)
  {
  }

  /** The input is unchanged exactly when it already has the suffix. */
  lemma {:induction false} EnsureEndsWithUnchanged(input: string, toEndWith: string)
    ensures EnsureEndsWith(input, toEndWith) == input <==> EndsWith(input, toEndWith)
  {
  }
}
