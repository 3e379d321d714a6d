/**
 * How a serializer reads a text field of a request body: stored with surrounding whitespace
 * removed, refused when blank (unless blank is allowed), when longer than the column once
 * stripped, or when it contains the NUL character.
 */
module Fields {
  import opened Common
  import opened Text

  /** Why a field of a request body is refused. `BadFormat` is a format validator of the field
      (an e-mail or username pattern); `NotUnique` is its unique validator. */
  datatype FieldError =
    | Required | NotNull | Blank | TooLong | NullCharacter | OutOfRange | NotAChoice | DoesNotExist | BadFormat | NotUnique

  /** The NUL character, refused in every `CharField`. */
  const Nul: char := 0 as char

  /** What a `CharField` keeps of a non-blank value: the stripped text, within the column and
      free of NUL. */
  predicate TextFits(t: string, maxLength: Option<nat>)
  {
    (maxLength.Some? ==> |t| <= maxLength.value) && Nul !in t
  }

  /** A required `CharField` accepts the value: given, not blank once stripped, and fitting. */
  predicate AcceptedText(v: Supplied<string>, maxLength: Option<nat>)
  {
    v.Given? && Strip(v.v) != [] && TextFits(Strip(v.v), maxLength)
  }

  /** A required `CharField` (a `TextField` has no `maxLength`). */
  function CheckText(v: Supplied<string>, maxLength: Option<nat>): (r: Result<string, FieldError>)
    ensures r.Ok? <==> AcceptedText(v, maxLength)
    ensures r.Ok? ==> r.value == Strip(v.v) && !IsSpace(r.value[0]) && !IsSpace(r.value[|r.value| - 1])
    ensures r == Err(Required) <==> v.Omitted?
    ensures r == Err(NotNull) <==> v.Null?
    ensures v.Given? && Nul in v.v ==> r.Err?
  {
    match v
    case Omitted => Err(Required)
    case Null => Err(NotNull)
    case Given(s) =>
      var t := Strip(s);
      StripEnds(s);
      StripKeepsNul(s);
      if t == [] then Err(Blank)
      else if maxLength.Some? && |t| > maxLength.value then Err(TooLong)
      else if Nul in t then Err(NullCharacter)
      else Ok(t)
  }

  /** An optional `CharField` over a nullable column that may be blank: omitted and null pass
      through, a given value is stripped (all-space text becomes empty) and must fit. */
  function CheckNullableText(v: Supplied<string>, maxLength: Option<nat>): (r: Result<Supplied<string>, FieldError>)
    ensures r.Ok? <==> (v.Given? ==> TextFits(Strip(v.v), maxLength))
    ensures r.Ok? ==> (r.value.Omitted? <==> v.Omitted?) && (r.value.Null? <==> v.Null?)
    ensures r.Ok? && v.Given? ==> r.value == Given(Strip(v.v))
    ensures v.Given? && Nul in v.v ==> r.Err?
  {
    match v
    case Omitted => Ok(Omitted)
    case Null => Ok(Null)
    case Given(s) =>
      var t := Strip(s);
      StripKeepsNul(s);
      if maxLength.Some? && |t| > maxLength.value then Err(TooLong)
      else if Nul in t then Err(NullCharacter)
      else Ok(Given(t))
  }

  /** NUL is not whitespace, so stripping never removes it. */
  lemma StripKeepsNul(s: string)
    ensures Nul in s ==> Nul in Strip(s)
  {
    if Nul in s {
      var i :| 0 <= i < |s| && s[i] == Nul;
      StripKeepsNonSpace(s, i);
    }
  }
}
