/** The error kinds of the services package (internal/services/errors.go) and the plain errors
    that the post layer passes through, as one closed datatype. */
module Errors {
  import opened Wrappers
  import opened Format

  datatype Error =
    | /** *services.ValidationError */ ValidationError(message: string)
    | /** *services.AlreadyInUseError */ AlreadyInUseError(field: string)
    | /** *services.NotFoundError; its definition is not part of this model, so its text is carried as given */
      NotFoundError(text: string)
    | /** any other error value: fmt.Errorf, errors.New, a database driver error */ PlainError(text: string)

  const InUseSuffix: string := " already in use"

  /** The Error() method of each kind: validation, not-found and plain errors print the text
      they carry; an in-use error's text always ends with the fixed suffix. */
  function ErrorText(e: Error): (r: string)
    ensures e.ValidationError? ==> r == e.message
    ensures e.NotFoundError? || e.PlainError? ==> r == e.text
    ensures e.AlreadyInUseError? ==>
      |r| == |e.field| + |InUseSuffix| && r[..|e.field|] == e.field && r[|e.field|..] == InUseSuffix
  {
    match e
    case ValidationError(m) => m
    case AlreadyInUseError(f) =>
      assert (f + InUseSuffix)[..|f|] == f;
      assert (f + InUseSuffix)[|f|..] == InUseSuffix;
      f + InUseSuffix
    case NotFoundError(t) => t
    case PlainError(t) => t
  }

  /** NewValidationError: the message is stored and Error() returns it verbatim. */
  function NewValidationError(message: string): (e: Error)
    ensures e.ValidationError? && e.message == message && ErrorText(e) == message
  {
    ValidationError(message)
  }

  /** NewAlreadyInUseError: the field is stored and Error() appends the fixed suffix. */
  function NewAlreadyInUseError(field: string): (e: Error)
    ensures e.AlreadyInUseError? && e.field == field
    ensures ErrorText(e) == field + " already in use"
    ensures !e.ValidationError? && !e.NotFoundError?
  {
    AlreadyInUseError(field)
  }

  /** Recovers the field from an AlreadyInUseError message; None when the suffix is missing. */
  function FieldInUse(s: string): (r: Option<string>)
    ensures r.Some? ==> r.value + InUseSuffix == s
  {
    if |s| >= |InUseSuffix| && s[|s| - |InUseSuffix|..] == InUseSuffix
    then Some(s[..|s| - |InUseSuffix|])
    else None
  }

  /** The field can be read back from the message. */
  lemma InUseTextRoundTrip(field: string)
    ensures FieldInUse(ErrorText(NewAlreadyInUseError(field))) == Some(field)
  {
    var s := field + InUseSuffix;
    assert s[|s| - |InUseSuffix|..] == InUseSuffix;
    assert s[..|s| - |InUseSuffix|] == field;
  }

  /** Hence AlreadyInUseError messages are injective in the field. */
  lemma InUseTextInjective(f: string, g: string)
    ensures ErrorText(AlreadyInUseError(f)) == ErrorText(AlreadyInUseError(g)) ==> f == g
  {
    InUseTextRoundTrip(f);
    InUseTextRoundTrip(g);
  }

  /** The plain fmt.Errorf error PostService.Create returns for an unknown author. */
  function NoAuthor(id: nat): (e: Error)
    ensures e.PlainError? && ErrorText(e) == "no author with ID " + Decimal(id)
  {
    PlainError("no author with ID " + Decimal(id))
  }

  /** Different missing authors give different messages. */
  lemma NoAuthorInjective(m: nat, n: nat)
    ensures ErrorText(NoAuthor(m)) == ErrorText(NoAuthor(n)) ==> m == n
  {
    var p := "no author with ID ";
    if ErrorText(NoAuthor(m)) == ErrorText(NoAuthor(n)) {
      assert (p + Decimal(m))[|p|..] == Decimal(m);
      assert (p + Decimal(n))[|p|..] == Decimal(n);
      DecimalInjective(m, n);
    }
  }
}
