/** The client's text for a failed request: the `detail` of a FastAPI error body
    is either a plain message or Pydantic's list of validation errors, each with a
    location path and a message. JavaScript truthiness decides the fallbacks: an
    empty string is falsy, an empty list is not. */
module ErrorHandler {
  import opened Wrappers
  import opened Text

  /** One element of a validation error's `loc`: a field name or a list index. */
  datatype LocItem = Key(name: string) | Index(n: int)

  /** A Pydantic validation error as the client reads it. */
  datatype ValidationError = ValidationError(loc: seq<LocItem>, msg: string)

  /** The `detail` of a response body: missing (or another falsy value), a string,
      a list of validation errors, or any other truthy value. */
  datatype Detail = NoDetail | Message(text: string) | Errors(errors: seq<ValidationError>) | OtherDetail

  const AnErrorOccurred := "An error occurred"
  const Unexpected := "An unexpected error occurred"

  /** A template literal's rendering of a loc element. */
  function LocText(l: LocItem): string {
    match l
    case Key(name) => name
    case Index(n) => IntToString(n)
  }

  /** The last element of the location, the field the error is about; indexing past
      the end of an empty location gives undefined. */
  function FieldName(loc: seq<LocItem>): string {
    if loc == [] then "undefined" else LocText(loc[|loc| - 1])
  }

  /** The text shown for one validation error. */
  function Piece(e: ValidationError): (r: string)
    ensures OccursAt(r, FieldName(e.loc), 0)
    ensures OccursAt(r, ": " + e.msg, |FieldName(e.loc)|)
    ensures |r| == |FieldName(e.loc)| + 2 + |e.msg|
    ensures r != []
  {
    FieldName(e.loc) + ": " + e.msg
  }

  /** The texts of the errors, one per error, in order. */
  function Pieces(es: seq<ValidationError>): (r: seq<string>)
    ensures |r| == |es|
    ensures forall k :: 0 <= k < |es| ==> r[k] == Piece(es[k])
  {
    if es == [] then [] else [Piece(es[0])] + Pieces(es[1..])
  }

  /** formatPydanticErrors. */
  function FormatPydanticErrors(d: Detail): (r: string)
    ensures d.NoDetail? || d.OtherDetail? || d == Message("") ==> r == AnErrorOccurred
    ensures d.Message? && d.text != "" ==> r == d.text
    ensures d.Errors? ==> r == Join(Pieces(d.errors), ", ")
  {
    match d
    case NoDetail => AnErrorOccurred
    case Message(t) => if t == "" then AnErrorOccurred else t
    case Errors(es) => Join(Pieces(es), ", ")
    case OtherDetail => AnErrorOccurred
  }

  /** Each validation error is shown as "field: msg", at its place in the ", "
      separated list: the k-th piece starts after the k pieces before it. */
  lemma ErrorShown(es: seq<ValidationError>, k: nat)
    requires k < |es|
    ensures OccursAt(FormatPydanticErrors(Errors(es)), Piece(es[k]), JoinOffset(Pieces(es), ", ", k))
  {
    JoinOccurs(Pieces(es), ", ", k);
  }

  /** The formatted detail is empty only for an empty error list. */
  lemma FormattedEmpty(d: Detail)
    ensures FormatPydanticErrors(d) == "" <==> d == Errors([])
  {
    if d.Errors? && d.errors != [] {
      JoinOccurs(Pieces(d.errors), ", ", 0);
    }
  }

  /** What was thrown: an object with a `response` property (its detail, reached
      through optional chaining, and its `message` if any), an Error without one,
      or any other value. */
  datatype Thrown = WithResponse(detail: Detail, message: Option<string>) | PlainError(errorMessage: string) | OtherValue

  /** getErrorMessage. */
  function GetErrorMessage(e: Thrown): (r: string)
    ensures e.WithResponse? ==> r != ""
    ensures e.WithResponse? && e.detail != Errors([]) ==> r == FormatPydanticErrors(e.detail)
    ensures e.WithResponse? && e.detail == Errors([]) ==>
      r == (if e.message.Some? && e.message.value != "" then e.message.value else Unexpected)
    ensures e.PlainError? ==> r == e.errorMessage
    ensures e.OtherValue? ==> r == Unexpected
  {
    match e
    case WithResponse(d, m) =>
      FormattedEmpty(d);
      var f := FormatPydanticErrors(d);
      if f != "" then f
      else if m.Some? && m.value != "" then m.value
      else Unexpected
    case PlainError(m) => m
    case OtherValue => Unexpected
  }

  /** A 422 whose detail lists validation errors shows the first error's field and
      message at the start of the text. */
  lemma FirstErrorLeads(es: seq<ValidationError>, message: Option<string>)
    requires es != []
    ensures StartsWith(GetErrorMessage(WithResponse(Errors(es), message)), FieldName(es[0].loc) + ": " + es[0].msg)
  {
    ErrorShown(es, 0);
  }
}
