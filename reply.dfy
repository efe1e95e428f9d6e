/**
 * Text extraction in `get_image_description_from_gemini`: what the call
 * returns for each shape of reply the generation service can give. The
 * service itself, and opening the images, are reduced to their outcome.
 */
module Reply {
  import opened Wrappers

  /** Reading an attribute with `getattr(obj, 'text', None)`. */
  datatype Field =
    | Missing              // the attribute is absent: `getattr` gives None
    | Present(text: string)
    | Raises               // the attribute exists but reading it raises

  datatype Candidate = Candidate(text: Field)

  /** A reply: its direct `text` and its list of `candidates`. */
  datatype Response = Response(text: Field, candidates: seq<Candidate>)

  /** What can go wrong before a reply exists. */
  datatype CallError =
    | ImageOpenFailed      // `Image.open` raised on one of the paths
    | QuotaExhausted       // the service raised ResourceExhausted
    | RequestFailed        // any other error from `generate_content`

  /** How the call to the service ended. */
  datatype Call = Raised(failure: CallError) | Returned(response: Response)

  /** Python truthiness of an optional string. */
  predicate Truthy(s: Option<string>)
  {
    s.Some? && s.value != []
  }

  /** `getattr(x, 'text', None)`, or a `CallError` when reading it raises. */
  function ReadField(f: Field): Result<Option<string>, CallError>
  {
    match f
    case Missing => Success(None)
    case Present(t) => Success(Some(t))
    case Raises => Failure(RequestFailed)
  }

  /**
   * `getattr(response, 'text', None) or getattr(response.candidates[0], 'text', None)`,
   * with every exception, quota exhaustion included, turned into `None`.
   */
  function ExtractReply(call: Call): (r: Option<string>)
    ensures call.Raised? ==> r == None
    ensures r.Some? ==>
              (call.response.text == Present(r.value) && r.value != [])
              || (!call.response.text.Raises? && !Truthy(ReadField(call.response.text).value)
                  && call.response.candidates != []
                  && call.response.candidates[0].text == Present(r.value))
    ensures call.Returned? && call.response.text.Present? && call.response.text.text != [] ==>
              r == Some(call.response.text.text)
    ensures call.Returned? && !call.response.text.Raises? && !Truthy(ReadField(call.response.text).value)
              && call.response.candidates != [] && call.response.candidates[0].text.Present? ==>
              r == Some(call.response.candidates[0].text.text)
  {
    match call
    case Raised(_) => None
    case Returned(response) =>
      match ReadField(response.text)
      case Failure(_) => None
      case Success(direct) =>
        if Truthy(direct) then direct
        else if response.candidates == [] then None   // IndexError on candidates[0]
        else
          match ReadField(response.candidates[0].text)
          case Failure(_) => None
          case Success(fromCandidate) => fromCandidate
  }

  /** Quota exhaustion is not set apart: it ends like any other failure. */
  lemma QuotaExhaustionGivesNone()
    ensures ExtractReply(Raised(QuotaExhausted)) == ExtractReply(Raised(RequestFailed)) == None
  {
  }

  /** An empty direct text falls through to the first candidate, whose text is returned even if empty. */
  lemma EmptyDirectTextFallsThrough(c: string)
    ensures ExtractReply(Returned(Response(Present([]), [Candidate(Present(c))]))) == Some(c)
    ensures ExtractReply(Returned(Response(Present([]), []))) == None
  {
  }
}
