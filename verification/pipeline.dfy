/** The pure part of `generate_request_payload`: analyze the metadata, let the
    generator answer (when one is given), and render the payload, which the
    program then prints, returns or writes. */
module Pipeline {
  import opened Wrappers
  import opened Text
  import opened Json
  import opened Descriptor
  import opened Payload
  import opened Structure
  import opened Filling

  /** The descriptors handed to the renderer, or the generator's first exception. */
  function Prepared(fields: seq<Field>, gen: Option<Generator>): Result<seq<Field>, Error> {
    if gen.Some? then Populate(fields, gen.value) else Success(fields)
  }

  /** The form has fields and the generator (if any) answered all of them. */
  predicate Ready(metadata: J, gen: Option<Generator>) {
    && Analyzed(metadata, false).Success?
    && |Analyzed(metadata, false).value| > 0
    && Prepared(Analyzed(metadata, false).value, gen).Success?
  }

  /** `generate_request_payload(url, "return", include_comments, data_generator)`
      after the fetch. `Success(None)` is the program's `None`. A refused form
      yields `None` without a generator, but with one the pass iterates over
      `None` and raises; an exception from the generator ends the run; comment
      mode never yields a payload, because the built descriptors lack the
      container name it prints. */
  method GenerateRequestPayload(metadata: J, gen: Option<Generator>, comments: bool)
    returns (r: Result<Option<string>, Error>)
    ensures Unavailable(metadata) ==> r == (if gen.Some? then Failure(BadOperand) else Success(None))
    ensures Analyzed(metadata, false).Failure? && !Unavailable(metadata) ==> r == Failure(Malformed)
    ensures Analyzed(metadata, false).Success? && Prepared(Analyzed(metadata, false).value, gen).Failure? ==>
      r == Failure(Prepared(Analyzed(metadata, false).value, gen).error)
    ensures Analyzed(metadata, false) == Success([]) ==> r == Success(None)
    ensures comments && r.Success? ==> r.value.None?
    ensures comments && Ready(metadata, gen) ==> r == Failure(MissingKey("container_name"))
    ensures !comments && Ready(metadata, gen) ==>
      var text := Render(Prepared(Analyzed(metadata, false).value, gen).value, false);
      && text.Success? && r == Success(Some(text.value))
      && StartsWith(text.value, "{\n") && EndsWith(text.value, "}")
  {
    var analyzed := AnalyzeFormStructure(metadata, false);
    if analyzed.Failure? {
      if analyzed.error != Unsupported {
        return Failure(analyzed.error);
      }
      if gen.Some? {
        return Failure(BadOperand);
      }
      return Success(None);
    }
    var fields := analyzed.value;
    if gen.Some? {
      var populated := Populate(fields, gen.value);
      if populated.Failure? {
        return Failure(populated.error);
      }
      fields := populated.value;
    }
    assert Prepared(analyzed.value, gen) == Success(fields);
    if |fields| == 0 {
      return Success(None);
    }
    if comments {
      AnalyzedHasNoContainer(metadata, false);
      assert analyzed.value[0] in analyzed.value;
      assert fields[0].containerName == analyzed.value[0].containerName;
      CommentModeNeedsContainer(fields);
    }
    var text := CreateRequestPayload(fields, comments);
    if text.Failure? {
      return Failure(text.error);
    }
    return Success(Some(text.value));
  }

  /** The synthetic descriptors are keyed like the extracted ones, with the
      `entry.` prefix, since their type is not the string `"required"`. */
  lemma SyntheticKeys(pages: nat)
    ensures FieldKey(EmailField()) == "entry.emailAddress"
    ensures FieldKey(HistoryField(pages)) == "entry.pageHistory"
  {
  }
}
