/** The `/upload` handler (backend/app.js:72-170) with its collaborators
    abstracted: the uploaded file is its stored path, pdf-parse is the text
    it extracted (or nothing, when it throws), uuid is the `token` passed in,
    the generation service is the injected `service`, and the record store
    is whether `submission.save()` succeeds. The handler's result is the
    response it sends, the solution file it writes and the record it saves. */
module UploadHandler {
  import opened Options
  import opened Strings
  import Validator
  import GenerationClient
  import Sanitizer
  import Metadata
  import Renderer

  /** The multipart request: the stored path of the `pdf` file, if one was
      sent, and the three text fields as sent. */
  datatype Form = Form(
    pdf: Option<string>,
    enrollment: Option<string>,
    name: Option<string>,
    batch: Option<string>)

  datatype Response =
    | BadRequest(message: string)      // status 400
    | InternalError(message: string)   // status 500
    | Created(submissionId: string)    // `res.json({ submissionId })`

  /** The stored record of a submission. */
  datatype Submission = Submission(
    id: string,
    originalPdfPath: string,
    solutionPdfPath: string,
    enrollment: string,
    name: string,
    batch: string)

  /** A solution document written to disk. */
  datatype SolutionFile = SolutionFile(path: string, segments: seq<Renderer.Segment>)

  const SolutionsDir: string := "solutions/"
  const NoFileMessage: string := "No file uploaded."
  const InternalErrorMessage: string := "An internal error occurred."

  /** What the handler writes for a generated solution `raw`. */
  function SolutionSegments(raw: string, enrollment: string, name: string, batch: string): seq<Renderer.Segment>
  {
    Renderer.Header(enrollment, name, batch) +
    Renderer.RenderLines(Split(Sanitizer.CleanOutput(raw)), Renderer.Prose).segments
  }

  method HandleUpload(
    form: Form, extracted: Option<string>, service: nat -> GenerationClient.Outcome,
    token: string, saveSucceeds: bool)
    returns (response: Response, attempts: nat, written: Option<SolutionFile>, saved: Option<Submission>)
    // a missing file is refused before anything else happens
    ensures form.pdf.None? ==>
      response == BadRequest(NoFileMessage) && attempts == 0 && written.None? && saved.None?
    // a text that fails validation is refused before the service is called
    ensures form.pdf.Some? && extracted.Some? && Validator.Validate(extracted.value) != Validator.Accepted ==>
      response == BadRequest(Validator.Validate(extracted.value).Message()) &&
      attempts == 0 && written.None? && saved.None?
    // every other failure is an opaque internal error
    ensures form.pdf.Some? && extracted.None? ==>
      response == InternalError(InternalErrorMessage) && attempts == 0 && written.None? && saved.None?
    // an accepted text goes to the service under the retry policy, and a
    // solution is written exactly when the policy ends on a reply
    ensures form.pdf.Some? && extracted.Some? && Validator.Validate(extracted.value) == Validator.Accepted ==>
      1 <= attempts <= GenerationClient.DefaultRetries &&
      (forall a :: 1 <= a < attempts ==> GenerationClient.IsUnavailable(service(a))) &&
      (attempts < GenerationClient.DefaultRetries ==> !GenerationClient.IsUnavailable(service(attempts))) &&
      (written.Some? <==> service(attempts).Reply?)
    // a generation that ends without a reply is an opaque internal error
    ensures (form.pdf.Some? && extracted.Some? && Validator.Validate(extracted.value) == Validator.Accepted &&
             !service(attempts).Reply?) ==>
      response == InternalError(InternalErrorMessage) && written.None? && saved.None?
    ensures attempts <= GenerationClient.DefaultRetries
    ensures response.InternalError? ==> response.message == InternalErrorMessage && saved.None?
    // a solution is written only from a reply of the service
    ensures written.Some? ==>
      form.pdf.Some? && extracted.Some? && Validator.Validate(extracted.value) == Validator.Accepted &&
      1 <= attempts && service(attempts).Reply? &&
      var e, n, b := Metadata.OrUnknown(form.enrollment), Metadata.OrUnknown(form.name), Metadata.OrUnknown(form.batch);
      written.value == SolutionFile(
        SolutionsDir + Metadata.OutputFilename(e, n, b),
        SolutionSegments(service(attempts).text, e, n, b))
    // a record is saved exactly when the response carries the token, and it
    // points at the solution file that was written
    ensures response.Created? <==> saved.Some?
    ensures saved.Some? ==>
      response == Created(token) && written.Some? && saveSucceeds &&
      saved.value == Submission(
        token, form.pdf.value, written.value.path,
        Metadata.OrUnknown(form.enrollment), Metadata.OrUnknown(form.name), Metadata.OrUnknown(form.batch))
    ensures written.Some? && saveSucceeds ==> saved.Some?
    // a failed save leaves the written solution file without a record
    ensures written.Some? && !saveSucceeds ==> response == InternalError(InternalErrorMessage) && saved.None?
  {
    attempts, written, saved := 0, None, None;
    var enrollment := Metadata.OrUnknown(form.enrollment);
    var name := Metadata.OrUnknown(form.name);
    var batch := Metadata.OrUnknown(form.batch);

    if form.pdf.None? {
      response := BadRequest(NoFileMessage);
      return;
    }
    var originalPdfPath := form.pdf.value;
    if extracted.None? {
      response := InternalError(InternalErrorMessage);
      return;
    }
    var text := extracted.value;

    var verdict := Validator.Validate(text);
    if verdict != Validator.Accepted {
      response := BadRequest(verdict.Message());
      return;
    }

    var generated, sleeps;
    generated, attempts, sleeps :=
      GenerationClient.GenerateWithRetry(service, GenerationClient.DefaultRetries, GenerationClient.DefaultDelay);
    if generated.Error? {
      response := InternalError(InternalErrorMessage);
      return;
    }
    var solution := Sanitizer.CleanOutput(generated.text);

    var outputFilename := Metadata.OutputFilename(enrollment, name, batch);
    var solutionPdfPath := SolutionsDir + outputFilename;
    var segments, finalMode := Renderer.RenderDocument(solution, enrollment, name, batch);
    written := Some(SolutionFile(solutionPdfPath, segments));

    if !saveSucceeds {
      response := InternalError(InternalErrorMessage);
      return;
    }
    saved := Some(Submission(token, originalPdfPath, solutionPdfPath, enrollment, name, batch));
    response := Created(token);
  }

  /** A valid submission whose service answers only on the third call is
      still saved once, under its token, with the third answer rendered. */
  method SavedAfterTwoRetries(pdf: string, text: string, answer: string, token: string)
    returns (response: Response, saved: Option<Submission>, written: Option<SolutionFile>)
    requires Validator.Validate(text) == Validator.Accepted
    ensures response == Created(token)
    ensures saved.Some? && saved.value.id == token && saved.value.originalPdfPath == pdf
    ensures written.Some? && written.value.segments == SolutionSegments(answer, "Unknown", "Unknown", "Unknown")
  {
    var service: nat -> GenerationClient.Outcome :=
      a => if a <= 2 then GenerationClient.Thrown(Some(503)) else GenerationClient.Reply(answer);
    var form := Form(Some(pdf), None, Some(""), None);
    var attempts;
    response, attempts, written, saved := HandleUpload(form, Some(text), service, token, true);
    assert GenerationClient.IsUnavailable(service(1)) && GenerationClient.IsUnavailable(service(2));
  }
}
