# Submission pipeline of the PDF solution generator, in Dafny

The backend takes an uploaded assignment PDF and checks its text. It asks
the Gemini model for a solution, retrying while the service is unavailable.
It strips filler lines from the answer, renders the answer into a solution
PDF and stores a submission record under a fresh id.

This project models that pipeline as it is written in `backend/app.js`. The
model is split into one module per component:

- `Strings` (strings.dfy): the JavaScript string built-ins the pipeline
  uses: `toLowerCase` on ASCII, `includes`, `startsWith`, `split('\n')`,
  `join('\n')`, `trim` with ECMAScript's whitespace set, and `length`
  counted in UTF-16 code units.
- `Validator` (validator.dfy): the keyword test, then the 5000-code-unit
  limit.
- `GenerationClient` (generation_client.dfy): `generateContentWithRetry`.
  It is a loop over attempts. The Gemini call is an injected function from
  the attempt number to an outcome: a reply with text, a malformed result,
  or a thrown error with an optional HTTP status. The sleeps are returned as
  a trace of delays.
- `Sanitizer` (sanitizer.dfy): `cleanGeminiOutput`.
- `Metadata` (metadata.dfy): the `'Unknown'` defaults and the solution file
  name.
- `Renderer` (renderer.dfy): the header and the two-state prose/code loop.
  The PDF sink is the sequence of styled segments it receives.
- `UploadHandler` (upload_handler.dfy): the `/upload` handler composed from
  the above. Its result is the response, the solution file written and the
  record saved.
- `Options` (options.dfy): the `Option` type shared by the modules.

The retry loop and the rendering loop are methods with `while` loops. Each
is proved against a specification: a characterisation of the attempts and
sleeps for the retry loop, and the function `RenderLines` for the renderer.
The rest of the pipeline is functions with lemmas about them.

Two consequences of the code as written are proved:

- Different metadata can give the same solution file name
  (`Metadata.FilenameCollision`), so a later submission overwrites an
  earlier submission's PDF.
- When `submission.save()` fails, the solution PDF has already been
  written. It stays on disk with no record pointing at it (a postcondition
  of `UploadHandler.HandleUpload`).

The retry helper checks that `result.response.text` exists, not that the
text it yields is non-empty (backend/app.js:40-43). An empty answer is
therefore returned as success, and the model does the same: a `Reply("")`
outcome is a success.

The file name is masked as JavaScript sees the string, one UTF-16 code unit
at a time. The regular expression at backend/app.js:109 has no `u` flag, so
a character outside the Basic Multilingual Plane, such as an emoji, is a
surrogate pair and becomes `__` (`Metadata.ExampleEmojiFilename`).

## Model

| member | source | states |
|---|---|---|
| `GenerationClient.GenerateWithRetry` | backend/app.js:37-56 | With `retries < 1` no call is made and it fails with "retries failed". Otherwise it makes 1 to `retries` calls. Every call before the last was a 503. It stops early only on a non-503 outcome. The result is the last call's outcome: the reply's text, or that call's error rethrown. The sleeps are the doubling schedule, one fewer than the calls. |
| `GenerationClient.IsUnavailable` | backend/app.js:46 | The only outcome that is retried: a thrown error whose status is 503. |
| `GenerationClient.Settle` | backend/app.js:40-52 | A reply returns its text. A malformed result becomes "Invalid Gemini response". A thrown error is rethrown with its own status. Only a reply yields text. |
| `GenerationClient.Backoff` | backend/app.js:46-49 | The k-th sleep (from 0) is `delay * 2^k`, and there are exactly n of them. |
| `GenerationClient.StopAttempt` | backend/app.js:38-53 | The attempt the loop stops on lies between the starting attempt and `retries`. |
| `GenerationClient.AttemptsDetermined` | backend/app.js:38-53 | The retry method's postcondition fixes the number of calls: any count meeting it is the stop attempt. |
| `GenerationClient.FatalFirstAttempt` | backend/app.js:46-52 | A non-503 error on the first call is rethrown after one call and no sleep. |
| `GenerationClient.RecoversOnThirdAttempt` | backend/app.js:37-49 | Two 503s and then a reply: three calls, sleeps of 1000 and 2000, and the reply's text. |
| `GenerationClient.UnavailableThroughout` | backend/app.js:46-52 | A 503 on every call: three calls, sleeps of 1000 and 2000, then the last 503 is rethrown. |
| `Validator.Verdict.Message` | backend/app.js:87-93 | The body of the 400 response for each rejection: "Not a valid assignment or lab PDF." or "PDF is too large.". |
| `Validator.MentionsAssignment` | backend/app.js:87 | The keyword test: the lower-cased text includes "assignment" or "lab". |
| `Validator.Validate` | backend/app.js:87-93 | Not-assignment exactly when neither "assignment" nor "lab" occurs in the lower-cased text. Too-large exactly when a keyword occurs and the JavaScript length (UTF-16 code units) exceeds 5000. Accepted exactly when a keyword occurs and that length is at most 5000. |
| `Validator.KeywordRuleFirst` | backend/app.js:87-93 | A text failing both checks is reported as not assignment-like. |
| `Validator.CaseInsensitive` | backend/app.js:87 | Texts equal after lower-casing get the same verdict. |
| `Validator.LabWithinLimitAccepted` | backend/app.js:87-93 | A text containing "LaB" whose JavaScript length is within the limit is accepted. |
| `Validator.OutsideBmpCountsTwice` | backend/app.js:91 | "lab" followed by 2500 characters outside the Basic Multilingual Plane is 5003 code units long and is refused as too large. |
| `Strings.Lower` | backend/app.js:87 | `toLowerCase` on ASCII: the same length, no capital A-Z left, and every character that is not a capital kept in place. |
| `Strings.LowerIdempotent` | backend/app.js:87 | Lower-casing twice is lower-casing once. |
| `Strings.StartsWith` | backend/app.js:128 | `startsWith`: the pattern is no longer than the text and equals the text's prefix of its length. |
| `Strings.IsSpace` | backend/app.js:69 | The characters `trim` removes: ECMAScript's WhiteSpace and LineTerminator set (tab, line feed, vertical tab, form feed, carriage return, space, U+00A0, U+1680, U+2000-U+200A, U+2028, U+2029, U+202F, U+205F, U+3000, U+FEFF). |
| `Strings.Split` | backend/app.js:61 | `split('\n')`: the pieces between line feeds, always at least one. |
| `Strings.Join` | backend/app.js:69 | `join('\n')`: the pieces with a line feed between each two. |
| `Strings.Trim` | backend/app.js:69 | `trim`: the text without its leading and trailing ECMAScript whitespace. |
| `Strings.Utf16Length` | backend/app.js:91 | A string's JavaScript `length`: one per character of the Basic Multilingual Plane, two per character outside it. |
| `Strings.Utf16LengthUnits` | backend/app.js:91 | That length is the number of UTF-16 code units, and never less than the number of characters. |
| `Strings.Utf16LengthAppend` | backend/app.js:91 | The length of a concatenation is the sum of the lengths. |
| `Strings.Utf16LengthLower` | backend/app.js:87-91 | Lower-casing does not change the length. |
| `Strings.Utf16LengthOutsideBmp` | backend/app.js:91 | A text made only of characters outside the Basic Multilingual Plane is twice as long as its character count. |
| `Strings.Contains` | backend/app.js:87 | `includes` is true exactly when the pattern occurs at some position. |
| `Strings.ContainsInSlice` | backend/app.js:62-68 | An occurrence in a slice is an occurrence in the whole text. |
| `Strings.JoinSplit` | backend/app.js:61-69 | Joining the pieces of a split on line feeds gives back the text. |
| `Strings.SplitJoin` | backend/app.js:61-69 | Splitting a join of at least one line-feed-free line gives back the lines. |
| `Strings.SplitNoNewLines` | backend/app.js:61 | No piece of a split contains a line feed. |
| `Strings.SplitSnoc` | backend/app.js:61 | Appending a character other than a line feed extends the last piece. |
| `Strings.SplitSnocNewLine` | backend/app.js:61 | Appending a line feed adds an empty last piece. |
| `Strings.TrimStartSpec` | backend/app.js:69 | Left trimming keeps the longest suffix that does not start with whitespace. Everything dropped is whitespace. |
| `Strings.TrimEndSpec` | backend/app.js:69 | Right trimming keeps the longest prefix that does not end with whitespace. Everything dropped is whitespace. |
| `Strings.TrimSpec` | backend/app.js:69 | `trim` gives the slice between a leading and a trailing run of whitespace, and neither starts nor ends with whitespace. |
| `Strings.TrimIdempotent` | backend/app.js:69 | Trimming twice is trimming once. |
| `Sanitizer.IsFiller` | backend/app.js:63-67 | A line is filler when its lower-cased form contains one of the five phrases. |
| `Sanitizer.KeepLines` | backend/app.js:60-68 | The `filter` step: the lines that are not filler, in their order. |
| `Sanitizer.KeepLinesSpec` | backend/app.js:60-68 | Every kept line is free of the five phrases and comes from the input. Every input line free of them is kept. |
| `Sanitizer.KeepLinesAppend` | backend/app.js:60-68 | Filtering distributes over concatenation, so surviving lines keep their relative order. |
| `Sanitizer.KeepLinesNoFiller` | backend/app.js:60-68 | Lines without filler pass the filter unchanged. |
| `Sanitizer.FillerInSlice` | backend/app.js:62-68 | A piece of a filler-free line is filler-free. |
| `Sanitizer.CleanOutput` | backend/app.js:59-70 | The cleaned text neither starts nor ends with whitespace. |
| `Sanitizer.CleanOutputHasNoFiller` | backend/app.js:59-70 | No line of the cleaned text contains "remember to", "you should", "compile", "enroll" or "this comprehensive", in any letter case. |
| `Sanitizer.CleanOutputIdempotent` | backend/app.js:59-70 | Cleaning twice equals cleaning once. |
| `Metadata.OrUnknown` | backend/app.js:75-77 | An absent or empty field becomes "Unknown". Any other value is kept. The result is never empty. |
| `Metadata.SpacesToUnderscores` | backend/app.js:109 | The same length, no blank left, and every other character kept in place. |
| `Metadata.MaskNonWord` | backend/app.js:109 | The mask gives one character per UTF-16 code unit of the input, each in `[A-Za-z0-9_]`. |
| `Metadata.MaskNonWordUnits` | backend/app.js:109 | The i-th character of the mask is the input's i-th UTF-16 code unit if that unit is in `[A-Za-z0-9_]`, and `_` otherwise. |
| `Metadata.MaskNonWordBmp` | backend/app.js:109 | For text inside the Basic Multilingual Plane, the mask keeps each word character and turns every other character into `_`, at the same position. |
| `Metadata.FilenameTemplate` | backend/app.js:109 | The unmasked name: enrollment, `_`, the name with blanks as `_`, `_`, batch, `.pdf`. |
| `Metadata.OutputFilename` | backend/app.js:109 | The file name contains only `[A-Za-z0-9_]`, has as many characters as the template has UTF-16 code units, and ends in `_pdf`. |
| `Metadata.OutputFilenameFields` | backend/app.js:109 | The file name is the three masked fields joined by `_`, followed by `_pdf`. |
| `Metadata.MaskAppend` | backend/app.js:109 | The global replacement works on each part of a concatenation independently. |
| `Metadata.MaskSpaces` | backend/app.js:109 | The blank-to-underscore step changes nothing once the mask is applied. |
| `Metadata.ExampleFilename` | backend/app.js:109 | Enrollment "1!", name "A B" and batch "X" give `1__A_B_X_pdf`. |
| `Metadata.ExampleEmojiFilename` | backend/app.js:109 | Enrollment "1", a name that is one emoji and batch "X" give `1____X_pdf`: the emoji's two code units each become `_`. |
| `Metadata.FilenameCollision` | backend/app.js:109-110 | Names "A B" and "A_B" with the same other fields give the same file. |
| `Renderer.Header` | backend/app.js:117-121 | The title "Assignment Solution", then the Enrollment, Name and Batch lines. |
| `Renderer.IsFence` | backend/app.js:128 | A line is a fence when it starts with three backticks after trimming. |
| `Renderer.IsHeading` | backend/app.js:143 | A line is a heading when it starts with `**` and a later `**` closes it with no line terminator in between. |
| `Renderer.LineSegment` | backend/app.js:141-150 | In code mode the line is copied as code; in prose mode a heading becomes its text without `**` and any other line a paragraph. |
| `Renderer.RenderLines` | backend/app.js:124-151 | The loop's specification: a fence flips the mode and writes nothing, any other line writes its segment in the current mode. |
| `Renderer.RenderDocument` | backend/app.js:117-151 | The document is the fixed header (title, Enrollment, Name, Batch) followed by the segments of `RenderLines` over the solution's lines from prose mode. The final mode is the specification's. |
| `Renderer.RenderAppend` | backend/app.js:124-151 | Rendering two runs of lines in turn, the second from the mode the first ends in, equals rendering them together. |
| `Renderer.RenderCounts` | backend/app.js:124-139 | There is exactly one segment per non-fence line. The final mode is the starting mode flipped once per fence, so an unterminated fence ends in code mode. |
| `Renderer.RenderFenceFree` | backend/app.js:141-150 | Between fences the mode is unchanged. Code-mode lines are copied verbatim. Prose lines become headings with `**` removed or unchanged paragraphs, one segment per line in order. |
| `Renderer.FindClose` | backend/app.js:143 | The lazy `(.*?)\*\*` search succeeds exactly when a later `**` is reached without crossing a line terminator. |
| `Renderer.StripBold` | backend/app.js:144 | `replace(/\*\*/g, '')`: every `**`, taken left to right without overlap, is removed, so the text never grows. |
| `Renderer.StripBoldNoDoubleStar` | backend/app.js:144 | A heading's text contains no `**`. |
| `Renderer.StripBoldKeepsText` | backend/app.js:144 | Removing `**` deletes only asterisks; the other characters keep their order. |
| `Renderer.SampleHeading` | backend/app.js:128-145 | "**Q1**" is not a fence and renders as the heading "Q1". |
| `Renderer.SampleCodeBlock` | backend/app.js:124-150 | In code mode, "code line" is copied as code, the closing fence returns to prose, and "more prose" is a paragraph. |
| `Renderer.SampleRendering` | backend/app.js:124-150 | The lines "Answer", a fenced "code line" and "more prose" give a paragraph, a code line and a paragraph: the fences write nothing. |
| `UploadHandler.SolutionSegments` | backend/app.js:107-151 | The written document: the header, then the rendering of the cleaned answer's lines from prose mode. |
| `UploadHandler.HandleUpload` | backend/app.js:72-170 | A missing file gives 400 "No file uploaded.". A rejected text gives 400 with its reason, before any call. Extraction failure, and generation ending without a reply, give a generic 500 with nothing written or saved. A solution file is written only from a service reply, under the derived name, with the rendered segments. A record is saved exactly when the response is the token, pointing at that file. A failed save leaves the file without a record. |
| `UploadHandler.SavedAfterTwoRetries` | backend/app.js:106-165 | A valid submission whose service answers only on the third call is saved once under its token, with the third answer rendered. |

## Left out

- Express routing, multer, CORS, `dotenv`, static serving and the `/download/:id` route: transport around the pipeline.
- mongoose, uuid, `fs` and pdf-parse: foreign libraries. They appear as parameters: the stored upload path, the extracted text (absent when pdf-parse throws), the token, and whether the save succeeds.
- The prompt template (backend/app.js:95-104): the service is modelled by its outcomes, which do not depend on the prompt.
- Console logging, real sleeping, `async` suspension and concurrent requests. Sleeps are recorded as values.
- That `doc.end()` is not awaited before `submission.save()`: a stream-timing concern outside a sequential model.
- PDFKit fonts, sizes, `moveDown`, `lineGap`, fill colour and pagination: only the style of each segment is kept.
- client/src/App.jsx, src/App.js and the root app.js: user interface and an earlier variant of the server.
- The record's `createdAt` field (backend/app.js:26): it defaults to the clock, which the model does not have.
- Validator.Validate: lower-cases ASCII letters only, not the full Unicode `toLowerCase`. For the keywords "assignment" and "lab" the verdict is the same.
- Sanitizer.CleanOutput: the `/i` flag of the five filters is modelled as ASCII case folding.
- GenerationClient.GenerateWithRetry: delays are unbounded integers; JavaScript numbers are doubles, which agree for the three attempts used.
