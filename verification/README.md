# Accento upload-validation pipeline, in Dafny

This project models the `/api/predict` handler of the Accento backend,
`predict_accent` in `backend/app.py`. The handler accepts an uploaded audio file and
checks that an `audio` field is present. It also checks that the declared file name
ends in `.wav` or `.mp3`, in any case. It then saves the upload under a temporary path
and passes that path to a hosted prediction service. The service's value goes back as
`{"prediction": v}` with status 200. A service failure becomes `{"error": msg}` with
status 500. In every case after the save succeeds, the temporary file is removed in
`finally`.

The model is purely functional and has four modules:

- `Options` (options.dfy): an optional value, standing in for Python's `None`.
- `PathSplit` (pathsplit.dfy): Python's `os.path.splitext` on POSIX paths. This is
  `str.rfind` for the last `/` and the last `.`, followed by the scan that skips the
  base name's leading dots.
- `Upload` (upload.dfy): the request as a datatype and ASCII lower-casing. It also holds
  the accept set `{".wav", ".mp3"}` and `Validate`, which covers the presence check and
  the type check (lines 24-30).
- `Predict` (predict.dfy): the pipeline. The filesystem is a set of paths. Two things
  are inputs rather than computed: the service's answer, as `Success(value)` or
  `Failure(message)`, and the name the temporary-file generator picks, as `stem`. The
  result records three things: the response, the call made to the service (file, API
  name, filesystem at that moment), and the filesystem afterwards.

The temporary path is `stem + ext`, like `tempfile.mktemp(suffix=ext)`. The model does
not assume the path is fresh. It proves that the final filesystem is the initial one
minus that path. A separate lemma shows the filesystem is restored exactly when the
name was fresh, in both directions.

Python's `str.lower()` is modelled as ASCII lower-casing. The result is only used to test
membership in `{".wav", ".mp3"}`, and no non-ASCII character lower-cases to one of
`.`, `w`, `a`, `v`, `m`, `p` or `3`. The only non-ASCII characters whose lower case is
ASCII are KELVIN SIGN (to `k`) and LATIN CAPITAL I WITH DOT (to `i` plus a combining
dot). So both lowerings accept exactly the same names, and an accepted extension is
exactly `.wav` or `.mp3`. This argument about Unicode tables is not proved in Dafny.

Two features of the code shape what the model promises:
- `audio.save` (line 34) sits outside the `try`, so a failure there escapes the handler
  without cleanup. The model does not cover that path.
- `tempfile.mktemp` (line 33) only picks a name that did not exist when it looked, and
  gives no protection against a concurrent collision. The model therefore does not
  assume freshness. It states what happens to a file that already has the chosen name:
  that file is overwritten and then removed.

## Model

| member | source | states |
|---|---|---|
| PathSplit.RFind | backend/app.py:28 | Result is -1 or an index holding the character, with no occurrence after it: the last occurrence, as `os.path.splitext` finds the last separator and the last dot |
| PathSplit.SplitExt | backend/app.py:28 | The root and extension concatenate back to the name; the extension is empty or is one dot followed by neither dots nor separators |
| PathSplit.SplitExtNonEmptyIff | backend/app.py:28 | The extension is non-empty exactly when some dot after the last separator is preceded, in the same base name, by a non-dot character; leading-dot-only base names such as `.wav` have no extension |
| PathSplit.SplitExtOfJoin | backend/app.py:28 | Inverse direction: splitting a root joined with an extension returns both, whenever the root's base name has a non-dot character, so only the last dot-suffix is the extension |
| Upload.Lower | backend/app.py:28 | The lower-cased string has the same length and each character is the ASCII lower case of the original one |
| Upload.UploadExtension | backend/app.py:28 | The tested extension is empty for a missing file name (`filename or ""`) and otherwise empty or a well-formed extension |
| Upload.AcceptedIsCaseInsensitive | backend/app.py:28-29 | The lower-cased extension is in `{".wav", ".mp3"}` exactly when the extension is `.wav` or `.mp3` with each letter in either case |
| Upload.Validate | backend/app.py:24-30 | A missing `audio` field gives "No audio file uploaded". Every other rejection, including a missing name, gives "Invalid file type. Please upload .wav or .mp3". A request is accepted exactly when its name's extension is a case-insensitive `.wav`/`.mp3`, and then the accepted extension is that extension lower-cased and lies in the accept set |
| Upload.NameAcceptedIff | backend/app.py:28-30 | A declared name is accepted exactly when it ends in a four-character case-insensitive `.wav`/`.mp3` after a root whose base name has a non-dot character |
| Upload.UpperCaseWavAccepted | backend/app.py:28-29 | `clip.WAV` is accepted, with extension `.wav` |
| Upload.DoubleExtensionLastCounts | backend/app.py:28-29 | `a.txt.mp3` is accepted, with extension `.mp3` |
| Upload.AudioExtensionNotLastRejected | backend/app.py:28-30 | `a.mp3.txt` is refused with the invalid-type message |
| Upload.EmptyExtensionRejected | backend/app.py:28-30 | A missing name, `recording`, `.wav` and `dir.wav/clip` all have an empty extension and are refused with the invalid-type message |
| Upload.SampleWavAccepted | backend/app.py:28-29 | `sample.wav` is accepted, with extension `.wav` |
| Upload.SampleOggRejected | backend/app.py:28-30 | `sample.ogg` is refused with the invalid-type message |
| Predict.Save | backend/app.py:34 | After saving, the path exists and every other path is unchanged; a file already at the path is overwritten |
| Predict.RemoveIfExists | backend/app.py:43-45 | After cleanup the path is absent and every other path is unchanged; when the path is already absent, cleanup changes nothing |
| Predict.CleanupIdempotent | backend/app.py:43-45 | Cleaning up twice has the same effect as cleaning up once |
| Predict.Relay | backend/app.py:38-42 | Status is 200 exactly when the service succeeded, and the body is then just `prediction` holding the service's value unchanged. On failure the status is 500 and the body is just `error` holding the failure's message |
| Predict.TempPath | backend/app.py:33 | A temporary path exists exactly when the request is accepted, and it is the generator's name followed by the validated lower-case extension |
| Predict.TempPathKeepsExtension | backend/app.py:33 | Splitting the temporary path gives back the generator's name and the validated extension, so the saved file keeps the upload's (lower-cased) extension |
| Predict.PredictAccent | backend/app.py:21-45 | Rejected requests (no field, bad type) answer 400 with their message, never call the service and leave the filesystem unchanged. Accepted requests call `/predict` with a temporary file that exists at call time and ends in the validated extension. The value is relayed unchanged (200) and a failure gives 500 with its message. Afterwards the temporary path is gone and every other path is as before |
| Predict.ExactlyOneField | backend/app.py:24-42 | Every response body has exactly one key, `prediction` or `error`, and carries `prediction` exactly when the status is 200 |
| Predict.FreshTempLeavesNoTrace | backend/app.py:33-45 | The handler ends with the filesystem exactly as it began if and only if no file already had the temporary name |
| Predict.ServeLeavesNoTempFiles | backend/app.py:33-45 | Serving any sequence of requests one after another removes exactly their temporary paths from the filesystem, so no temporary file accumulates |
| Predict.ServeRestoresFilesystem | backend/app.py:33-45 | If no existing file shares a temporary name, serving a sequence of requests leaves the filesystem unchanged |
| Predict.EndToEndExamples | backend/app.py:24-45 | Uploading `sample.wav` with the service answering "Indian English" gives 200 with that prediction, and the `.wav` temporary file is removed. Uploading `sample.ogg` gives 400 with the invalid-type message and no file |

## Left out

- Flask routing, multipart parsing and `jsonify` serialisation (lines 1, 6, 21): request and response are plain datatypes, and a body is a map from key to JSON value.
- Serialisation failure of the service's value (line 39): `jsonify` runs inside the `try`, so a value it cannot serialise raises, and the `except` branch answers 500 with the error's text. The model does not compute serialisability. `Success(value)` stands for a serialisable value, and this case is an input `Failure(message)`.
- CORS configuration (lines 9-15): deployment configuration with no behaviour.
- The Gradio client and its network call (lines 3, 18, 38): the service is a foreign remote call, so its answer is an input `Outcome`. The model assumes the service does not touch the filesystem.
- How `tempfile.mktemp` chooses a name, and the race when concurrent requests pick the same name (line 33): the name is an input. Concurrency is not modelled, and `ServeLeavesNoTempFiles` covers requests served one after another.
- The bytes written by `audio.save` (line 34): only "the path now exists" is modelled.
- A failing `audio.save` (line 34): it is outside the `try`, so the exception escapes the handler without cleanup. The model treats the save as always succeeding, and its cleanup properties are not claimed for that path.
- Logging with `print` (line 41): output only.
- The `/` liveness route and `app.run` (lines 48-55): infrastructure.
- Upload.Lower: ASCII lower-casing rather than Python's full Unicode `str.lower()`. The two give the same verdict on the accept set, as argued above; that argument is not proved.
- PathSplit.SplitExt: POSIX path rules only (separator `/`). The Windows flavour of `os.path.splitext`, which also splits at `\` and drive letters, is not modelled.
