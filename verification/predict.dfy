/**
  The `/api/predict` handler: validate the upload, save it under a temporary path,
  hand that path to the prediction service, map the service's answer to a JSON
  response, and remove the temporary file whatever the answer was.

  The filesystem is the set of paths that exist. The service is not called here: its
  answer is an input, and so is the name the temporary-file generator picks.
 */
module Predict {
  import opened Options
  import opened PathSplit
  import opened Upload

  type Path = string

  /** What the `try` block around the prediction service yields: a value that
      `jsonify` can serialise, or an exception whose string form is `message`. The
      exception may come from the service or from serialising its value; a value that
      cannot be serialised raises inside the `try`, so it is a `Failure` here. */
  datatype Outcome<V> = Success(value: V) | Failure(message: string)

  /** A JSON value in a response body: a string we produced, or the service's value
      passed through untouched. */
  datatype Json<V> = Text(text: string) | Relayed(value: V)

  datatype Response<V> = Response(status: int, body: map<string, Json<V>>)

  /** The call made to the prediction service: the file handed over, the endpoint
      name, and the filesystem as it stood at that moment. */
  datatype Invocation = Invocation(audioFile: Path, apiName: string, fsAtCall: set<Path>)

  /** Everything one request leaves behind: the response, the service call if one
      was made, and the filesystem afterwards. */
  datatype Exchange<V> = Exchange(response: Response<V>, call: Option<Invocation>, fs: set<Path>)

  const ApiName: string := "/predict"

  /** Response constructor for an `{"error": message}` body with the given status. */
  function ErrorResponse<V>(status: int, message: string): Response<V> {
    Response(status, map["error" := Text(message)])
  }

  /** Writes the upload to `p`; an existing file there is overwritten. */
  function Save(fs: set<Path>, p: Path): (fs': set<Path>)
    ensures p in fs'
    ensures forall q :: q != p ==> (q in fs' <==> q in fs)
  {
    fs + {p}
  }

  /** The cleanup in `finally`: remove `p` if it exists. */
  function RemoveIfExists(fs: set<Path>, p: Path): (fs': set<Path>)
    ensures p !in fs'
    ensures forall q :: q != p ==> (q in fs' <==> q in fs)
    ensures p !in fs ==> fs' == fs
  {
    if p in fs then fs - {p} else fs
  }

  /** Removing twice is removing once: a cleanup that finds the file already gone
      changes nothing and cannot fail. */
  lemma CleanupIdempotent(fs: set<Path>, p: Path)
    ensures RemoveIfExists(RemoveIfExists(fs, p), p) == RemoveIfExists(fs, p)
  {
  }

  /** The response for the service's answer: its value under "prediction" with
      status 200, or its message under "error" with status 500. */
  function Relay<V>(outcome: Outcome<V>): (r: Response<V>)
    ensures r.status == 200 <==> outcome.Success?
    ensures outcome.Success? ==> r.body.Keys == {"prediction"} && r.body["prediction"] == Relayed(outcome.value)
    ensures outcome.Failure? ==> r.status == 500 && r.body.Keys == {"error"} && r.body["error"] == Text(outcome.message)
  {
    match outcome
    case Success(v) => Response(200, map["prediction" := Relayed(v)])
    case Failure(m) => ErrorResponse(500, m)
  }

  /** The path the handler saves an accepted upload to: the generator's name followed
      by the validated extension. */
  function TempPath(req: Request, stem: Path): (p: Option<Path>)
    ensures p.Some? <==> Validate(req).Accept?
    ensures p.Some? ==> p.value == stem + Validate(req).ext
  {
    match Validate(req)
    case Accept(ext) => Some(stem + ext)
    case Reject(_) => None
  }

  /** The temporary path keeps the validated extension: splitting it gives back the
      generator's name and that extension, whenever the name's base has a non-dot
      character (as the generator's names do). */
  lemma TempPathKeepsExtension(req: Request, stem: Path)
    requires Validate(req).Accept?
    requires BaseHasNonDot(stem)
    ensures SplitExt(TempPath(req, stem).value) == (stem, Validate(req).ext)
  {
    SplitExtOfJoin(stem, Validate(req).ext);
  }

  /** One request to `/api/predict`. `stem` is the name the temporary-file generator
      returns before its suffix; `outcome` is what the service answers if called. */
  function PredictAccent<V>(req: Request, fs: set<Path>, stem: Path, outcome: Outcome<V>): (x: Exchange<V>)
    // A rejected request touches nothing and never reaches the service.
    ensures req.audio.None? ==> x == Exchange(ErrorResponse(400, NoAudioMessage), None, fs)
    ensures Validate(req).Reject? ==> x.response.status == 400 && x.call.None? && x.fs == fs
    ensures Validate(req).Reject? ==> x.response.body == map["error" := Text(Validate(req).message)]
    // An accepted request hands the service a file that exists, named by the
    // generator and ending in the validated extension.
    ensures x.call.Some? <==> Validate(req).Accept?
    ensures x.call.Some? ==>
              && x.call.value.apiName == ApiName
              && x.call.value.audioFile == stem + Validate(req).ext
              && x.call.value.audioFile in x.call.value.fsAtCall
              && x.call.value.fsAtCall - {x.call.value.audioFile} == fs - {x.call.value.audioFile}
    // The temporary file is gone afterwards, and no other path changed.
    ensures x.call.Some? ==> x.fs == fs - {x.call.value.audioFile}
    ensures forall q :: (x.call.None? || q != x.call.value.audioFile) ==> (q in x.fs <==> q in fs)
    // The service's value is relayed unchanged; its failure becomes a 500.
    ensures x.call.Some? && outcome.Success? ==>
              x.response.status == 200 && x.response.body == map["prediction" := Relayed(outcome.value)]
    ensures x.call.Some? && outcome.Failure? ==>
              x.response.status == 500 && x.response.body == map["error" := Text(outcome.message)]
  {
    match TempPath(req, stem)
    case None => Exchange(ErrorResponse(400, Validate(req).message), None, fs)
    case Some(temp) =>
      var saved := Save(fs, temp);
      var call := Invocation(temp, ApiName, saved);
      Exchange(Relay(outcome), Some(call), RemoveIfExists(saved, temp))
  }

  /** Every response carries exactly one of "prediction" and "error", and carries a
      prediction exactly when it has status 200. */
  lemma ExactlyOneField<V>(req: Request, fs: set<Path>, stem: Path, outcome: Outcome<V>)
    ensures var body := PredictAccent(req, fs, stem, outcome).response.body;
            body.Keys == {"prediction"} || body.Keys == {"error"}
    ensures var r := PredictAccent(req, fs, stem, outcome).response;
            "prediction" in r.body <==> r.status == 200
  {
  }

  /** The handler leaves the filesystem exactly as it found it if and only if no file
      already had the temporary name it saved to. */
  lemma FreshTempLeavesNoTrace<V>(req: Request, fs: set<Path>, stem: Path, outcome: Outcome<V>)
    ensures PredictAccent(req, fs, stem, outcome).fs == fs <==>
              (TempPath(req, stem).None? || TempPath(req, stem).value !in fs)
  {
  }

  /** One request of a sequence served one after another. */
  datatype Call<V> = Call(req: Request, stem: Path, outcome: Outcome<V>)

  /** The filesystem after serving `calls` in order. */
  function Serve<V>(calls: seq<Call<V>>, fs: set<Path>): set<Path>
    decreases |calls|
  {
    if calls == [] then fs
    else
      var c := calls[0];
      Serve(calls[1..], PredictAccent(c.req, fs, c.stem, c.outcome).fs)
  }

  /** The temporary paths the requests in `calls` would save to. */
  function TempPaths<V>(calls: seq<Call<V>>): (ps: set<Path>)
    ensures forall i :: 0 <= i < |calls| && TempPath(calls[i].req, calls[i].stem).Some? ==>
              TempPath(calls[i].req, calls[i].stem).value in ps
    ensures forall p :: p in ps ==>
              exists i :: 0 <= i < |calls| && TempPath(calls[i].req, calls[i].stem) == Some(p)
    decreases |calls|
  {
    if calls == [] then {}
    else
      var here := match TempPath(calls[0].req, calls[0].stem)
        case Some(p) => {p}
        case None => {};
      here + TempPaths(calls[1..])
  }

  /** Serving any number of requests removes exactly their temporary paths: no
      temporary file accumulates, and every other path is as it was. */
  lemma {:induction false} ServeLeavesNoTempFiles<V>(calls: seq<Call<V>>, fs: set<Path>)
    ensures Serve(calls, fs) == fs - TempPaths(calls)
    decreases |calls|
  {
    if calls != [] {
      var c := calls[0];
      var fs1 := PredictAccent(c.req, fs, c.stem, c.outcome).fs;
      ServeLeavesNoTempFiles(calls[1..], fs1);
    }
  }

  /** Corollary: when no pre-existing file has one of the temporary names, a sequence
      of requests leaves the filesystem unchanged. */
  lemma ServeRestoresFilesystem<V>(calls: seq<Call<V>>, fs: set<Path>)
    requires fs !! TempPaths(calls)
    ensures Serve(calls, fs) == fs
  {
    ServeLeavesNoTempFiles(calls, fs);
  }

  /** A valid upload whose prediction succeeds is answered 200 with the prediction,
      and one with an unsupported extension is answered 400 without a file. */
  lemma EndToEndExamples(fs: set<Path>, stem: Path)
    ensures var x := PredictAccent(Request(Some(FilePart(Some("sample.wav")))), fs, stem, Success("Indian English"));
            && x.response == Response(200, map["prediction" := Relayed("Indian English")])
            && x.call.Some? && x.call.value.audioFile == stem + ".wav"
            && x.fs == fs - {stem + ".wav"}
    ensures var x := PredictAccent(Request(Some(FilePart(Some("sample.ogg")))), fs, stem, Success("Indian English"));
            x == Exchange(ErrorResponse(400, InvalidTypeMessage), None, fs)
  {
    SampleWavAccepted();
    SampleOggRejected();
  }
}
