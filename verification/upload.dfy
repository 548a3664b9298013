/**
  The two checks `predict_accent` makes before it touches the filesystem: an `audio`
  field must be present, and the declared file name's extension, lower-cased, must be
  ".wav" or ".mp3".
 */
module Upload {
  import opened Options
  import opened PathSplit

  /** The uploaded file part: only its declared name matters here, and a client may
      omit it. */
  datatype FilePart = FilePart(filename: Option<string>)

  /** The request's file fields, reduced to the one under the key "audio". */
  datatype Request = Request(audio: Option<FilePart>)

  const NoAudioMessage: string := "No audio file uploaded"
  const InvalidTypeMessage: string := "Invalid file type. Please upload .wav or .mp3"

  /** The extensions the handler accepts, already lower-case. */
  const Accepted: set<string> := {".wav", ".mp3"}

  function LowerChar(c: char): char {
    if 'A' <= c <= 'Z' then (c as int - 'A' as int + 'a' as int) as char else c
  }

  /** ASCII lower-casing, character by character. */
  function Lower(s: string): (r: string)
    ensures |r| == |s|
    ensures forall i :: 0 <= i < |s| ==> r[i] == LowerChar(s[i])
  {
    if s == [] then [] else [LowerChar(s[0])] + Lower(s[1..])
  }

  /** `c` is `lower` or its upper-case ASCII counterpart. */
  predicate SameLetter(c: char, lower: char) {
    c == lower || ('a' <= lower <= 'z' && c as int == lower as int - 'a' as int + 'A' as int)
  }

  /** A four-character suffix that names a WAV or MP3 file in any mix of cases. */
  predicate IsAudioSuffix(e: string) {
    && |e| == 4
    && e[0] == '.'
    && (|| (SameLetter(e[1], 'w') && SameLetter(e[2], 'a') && SameLetter(e[3], 'v'))
        || (SameLetter(e[1], 'm') && SameLetter(e[2], 'p') && e[3] == '3'))
  }

  /** The extension the handler tests: that of the declared name, or of "" when the
      name is missing, lower-cased. */
  function UploadExtension(filename: Option<string>): (ext: string)
    ensures filename.None? ==> ext == []
    ensures ext == [] || IsExtension(ext)
  {
    var e := SplitExt(filename.GetOr("")).1;
    LowerExtensionIsExtension(e);
    Lower(e)
  }

  lemma LowerExtensionIsExtension(e: string)
    requires e == [] || IsExtension(e)
    ensures Lower(e) == [] || IsExtension(Lower(e))
  {
  }

  /** The lower-cased form of `e` is accepted exactly when `e` is ".wav" or ".mp3" up
      to the case of its letters. */
  lemma {:induction false} AcceptedIsCaseInsensitive(e: string)
    ensures Lower(e) in Accepted <==> IsAudioSuffix(e)
  {
    var l := Lower(e);
    if l in Accepted {
      assert |e| == 4;
      if l == ".wav" {
        assert l[1] == 'w' && l[2] == 'a' && l[3] == 'v';
      } else {
        assert l[1] == 'm' && l[2] == 'p' && l[3] == '3';
      }
    }
    if IsAudioSuffix(e) {
      assert l[0] == '.';
      if SameLetter(e[1], 'w') && SameLetter(e[2], 'a') && SameLetter(e[3], 'v') {
        assert l == ".wav";
      } else {
        assert l == ".mp3";
      }
    }
  }

  /** Outcome of the presence and type checks: the accepted, lower-case extension, or
      the message of the 400 response. */
  datatype Verdict = Accept(ext: string) | Reject(message: string)

  /** Presence check, then type check: a request is accepted exactly when it carries
      an `audio` part whose declared name ends in a case-insensitive ".wav" or ".mp3"
      extension, and then with that extension lower-cased. */
  function Validate(req: Request): (v: Verdict)
    ensures req.audio.None? ==> v == Reject(NoAudioMessage)
    ensures req.audio.Some? && req.audio.value.filename.None? ==> v == Reject(InvalidTypeMessage)
    ensures v.Accept? ==> v.ext in Accepted
    ensures req.audio.Some? && v.Accept? ==> v.ext == Lower(SplitExt(req.audio.value.filename.GetOr("")).1)
    ensures v.Reject? ==> v.message == (if req.audio.None? then NoAudioMessage else InvalidTypeMessage)
    ensures req.audio.Some? ==>
              (v.Accept? <==> IsAudioSuffix(SplitExt(req.audio.value.filename.GetOr("")).1))
  {
    match req.audio
    case None => Reject(NoAudioMessage)
    case Some(part) =>
      var ext := UploadExtension(part.filename);
      AcceptedIsCaseInsensitive(SplitExt(part.filename.GetOr("")).1);
      if ext in Accepted then Accept(ext) else Reject(InvalidTypeMessage)
  }

  /** A declared name is accepted exactly when it is a root whose base name holds a
      non-dot character, followed by ".wav" or ".mp3" in any case: only the last
      dot-suffix counts, and a name whose base is dots then an extension-like suffix
      (".wav") is refused. */
  lemma NameAcceptedIff(name: string)
    ensures Validate(Request(Some(FilePart(Some(name))))).Accept? <==>
              && |name| >= 4
              && IsAudioSuffix(name[|name| - 4..])
              && BaseHasNonDot(name[..|name| - 4])
  {
    var ext := SplitExt(name).1;
    if IsAudioSuffix(ext) {
      SplitExtNonEmptyIff(name);
      assert name[..|name| - 4] == SplitExt(name).0;
    }
    if |name| >= 4 && IsAudioSuffix(name[|name| - 4..]) && BaseHasNonDot(name[..|name| - 4]) {
      SplitExtOfJoin(name[..|name| - 4], name[|name| - 4..]);
      assert name[..|name| - 4] + name[|name| - 4..] == name;
    }
  }

  /** The check ignores case: "clip.WAV" is accepted, as ".wav". */
  lemma UpperCaseWavAccepted()
    ensures Validate(Request(Some(FilePart(Some("clip.WAV"))))) == Accept(".wav")
  {
    var name := "clip.WAV";
    RFindIs(name, Sep, -1);
    RFindIs(name, ExtSep, 4);
    assert !OnlyDots(name, 0, 4);
    assert name[..4] == "clip" && name[4..] == ".WAV";
    assert SplitExt(name) == ("clip", ".WAV");
    assert Lower(".WAV") == ".wav";
  }

  /** Only the last dot-suffix decides: "a.txt.mp3" is accepted. */
  lemma DoubleExtensionLastCounts()
    ensures Validate(Request(Some(FilePart(Some("a.txt.mp3"))))) == Accept(".mp3")
  {
    var name := "a.txt.mp3";
    RFindIs(name, Sep, -1);
    RFindIs(name, ExtSep, 5);
    assert !OnlyDots(name, 0, 5);
    assert name[..5] == "a.txt" && name[5..] == ".mp3";
    assert SplitExt(name) == ("a.txt", ".mp3");
    assert Lower(".mp3") == ".mp3";
  }

  /** Only the last dot-suffix decides: "a.mp3.txt" is refused. */
  lemma AudioExtensionNotLastRejected()
    ensures Validate(Request(Some(FilePart(Some("a.mp3.txt"))))) == Reject(InvalidTypeMessage)
  {
    var name := "a.mp3.txt";
    RFindIs(name, Sep, -1);
    RFindIs(name, ExtSep, 5);
    assert !OnlyDots(name, 0, 5);
    assert name[..5] == "a.mp3" && name[5..] == ".txt";
    assert SplitExt(name) == ("a.mp3", ".txt");
    assert Lower(".txt") == ".txt";
  }

  /** An empty extension is refused: a missing name, a name without a dot, a base name
      whose only dot is a leading one, and a dot that sits in a directory name. */
  lemma EmptyExtensionRejected()
    ensures Validate(Request(Some(FilePart(None)))) == Reject(InvalidTypeMessage)
    ensures Validate(Request(Some(FilePart(Some("recording"))))) == Reject(InvalidTypeMessage)
    ensures Validate(Request(Some(FilePart(Some(".wav"))))) == Reject(InvalidTypeMessage)
    ensures Validate(Request(Some(FilePart(Some("dir.wav/clip"))))) == Reject(InvalidTypeMessage)
  {
    RFindIs("recording", ExtSep, -1);
    RFindIs(".wav", Sep, -1);
    RFindIs(".wav", ExtSep, 0);
    RFindIs("dir.wav/clip", Sep, 7);
    RFindIs("dir.wav/clip", ExtSep, 3);
  }

  /** "sample.wav" is accepted as ".wav". */
  lemma SampleWavAccepted()
    ensures Validate(Request(Some(FilePart(Some("sample.wav"))))) == Accept(".wav")
  {
    var name := "sample.wav";
    RFindIs(name, Sep, -1);
    RFindIs(name, ExtSep, 6);
    assert !OnlyDots(name, 0, 6);
    assert name[..6] == "sample" && name[6..] == ".wav";
    assert SplitExt(name) == ("sample", ".wav");
    assert Lower(".wav") == ".wav";
  }

  /** "sample.ogg" is refused. */
  lemma SampleOggRejected()
    ensures Validate(Request(Some(FilePart(Some("sample.ogg"))))) == Reject(InvalidTypeMessage)
  {
    var name := "sample.ogg";
    RFindIs(name, Sep, -1);
    RFindIs(name, ExtSep, 6);
    assert !OnlyDots(name, 0, 6);
    assert name[..6] == "sample" && name[6..] == ".ogg";
    assert SplitExt(name) == ("sample", ".ogg");
    assert Lower(".ogg") == ".ogg";
  }
}
