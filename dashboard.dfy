/**
 * The inspection session of the dashboard page (frontend/src/pages/Dashboard.jsx):
 * the form fields that the serial reader, the vision service and the camera fill
 * in, and the submission that validates and resets them. Every React state setter
 * is a field write; each stretch of code between two `await`s is one method.
 */
module Dashboard {
  import opened Wrappers
  import opened Text
  import opened SerialFraming
  import opened SensorParsing
  import VisionService

  /** The colour shown for a sealed package. */
  const Green := "#2ecc71"
  /** The colour shown for an unsealed package. */
  const Red := "#e74c3c"

  const ServiceDownMessage := "AI Service not running. Using mock results."
  const NoSerialMessage := "Web Serial API not supported in this browser."
  const ConnectFailedPrefix := "Failed to connect to Arduino: "
  const NoImageMessage := "Please capture an image first"
  const NoSensorsMessage := "Please generate sensor data first"
  const SubmitFailedMessage := "Failed to submit inspection"
  const CameraDeniedMessage := "Camera access denied or device not found."

  /** The verdict panel: the status text, the confidence text and the colour. */
  datatype AnalysisResult = AnalysisResult(status: string, confidence: string, color: string)

  /** The answer to the `POST /predict` request: its JSON body, or a failure. */
  datatype VisionReply =
    | Reply(packageDetected: bool, isSealed: bool, status: string, confidence: string)
    | ServiceFailed

  /** The answer to `POST /api/inspections`: stored, or refused with an optional message. */
  datatype PostOutcome = Stored | PostFailed(message: Option<string>)

  /** The body posted for an inspection (the package id and number parsing are not modelled). */
  datatype InspectionPayload =
    InspectionPayload(temperature: string, weight: string, isSealed: bool, imageData: string)

  /** The colour for a seal flag. */
  function ColorFor(sealed: bool): (c: string)
    ensures c == Green <==> sealed
    ensures c == Red <==> !sealed
  {
    if sealed then Green else Red
  }

  /** JavaScript truthiness of a string state that may be `null`. */
  predicate Truthy(s: Option<string>) {
    s.Some? && s.value != ""
  }

  /** The message `submitInspection` shows before posting anything, if any. */
  function SubmitError(image: Option<string>, temperature: string, weight: string): (e: Option<string>)
    ensures e.None? <==> Truthy(image) && temperature != "" && weight != ""
    ensures !Truthy(image) ==> e == Some(NoImageMessage)
    ensures Truthy(image) && e.Some? ==> e == Some(NoSensorsMessage)
  {
    if !Truthy(image) then Some(NoImageMessage)
    else if temperature == "" || weight == "" then Some(NoSensorsMessage)
    else None
  }

  /** `err.response?.data?.message || 'Failed to submit inspection'`. */
  function FailureMessage(message: Option<string>): (m: string)
    ensures m != ""
    ensures Truthy(message) ==> m == message.value
    ensures !Truthy(message) ==> m == SubmitFailedMessage
  {
    if Truthy(message) then message.value else SubmitFailedMessage
  }

  /**
   * What `axios.post` to `/predict` hands to `analyzeImage`: the JSON body of a
   * verdict, or a thrown error for the 400 answer.
   */
  function ReplyOf(r: VisionService.Response): (reply: VisionReply)
    ensures reply.ServiceFailed? <==> r.ErrorResponse?
    ensures reply.Reply? ==> reply == Reply(r.packageDetected, r.isSealed, r.status, r.confidence)
  {
    match r
    case ErrorResponse(_, _) => ServiceFailed
    case Prediction(status, sealed, confidence, detected) => Reply(detected, sealed, status, confidence)
  }

  /** Every verdict the service sends has a status that agrees with its seal flag. */
  lemma ServiceReplyConsistent(r: VisionService.Response)
    requires VisionService.WellFormed(r)
    ensures ReplyOf(r).Reply? ==> ReplyOf(r).status == VisionService.StatusText(ReplyOf(r).isSealed)
  {
  }

  /**
   * Reading one more chunk: the buffer keeps the residual of the whole text so far,
   * and the lines it releases are the ones that complete the text's lines.
   */
  lemma StreamStep(s: Sensors, chunks: seq<string>, i: nat)
    requires i < |chunks|
    ensures var text := Concat(chunks[..i]);
      && Residual(Concat(chunks[..i + 1])) == Residual(Residual(text) + chunks[i])
      && ApplyLines(s, CleanLines(CompleteLines(Concat(chunks[..i + 1]))))
         == ApplyLines(ApplyLines(s, CleanLines(CompleteLines(text))),
                       CleanLines(CompleteLines(Residual(text) + chunks[i])))
  {
    var text := Concat(chunks[..i]);
    assert Concat(chunks[..i + 1]) == text + chunks[i] by {
      assert chunks[..i + 1][..i] == chunks[..i];
    }
    FeedInTwo(text, chunks[i]);
    CleanLinesAppend(CompleteLines(text), CompleteLines(Residual(text) + chunks[i]));
    ApplyLinesAppend(s, CleanLines(CompleteLines(text)), CleanLines(CompleteLines(Residual(text) + chunks[i])));
  }

  class Session {
    var capturedImage: Option<string>
    var temperature: string
    var weight: string
    var isSealed: bool
    var analysisResult: Option<AnalysisResult>
    var isAnalyzing: bool
    var cameraActive: bool
    var arduinoConnected: bool
    var error: string

    /** The initial `useState` values. */
    constructor ()
      ensures capturedImage == None && temperature == "" && weight == "" && isSealed
      ensures analysisResult == None && !isAnalyzing && !cameraActive && !arduinoConnected
      ensures error == ""
    {
      capturedImage := None;
      temperature := "";
      weight := "";
      isSealed := true;
      analysisResult := None;
      isAnalyzing := false;
      cameraActive := false;
      arduinoConnected := false;
      error := "";
    }

    /** The three form fields the sensors fill in. */
    function Form(): Sensors
      reads this
    {
      Sensors(temperature, weight, isSealed)
    }

    /** The verdict panel agrees with itself: green exactly when the status is `SEALED`. */
    predicate ResultConsistent()
      reads this
    {
      analysisResult.Some? ==> (analysisResult.value.color == Green <==> analysisResult.value.status == "SEALED")
    }

    /** The `forEach` over the comma tokens of a tagged line. */
    method ApplyTagged(parts: seq<string>)
      modifies this`temperature, this`weight, this`isSealed
      ensures Form() == Apply(old(Form()), TaggedReading(parts))
    {
      ghost var start := Form();
      for i := 0 to |parts|
        invariant Form() == Apply(start, TaggedReading(parts[..i]))
      {
        var part := parts[i];
        ghost var before := Form();
        if StartsWith(part, Tag('T')) {
          temperature := ValueOf(part, 'T');
        }
        if StartsWith(part, Tag('W')) {
          weight := ValueOf(part, 'W');
        }
        if StartsWith(part, Tag('S')) {
          isSealed := ValueOf(part, 'S') == "1";
        }
        TokenEffect(before, part);
        TaggedStep(start, parts, i);
      }
      assert parts[..|parts|] == parts;
    }

    /** One cleaned line: the tagged format, else the positional one, else nothing. */
    method ReceiveLine(line: string)
      modifies this`temperature, this`weight, this`isSealed
      ensures Form() == Apply(old(Form()), ParseLine(line))
    {
      if Contains(line, "T:") {
        var parts := Split(line, ',');
        ApplyTagged(parts);
      } else if ',' in line {
        var parts := Split(line, ',');
        if |parts| > 0 && parts[0] != "" {
          temperature := parts[0];
        }
        if |parts| > 1 && parts[1] != "" {
          weight := parts[1];
        }
        if |parts| > 2 && parts[2] != "" {
          isSealed := Trim(parts[2]) == "1";
        }
      }
    }

    /** The `for (const line of lines)` loop: trim each line, skip blank ones, parse the rest. */
    method ReceiveLines(lines: seq<string>)
      modifies this`temperature, this`weight, this`isSealed
      ensures Form() == ApplyLines(old(Form()), CleanLines(lines))
    {
      ghost var start := Form();
      for i := 0 to |lines|
        invariant Form() == ApplyLines(start, CleanLines(lines[..i]))
      {
        var cleanLine := Trim(lines[i]);
        ghost var done := CleanLines(lines[..i]);
        CleanLinesSnoc(lines, i);
        if cleanLine == [] {
          assert done + [] == done;
          continue;
        }
        ReceiveLine(cleanLine);
        assert (done + [cleanLine])[..|done|] == done;
      }
      assert lines[..|lines|] == lines;
    }

    /**
     * `ConnectArduino`: without Web Serial only an error is shown; when the port
     * cannot be opened the error carries the reason and the connection flag is
     * cleared; otherwise every chunk read until the stream ends (or a read fails)
     * is framed into lines, and the form ends up as if the complete lines of the
     * whole text had been handled in order. The unterminated tail is never parsed,
     * and the connection flag stays set after the stream ends.
     */
    method ConnectArduino(serialSupported: bool, openFailure: Option<string>, chunks: seq<string>)
      modifies this`temperature, this`weight, this`isSealed, this`arduinoConnected, this`error
      ensures !serialSupported ==>
        error == NoSerialMessage && Form() == old(Form()) && arduinoConnected == old(arduinoConnected)
      ensures serialSupported && openFailure.Some? ==>
        error == ConnectFailedPrefix + openFailure.value && !arduinoConnected && Form() == old(Form())
      ensures serialSupported && openFailure.None? ==>
        && arduinoConnected
        && error == old(error)
        && Form() == ApplyLines(old(Form()), CleanLines(CompleteLines(Concat(chunks))))
    {
      if !serialSupported {
        error := NoSerialMessage;
        return;
      }
      if openFailure.Some? {
        error := ConnectFailedPrefix + openFailure.value;
        arduinoConnected := false;
        return;
      }
      arduinoConnected := true;
      var reader := new LineBuffer();
      ghost var start := Form();
      for i := 0 to |chunks|
        invariant reader.buffer == Residual(Concat(chunks[..i]))
        invariant Form() == ApplyLines(start, CleanLines(CompleteLines(Concat(chunks[..i]))))
        invariant arduinoConnected && error == old(error)
      {
        var lines := reader.Push(chunks[i]);
        ReceiveLines(lines);
        StreamStep(start, chunks, i);
      }
      assert chunks[..|chunks|] == chunks;
    }

    /** The part of `analyzeImage` that runs before the request is sent. */
    method BeginAnalysis(isRealtime: bool)
      modifies this`isAnalyzing, this`analysisResult, this`error
      ensures error == ""
      ensures !isRealtime ==> isAnalyzing && analysisResult == None
      ensures isRealtime ==> isAnalyzing == old(isAnalyzing) && analysisResult == old(analysisResult)
    {
      if !isRealtime {
        isAnalyzing := true;
        analysisResult := None;
      }
      error := "";
    }

    /**
     * The part of `analyzeImage` that runs once the request has settled. A reply
     * overwrites the seal flag only when a package was detected, and the verdict is
     * green exactly when the reply says sealed. A failure changes nothing in live
     * mode; in explicit mode it shows mock results whose status and colour agree
     * with the seal flag it sets. Only explicit mode clears the busy flag.
     */
    method CompleteAnalysis(isRealtime: bool, reply: VisionReply, mockSealed: bool, mockConfidence: string)
      modifies this`isSealed, this`analysisResult, this`isAnalyzing, this`error
      ensures reply.Reply? ==>
        && isSealed == (if reply.packageDetected then reply.isSealed else old(isSealed))
        && analysisResult == Some(AnalysisResult(reply.status, reply.confidence, ColorFor(reply.isSealed)))
        && error == old(error)
      ensures reply.ServiceFailed? && isRealtime ==>
        isSealed == old(isSealed) && analysisResult == old(analysisResult) && error == old(error)
      ensures reply.ServiceFailed? && !isRealtime ==>
        && error == ServiceDownMessage
        && isSealed == mockSealed
        && analysisResult == Some(AnalysisResult(VisionService.StatusText(isSealed), mockConfidence, ColorFor(isSealed)))
      ensures isAnalyzing == (if isRealtime then old(isAnalyzing) else false)
      ensures old(ResultConsistent()) && (reply.Reply? ==> reply.status == VisionService.StatusText(reply.isSealed)) ==>
        ResultConsistent()
    {
      match reply {
        case Reply(packageDetected, sealed, status, confidence) =>
          if packageDetected {
            isSealed := sealed;
          }
          analysisResult := Some(AnalysisResult(status, confidence, ColorFor(sealed)));
        case ServiceFailed =>
          if !isRealtime {
            error := ServiceDownMessage;
            isSealed := mockSealed;
            analysisResult := Some(AnalysisResult(VisionService.StatusText(mockSealed), mockConfidence, ColorFor(mockSealed)));
          }
      }
      if !isRealtime {
        isAnalyzing := false;
      }
    }

    /**
     * `analyzeImage` run to completion with no other event in between: the error is
     * cleared first, so only an explicit failure leaves one.
     */
    method AnalyzeImage(isRealtime: bool, reply: VisionReply, mockSealed: bool, mockConfidence: string)
      modifies this`isSealed, this`analysisResult, this`isAnalyzing, this`error
      ensures reply.Reply? ==>
        && isSealed == (if reply.packageDetected then reply.isSealed else old(isSealed))
        && analysisResult == Some(AnalysisResult(reply.status, reply.confidence, ColorFor(reply.isSealed)))
        && error == ""
      ensures reply.ServiceFailed? && isRealtime ==>
        isSealed == old(isSealed) && analysisResult == old(analysisResult) && error == ""
      ensures reply.ServiceFailed? && !isRealtime ==>
        && error == ServiceDownMessage
        && isSealed == mockSealed
        && analysisResult == Some(AnalysisResult(VisionService.StatusText(mockSealed), mockConfidence, ColorFor(mockSealed)))
      ensures isAnalyzing == (if isRealtime then old(isAnalyzing) else false)
      ensures old(ResultConsistent()) && (reply.Reply? ==> reply.status == VisionService.StatusText(reply.isSealed)) ==>
        ResultConsistent()
    {
      BeginAnalysis(isRealtime);
      CompleteAnalysis(isRealtime, reply, mockSealed, mockConfidence);
    }

    /**
     * `submitInspection`: without an image, or with an empty temperature or weight,
     * it only shows an error and posts nothing (the image is checked first). Otherwise
     * it posts the form; once stored, the form is reset to no image, empty readings
     * and sealed; when the post fails the form is left as it was.
     */
    method SubmitInspection(outcome: PostOutcome) returns (posted: Option<InspectionPayload>)
      modifies this`capturedImage, this`temperature, this`weight, this`isSealed, this`error
      ensures var e := SubmitError(old(capturedImage), old(temperature), old(weight));
        && (e.Some? ==> posted == None && error == e.value)
        && (e.Some? ==> capturedImage == old(capturedImage) && Form() == old(Form()))
        && (e.None? ==> posted == Some(InspectionPayload(old(temperature), old(weight), old(isSealed), old(capturedImage).value)))
      ensures posted.Some? && outcome.Stored? ==>
        capturedImage == None && temperature == "" && weight == "" && isSealed && error == ""
      ensures posted.Some? && outcome.PostFailed? ==>
        && capturedImage == old(capturedImage) && Form() == old(Form())
        && error == FailureMessage(outcome.message)
    {
      var e := SubmitError(capturedImage, temperature, weight);
      if e.Some? {
        error := e.value;
        return None;
      }
      error := "";
      posted := Some(InspectionPayload(temperature, weight, isSealed, capturedImage.value));
      match outcome
      case Stored =>
        capturedImage := None;
        temperature := "";
        weight := "";
        isSealed := true;
      case PostFailed(message) =>
        error := FailureMessage(message);
    }

    /** `startCamera`: clear the capture and the verdict, then turn the camera on if allowed. */
    method StartCamera(granted: bool)
      modifies this`capturedImage, this`analysisResult, this`cameraActive, this`error
      ensures capturedImage == None && analysisResult == None
      ensures granted ==> cameraActive && error == ""
      ensures !granted ==> cameraActive == old(cameraActive) && error == CameraDeniedMessage
    {
      capturedImage := None;
      analysisResult := None;
      if granted {
        cameraActive := true;
        error := "";
      } else {
        error := CameraDeniedMessage;
      }
    }

    /** `stopCamera`. */
    method StopCamera()
      modifies this`cameraActive
      ensures !cameraActive
    {
      cameraActive := false;
    }

    /**
     * `captureImage`: keep the frame, stop the camera and start an explicit analysis
     * (its completion is a later `CompleteAnalysis`).
     */
    method CaptureImage(frame: string)
      modifies this`capturedImage, this`cameraActive, this`isAnalyzing, this`analysisResult, this`error
      ensures capturedImage == Some(frame) && !cameraActive
      ensures isAnalyzing && analysisResult == None && error == ""
    {
      capturedImage := Some(frame);
      StopCamera();
      BeginAnalysis(false);
    }

    /**
     * The `onloadend` of `handleFileUpload`: keep the reader's result and start an
     * analysis. A failed read gives `None` (`null`), which clears the image; the
     * analysis of `null` then fails and completes like any other failure.
     */
    method UploadImage(result: Option<string>)
      modifies this`capturedImage, this`isAnalyzing, this`analysisResult, this`error
      ensures capturedImage == result
      ensures isAnalyzing && analysisResult == None && error == ""
    {
      capturedImage := result;
      BeginAnalysis(false);
    }
  }
}
