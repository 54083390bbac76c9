# Package inspection: a Dafny model of the dashboard, the vision endpoint and the label rule

This project models three pieces of a food-package inspection system and proves
properties of them.

1. The inspection dashboard (`frontend/src/pages/Dashboard.jsx`):
   - the serial reader of `ConnectArduino`: a text buffer that frames the Arduino's
     chunks into lines, trims them, drops blank ones, and parses each line in the
     tagged format (`T:25.5,W:450,S:1`) or the positional one (`25.5,450,1`) into the
     form fields;
   - `analyzeImage`, which folds the vision service's verdict (or its failure) into
     the form and the verdict panel;
   - `submitInspection`, which validates the form, posts it and resets it;
   - the camera flags of `startCamera`, `stopCamera`, `captureImage`, and the file
     upload.
2. The `POST /predict` endpoint of the vision service (`ai_service/app.py`): it cuts
   the data-URL header off the image, scans the detector's boxes for the package
   classes 39, 41 and 45, and answers with the verdict of the last such box. With no
   such box, the verdict is drawn at random.
3. The labelling rule of the training-set generator (`ai_service/generate_dataset.py`):
   the class of a label name, the YOLO label line, and the file stems of the
   augmented samples.

Layout, one module per file:

| file | module | content |
|---|---|---|
| `wrappers.dfy` | `Wrappers` | `Option` (JavaScript `null`, Python `None`) |
| `text.dfy` | `Text` | `includes`/`in`, `startsWith`, `split` and `join` on one character, JavaScript `trim`, Python `lower` on ASCII, decimal text of integers |
| `framing.dfy` | `SerialFraming` | the `LineBuffer` class holding the serial buffer; complete lines and residual tail; line cleaning |
| `sensor_parsing.dfy` | `SensorParsing` | what one cleaned line does to `temperature`, `weight` and `isSealed` |
| `dashboard.dfy` | `Dashboard` | the `Session` class: the page's state and the handlers that change it |
| `vision_service.dfy` | `VisionService` | `base64_to_image`'s header handling and `predict` |
| `dataset_labels.dfy` | `DatasetLabels` | `class_id`, the label line, the stems written by `augment_image` |

Modelling choices:

- Every React state setter is a field write of `Dashboard.Session`.
- `analyzeImage` awaits the request, so it is split into two methods:
  - `BeginAnalysis` runs before the request;
  - `CompleteAnalysis` runs once the request has settled.
- What the outside world provides becomes a parameter:
  - the chunks read from the serial port;
  - whether Web Serial exists, and the error when the port cannot be opened;
  - the service's reply, and the outcome of the post;
  - the random fallback values;
  - the detector's boxes, and the two random draws of the endpoint.
- The serial loop is proved against a specification over the whole text read so far:
  - `CompleteLines` gives the lines that a newline closes;
  - `Residual` gives the unterminated tail;
  - `ApplyLines` folds the line parser over the cleaned lines.
- The detector output is a sequence of results, each a sequence of boxes `(cls, conf)`.
  This mirrors the nested `for r in results: for box in r.boxes` loop.

Behaviour of the code worth noting:

- The connection flag `arduinoConnected` stays set when the serial stream ends or a
  read fails. Only a failure to open the port clears it (lines 161-170).
- A tagged token `T:` with nothing after it sets the temperature to the empty string.
  `'T:'.split(':')[1]` is `''`.
- The live analysis every 800 ms does not wait for the previous request to finish.
  There is no in-flight suppression in the code.

## Model

| member | source | states |
|---|---|---|
| `Text.Contains` | frontend/src/pages/Dashboard.jsx:145-152 | `includes` in JavaScript and `in` in Python: the pattern stands at some position of the text (a predicate, by definition) |
| `Text.StartsWith` | frontend/src/pages/Dashboard.jsx:148-150 | `startsWith`: the text begins with the prefix (a predicate, by definition) |
| `Text.Split` | frontend/src/pages/Dashboard.jsx:132 | `split` on one character always yields at least one piece |
| `Text.SplitCount` | frontend/src/pages/Dashboard.jsx:131-132 | the text holds the separator iff its split has two or more pieces; without one the split is the text alone |
| `Text.SplitPartsFree` | frontend/src/pages/Dashboard.jsx:132 | no piece of a split holds the separator |
| `Text.JoinSplit` | frontend/src/pages/Dashboard.jsx:132-133 | joining the pieces of a split with the separator gives back the text |
| `Text.SplitJoin` | frontend/src/pages/Dashboard.jsx:153 | splitting a join of separator-free pieces gives back the pieces |
| `Text.UpTo` | frontend/src/pages/Dashboard.jsx:148 | the text before the first occurrence of a character: a prefix without it, followed by the character or the end |
| `Text.SecondField` | frontend/src/pages/Dashboard.jsx:148 | `split(sep)[1]` is the text after the first separator up to the next one |
| `Text.Trim` | frontend/src/pages/Dashboard.jsx:136 | `trim` removes exactly the leading and trailing white space: the result is a slice with white space only around it and none at its ends |
| `Text.TrimEmptyIff` | frontend/src/pages/Dashboard.jsx:136-137 | a line trims to empty iff it is white space only |
| `Text.ToLower` | ai_service/generate_dataset.py:70 | `lower()` keeps the length and lowers each character |
| `Text.IsSpace` | frontend/src/pages/Dashboard.jsx:136 | the characters `trim` removes: the ECMAScript white space and line terminators (a predicate, by definition) |
| `Text.NatToString` | ai_service/generate_dataset.py:73 | the decimal text of a natural: at least one character, digits only, a single digit exactly below ten |
| `Text.IntToString` | ai_service/generate_dataset.py:64-68 | the decimal text of an integer: the natural's text, after a minus sign when negative |
| `Text.NatToStringInjective` | ai_service/generate_dataset.py:64 | different naturals have different decimal texts |
| `Text.IntToStringInjective` | ai_service/generate_dataset.py:64 | different integers have different decimal texts |
| `SerialFraming.Residual` | frontend/src/pages/Dashboard.jsx:133 | the kept tail never holds a newline |
| `SerialFraming.CompleteLines` | frontend/src/pages/Dashboard.jsx:131-133 | the stretches that a newline closes, in order: none exactly when the text has no newline, and never more lines than characters |
| `SerialFraming.CompleteLinesNoNewline` | frontend/src/pages/Dashboard.jsx:132-133 | no released line holds a newline |
| `SerialFraming.FeedInTwo` | frontend/src/pages/Dashboard.jsx:130-133 | reading `s` then `t` releases the lines of `s` and then those its tail completes with `t`, the same as reading `s + t` at once, and leaves the same tail |
| `SerialFraming.FeedUnfold` | frontend/src/pages/Dashboard.jsx:130-133 | when the buffer holds a newline, the first line is released and reading goes on after it |
| `SerialFraming.FeedLines` | frontend/src/pages/Dashboard.jsx:130-133 | the lines released by `s + t` are those of `s`, then those its tail completes with `t` |
| `SerialFraming.FeedTail` | frontend/src/pages/Dashboard.jsx:133 | the tail left by `s + t` is the tail left by the tail of `s` followed by `t` |
| `SerialFraming.Emitted` | frontend/src/pages/Dashboard.jsx:126-133 | the lines released read by read, each chunk completing the tail the chunks before it left; none of them holds a newline |
| `SerialFraming.EmittedIsComplete` | frontend/src/pages/Dashboard.jsx:126-133 | the lines released chunk by chunk are the complete lines of the whole text read |
| `SerialFraming.FragmentationInvariant` | frontend/src/pages/Dashboard.jsx:126-133 | two chunkings of the same text release the same lines |
| `SerialFraming.ChunkWithoutNewline` | frontend/src/pages/Dashboard.jsx:130-131 | a chunk without a newline releases no line and is all kept in the buffer |
| `SerialFraming.NoNewlineNoLines` | frontend/src/pages/Dashboard.jsx:131 | a text with no newline releases nothing and is all tail |
| `SerialFraming.SplitLines` | frontend/src/pages/Dashboard.jsx:132-133 | after `split('\n')` and `pop()`, the popped piece is the tail and the rest are the complete lines |
| `SerialFraming.SplitInit` | frontend/src/pages/Dashboard.jsx:132 | the pieces of `split('\n')` before the last are the complete lines |
| `SerialFraming.SplitLast` | frontend/src/pages/Dashboard.jsx:133 | the last piece of `split('\n')` is the unterminated tail |
| `SerialFraming.JoinSnoc` | frontend/src/pages/Dashboard.jsx:132-133 | the joined pieces are the joined lines, a separator and the last piece |
| `SerialFraming.IndexOfPrefix` | frontend/src/pages/Dashboard.jsx:130-131 | appending text does not move the first newline already in the buffer |
| `SerialFraming.LineBuffer.constructor` | frontend/src/pages/Dashboard.jsx:124 | the buffer starts empty |
| `SerialFraming.LineBuffer.Push` | frontend/src/pages/Dashboard.jsx:130-133 | the buffer never holds a newline; the released lines joined by newlines, a newline and the new buffer are the old buffer plus the chunk; the lines are the complete lines of that text and the buffer its tail |
| `SerialFraming.CleanLines` | frontend/src/pages/Dashboard.jsx:135-137 | every line handed to the parser is trimmed and non-empty, and there are no more of them than lines |
| `SerialFraming.CleanLinesAppend` | frontend/src/pages/Dashboard.jsx:135-137 | cleaning lines read in two batches is cleaning them at once |
| `SerialFraming.CleanLinesSnoc` | frontend/src/pages/Dashboard.jsx:136-137 | one more line is trimmed and kept, or dropped when blank |
| `SerialFraming.CleanLine` | frontend/src/pages/Dashboard.jsx:136-137 | a line is dropped iff it is white space only, and is otherwise kept trimmed |
| `SensorParsing.TagValue` | frontend/src/pages/Dashboard.jsx:148 | `part.split(':')[1]` is the text after the first colon up to the next |
| `SensorParsing.TagValueAfterTag` | frontend/src/pages/Dashboard.jsx:148-150 | for a token `X:...` the value is what follows `X:` up to the next colon |
| `SensorParsing.Apply` | frontend/src/pages/Dashboard.jsx:148-156 | the setters one line fires: a field the reading leaves unset keeps its value, so the empty reading changes nothing |
| `SensorParsing.LastTagged` | frontend/src/pages/Dashboard.jsx:147-151 | the last token with the tag: none iff no token has it, otherwise one with the tag and none after it |
| `SensorParsing.TagField` | frontend/src/pages/Dashboard.jsx:147-151 | the value one tag ends with after the `forEach`: none exactly when no token starts with the tag |
| `SensorParsing.TokenReading` | frontend/src/pages/Dashboard.jsx:148-150 | the three `if`s for one token: each field is set exactly when the token starts with its tag |
| `SensorParsing.TaggedReading` | frontend/src/pages/Dashboard.jsx:146-151 | the tagged format: temperature, weight and seal are each set exactly when some token starts with `T:`, `W:` or `S:` |
| `SensorParsing.TokenEffect` | frontend/src/pages/Dashboard.jsx:148-150 | one token sets exactly the field its tag names and leaves the other two |
| `SensorParsing.TaggedStep` | frontend/src/pages/Dashboard.jsx:147-151 | the tokens up to `i` act as the tokens before `i` followed by token `i` |
| `SensorParsing.PositionalField` | frontend/src/pages/Dashboard.jsx:153-155 | a positional field is set iff it exists and is not empty, and then to its own text |
| `SensorParsing.PositionalReading` | frontend/src/pages/Dashboard.jsx:153-156 | the positional format: the first, second and third field are each used exactly when present and non-empty |
| `SensorParsing.ParseLine` | frontend/src/pages/Dashboard.jsx:145-157 | the branch selection: a line holding `T:` is read as tagged even with commas, else a line with a comma is read positionally, else nothing is set |
| `SensorParsing.ApplyLines` | frontend/src/pages/Dashboard.jsx:135-157 | the lines handled in order; a field that no line sets keeps its value |
| `SensorParsing.ApplyLinesAppend` | frontend/src/pages/Dashboard.jsx:135-157 | handling lines `a` and then `b` is handling `a + b` |
| `SensorParsing.TagFieldSnoc` | frontend/src/pages/Dashboard.jsx:147-151 | one more token: a token with the tag replaces the value so far, any other leaves it |
| `SensorParsing.SpaceTokenNoReading` | frontend/src/pages/Dashboard.jsx:147-151 | a token that starts with white space sets no field |
| `SensorParsing.UntrimmedTokenIgnored` | frontend/src/pages/Dashboard.jsx:146-151 | a token that starts with white space, such as ` W:450` in `T:25, W:450`, changes nothing wherever it stands among the tokens |
| `SensorParsing.UntrimmedTagIgnored` | frontend/src/pages/Dashboard.jsx:146-151 | the same, for the field of any one tag letter |
| `SensorParsing.TaggedLastWins` | frontend/src/pages/Dashboard.jsx:147-150 | for a repeated tag the last token wins, with the text between its first and second colon |
| `SensorParsing.TagAbsent` | frontend/src/pages/Dashboard.jsx:147-151 | a tag that no token carries gives its field no value |
| `SensorParsing.TaggedAbsentKeeps` | frontend/src/pages/Dashboard.jsx:147-151 | temperature, weight and seal each keep their value when no token carries their tag |
| `SensorParsing.TaggedSealIsOne` | frontend/src/pages/Dashboard.jsx:150 | `S:` seals iff the last `S:` value is exactly `1` |
| `SensorParsing.PositionalExtraFieldsIgnored` | frontend/src/pages/Dashboard.jsx:153 | fields after the third change nothing |
| `SensorParsing.PositionalMissingKeeps` | frontend/src/pages/Dashboard.jsx:156 | a missing or empty third field keeps the seal flag |
| `SensorParsing.PositionalSeal` | frontend/src/pages/Dashboard.jsx:156 | a present third field seals iff its trimmed text is `1` |
| `SensorParsing.UnrecognisedLineKeeps` | frontend/src/pages/Dashboard.jsx:145-157 | a line with neither `T:` nor a comma changes no field |
| `SensorParsing.TagsWithoutTemperature` | frontend/src/pages/Dashboard.jsx:145-155 | `W:450,S:1` has no `T:`, so it is read positionally: temperature `W:450`, weight `S:1`, seal unchanged |
| `Dashboard.Truthy` | frontend/src/pages/Dashboard.jsx:312 | JavaScript truthiness of a string that may be `null`: present and non-empty (a predicate, by definition) |
| `Dashboard.SubmitError` | frontend/src/pages/Dashboard.jsx:312-320 | no error iff an image is held and both readings are non-empty; a missing image is reported first, then missing readings |
| `Dashboard.FailureMessage` | frontend/src/pages/Dashboard.jsx:352 | the server's message when it has one, else the fixed text; never empty |
| `Dashboard.ColorFor` | frontend/src/pages/Dashboard.jsx:72 | green exactly for a sealed verdict, red exactly for an unsealed one |
| `Dashboard.ReplyOf` | frontend/src/pages/Dashboard.jsx:58-62 | an error answer makes the request fail; a verdict is passed on field by field |
| `Dashboard.ServiceReplyConsistent` | frontend/src/pages/Dashboard.jsx:69-73 | every verdict of the service has a status that agrees with its seal flag |
| `Dashboard.StreamStep` | frontend/src/pages/Dashboard.jsx:126-137 | one more chunk: the tail and the form follow the whole text read so far |
| `Dashboard.Session.constructor` | frontend/src/pages/Dashboard.jsx:30-41 | the initial state: no image, empty readings, sealed, no verdict, nothing busy, camera off, not connected |
| `Dashboard.Session.ApplyTagged` | frontend/src/pages/Dashboard.jsx:146-151 | the `forEach` leaves each field with the value of its last token, or unchanged |
| `Dashboard.Session.ReceiveLine` | frontend/src/pages/Dashboard.jsx:145-157 | one cleaned line acts as the tagged, positional or no reading the branch selection picks |
| `Dashboard.Session.ReceiveLines` | frontend/src/pages/Dashboard.jsx:135-157 | the lines are trimmed, blank ones skipped, the rest parsed in order |
| `Dashboard.Session.ConnectArduino` | frontend/src/pages/Dashboard.jsx:112-175 | no Web Serial gives only an error; an open failure gives the error and clears the flag; otherwise the form is the complete lines of the whole stream applied in order, the tail is never parsed, and the flag stays set |
| `Dashboard.Session.BeginAnalysis` | frontend/src/pages/Dashboard.jsx:50-54 | the error is cleared; explicit mode sets busy and clears the verdict; live mode leaves both |
| `Dashboard.Session.CompleteAnalysis` | frontend/src/pages/Dashboard.jsx:56-96 | a verdict changes the seal flag only when a package was detected and is green iff it says sealed; a failure changes nothing live and shows agreeing mock results in explicit mode; only explicit mode clears busy; a consistent panel stays consistent |
| `Dashboard.Session.AnalyzeImage` | frontend/src/pages/Dashboard.jsx:49-97 | run to completion: a reply sets the seal only when a package was detected and shows its status, confidence and the colour of its seal, with no error; a live failure changes neither seal nor verdict; an explicit failure shows the service-down error and a mock verdict whose status and colour follow the mock seal; only explicit mode ends not busy; a consistent panel stays consistent |
| `Dashboard.Session.SubmitInspection` | frontend/src/pages/Dashboard.jsx:311-356 | invalid forms post nothing and show the error; valid ones post the form; success resets it, failure keeps it and shows the message |
| `Dashboard.Session.StartCamera` | frontend/src/pages/Dashboard.jsx:248-268 | image and verdict are cleared; granted turns the camera on and clears the error; refused shows the error |
| `Dashboard.Session.StopCamera` | frontend/src/pages/Dashboard.jsx:270-277 | the camera is off |
| `Dashboard.Session.CaptureImage` | frontend/src/pages/Dashboard.jsx:279-292 | the frame is kept, the camera is off, and an explicit analysis has begun |
| `Dashboard.Session.UploadImage` | frontend/src/pages/Dashboard.jsx:103-107 | the reader's result is kept, `null` after a failed read clearing the image, and an explicit analysis has begun |
| `VisionService.StripHeader` | ai_service/app.py:22-24 | with a comma, the text between the first and second comma; without one, the text unchanged |
| `VisionService.DataUrlPayload` | ai_service/app.py:23-24 | a data URL `header,payload` yields the payload |
| `VisionService.SecondCommaTruncates` | ai_service/app.py:23-24 | text after a second comma is dropped |
| `VisionService.IsPackage` | ai_service/app.py:53 | `cls in [39, 41, 45]`: bottle, cup and bowl (a predicate, by definition) |
| `VisionService.Flatten` | ai_service/app.py:48-49 | the boxes of every result in the order the nested loops visit them (by definition; `FlattenSnoc` states the step) |
| `VisionService.LastPackageIndex` | ai_service/app.py:48-55 | the last box with class 39, 41 or 45: none iff there is none, otherwise a package with none after it |
| `VisionService.LastPackage` | ai_service/app.py:48-64 | the last box of class 39, 41 or 45: present exactly when some box has such a class, and then one of the boxes with a package class |
| `VisionService.LastPackageSnoc` | ai_service/app.py:53-64 | a package box replaces the verdict so far; any other box leaves it |
| `VisionService.OtherBoxIgnored` | ai_service/app.py:53 | a box of another class has no effect wherever it stands |
| `VisionService.FlattenSnoc` | ai_service/app.py:48-49 | the nested loops visit the boxes result by result |
| `VisionService.ScanDetections` | ai_service/app.py:42-64 | found iff a package box exists; then the confidence is the last one's and the seal is `conf > 0.5`; otherwise 0.0 and sealed |
| `VisionService.Tenths` | ai_service/app.py:74 | the value rounded to tenths, within half a tenth |
| `VisionService.TenthsText` | ai_service/app.py:74 | one decimal and a percent sign |
| `VisionService.TenthsTextInjective` | ai_service/app.py:74 | different tenths give different texts |
| `VisionService.PercentText` | ai_service/app.py:74 | the confidence as a percentage: one decimal, then a percent sign |
| `VisionService.StatusText` | ai_service/app.py:72 | `SEALED` exactly when sealed, `UNSEALED` exactly when not |
| `VisionService.RandomConfidenceRange` | ai_service/app.py:69 | the random confidence reads between 80.0% and 100.0% |
| `VisionService.Predict` | ai_service/app.py:30-76 | missing or empty image iff a 400 error; otherwise the verdict of the last package box, or the random one when there is none; the status is `SEALED` iff sealed and never `NO_OBJECT` |
| `DatasetLabels.ClassId` | ai_service/generate_dataset.py:70 | the class is 0 or 1 |
| `DatasetLabels.ClassIdZeroIff` | ai_service/generate_dataset.py:70 | class 0 iff the lower-cased name contains `sealed` and not `unsealed` |
| `DatasetLabels.ClassIdIgnoresCase` | ai_service/generate_dataset.py:70 | a name and its lower-cased form get the same class |
| `DatasetLabels.ToLowerIdempotent` | ai_service/generate_dataset.py:70 | lowering twice is lowering once |
| `DatasetLabels.UnsealedWins` | ai_service/generate_dataset.py:70 | a name containing `unsealed` also contains `sealed`, and is class 1 |
| `DatasetLabels.LowerFixed` | ai_service/generate_dataset.py:70 | a name without capitals is its own lower-cased form |
| `DatasetLabels.SealedSourceIsZero` | ai_service/generate_dataset.py:99-103 | `sealed_src{idx}` is class 0 |
| `DatasetLabels.UnsealedSourceIsOne` | ai_service/generate_dataset.py:113-117 | `unsealed_src{idx}` is class 1 |
| `DatasetLabels.SourceLabelsMatchValidation` | ai_service/generate_dataset.py:103-121 | the training labels of the sources agree with the validation lines written by hand |
| `DatasetLabels.LabelLineJoin` | ai_service/generate_dataset.py:73 | a label line is the class and the fixed box joined by spaces, then a newline |
| `DatasetLabels.LabelLine` | ai_service/generate_dataset.py:73 | the label line starts with the class and a space and ends in a newline |
| `DatasetLabels.LabelLineFields` | ai_service/generate_dataset.py:73 | read back, a label line ends in a newline and splits into the class and the four box numbers |
| `DatasetLabels.StemInjective` | ai_service/generate_dataset.py:64-68 | different indices give different stems |
| `DatasetLabels.Stem` | ai_service/generate_dataset.py:64-68 | `{label}_{n}`: the label, an underscore, then the decimal text of the index |
| `DatasetLabels.SampleFor` | ai_service/generate_dataset.py:64-73 | the image and the label file share the stem and end in `.jpg` and `.txt`; the line is the label's class line |
| `DatasetLabels.SampleNamesDistinct` | ai_service/generate_dataset.py:64 | samples for different indices have different image names |
| `DatasetLabels.NamesDistinct` | ai_service/generate_dataset.py:39-64 | samples named after consecutive indices have pairwise-distinct image names |
| `DatasetLabels.AugmentNames` | ai_service/generate_dataset.py:39-73 | exactly `count` samples; sample `i` is named `{label}_{start+i}` for both files and carries the label's class line; no two image names are equal |

## Left out

- The 800 ms live capture interval (Dashboard.jsx lines 184-219) is timer and video
  behaviour. A tick analyses a frame only when the video is ready (`readyState === 4`,
  line 199), and then it is one `AnalyzeImage` in live mode; otherwise the tick does
  nothing.
- The pass/reject decision of the backend is not modelled. `routes/inspectionRoutes`
  is not part of this model, and the post's outcome is a parameter.
- Randomness, clocks and number parsing are not modelled:
  - `simulateSensorData`;
  - the mock confidence text, which is a parameter of `CompleteAnalysis`;
  - `parseFloat` of the readings;
  - the `PKG-{Date.now()}` package id;
  - the success toasts and the `loading` flag.
- Web Serial, `TextDecoderStream`, the camera, the canvas, `FileReader`, `axios` and
  the rendering are foreign calls. Their results are parameters:
  - a read error ends the loop just like the end of the stream, so both are modelled
    as the end of the chunk sequence;
  - `err.message` of an open failure is a given string.
- Chunks are sequences of UTF-16 code units in JavaScript. Here they are sequences of
  characters, and no surrogate pair is split.
- Image work is not modelled: the base64 decode, PIL and OpenCV conversion, and YOLO
  loading and inference. The decoded image's detections are a parameter, so:
  - a malformed base64 payload, which makes the server answer 500, is not modelled;
  - a JSON `image` that is not a string is not modelled.
- `StripHeader` only cuts the header. `base64.b64decode` is not modelled.
- The image transforms and file writes of `generate_dataset.py`, `prepare_dataset`,
  `train.py` and the backend server are outside this model.
- `Text.ToLower` lowers ASCII letters only, whereas Python's `lower()` is
  Unicode-aware.
  - This is exact for the class rule: every character of `sealed` and `unsealed` is a
    lower-case ASCII letter.
  - The only non-ASCII characters whose lower-case form holds an ASCII letter are
    U+0130 (giving `i` and a combining dot) and the Kelvin sign U+212A (giving `k`).
    Neither `i` nor `k` occurs in those words.
- `VisionService.PercentText` formats the exact real `confidence * 100`. Python first
  rounds that product to a binary double and then formats the double. The two can
  differ on values that are not ties: for the double nearest 0.2515 the exact product
  is just above 25.15, giving `25.2%`, while the double product is just below, giving
  `25.1%`. IEEE doubles are not modelled.
- `VisionService.Tenths`: halves are rounded up on exact reals, where Python rounds
  the double half to even, so the last digit can differ on exact ties. A negative
  value, which the detector never gives, keeps no `-0.0` sign.
- `VisionService.Predict`: its `confidence` text is `PercentText` of the confidence, so
  it agrees with the service only up to the double rounding of `confidence * 100`
  described above. The status, the seal flag, `packageDetected` and the 400 answer
  are exact.
- The JSON encoding of responses and the HTTP status of the verdict (200) are not
  modelled.
- `Dashboard.Session.ConnectArduino` models the stream with no other event between
  two reads. In the page every `await reader.read()` lets other handlers write the
  same fields: the inputs' `onChange`, `simulateSensorData`, the live `analyzeImage`
  ticks that set `isSealed`, and `submitInspection`'s reset. With such events
  interleaved, the whole-stream postcondition no longer holds; each chunk's effect
  (`LineBuffer.Push` then `ReceiveLines`) is still the one stated for those methods.
- The `Session` fields hold the React state. Re-renders, and the closures that read
  stale state, are not modelled: each handler sees the current fields.
