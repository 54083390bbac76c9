/**
 * The `POST /predict` endpoint of the vision service (ai_service/app.py): the data
 * URL header is cut off the image text, the detector's boxes are scanned for the
 * COCO classes that stand in for food packages (bottle 39, cup 41, bowl 45), and
 * the verdict is the one of the last such box; with no such box the verdict is
 * drawn at random. Decoding the image and running the detector are not modelled:
 * the detector's output for the decoded image is a parameter, as are the two
 * random draws.
 */
module VisionService {
  import opened Wrappers
  import opened Text

  const NoImageError := "No image provided"

  /** One detected box: its class and its confidence. */
  datatype Box = Box(cls: int, conf: real)

  /** The endpoint's answer: a 400 error, or the JSON verdict. */
  datatype Response =
    | ErrorResponse(code: nat, error: string)
    | Prediction(status: string, isSealed: bool, confidence: string, packageDetected: bool)

  /** `base64_to_image`'s header handling: with a comma, only `split(",")[1]` is kept. */
  function StripHeader(s: string): (b: string)
    ensures ',' !in s ==> b == s
    ensures ',' in s ==> b == UpTo(s[IndexOf(s, ',') + 1..], ',')
  {
    if ',' in s then
      SplitCount(s, ',');
      SecondField(s, ',');
      Split(s, ',')[1]
    else s
  }

  /** A data URL `header,payload` with a comma-free payload decodes the payload. */
  lemma DataUrlPayload(header: string, payload: string)
    requires ',' !in header && ',' !in payload
    ensures StripHeader(header + "," + payload) == payload
  {
    var s := header + "," + payload;
    IndexOfAfter(header, "," + payload, ',');
    assert s[|header| + 1..] == payload;
    var r := UpTo(payload, ',');
    assert |r| == |payload|;
    assert r == payload[..|payload|];
  }

  /** Text after a second comma is dropped: only the field between the first two commas is kept. */
  lemma SecondCommaTruncates(header: string, payload: string, tail: string)
    requires ',' !in header && ',' !in payload
    ensures StripHeader(header + "," + payload + "," + tail) == payload
  {
    var s := header + "," + payload + "," + tail;
    assert s == header + ("," + payload + "," + tail);
    IndexOfAfter(header, "," + payload + "," + tail, ',');
    assert s[|header| + 1..] == payload + "," + tail;
    UpToComma(payload, tail);
  }

  /** The text up to the first comma of `payload,tail` is `payload`. */
  lemma UpToComma(payload: string, tail: string)
    requires ',' !in payload
    ensures UpTo(payload + "," + tail, ',') == payload
  {
    var t := payload + "," + tail;
    var r := UpTo(t, ',');
    assert t[|payload|] == ',';
    assert |r| <= |payload|;
    assert forall k :: 0 <= k < |payload| ==> t[k] == payload[k];
    assert |r| == |payload|;
  }


  /** The COCO classes taken for packages: bottle, cup and bowl. */
  predicate IsPackage(cls: int) {
    cls == 39 || cls == 41 || cls == 45
  }

  /**
   * The boxes of every result, in the order the two nested loops visit them. This is
   * the same fold as `SerialFraming.Concat`, kept apart so that the service's model
   * does not depend on the page's: each module models one program.
   */
  function Flatten(results: seq<seq<Box>>): seq<Box> {
    if results == [] then [] else Flatten(results[..|results| - 1]) + results[|results| - 1]
  }

  /**
   * The position of the last package box, if any. The search has the shape of
   * `SensorParsing.LastTagged`; a shared version would take the test as a function
   * argument, and a contract quantifying over calls of a function argument gives the
   * solver no trigger to work with, so each search keeps its own test.
   */
  function LastPackageIndex(boxes: seq<Box>): (r: Option<nat>)
    ensures r.None? <==> forall k :: 0 <= k < |boxes| ==> !IsPackage(boxes[k].cls)
    ensures r.Some? ==> r.value < |boxes| && IsPackage(boxes[r.value].cls)
    ensures r.Some? ==> forall k :: r.value < k < |boxes| ==> !IsPackage(boxes[k].cls)
  {
    if boxes == [] then None
    else if IsPackage(boxes[|boxes| - 1].cls) then Some(|boxes| - 1)
    else
      var r := LastPackageIndex(boxes[..|boxes| - 1]);
      assert forall k :: 0 <= k < |boxes| - 1 ==> boxes[..|boxes| - 1][k] == boxes[k];
      r
  }

  /** The last package box, if any. */
  function LastPackage(boxes: seq<Box>): (r: Option<Box>)
    ensures r.Some? <==> exists k :: 0 <= k < |boxes| && IsPackage(boxes[k].cls)
    ensures r.Some? ==> r.value in boxes && IsPackage(r.value.cls)
  {
    match LastPackageIndex(boxes)
    case None => None
    case Some(k) => Some(boxes[k])
  }

  /** One more box: a package replaces the verdict so far, anything else leaves it. */
  lemma LastPackageSnoc(boxes: seq<Box>, b: Box)
    ensures LastPackage(boxes + [b]) == if IsPackage(b.cls) then Some(b) else LastPackage(boxes)
  {
    assert (boxes + [b])[..|boxes|] == boxes;
  }

  /** A box of another class has no effect, wherever it appears. */
  lemma {:induction false} OtherBoxIgnored(a: seq<Box>, b: Box, c: seq<Box>)
    requires !IsPackage(b.cls)
    ensures LastPackage(a + [b] + c) == LastPackage(a + c)
    decreases |c|
  {
    if c == [] {
      assert a + [b] + c == a + [b];
      assert a + c == a;
      LastPackageSnoc(a, b);
    } else {
      var c' := c[..|c| - 1];
      var x := c[|c| - 1];
      assert a + [b] + c == (a + [b] + c') + [x];
      assert a + c == (a + c') + [x];
      LastPackageSnoc(a + [b] + c', x);
      LastPackageSnoc(a + c', x);
      OtherBoxIgnored(a, b, c');
    }
  }

  /** The results up to `i + 1` are the results up to `i` followed by the boxes of result `i`. */
  lemma FlattenSnoc(results: seq<seq<Box>>, i: nat)
    requires i < |results|
    ensures Flatten(results[..i + 1]) == Flatten(results[..i]) + results[i]
  {
    assert results[..i + 1][..i] == results[..i];
  }

  /**
   * The nested `for r in results: for box in r.boxes` scan: `found_package` says
   * whether a package box was seen, and the confidence and seal come from the last
   * one (sealed exactly when its confidence exceeds 0.5); without one they keep
   * their defaults, 0.0 and sealed.
   */
  method ScanDetections(results: seq<seq<Box>>) returns (found: bool, confidence: real, sealed: bool)
    ensures found <==> LastPackage(Flatten(results)).Some?
    ensures found ==> confidence == LastPackage(Flatten(results)).value.conf && sealed == (confidence > 0.5)
    ensures !found ==> confidence == 0.0 && sealed
  {
    sealed := true;
    confidence := 0.0;
    found := false;
    for i := 0 to |results|
      invariant found <==> LastPackage(Flatten(results[..i])).Some?
      invariant found ==> confidence == LastPackage(Flatten(results[..i])).value.conf && sealed == (confidence > 0.5)
      invariant !found ==> confidence == 0.0 && sealed
    {
      ghost var seen := Flatten(results[..i]);
      var boxes := results[i];
      assert seen + boxes[..0] == seen;
      for j := 0 to |boxes|
        invariant found <==> LastPackage(seen + boxes[..j]).Some?
        invariant found ==> confidence == LastPackage(seen + boxes[..j]).value.conf && sealed == (confidence > 0.5)
        invariant !found ==> confidence == 0.0 && sealed
      {
        var box := boxes[j];
        LastPackageSnoc(seen + boxes[..j], box);
        assert seen + boxes[..j + 1] == (seen + boxes[..j]) + [box];
        if IsPackage(box.cls) {
          found := true;
          confidence := box.conf;
          sealed := confidence > 0.5;
        }
      }
      assert boxes[..|boxes|] == boxes;
      FlattenSnoc(results, i);
    }
    assert results[..|results|] == results;
  }

  /** `x` rounded to tenths, halves rounded up. */
  function Tenths(x: real): (t: int)
    ensures x * 10.0 - 0.5 < t as real <= x * 10.0 + 0.5
  {
    (x * 10.0 + 0.5).Floor
  }

  /** The text of a number of tenths with one decimal and a percent sign, as `{:.1f}%` writes it. */
  function TenthsText(t: int): (s: string)
    ensures |s| >= 4 && s[|s| - 1] == '%' && s[|s| - 3] == '.'
  {
    var n: nat := if t < 0 then -t else t;
    (if t < 0 then "-" else "") + NatToString(n / 10) + "." + [DigitChar(n % 10)] + "%"
  }

  /** Different numbers of tenths are written differently. */
  lemma TenthsTextInjective(a: int, b: int)
    requires TenthsText(a) == TenthsText(b)
    ensures a == b
  {
    var sa, sb := TenthsText(a), TenthsText(b);
    var na: nat := if a < 0 then -a else a;
    var nb: nat := if b < 0 then -b else b;
    assert DigitChar(na % 10) == sa[|sa| - 2] == sb[|sb| - 2] == DigitChar(nb % 10);
    var ha := (if a < 0 then "-" else "") + NatToString(na / 10);
    var hb := (if b < 0 then "-" else "") + NatToString(nb / 10);
    assert sa == ha + ("." + [DigitChar(na % 10)] + "%");
    assert sb == hb + ("." + [DigitChar(nb % 10)] + "%");
    assert ha == sa[..|sa| - 3] == sb[..|sb| - 3] == hb;
    assert (ha[0] == '-') == (a < 0) by {
      if a >= 0 { assert ha[0] in NatToString(na / 10); }
    }
    assert (hb[0] == '-') == (b < 0) by {
      if b >= 0 { assert hb[0] in NatToString(nb / 10); }
    }
    if a < 0 {
      assert ha[1..] == NatToString(na / 10) && hb[1..] == NatToString(nb / 10);
    } else {
      assert ha == NatToString(na / 10) && hb == NatToString(nb / 10);
    }
    NatToStringInjective(na / 10, nb / 10);
  }

  /** `f"{confidence*100:.1f}%"`. */
  function PercentText(confidence: real): (t: string)
    ensures |t| >= 4 && t[|t| - 1] == '%' && t[|t| - 3] == '.'
  {
    TenthsText(Tenths(confidence * 100.0))
  }

  /** The confidence of the random branch lies between 80.0% and 100.0%. */
  lemma RandomConfidenceRange(u: real)
    requires 0.0 <= u < 1.0
    ensures 800 <= Tenths((u * 0.2 + 0.8) * 100.0) <= 1000
  {
  }

  /** The status text of a seal flag, used by the service and by the page's mock verdict. */
  function StatusText(sealed: bool): (t: string)
    ensures t == "SEALED" <==> sealed
    ensures t == "UNSEALED" <==> !sealed
  {
    if sealed then "SEALED" else "UNSEALED"
  }

  /** A verdict whose status agrees with its seal flag; `NO_OBJECT` is never sent. */
  predicate WellFormed(r: Response) {
    r.Prediction? ==>
      && (r.status == "SEALED" <==> r.isSealed)
      && (r.status == "UNSEALED" <==> !r.isSealed)
      && r.status != "NO_OBJECT"
  }

  /**
   * `predict`: a missing or empty image is refused with 400 before any detection;
   * otherwise the verdict is the scan's, or with no package box the random one
   * (`sealDraw > 0.3`, confidence `confidenceDraw * 0.2 + 0.8`).
   */
  method Predict(image: Option<string>, detections: seq<seq<Box>>, sealDraw: real, confidenceDraw: real)
    returns (response: Response)
    ensures (image.None? || image.value == "") <==> response == ErrorResponse(400, NoImageError)
    ensures !(image.None? || image.value == "") ==> response.Prediction?
    ensures WellFormed(response)
    ensures response.Prediction? ==>
      var last := LastPackage(Flatten(detections));
      && response.packageDetected == last.Some?
      && (last.Some? ==> response.isSealed == (last.value.conf > 0.5) && response.confidence == PercentText(last.value.conf))
      && (last.None? ==> response.isSealed == (sealDraw > 0.3) && response.confidence == PercentText(confidenceDraw * 0.2 + 0.8))
  {
    if image.None? || image.value == "" {
      return ErrorResponse(400, NoImageError);
    }
    var found, confidence, sealed := ScanDetections(detections);
    if !found {
      sealed := sealDraw > 0.3;
      confidence := confidenceDraw * 0.2 + 0.8;
    }
    response := Prediction(StatusText(sealed), sealed, PercentText(confidence), found);
  }
}
