/**
 * What one cleaned serial line does to the sensor fields of the inspection form
 * (`ConnectArduino` in frontend/src/pages/Dashboard.jsx). A line in the tagged
 * format `T:25.5,W:450,S:1` is chosen whenever it contains `T:`; otherwise a line
 * with a comma is read positionally as `25.5,450,1`; any other line changes nothing.
 */
module SensorParsing {
  import opened Wrappers
  import opened Text

  /** The form fields that sensor lines set: `temperature`, `weight`, `isSealed`. */
  datatype Sensors = Sensors(temperature: string, weight: string, isSealed: bool)

  /** The fields one line sets; `None` leaves a field as it was. */
  datatype Reading = Reading(temperature: Option<string>, weight: Option<string>, sealed: Option<bool>)

  const NoReading := Reading(None, None, None)

  /** The form after the setters of one line have run. */
  function Apply(s: Sensors, r: Reading): (t: Sensors)
    ensures r == NoReading ==> t == s
    ensures r.temperature.None? ==> t.temperature == s.temperature
    ensures r.weight.None? ==> t.weight == s.weight
    ensures r.sealed.None? ==> t.isSealed == s.isSealed
  {
    Sensors(r.temperature.GetOr(s.temperature), r.weight.GetOr(s.weight), r.sealed.GetOr(s.isSealed))
  }

  /** `part.split(':')[1]`: the text after the first colon, up to the next one. */
  function TagValue(part: string): (v: string)
    requires ':' in part
    ensures v == UpTo(part[IndexOf(part, ':') + 1..], ':')
  {
    SplitCount(part, ':');
    SecondField(part, ':');
    Split(part, ':')[1]
  }

  /** For a token `X:...` the value is what follows `X:`, up to the next colon. */
  lemma TagValueAfterTag(part: string, letter: char)
    requires letter != ':' && StartsWith(part, [letter, ':'])
    ensures ':' in part && TagValue(part) == UpTo(part[2..], ':')
  {
    assert part[..2] == [letter, ':'];
    assert part[0] == letter && part[1] == ':';
    assert ':' in part;
    assert IndexOf(part, ':') == 1;
  }

  /**
   * The position of the last token that starts with `tag`, if any (the search
   * `VisionService.LastPackageIndex` repeats for boxes).
   */
  function LastTagged(parts: seq<string>, tag: string): (r: Option<nat>)
    ensures r.None? <==> forall k :: 0 <= k < |parts| ==> !StartsWith(parts[k], tag)
    ensures r.Some? ==> r.value < |parts| && StartsWith(parts[r.value], tag)
    ensures r.Some? ==> forall k :: r.value < k < |parts| ==> !StartsWith(parts[k], tag)
  {
    if parts == [] then None
    else if StartsWith(parts[|parts| - 1], tag) then Some(|parts| - 1)
    else
      var r := LastTagged(parts[..|parts| - 1], tag);
      assert forall k :: 0 <= k < |parts| - 1 ==> parts[..|parts| - 1][k] == parts[k];
      r
  }

  /** A tag: a letter and a colon. */
  function Tag(letter: char): string {
    [letter, ':']
  }

  /**
   * The value the `forEach` over the comma tokens leaves for one tag: the value of
   * the last token that starts with it, or nothing when no token does.
   */
  function TagField(parts: seq<string>, letter: char): (v: Option<string>)
    ensures v.None? <==> forall k :: 0 <= k < |parts| ==> !StartsWith(parts[k], Tag(letter))
  {
    match LastTagged(parts, Tag(letter))
    case None => None
    case Some(k) => Some(ValueOf(parts[k], letter))
  }

  /** The value of a token that starts with a tag. */
  function ValueOf(part: string, letter: char): string
    requires StartsWith(part, Tag(letter))
  {
    assert part[..2][1] == ':';
    TagValue(part)
  }

  /** The tagged format: `T:` sets the temperature, `W:` the weight, `S:1` seals. */
  function TaggedReading(parts: seq<string>): (r: Reading)
    ensures r.temperature.Some? <==> LastTagged(parts, "T:").Some?
    ensures r.weight.Some? <==> LastTagged(parts, "W:").Some?
    ensures r.sealed.Some? <==> LastTagged(parts, "S:").Some?
  {
    assert Tag('T') == "T:" && Tag('W') == "W:" && Tag('S') == "S:";
    Reading(
      TagField(parts, 'T'),
      TagField(parts, 'W'),
      match TagField(parts, 'S')
      case None => None
      case Some(v) => Some(v == "1"))
  }

  /** What the three `if`s of the `forEach` body do for one token. */
  function TokenReading(part: string): (r: Reading)
    ensures r.temperature.Some? <==> StartsWith(part, "T:")
    ensures r.weight.Some? <==> StartsWith(part, "W:")
    ensures r.sealed.Some? <==> StartsWith(part, "S:")
  {
    assert Tag('T') == "T:" && Tag('W') == "W:" && Tag('S') == "S:";
    Reading(
      if StartsWith(part, Tag('T')) then Some(ValueOf(part, 'T')) else None,
      if StartsWith(part, Tag('W')) then Some(ValueOf(part, 'W')) else None,
      if StartsWith(part, Tag('S')) then Some(ValueOf(part, 'S') == "1") else None)
  }

  /** The effect of one token, field by field. */
  lemma TokenEffect(s: Sensors, part: string)
    ensures Apply(s, TokenReading(part)) == Sensors(
      if StartsWith(part, Tag('T')) then ValueOf(part, 'T') else s.temperature,
      if StartsWith(part, Tag('W')) then ValueOf(part, 'W') else s.weight,
      if StartsWith(part, Tag('S')) then ValueOf(part, 'S') == "1" else s.isSealed)
  {
  }

  /** One more token: its own effect is laid over the effect of the tokens before it. */
  lemma TaggedStep(s: Sensors, parts: seq<string>, i: nat)
    requires i < |parts|
    ensures Apply(s, TaggedReading(parts[..i + 1]))
         == Apply(Apply(s, TaggedReading(parts[..i])), TokenReading(parts[i]))
  {
    assert parts[..i + 1][..i] == parts[..i];
  }

  /** A destructured field of the positional format; a missing or empty one is falsy. */
  function PositionalField(parts: seq<string>, k: nat): (v: Option<string>)
    ensures v.Some? <==> k < |parts| && parts[k] != ""
    ensures v.Some? ==> v.value == parts[k]
  {
    if k < |parts| && parts[k] != "" then Some(parts[k]) else None
  }

  /** The positional format: the first three fields, the seal from the trimmed third. */
  function PositionalReading(parts: seq<string>): (r: Reading)
    ensures r.temperature.Some? <==> |parts| > 0 && parts[0] != ""
    ensures r.weight.Some? <==> |parts| > 1 && parts[1] != ""
    ensures r.sealed.Some? <==> |parts| > 2 && parts[2] != ""
  {
    Reading(
      PositionalField(parts, 0),
      PositionalField(parts, 1),
      match PositionalField(parts, 2)
      case None => None
      case Some(v) => Some(Trim(v) == "1"))
  }

  /** The effect of one cleaned line. */
  function ParseLine(line: string): (r: Reading)
    ensures Contains(line, "T:") ==> r == TaggedReading(Split(line, ','))
    ensures !Contains(line, "T:") && ',' in line ==> r == PositionalReading(Split(line, ','))
    ensures !Contains(line, "T:") && ',' !in line ==> r == NoReading
  {
    if Contains(line, "T:") then TaggedReading(Split(line, ','))
    else if ',' in line then PositionalReading(Split(line, ','))
    else NoReading
  }

  /** The form after a sequence of lines, handled in order. */
  function ApplyLines(s: Sensors, lines: seq<string>): (r: Sensors)
    ensures (forall k :: 0 <= k < |lines| ==> ParseLine(lines[k]).temperature.None?) ==> r.temperature == s.temperature
    ensures (forall k :: 0 <= k < |lines| ==> ParseLine(lines[k]).weight.None?) ==> r.weight == s.weight
    ensures (forall k :: 0 <= k < |lines| ==> ParseLine(lines[k]).sealed.None?) ==> r.isSealed == s.isSealed
  {
    if lines == [] then s
    else
      var init := lines[..|lines| - 1];
      assert forall k :: 0 <= k < |init| ==> init[k] == lines[k];
      Apply(ApplyLines(s, init), ParseLine(lines[|lines| - 1]))
  }

  /** Handling `a` and then `b` is handling `a + b`. */
  lemma {:induction false} ApplyLinesAppend(s: Sensors, a: seq<string>, b: seq<string>)
    ensures ApplyLines(s, a + b) == ApplyLines(ApplyLines(s, a), b)
  {
    if b == [] {
      assert a + b == a;
    } else {
      var b' := b[..|b| - 1];
      assert (a + b)[..|a + b| - 1] == a + b';
      assert (a + b)[|a + b| - 1] == b[|b| - 1];
      ApplyLinesAppend(s, a, b');
    }
  }

  /** One more token: a token with the tag replaces the value so far, any other leaves it. */
  lemma TagFieldSnoc(parts: seq<string>, q: string, letter: char)
    ensures TagField(parts + [q], letter)
         == if StartsWith(q, Tag(letter)) then Some(ValueOf(q, letter)) else TagField(parts, letter)
  {
    assert (parts + [q])[..|parts|] == parts;
  }

  /** A token that starts with white space sets no field: tokens are not trimmed. */
  lemma SpaceTokenNoReading(p: string)
    requires p != [] && IsSpace(p[0])
    ensures TokenReading(p) == NoReading
  {
  }

  /**
   * A token that starts with white space is ignored wherever it stands: in
   * `T:25, W:450` the token ` W:450` leaves the weight as it was.
   */
  lemma UntrimmedTokenIgnored(a: seq<string>, p: string, c: seq<string>)
    requires p != [] && IsSpace(p[0])
    ensures TaggedReading(a + [p] + c) == TaggedReading(a + c)
  {
    forall letter | letter in {'T', 'W', 'S'}
      ensures TagField(a + [p] + c, letter) == TagField(a + c, letter)
    {
      UntrimmedTagIgnored(a, p, c, letter);
    }
  }

  /** The field of one tag, for `UntrimmedTokenIgnored`. */
  lemma {:induction false} UntrimmedTagIgnored(a: seq<string>, p: string, c: seq<string>, letter: char)
    requires p != [] && IsSpace(p[0]) && !IsSpace(letter)
    ensures TagField(a + [p] + c, letter) == TagField(a + c, letter)
    decreases |c|
  {
    assert !StartsWith(p, Tag(letter)) by {
      assert p[0] != letter;
    }
    if c == [] {
      assert a + [p] + c == a + [p];
      assert a + c == a;
      TagFieldSnoc(a, p, letter);
    } else {
      var c' := c[..|c| - 1];
      var x := c[|c| - 1];
      assert a + [p] + c == (a + [p] + c') + [x];
      assert a + c == (a + c') + [x];
      TagFieldSnoc(a + [p] + c', x, letter);
      TagFieldSnoc(a + c', x, letter);
      UntrimmedTagIgnored(a, p, c', letter);
    }
  }

  /**
   * Last write wins: when the token at `k` is the last one carrying the tag, the
   * field takes that token's value whatever earlier tokens said.
   */
  lemma TaggedLastWins(parts: seq<string>, letter: char, k: nat)
    requires letter != ':'
    requires k < |parts| && StartsWith(parts[k], Tag(letter))
    requires forall j :: k < j < |parts| ==> !StartsWith(parts[j], Tag(letter))
    ensures TagField(parts, letter) == Some(UpTo(parts[k][2..], ':'))
  {
    var r := LastTagged(parts, Tag(letter));
    assert r.Some?;
    assert r.value == k;
    TagValueAfterTag(parts[k], letter);
  }

  /** A tag that no token carries gives its field no value. */
  lemma TagAbsent(parts: seq<string>, letter: char)
    requires forall k :: 0 <= k < |parts| ==> !StartsWith(parts[k], Tag(letter))
    ensures TagField(parts, letter) == None
  {
  }

  /** A field with no token of its own keeps its value: temperature, weight and seal alike. */
  lemma TaggedAbsentKeeps(s: Sensors, parts: seq<string>)
    ensures (forall k :: 0 <= k < |parts| ==> !StartsWith(parts[k], "T:")) ==>
      Apply(s, TaggedReading(parts)).temperature == s.temperature
    ensures (forall k :: 0 <= k < |parts| ==> !StartsWith(parts[k], "W:")) ==>
      Apply(s, TaggedReading(parts)).weight == s.weight
    ensures (forall k :: 0 <= k < |parts| ==> !StartsWith(parts[k], "S:")) ==>
      Apply(s, TaggedReading(parts)).isSealed == s.isSealed
  {
    assert Tag('T') == "T:" && Tag('W') == "W:" && Tag('S') == "S:";
  }

  /** `S:` seals only with the value `1`: `S:0`, `S:` and `S:yes` all unseal. */
  lemma TaggedSealIsOne(s: Sensors, parts: seq<string>, k: nat)
    requires k < |parts| && StartsWith(parts[k], "S:")
    requires forall j :: k < j < |parts| ==> !StartsWith(parts[j], "S:")
    ensures Apply(s, TaggedReading(parts)).isSealed <==> UpTo(parts[k][2..], ':') == "1"
  {
    assert Tag('S') == "S:";
    TaggedLastWins(parts, 'S', k);
  }

  /**
   * Only the first three positional fields count: fields after the third change
   * nothing.
   */
  lemma PositionalExtraFieldsIgnored(t: string, w: string, seal: string, extra: seq<string>)
    requires ',' !in t && ',' !in w && ',' !in seal
    requires forall p <- extra :: ',' !in p
    ensures PositionalReading(Split(Join([t, w, seal] + extra, ','), ','))
         == PositionalReading(Split(Join([t, w, seal], ','), ','))
  {
    SplitJoin([t, w, seal] + extra, ',');
    SplitJoin([t, w, seal], ',');
  }

  /** An empty or missing positional field keeps its value: there is no zero default. */
  lemma PositionalMissingKeeps(s: Sensors, parts: seq<string>)
    requires |parts| < 3 || parts[2] == ""
    ensures Apply(s, PositionalReading(parts)).isSealed == s.isSealed
  {
  }

  /** The seal of a positional line is set exactly when the trimmed third field is `1`. */
  lemma PositionalSeal(s: Sensors, parts: seq<string>)
    requires |parts| >= 3 && parts[2] != ""
    ensures Apply(s, PositionalReading(parts)).isSealed <==> Trim(parts[2]) == "1"
  {
  }

  /** A line that holds neither `T:` nor a comma changes no field. */
  lemma UnrecognisedLineKeeps(s: Sensors, line: string)
    requires !Contains(line, "T:") && ',' !in line
    ensures Apply(s, ParseLine(line)) == s
  {
  }

  /**
   * A tagged line without `T:` is not tagged: `W:450,S:1` is read positionally and
   * puts `W:450` into the temperature and `S:1` into the weight.
   */
  lemma TagsWithoutTemperature()
    ensures ParseLine("W:450,S:1") == Reading(Some("W:450"), Some("S:1"), None)
  {
    var line := "W:450,S:1";
    AbsentCharRulesOut(line, "T:", 'T');
    assert line[5] == ',';
    ExampleSplit();
  }

  /** The comma split of `W:450,S:1`. */
  lemma ExampleSplit()
    ensures Split("W:450,S:1", ',') == ["W:450", "S:1"]
  {
    var line := "W:450,S:1";
    assert line[5] == ',';
    assert IndexOf(line, ',') == 5;
    SplitUnfold(line, ',');
    var rest := line[6..];
    assert rest == "S:1";
    assert ',' !in rest by {
      assert rest[0] != ',' && rest[1] != ',' && rest[2] != ',';
    }
    SplitCount(rest, ',');
    assert line[..5] == "W:450";
  }

}
