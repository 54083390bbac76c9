/**
 * The naming and labelling rule of the training-set generator
 * (ai_service/generate_dataset.py, `augment_image`): each augmented copy of a source
 * image is written as `{label}_{n}.jpg` with a YOLO label file `{label}_{n}.txt`
 * holding one line, the class (0 sealed, 1 unsealed) and a fixed centred box. The
 * image transforms themselves are not modelled.
 */
module DatasetLabels {
  import opened Text

  /** The fixed box of every label line: centre (0.5, 0.5), size 0.8 by 0.8. */
  const FixedBox := ["0.5", "0.5", "0.8", "0.8"]

  /**
   * The class of a label name: 0 when its lower-cased form contains `sealed` but
   * not `unsealed`, else 1.
   */
  function ClassId(name: string): (id: nat)
    ensures id <= 1
  {
    var lower := ToLower(name);
    if !Contains(lower, "unsealed") && Contains(lower, "sealed") then 0 else 1
  }

  /** The YOLO label line: the class, the fixed box, a newline. */
  function LabelLine(id: nat): (line: string)
    ensures |line| > |NatToString(id)| && line[|NatToString(id)|] == ' '
    ensures line[|line| - 1] == '\n'
  {
    NatToString(id) + " 0.5 0.5 0.8 0.8\n"
  }

  /** The shared stem of an image and its label file. */
  function Stem(name: string, n: int): (stem: string)
    ensures |stem| > |name| && stem[..|name|] == name && stem[|name|] == '_'
    ensures stem[|name| + 1..] == IntToString(n)
  {
    name + "_" + IntToString(n)
  }

  /** One augmented sample: the image file, the label file and the line in it. */
  datatype Sample = Sample(imageName: string, labelName: string, line: string)

  /** The sample written for index `n`. */
  function SampleFor(name: string, n: int): (sample: Sample)
    ensures var stem := Stem(name, n);
      && |sample.imageName| == |sample.labelName| == |stem| + 4
      && sample.imageName[..|stem|] == stem == sample.labelName[..|stem|]
      && sample.imageName[|stem|..] == ".jpg" && sample.labelName[|stem|..] == ".txt"
    ensures sample.line == LabelLine(ClassId(name))
  {
    Sample(Stem(name, n) + ".jpg", Stem(name, n) + ".txt", LabelLine(ClassId(name)))
  }

  /** Lower-casing twice is lower-casing once. */
  lemma ToLowerIdempotent(s: string)
    ensures ToLower(ToLower(s)) == ToLower(s)
  {
  }

  /** The rule ignores case: a label and its lower-cased form get the same class. */
  lemma ClassIdIgnoresCase(name: string)
    ensures ClassId(ToLower(name)) == ClassId(name)
  {
    ToLowerIdempotent(name);
  }

  /** Class 0 exactly when the lower-cased name contains `sealed` and not `unsealed`. */
  lemma ClassIdZeroIff(name: string)
    ensures ClassId(name) == 0 <==>
      Contains(ToLower(name), "sealed") && !Contains(ToLower(name), "unsealed")
  {
  }

  /** A name that contains `unsealed`, in any case, is class 1 even though it also contains `sealed`. */
  lemma UnsealedWins(name: string, i: nat)
    requires OccursAt(ToLower(name), "unsealed", i)
    ensures Contains(ToLower(name), "sealed") && ClassId(name) == 1
  {
    var lower := ToLower(name);
    assert lower[i + 2..i + 8] == lower[i..i + 8][2..] == "sealed";
    assert OccursAt(lower, "sealed", i + 2);
  }

  /** A string of lower-case letters, digits and `_` is its own lower-cased form. */
  lemma LowerFixed(s: string)
    requires forall c <- s :: !('A' <= c <= 'Z')
    ensures ToLower(s) == s
  {
    forall k | 0 <= k < |s| ensures ToLower(s)[k] == s[k] {
      assert s[k] in s;
    }
  }

  /** The names of the sealed sources, `sealed_src{idx}`, are class 0. */
  lemma SealedSourceIsZero(idx: nat)
    ensures ClassId("sealed_src" + NatToString(idx)) == 0
  {
    var s := "sealed_src" + NatToString(idx);
    LowerFixed(s);
    assert OccursAt(s, "sealed", 0);
    assert 'u' !in s by {
      assert forall c <- NatToString(idx) :: c != 'u';
    }
    AbsentCharRulesOut(s, "unsealed", 'u');
  }

  /** The names of the unsealed sources, `unsealed_src{idx}`, are class 1. */
  lemma UnsealedSourceIsOne(idx: nat)
    ensures ClassId("unsealed_src" + NatToString(idx)) == 1
  {
    var s := "unsealed_src" + NatToString(idx);
    LowerFixed(s);
    assert s[0..8] == "unsealed";
    UnsealedWins(s, 0);
  }

  /**
   * The training labels of the sources agree with the validation labels written
   * by hand: `0 0.5 0.5 0.8 0.8` for the sealed ones, `1 ...` for the unsealed ones.
   */
  lemma SourceLabelsMatchValidation(idx: nat)
    ensures LabelLine(ClassId("sealed_src" + NatToString(idx))) == "0 0.5 0.5 0.8 0.8\n"
    ensures LabelLine(ClassId("unsealed_src" + NatToString(idx))) == "1 0.5 0.5 0.8 0.8\n"
  {
    var sealedId := ClassId("sealed_src" + NatToString(idx));
    var unsealedId := ClassId("unsealed_src" + NatToString(idx));
    SealedSourceIsZero(idx);
    UnsealedSourceIsOne(idx);
    ClassLines();
    assert sealedId == 0 && unsealedId == 1;
  }

  /** The label lines of the two classes, written out. */
  lemma ClassLines()
    ensures LabelLine(0) == "0 0.5 0.5 0.8 0.8\n" && LabelLine(1) == "1 0.5 0.5 0.8 0.8\n"
  {
    assert NatToString(0) == "0" && NatToString(1) == "1";
  }

  /** A label line is the class and the fixed box joined by spaces, then a newline. */
  lemma LabelLineJoin(id: nat)
    ensures LabelLine(id) == Join([NatToString(id)] + FixedBox, ' ') + "\n"
  {
    var fields := [NatToString(id)] + FixedBox;
    var b := FixedBox;
    assert b[1..][1..][1..] == ["0.8"];
    assert Join(b[1..][1..], ' ') == "0.8 0.8";
    assert Join(b[1..], ' ') == "0.5 0.8 0.8";
    assert fields[1..] == FixedBox;
  }

  /** A label line, read back: five space-separated fields, the class first, then the box. */
  lemma LabelLineFields(id: nat)
    ensures var line := LabelLine(id);
      line[|line| - 1] == '\n' && Split(line[..|line| - 1], ' ') == [NatToString(id)] + FixedBox
  {
    var digits := NatToString(id);
    var fields := [digits] + FixedBox;
    assert forall p <- fields :: ' ' !in p by {
      assert forall c <- digits :: c != ' ';
      assert forall p <- FixedBox :: ' ' !in p;
    }
    SplitJoin(fields, ' ');
    LabelLineJoin(id);
    var line := LabelLine(id);
    assert line[..|line| - 1] == Join(fields, ' ');
  }

  /** Different indices give different stems, so no two samples share a file. */
  lemma StemInjective(name: string, n: int, m: int)
    requires Stem(name, n) == Stem(name, m)
    ensures n == m
  {
    var k := |name| + 1;
    assert Stem(name, n)[k..] == IntToString(n);
    assert Stem(name, m)[k..] == IntToString(m);
    IntToStringInjective(n, m);
  }

  /** Samples for different indices have different image names. */
  lemma SampleNamesDistinct(name: string, n: int, m: int)
    requires n != m
    ensures SampleFor(name, n).imageName != SampleFor(name, m).imageName
  {
    var a, b := Stem(name, n), Stem(name, m);
    if a + ".jpg" == b + ".jpg" {
      assert a == (a + ".jpg")[..|a|] == (b + ".jpg")[..|b|] == b;
      StemInjective(name, n, m);
    }
  }

  /** Samples named after consecutive indices have pairwise-distinct image names. */
  lemma NamesDistinct(samples: seq<Sample>, name: string, start: int)
    requires forall i :: 0 <= i < |samples| ==> samples[i] == SampleFor(name, start + i)
    ensures forall i, j :: 0 <= i < j < |samples| ==> samples[i].imageName != samples[j].imageName
  {
    forall i, j | 0 <= i < j < |samples|
      ensures samples[i].imageName != samples[j].imageName
    {
      SampleNamesDistinct(name, start + i, start + j);
    }
  }

  /**
   * The `for i in range(count)` loop: `count` samples, the `i`-th one named after
   * index `start + i`, image and label file sharing the stem, no two stems equal.
   */
  method AugmentNames(name: string, count: nat, start: int) returns (samples: seq<Sample>)
    ensures |samples| == count
    ensures forall i :: 0 <= i < count ==> samples[i] == SampleFor(name, start + i)
    ensures forall i, j :: 0 <= i < j < count ==> samples[i].imageName != samples[j].imageName
  {
    samples := [];
    for i := 0 to count
      invariant |samples| == i
      invariant forall k :: 0 <= k < i ==> samples[k] == SampleFor(name, start + k)
    {
      samples := samples + [SampleFor(name, start + i)];
    }
    NamesDistinct(samples, name, start);
  }
}
