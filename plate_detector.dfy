/**
 * The plate text rules of detection/plate_detector.py: cleaning an OCR
 * string, the plate validator, and the selection `detect_plate` makes
 * among the OCR candidates found in a vehicle's bounding box. The image
 * processing and the OCR engine are inputs: the candidates are given as
 * (text, probability) pairs, and `None` stands for an OCR call that raised.
 */
module PlateReader {
  import opened Wrappers
  import opened PyStr

  /** `str.upper` over a whole text. */
  function UpperAll(s: string): (r: string)
    ensures |r| == |s|
    ensures forall i :: 0 <= i < |s| ==> r[i] == ToUpper(s[i])
  {
    seq(|s|, i requires 0 <= i < |s| => ToUpper(s[i]))
  }

  /** `''.join(c for c in s if c.isalnum())`. */
  function KeepAlnum(s: string): (r: string)
    ensures |r| <= |s|
  {
    if s == [] then []
    else KeepAlnum(s[..|s| - 1]) + (if IsAlnum(s[|s| - 1]) then [s[|s| - 1]] else [])
  }

  /** `clean_plate_text`: upper-case, strip, keep the letters and digits. */
  function CleanPlateText(text: string): string {
    KeepAlnum(Strip(UpperAll(text)))
  }

  /** The characters of a cleaned plate text. */
  predicate PlateChars(s: string) {
    forall i :: 0 <= i < |s| ==> IsUpper(s[i]) || IsDigit(s[i])
  }

  /** `KeepAlnum` keeps only alphanumerics, and only characters of its input that are not lower-case when none is. */
  lemma {:induction false} KeepAlnumChars(s: string)
    requires forall i :: 0 <= i < |s| ==> !IsLower(s[i])
    ensures PlateChars(KeepAlnum(s))
    decreases |s|
  {
    if s != [] {
      KeepAlnumChars(s[..|s| - 1]);
    }
  }

  /** A text of letters and digits is left as it is by `KeepAlnum`. */
  lemma {:induction false} KeepAlnumFixed(s: string)
    requires forall i :: 0 <= i < |s| ==> IsAlnum(s[i])
    ensures KeepAlnum(s) == s
    decreases |s|
  {
    if s != [] {
      KeepAlnumFixed(s[..|s| - 1]);
    }
  }

  /** The output of `clean_plate_text` holds only upper-case letters and digits. */
  lemma CleanPlateChars(text: string)
    ensures PlateChars(CleanPlateText(text))
  {
    var u := UpperAll(text);
    var st := Strip(u);
    var l := StripLeft(u);
    StripLeftShape(u);
    StripRightShape(l);
    assert st == u[|u| - |l|..][..|st|];
    forall i | 0 <= i < |st|
      ensures !IsLower(st[i])
    {
      assert st[i] == u[|u| - |l| + i];
    }
    KeepAlnumChars(st);
  }

  /** The texts `clean_plate_text` leaves unchanged are exactly the texts of upper-case letters and digits. */
  lemma CleanPlateFixed(s: string)
    ensures CleanPlateText(s) == s <==> PlateChars(s)
  {
    if PlateChars(s) {
      assert UpperAll(s) == s;
      if s != [] {
        StripKeeps(s);
      }
      KeepAlnumFixed(s);
    } else {
      CleanPlateChars(s);
    }
  }

  /** Cleaning twice gives what cleaning once gives. */
  lemma CleanPlateIdempotent(text: string)
    ensures CleanPlateText(CleanPlateText(text)) == CleanPlateText(text)
  {
    CleanPlateChars(text);
    CleanPlateFixed(CleanPlateText(text));
  }

  /** `any(c.isalpha() for c in t)`. */
  predicate AnyAlpha(t: string) {
    t != [] && (IsAlpha(t[0]) || AnyAlpha(t[1..]))
  }

  /** `any(c.isdigit() for c in t)`. */
  predicate AnyDigit(t: string) {
    t != [] && (IsDigit(t[0]) || AnyDigit(t[1..]))
  }

  /** `is_valid_plate`: between 4 and 10 characters with a letter and a digit among them. */
  predicate IsValidPlate(text: string) {
    if 4 <= |text| <= 10 then AnyAlpha(text) && AnyDigit(text) else false
  }

  lemma {:induction false} AnyAlphaExists(t: string)
    ensures AnyAlpha(t) <==> exists i :: 0 <= i < |t| && IsAlpha(t[i])
    decreases |t|
  {
    if t != [] {
      AnyAlphaExists(t[1..]);
      if exists i :: 0 <= i < |t| && IsAlpha(t[i]) {
        var i :| 0 <= i < |t| && IsAlpha(t[i]);
        if i > 0 {
          assert t[1..][i - 1] == t[i];
        }
      }
      if AnyAlpha(t[1..]) {
        var i :| 0 <= i < |t[1..]| && IsAlpha(t[1..][i]);
        assert t[i + 1] == t[1..][i];
      }
    }
  }

  lemma {:induction false} AnyDigitExists(t: string)
    ensures AnyDigit(t) <==> exists i :: 0 <= i < |t| && IsDigit(t[i])
    decreases |t|
  {
    if t != [] {
      AnyDigitExists(t[1..]);
      if exists i :: 0 <= i < |t| && IsDigit(t[i]) {
        var i :| 0 <= i < |t| && IsDigit(t[i]);
        if i > 0 {
          assert t[1..][i - 1] == t[i];
        }
      }
      if AnyDigit(t[1..]) {
        var i :| 0 <= i < |t[1..]| && IsDigit(t[1..][i]);
        assert t[i + 1] == t[1..][i];
      }
    }
  }

  /** A plate is valid exactly when it has 4 to 10 characters, one of them a letter and one a digit. */
  lemma IsValidPlateIff(t: string)
    ensures IsValidPlate(t) <==>
              && 4 <= |t| <= 10
              && (exists i :: 0 <= i < |t| && IsAlpha(t[i]))
              && (exists i :: 0 <= i < |t| && IsDigit(t[i]))
  {
    AnyAlphaExists(t);
    AnyDigitExists(t);
  }

  /** Texts the validator accepts and rejects. */
  lemma ValidPlateExamples(eleven: string)
    requires |eleven| == 11
    ensures IsValidPlate("AB12CD")
    ensures !IsValidPlate("1234") && !IsValidPlate("") && !IsValidPlate("A1")
    ensures !IsValidPlate(eleven)
  {
    assert "AB12CD"[1..] == "B12CD" && "B12CD"[1..] == "12CD";
    IsValidPlateIff("1234");
    assert !IsAlpha("1234"[0]) && !IsAlpha("1234"[1]) && !IsAlpha("1234"[2]) && !IsAlpha("1234"[3]);
  }

  /** One result of `reader.readtext`: the recognised text and its probability. */
  datatype Candidate = Candidate(text: string, prob: real)

  /** What `detect_plate` returns: a plate and its probability, or `(None, 0.0)`. */
  datatype Reading = Reading(plate: Option<string>, conf: real)

  const NoPlate: Reading := Reading(None, 0.0)

  /** A candidate is kept when its probability is strictly above the threshold and its cleaned text is a valid plate. */
  predicate Passes(c: Candidate, minConfidence: real) {
    c.prob > minConfidence && IsValidPlate(CleanPlateText(c.text))
  }

  /** The `valid_plates` list: the passing candidates in OCR order, with cleaned texts. */
  function Eligible(cs: seq<Candidate>, minConfidence: real): (vs: seq<Candidate>)
    ensures |vs| <= |cs|
  {
    if cs == [] then []
    else
      var c := cs[|cs| - 1];
      Eligible(cs[..|cs| - 1], minConfidence)
      + if Passes(c, minConfidence) then [Candidate(CleanPlateText(c.text), c.prob)] else []
  }

  /** The head of `valid_plates` after the stable descending sort: the first candidate of highest probability. */
  function Best(vs: seq<Candidate>): (b: Candidate)
    requires vs != []
  {
    if |vs| == 1 then vs[0]
    else
      var b := Best(vs[..|vs| - 1]);
      if vs[|vs| - 1].prob > b.prob then vs[|vs| - 1] else b
  }

  /** The target width of the crop resize, `int(height * (w / h))` with `height = min(200, h)`. */
  function ResizeWidth(w: int, h: int): int
    requires w > 0 && h > 0
  {
    (if h < 200 then h else 200) * w / h
  }

  /** A box lies in the image with positive width and height. */
  predicate BoxFits(imageWidth: int, imageHeight: int, x1: int, y1: int, x2: int, y2: int) {
    !(x1 >= x2 || y1 >= y2 || x1 < 0 || y1 < 0 || x2 > imageWidth || y2 > imageHeight)
  }

  /**
   * What `detect_plate` returns for the box `(x1, y1, x2, y2)` of an image
   * of the given size, when the OCR of the crop gives `ocr`. A box
   * outside the image, a crop the resize refuses (target width 0) and an
   * OCR call that raised all give `(None, 0.0)`.
   */
  function SelectPlate(imageWidth: int, imageHeight: int, x1: int, y1: int, x2: int, y2: int,
                       minConfidence: real, ocr: Option<seq<Candidate>>): Reading
  {
    if !BoxFits(imageWidth, imageHeight, x1, y1, x2, y2) then NoPlate
    else if ResizeWidth(x2 - x1, y2 - y1) == 0 then NoPlate
    else if ocr.None? then NoPlate
    else
      var vs := Eligible(ocr.value, minConfidence);
      if vs == [] then NoPlate else Reading(Some(Best(vs).text), Best(vs).prob)
  }

  /** Some candidate passes exactly when the `valid_plates` list is non-empty. */
  lemma {:induction false} EligibleEmpty(cs: seq<Candidate>, minConfidence: real)
    ensures Eligible(cs, minConfidence) == [] <==> forall i :: 0 <= i < |cs| ==> !Passes(cs[i], minConfidence)
    decreases |cs|
  {
    if cs != [] {
      var init := cs[..|cs| - 1];
      EligibleEmpty(init, minConfidence);
      assert forall i :: 0 <= i < |init| ==> init[i] == cs[i];
    }
  }

  /** The first candidate of highest probability among those that pass, stated on the OCR list itself. */
  predicate FirstMax(cs: seq<Candidate>, minConfidence: real, b: Candidate) {
    && (forall i :: 0 <= i < |cs| && Passes(cs[i], minConfidence) ==> cs[i].prob <= b.prob)
    && exists i :: 0 <= i < |cs| && Passes(cs[i], minConfidence)
                   && b == Candidate(CleanPlateText(cs[i].text), cs[i].prob)
                   && forall j :: 0 <= j < i && Passes(cs[j], minConfidence) ==> cs[j].prob < b.prob
  }

  /** Extending the OCR list by one candidate that does not beat `b` keeps `b` the first maximum. */
  lemma FirstMaxExtend(cs: seq<Candidate>, c: Candidate, minConfidence: real, b: Candidate)
    requires FirstMax(cs, minConfidence, b)
    requires Passes(c, minConfidence) ==> c.prob <= b.prob
    ensures FirstMax(cs + [c], minConfidence, b)
  {
    var s := cs + [c];
    assert forall i :: 0 <= i < |cs| ==> s[i] == cs[i];
    var i :| 0 <= i < |cs| && Passes(cs[i], minConfidence)
             && b == Candidate(CleanPlateText(cs[i].text), cs[i].prob)
             && forall j :: 0 <= j < i && Passes(cs[j], minConfidence) ==> cs[j].prob < b.prob;
    assert s[i] == cs[i];
  }

  /** A first passing candidate is the first maximum. */
  lemma FirstMaxFirst(cs: seq<Candidate>, c: Candidate, minConfidence: real)
    requires forall i :: 0 <= i < |cs| ==> !Passes(cs[i], minConfidence)
    requires Passes(c, minConfidence)
    ensures FirstMax(cs + [c], minConfidence, Candidate(CleanPlateText(c.text), c.prob))
  {
    var s := cs + [c];
    assert forall i :: 0 <= i < |cs| ==> s[i] == cs[i];
    assert s[|cs|] == c;
  }

  /** A passing candidate that beats the earlier maximum becomes the first maximum. */
  lemma FirstMaxBeaten(cs: seq<Candidate>, c: Candidate, minConfidence: real, b: Candidate)
    requires FirstMax(cs, minConfidence, b)
    requires Passes(c, minConfidence) && c.prob > b.prob
    ensures FirstMax(cs + [c], minConfidence, Candidate(CleanPlateText(c.text), c.prob))
  {
    var s := cs + [c];
    assert forall i :: 0 <= i < |cs| ==> s[i] == cs[i];
    assert s[|cs|] == c;
  }

  /** `Eligible` and `Best` after one more candidate. */
  lemma EligibleSnoc(cs: seq<Candidate>, c: Candidate, minConfidence: real)
    ensures var m := Candidate(CleanPlateText(c.text), c.prob);
            Eligible(cs + [c], minConfidence)
            == Eligible(cs, minConfidence) + if Passes(c, minConfidence) then [m] else []
  {
    assert (cs + [c])[..|cs|] == cs;
  }

  lemma BestSnoc(vs: seq<Candidate>, m: Candidate)
    requires vs != []
    ensures Best(vs + [m]) == if m.prob > Best(vs).prob then m else Best(vs)
  {
    assert (vs + [m])[..|vs|] == vs;
  }

  /**
   * The selected plate is the one of highest probability among the passing
   * candidates, and of those tied at that probability it is the earliest in
   * OCR order.
   */
  lemma {:induction false} BestIsFirstMax(cs: seq<Candidate>, minConfidence: real)
    requires Eligible(cs, minConfidence) != []
    ensures FirstMax(cs, minConfidence, Best(Eligible(cs, minConfidence)))
    decreases |cs|
  {
    var init := cs[..|cs| - 1];
    var c := cs[|cs| - 1];
    var m := Candidate(CleanPlateText(c.text), c.prob);
    var e := Eligible(init, minConfidence);
    assert cs == init + [c];
    EligibleSnoc(init, c, minConfidence);
    if !Passes(c, minConfidence) {
      assert Eligible(cs, minConfidence) == e;
      BestIsFirstMax(init, minConfidence);
      FirstMaxExtend(init, c, minConfidence, Best(e));
    } else if e == [] {
      EligibleEmpty(init, minConfidence);
      FirstMaxFirst(init, c, minConfidence);
    } else {
      BestIsFirstMax(init, minConfidence);
      BestSnoc(e, m);
      if c.prob > Best(e).prob {
        FirstMaxBeaten(init, c, minConfidence, Best(e));
      } else {
        FirstMaxExtend(init, c, minConfidence, Best(e));
      }
    }
  }

  /**
   * What `detect_plate` promises: `(None, 0.0)` exactly when the box is
   * unusable, the OCR raised or no candidate passes; otherwise a valid
   * plate whose probability is above the threshold and which is the first
   * candidate of highest probability.
   */
  lemma SelectPlateSpec(imageWidth: int, imageHeight: int, x1: int, y1: int, x2: int, y2: int,
                        minConfidence: real, ocr: Option<seq<Candidate>>)
    ensures var r := SelectPlate(imageWidth, imageHeight, x1, y1, x2, y2, minConfidence, ocr);
            && (r.plate.None? ==> r.conf == 0.0)
            && (r.plate.None? <==>
                  || !BoxFits(imageWidth, imageHeight, x1, y1, x2, y2)
                  || ResizeWidth(x2 - x1, y2 - y1) == 0
                  || ocr.None?
                  || forall i :: 0 <= i < |ocr.value| ==> !Passes(ocr.value[i], minConfidence))
            && (r.plate.Some? ==>
                  && IsValidPlate(r.plate.value) && r.conf > minConfidence
                  && FirstMax(ocr.value, minConfidence, Candidate(r.plate.value, r.conf)))
  {
    var r := SelectPlate(imageWidth, imageHeight, x1, y1, x2, y2, minConfidence, ocr);
    if BoxFits(imageWidth, imageHeight, x1, y1, x2, y2) && ResizeWidth(x2 - x1, y2 - y1) != 0 && ocr.Some? {
      var cs := ocr.value;
      EligibleEmpty(cs, minConfidence);
      if Eligible(cs, minConfidence) != [] {
        BestIsFirstMax(cs, minConfidence);
        var b := Best(Eligible(cs, minConfidence));
        assert b == Candidate(r.plate.value, r.conf);
        var i :| 0 <= i < |cs| && Passes(cs[i], minConfidence)
                 && b == Candidate(CleanPlateText(cs[i].text), cs[i].prob);
      }
    }
  }

  /** A tall, thin crop is resized to width 0, which the resize refuses. */
  lemma ThinCropRefused(ocr: seq<Candidate>)
    ensures ResizeWidth(1, 201) == 0
    ensures SelectPlate(640, 480, 10, 10, 11, 211, 0.6, Some(ocr)) == NoPlate
  {
  }

  /**
   * `detect_plate`: check the box, then walk the OCR results collecting the
   * passing candidates with cleaned texts, then take the first of highest
   * probability.
   */
  method DetectPlate(imageWidth: int, imageHeight: int, x1: int, y1: int, x2: int, y2: int,
                     minConfidence: real, ocr: Option<seq<Candidate>>) returns (r: Reading)
    ensures r == SelectPlate(imageWidth, imageHeight, x1, y1, x2, y2, minConfidence, ocr)
  {
    if x1 >= x2 || y1 >= y2 || x1 < 0 || y1 < 0 || x2 > imageWidth || y2 > imageHeight {
      return NoPlate;
    }
    var h := if y2 - y1 < 200 then y2 - y1 else 200;
    var w := h * (x2 - x1) / (y2 - y1);
    if w == 0 || ocr.None? {
      return NoPlate;
    }
    var valid := CollectPlates(ocr.value, minConfidence);
    if valid == [] {
      return NoPlate;
    }
    var best := PickBest(valid);
    r := Reading(Some(best.text), best.prob);
  }

  /** The loop that fills `valid_plates`: passing candidates, in OCR order, with cleaned texts. */
  method CollectPlates(results: seq<Candidate>, minConfidence: real) returns (valid: seq<Candidate>)
    ensures valid == Eligible(results, minConfidence)
  {
    valid := [];
    var k := 0;
    while k < |results|
      invariant 0 <= k <= |results|
      invariant valid == Eligible(results[..k], minConfidence)
    {
      var c := results[k];
      assert results[..k + 1][..k] == results[..k];
      if c.prob > minConfidence {
        var text := CleanPlateText(c.text);
        if IsValidPlate(text) {
          valid := valid + [Candidate(text, c.prob)];
        }
      }
      k := k + 1;
    }
    assert results[..|results|] == results;
  }

  /** The head of the stably sorted list: a scan keeping the first candidate of highest probability. */
  method PickBest(valid: seq<Candidate>) returns (best: Candidate)
    requires valid != []
    ensures best == Best(valid)
  {
    best := valid[0];
    var j := 1;
    while j < |valid|
      invariant 1 <= j <= |valid|
      invariant best == Best(valid[..j])
    {
      assert valid[..j + 1][..j] == valid[..j];
      if valid[j].prob > best.prob {
        best := valid[j];
      }
      j := j + 1;
    }
    assert valid[..|valid|] == valid;
  }
}
