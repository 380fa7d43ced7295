/**
 The helpers of mrdhelper.py: filling an image header from the acquisition
 header it was reconstructed from, reading parameters out of the serialized
 ICE MiniHeader text, adding image directions to meta attributes and laying
 out an ROI.
 */
module MrdHelper {
  import opened Wrappers
  import opened Text
  import opened Mrd
  import opened ImageIndices

  // ---------------------------------------------------------------------------
  // update_img_header_from_raw

  /**
   The image header with every field that has a counterpart in the raw
   header copied from it, and image type, image index and series index reset
   to their defaults. Without a raw header the image header is returned as is.
   */
  function UpdateImgHeaderFromRaw(img: ImageHeader, raw: Option<AcquisitionHeader>): (r: ImageHeader)
    ensures raw.None? ==> r == img
    ensures raw.Some? ==> CopiedFromRaw(r, raw.value)
    ensures raw.Some? ==> r.imageType == IMTYPE_MAGNITUDE && r.imageIndex == 1 && r.imageSeriesIndex == 0
    ensures KeepsImageOnlyFields(r, img)
  {
    match raw
    case None => img
    case Some(h) =>
      img.(version := h.version, flags := h.flags, measurementUid := h.measurementUid,
           position := h.position, readDir := h.readDir, phaseDir := h.phaseDir,
           sliceDir := h.sliceDir, patientTablePosition := h.patientTablePosition,
           average := h.idx.average, slice := h.idx.slice, contrast := h.idx.contrast,
           phase := h.idx.phase, repetition := h.idx.repetition, setIndex := h.idx.setIndex,
           acquisitionTimeStamp := h.acquisitionTimeStamp,
           physiologyTimeStamp := h.physiologyTimeStamp,
           imageType := IMTYPE_MAGNITUDE, imageIndex := 1, imageSeriesIndex := 0,
           userFloat := h.userFloat, userInt := h.userInt)
  }

  /** Every image header field that has a counterpart in the acquisition header carries its value. */
  predicate CopiedFromRaw(r: ImageHeader, h: AcquisitionHeader) {
    && r.version == h.version && r.flags == h.flags && r.measurementUid == h.measurementUid
    && r.position == h.position && r.readDir == h.readDir && r.phaseDir == h.phaseDir
    && r.sliceDir == h.sliceDir && r.patientTablePosition == h.patientTablePosition
    && r.average == h.idx.average && r.slice == h.idx.slice && r.contrast == h.idx.contrast
    && r.phase == h.idx.phase && r.repetition == h.idx.repetition && r.setIndex == h.idx.setIndex
    && r.acquisitionTimeStamp == h.acquisitionTimeStamp
    && r.physiologyTimeStamp == h.physiologyTimeStamp
    && r.userFloat == h.userFloat && r.userInt == h.userInt
  }

  /** The fields that are filled in when the image is created, not from the raw header. */
  predicate KeepsImageOnlyFields(r: ImageHeader, img: ImageHeader) {
    r.dataType == img.dataType && r.matrixSize == img.matrixSize
    && r.channels == img.channels && r.fieldOfView == img.fieldOfView
  }

  /** Filling a header a second time from the same raw header changes nothing. */
  lemma UpdateIdempotent(img: ImageHeader, raw: Option<AcquisitionHeader>)
    ensures UpdateImgHeaderFromRaw(UpdateImgHeaderFromRaw(img, raw), raw) == UpdateImgHeaderFromRaw(img, raw)
  {
  }

  /**
   Apart from the fields set at image creation, the filled header depends on
   the raw header only: what the image header held before is overwritten.
   */
  lemma UpdateForgetsOldHeader(a: ImageHeader, b: ImageHeader, raw: AcquisitionHeader)
    requires KeepsImageOnlyFields(a, b)
    ensures UpdateImgHeaderFromRaw(a, Some(raw)) == UpdateImgHeaderFromRaw(b, Some(raw))
  {
  }

  /**
   Images filled from acquisitions with the same measurement and the same
   average, slice, contrast, phase, repetition and set counters have the same
   grouping key, so the dispatch loop keeps them in one group under any mask.
   */
  lemma FilledImagesShareKey(a: ImageHeader, b: ImageHeader, ra: AcquisitionHeader, rb: AcquisitionHeader, mask: Indices)
    requires ra.measurementUid == rb.measurementUid
    requires ra.idx.average == rb.idx.average && ra.idx.slice == rb.idx.slice
    requires ra.idx.contrast == rb.idx.contrast && ra.idx.phase == rb.idx.phase
    requires ra.idx.repetition == rb.idx.repetition && ra.idx.setIndex == rb.idx.setIndex
    ensures FromHeader(UpdateImgHeaderFromRaw(a, Some(ra))) == FromHeader(UpdateImgHeaderFromRaw(b, Some(rb)))
    ensures Eq(mask, FromHeader(UpdateImgHeaderFromRaw(a, Some(ra))), FromHeader(UpdateImgHeaderFromRaw(b, Some(rb))))
  {
  }

  // ---------------------------------------------------------------------------
  // Reading the ICE MiniHeader

  /**
   The text a parameter value follows: `<Param`, the kind (`Bool`, `Long`,
   `Double`, `String`), one character (the pattern's unescaped `.`, which
   matches anything but a newline), then `"name">{`.
   */
  function Tag(kind: string, c: char, name: string): (t: string)
    ensures |t| == TagLength(kind, name)
  {
    "<Param" + kind + [c] + "\"" + name + "\">{"
  }

  function TagLength(kind: string, name: string): nat {
    6 + |kind| + 1 + 1 + |name| + 3
  }

  /** A tag for the parameter ends at position p of the text (the look-behind of the pattern holds at p). */
  predicate TagEndsAt(mini: string, kind: string, name: string, p: nat) {
    var n := TagLength(kind, name);
    n <= p <= |mini|
    && mini[p - n + 6 + |kind|] != '\n'
    && mini[p - n..p] == Tag(kind, mini[p - n + 6 + |kind|], name)
  }

  /** The first position at or after `from` where a tag ends. */
  function FirstTag(mini: string, kind: string, name: string, from: nat): (r: Option<nat>)
    requires from <= |mini|
    ensures r.Some? ==> from <= r.value <= |mini| && TagEndsAt(mini, kind, name, r.value)
    ensures r.Some? ==> forall q | from <= q < r.value :: !TagEndsAt(mini, kind, name, q)
    ensures r.None? ==> forall q | from <= q <= |mini| :: !TagEndsAt(mini, kind, name, q)
    decreases |mini| - from
  {
    if TagEndsAt(mini, kind, name, from) then Some(from)
    else if from == |mini| then None
    else FirstTag(mini, kind, name, from + 1)
  }

  /** `re.search`: where the value of the first tag for the parameter starts, if there is one. */
  function Search(mini: string, kind: string, name: string): (r: Option<nat>)
    ensures r.Some? ==> r.value <= |mini| && TagEndsAt(mini, kind, name, r.value)
    ensures r.Some? ==> forall q | 0 <= q < r.value :: !TagEndsAt(mini, kind, name, q)
    ensures r.None? ==> forall q: nat :: !TagEndsAt(mini, kind, name, q)
  {
    FirstTag(mini, kind, name, 0)
  }

  predicate NotCloseBrace(c: char) {
    c != '}'
  }

  /** The text `\s*[^}]*\s*` matches at p: everything up to the next `}` or the end. */
  function BraceFreeCapture(mini: string, p: nat): (r: string)
    requires p <= |mini|
    ensures p + |r| <= |mini| && r == mini[p..p + |r|]
    ensures forall k | 0 <= k < |r| :: r[k] != '}'
    ensures p + |r| == |mini| || mini[p + |r|] == '}'
  {
    mini[p..Span(mini, p, NotCloseBrace)]
  }

  /** The text `\s*\d*\s*` matches at p: whitespace, decimal digits, whitespace. */
  function LongCapture(mini: string, p: nat): (r: string)
    requires p <= |mini|
    ensures p + |r| <= |mini| && r == mini[p..p + |r|]
  {
    var e1 := Span(mini, p, IsSpace);
    var e2 := Span(mini, e1, IsDigit);
    mini[p..Span(mini, e2, IsSpace)]
  }

  /** `extract_minihead_bool_param`: true only when the stripped value is `"true"` in any letter case. */
  function ExtractBool(mini: string, name: string): (r: bool)
    ensures Search(mini, "Bool", name).None? ==> !r
  {
    match Search(mini, "Bool", name)
    case None => false
    case Some(p) => Lower(Trim(BraceFreeCapture(mini, p))) == "\"true\""
  }

  /** `extract_minihead_string_param`: the stripped value, or None without a tag. */
  function ExtractString(mini: string, name: string): (r: Option<string>)
    ensures r.None? <==> Search(mini, "String", name).None?
    ensures r.Some? ==> |r.value| > 0 ==> !IsSpace(r.value[0]) && !IsSpace(r.value[|r.value| - 1])
    ensures r.Some? ==> IsStripOf(r.value, BraceFreeCapture(mini, Search(mini, "String", name).value))
  {
    match Search(mini, "String", name)
    case None => None
    case Some(p) =>
      Some(Trim(BraceFreeCapture(mini, p)))
  }

  /** What the code does with a captured long value: 0 for whitespace only, else `int()` of it. */
  function ReadLong(c: string): (r: Result<Option<int>>)
    ensures r.Success? ==> r.value.Some?
    ensures IsSpaceText(c) ==> r == Success(Some(0))
  {
    if IsSpaceText(c) then Success(Some(0))
    else
      match ParseInt(c)
      case Failure(e) => Failure(e)
      case Success(v) => Success(Some(v))
  }

  /**
   `extract_minihead_long_param`: None without a tag, 0 when the value is
   only whitespace, the number otherwise, and the ValueError of `int('')`
   when the tag is followed by neither whitespace nor a digit.
   */
  function ExtractLong(mini: string, name: string): (r: Result<Option<int>>)
    ensures r == Success(None) <==> Search(mini, "Long", name).None?
  {
    match Search(mini, "Long", name)
    case None => Success(None)
    case Some(p) => ReadLong(LongCapture(mini, p))
  }

  lemma DigitIsNotSpace(c: char)
    requires IsDigit(c)
    ensures !IsSpace(c)
  {
  }

  /** With no digits after the optional whitespace, `\s*\d*\s*` captures that whitespace only. */
  lemma LongCaptureWithoutDigits(mini: string, p: nat)
    requires p <= |mini|
    requires Span(mini, Span(mini, p, IsSpace), IsDigit) == Span(mini, p, IsSpace)
    ensures AllSpace(LongCapture(mini, p))
    ensures LongCapture(mini, p) == mini[p..Span(mini, p, IsSpace)]
  {
    var e1 := Span(mini, p, IsSpace);
    if e1 < |mini| {
      SpanEndsAt(mini, e1, IsSpace, e1);
    }
  }

  /** With digits after the optional whitespace, `int()` of the capture reads exactly those digits. */
  lemma LongCaptureWithDigits(mini: string, p: nat)
    requires p <= |mini|
    requires Span(mini, p, IsSpace) < Span(mini, Span(mini, p, IsSpace), IsDigit)
    ensures var e1 := Span(mini, p, IsSpace);
            var e2 := Span(mini, e1, IsDigit);
            && AllDigits(mini[e1..e2])
            && !IsSpaceText(LongCapture(mini, p))
            && ParseInt(LongCapture(mini, p)) == Success(DigitsValue(mini[e1..e2]))
  {
    var e1 := Span(mini, p, IsSpace);
    var e2 := Span(mini, e1, IsDigit);
    var e3 := Span(mini, e2, IsSpace);
    assert LongCapture(mini, p) == mini[p..e3];
    ThreeSlices(mini, p, e1, e2, e3);
    ParseIntOfPadded(mini[p..e1], mini[e1..e2], mini[e2..e3]);
  }

  /**
   `extract_minihead_long_param` in full: no tag gives None; otherwise, after
   optional whitespace, the decimal digits that follow are the value; with no
   digits the value is 0 if whitespace follows the tag and a ValueError if
   nothing does.
   */
  lemma LongValue(mini: string, name: string)
    ensures var r := ExtractLong(mini, name);
            match Search(mini, "Long", name)
            case None => r == Success(None)
            case Some(p) =>
              var e1 := Span(mini, p, IsSpace);
              var e2 := Span(mini, e1, IsDigit);
              && (e1 == e2 ==> (r.Failure? <==> e1 == p) && (r.Success? ==> r.value == Some(0)))
              && (e1 < e2 ==> r == Success(Some(DigitsValue(mini[e1..e2]))))
  {
    match Search(mini, "Long", name)
    case None =>
    case Some(p) =>
      var e1 := Span(mini, p, IsSpace);
      if e1 == Span(mini, e1, IsDigit) {
        LongCaptureWithoutDigits(mini, p);
        var c := LongCapture(mini, p);
        if |c| == 0 {
          assert Trim(c) == [];
        }
      } else {
        LongCaptureWithDigits(mini, p);
      }
  }

  /** Digits between single spaces, before the closing brace, are captured with those spaces. */
  lemma LongCaptureBetweenSpaces(mini: string, p: nat, d: string)
    requires |d| > 0 && AllDigits(d)
    requires p + |d| + 3 <= |mini| && mini[p..p + |d| + 3] == " " + d + " }"
    ensures LongCapture(mini, p) == " " + d + " "
  {
    var t := mini[p..p + |d| + 3];
    assert mini[p] == t[0] == ' ';
    assert mini[p + 1] == t[1] == d[0];
    DigitIsNotSpace(d[0]);
    SpanEndsAt(mini, p, IsSpace, p + 1);
    assert mini[p + 1..p + |d| + 3] == t[1..] == d + " }";
    DigitsBeforeClose(mini, p + 1, d);
    assert t[..|d| + 2] == " " + d + " ";
  }

  lemma LongFound(mini: string, name: string, p: nat)
    requires Search(mini, "Long", name) == Some(p)
    ensures p <= |mini| && ExtractLong(mini, name) == ReadLong(LongCapture(mini, p))
  {
  }

  /** Digits between single spaces right after the tag, before the closing brace, are the value. */
  lemma LongAt(mini: string, name: string, p: nat, d: string)
    requires Search(mini, "Long", name) == Some(p)
    requires |d| > 0 && AllDigits(d)
    requires p + |d| + 3 <= |mini| && mini[p..p + |d| + 3] == " " + d + " }"
    ensures ExtractLong(mini, name) == Success(Some(DigitsValue(d)))
  {
    LongCaptureBetweenSpaces(mini, p, d);
    ParseIntOfPadded(" ", d, " ");
    LongFound(mini, name, p);
  }

  /** A rendered long parameter reads back as its number. */
  lemma LongRoundTrip(pre: string, name: string, n: nat, post: string)
    requires '<' !in pre
    ensures ExtractLong(pre + Rendered("Long", name, NatToString(n)) + post, name) == Success(Some(n))
  {
    var d := NatToString(n);
    var mini := pre + Rendered("Long", name, d) + post;
    var p := |pre| + TagLength("Long", name);
    CaptureOfRendered(pre, "Long", name, d, post);
    LongAt(mini, name, p, d);
    DigitsValueOfNatToString(n);
  }

  /** A minus sign right after the padding space stops the capture at that space. */
  lemma LongCaptureBeforeMinus(mini: string, p: nat)
    requires p + 2 <= |mini| && mini[p] == ' ' && mini[p + 1] == '-'
    ensures LongCapture(mini, p) == " "
  {
    SpanEndsAt(mini, p, IsSpace, p + 1);
    SpanEndsAt(mini, p + 1, IsDigit, p + 1);
    SpanEndsAt(mini, p + 1, IsSpace, p + 1);
  }

  lemma NoBraceInNumeral(n: int)
    ensures '}' !in IntToString(n)
  {
    var d := NatToString(if n < 0 then -n else n);
    assert forall k | 0 <= k < |d| :: d[k] != '}';
    if n < 0 {
      assert forall k | 0 <= k < |IntToString(n)| :: IntToString(n)[k] == ("-" + d)[k];
    }
  }

  /**
   As written, a negative long parameter reads as 0: `\s*\d*\s*` stops at
   the minus sign, and the whitespace before it counts as an empty value.
   */
  lemma NegativeLongReadsAsZero(pre: string, name: string, n: nat, post: string)
    requires '<' !in pre && n > 0
    ensures ExtractLong(pre + Rendered("Long", name, IntToString(-(n as int))) + post, name) == Success(Some(0))
  {
    var v := IntToString(-(n as int));
    var mini := pre + Rendered("Long", name, v) + post;
    var p := |pre| + TagLength("Long", name);
    NoBraceInNumeral(-(n as int));
    CaptureOfRendered(pre, "Long", name, v, post);
    assert mini[p] == (" " + v + " }")[0] == ' ';
    assert mini[p + 1] == (" " + v + " }")[1] == v[0] == '-';
    LongCaptureBeforeMinus(mini, p);
    LongFound(mini, name, p);
  }

  /** The capture of the corrected pattern `\s*-?\d*\s*`: an optional minus sign before the digits. */
  function SignedLongCapture(mini: string, p: nat): (r: string)
    requires p <= |mini|
    ensures p + |r| <= |mini| && r == mini[p..p + |r|]
  {
    var e1 := Span(mini, p, IsSpace);
    var s := if e1 < |mini| && mini[e1] == '-' then e1 + 1 else e1;
    var e2 := Span(mini, s, IsDigit);
    mini[p..Span(mini, e2, IsSpace)]
  }

  /** `extract_minihead_long_param` with the pattern corrected to accept a minus sign. */
  function ExtractSignedLong(mini: string, name: string): (r: Result<Option<int>>)
    ensures r == Success(None) <==> Search(mini, "Long", name).None?
  {
    match Search(mini, "Long", name)
    case None => Success(None)
    case Some(p) => ReadLong(SignedLongCapture(mini, p))
  }

  /** The corrected reader differs from the original only when a minus sign follows the whitespace. */
  lemma SignedLongAgreesWithoutMinus(mini: string, name: string)
    requires Search(mini, "Long", name).Some?
    requires var e1 := Span(mini, Search(mini, "Long", name).value, IsSpace);
             e1 == |mini| || mini[e1] != '-'
    ensures ExtractSignedLong(mini, name) == ExtractLong(mini, name)
  {
  }

  /** Digits between single spaces are captured alike by the original and the corrected pattern. */
  lemma SignedLongCaptureOfDigits(mini: string, p: nat, d: string)
    requires |d| > 0 && AllDigits(d)
    requires p + |d| + 3 <= |mini| && mini[p..p + |d| + 3] == " " + d + " }"
    ensures SignedLongCapture(mini, p) == " " + d + " "
  {
    assert mini[p + 1] == d[0];
    DigitIsNotSpace(d[0]);
    SpanEndsAt(mini, p, IsSpace, p + 1);
    LongCaptureBetweenSpaces(mini, p, d);
  }

  /** A minus sign and digits between single spaces are captured by the corrected pattern. */
  lemma SignedLongCaptureOfNegative(mini: string, p: nat, d: string)
    requires |d| > 0 && AllDigits(d)
    requires p + |d| + 4 <= |mini| && mini[p..p + |d| + 4] == " -" + d + " }"
    ensures SignedLongCapture(mini, p) == " -" + d + " "
  {
    var t := mini[p..p + |d| + 4];
    assert mini[p] == t[0] == ' ';
    assert mini[p + 1] == t[1] == '-';
    SpanEndsAt(mini, p, IsSpace, p + 1);
    assert mini[p + 2..p + |d| + 4] == t[2..] == d + " }";
    DigitsBeforeClose(mini, p + 2, d);
    assert t[..|d| + 3] == " -" + d + " ";
  }

  /** Digits followed by one space and the closing brace end both runs where expected. */
  lemma DigitsBeforeClose(mini: string, q: nat, d: string)
    requires |d| > 0 && AllDigits(d)
    requires q + |d| + 2 <= |mini| && mini[q..q + |d| + 2] == d + " }"
    ensures Span(mini, q, IsDigit) == q + |d|
    ensures Span(mini, q + |d|, IsSpace) == q + |d| + 1
  {
    var t := mini[q..q + |d| + 2];
    assert forall j | q <= j < q + |d| :: mini[j] == t[j - q] == d[j - q];
    assert mini[q + |d|] == t[|d|] == ' ';
    SpanEndsAt(mini, q, IsDigit, q + |d|);
    assert mini[q + |d| + 1] == t[|d| + 1] == '}';
    SpanEndsAt(mini, q + |d|, IsSpace, q + |d| + 1);
  }

  /** A numeral between single spaces, before the closing brace, is captured with its padding. */
  lemma SignedLongCaptureOfNumeral(mini: string, p: nat, n: int)
    requires var v := IntToString(n); p + |v| + 3 <= |mini| && mini[p..p + |v| + 3] == " " + v + " }"
    ensures SignedLongCapture(mini, p) == " " + IntToString(n) + " "
  {
    var v := IntToString(n);
    var d := NatToString(if n < 0 then -n else n);
    if n < 0 {
      assert v == "-" + d;
      assert " " + v + " }" == " -" + d + " }";
      SignedLongCaptureOfNegative(mini, p, d);
      assert " -" + d + " " == " " + v + " ";
    } else {
      SignedLongCaptureOfDigits(mini, p, d);
    }
  }

  /** The padded text of a numeral reads as the number. */
  lemma ReadLongOfNumeral(n: int)
    ensures ReadLong(" " + IntToString(n) + " ") == Success(Some(n))
  {
    var v := IntToString(n);
    var c := " " + v + " ";
    assert c[1] == v[0];
    assert !IsSpace(v[0]);
    ParseIntOfIntToString(" ", n, " ");
    ReadLongOfParsed(c, n);
  }

  lemma ReadLongOfParsed(c: string, n: int)
    requires !IsSpaceText(c) && ParseInt(c) == Success(n)
    ensures ReadLong(c) == Success(Some(n))
  {
  }

  lemma SignedLongFound(mini: string, name: string, p: nat)
    requires Search(mini, "Long", name) == Some(p)
    ensures p <= |mini| && ExtractSignedLong(mini, name) == ReadLong(SignedLongCapture(mini, p))
  {
  }

  /** A numeral between single spaces right after the tag, before the closing brace, is the corrected value. */
  lemma SignedLongAt(mini: string, name: string, p: nat, n: int)
    requires Search(mini, "Long", name) == Some(p)
    requires var v := IntToString(n); p + |v| + 3 <= |mini| && mini[p..p + |v| + 3] == " " + v + " }"
    ensures ExtractSignedLong(mini, name) == Success(Some(n))
  {
    SignedLongCaptureOfNumeral(mini, p, n);
    ReadLongOfNumeral(n);
    SignedLongFound(mini, name, p);
  }

  /** The corrected reader returns every integer, negative ones included, as it was written. */
  lemma SignedLongRoundTrip(pre: string, name: string, n: int, post: string)
    requires '<' !in pre
    ensures ExtractSignedLong(pre + Rendered("Long", name, IntToString(n)) + post, name) == Success(Some(n))
  {
    NoBraceInNumeral(n);
    CaptureOfRendered(pre, "Long", name, IntToString(n), post);
    SignedLongAt(pre + Rendered("Long", name, IntToString(n)) + post, name, |pre| + TagLength("Long", name), n);
  }

  /**
   `extract_minihead_double_param`, with Python's `float()` passed in as
   `parse` (it receives the captured text, surrounding whitespace included).
   */
  function ExtractDouble(mini: string, name: string, parse: string -> Result<real>): (r: Result<Option<real>>)
    ensures r == Success(None) <==> Search(mini, "Double", name).None?
    ensures Search(mini, "Double", name).Some? ==>
              var c := BraceFreeCapture(mini, Search(mini, "Double", name).value);
              && (IsSpaceText(c) ==> r == Success(Some(0.0)))
              && (!IsSpaceText(c) ==> (r.Success? <==> parse(c).Success?))
              && (!IsSpaceText(c) && r.Success? ==> r.value == Some(parse(c).value))
  {
    match Search(mini, "Double", name)
    case None => Success(None)
    case Some(p) =>
      var c := BraceFreeCapture(mini, p);
      if IsSpaceText(c) then Success(Some(0.0))
      else
        match parse(c)
        case Failure(e) => Failure(e)
        case Success(v) => Success(Some(v))
  }

  /**
   A rendered double parameter reads back as whatever `float()` makes of its
   value with the single spaces around it, which is how the capture reaches it.
   */
  lemma DoubleRoundTrip(pre: string, name: string, value: string, post: string,
                        parse: string -> Result<real>, x: real)
    requires '<' !in pre && '}' !in value
    requires |value| > 0 && !IsSpace(value[0])
    requires parse(" " + value + " ") == Success(x)
    ensures ExtractDouble(pre + Rendered("Double", name, value) + post, name, parse) == Success(Some(x))
  {
    CaptureOfRendered(pre, "Double", name, value, post);
    assert !IsSpaceText(" " + value + " ") by {
      assert (" " + value + " ")[1] == value[0];
    }
  }

  /** A parameter as the MiniHeader writes it: `<ParamKind."name">{ value }`. */
  function Rendered(kind: string, name: string, value: string): string {
    Tag(kind, '.', name) + " " + value + " }"
  }

  /** No tag can end where its `<` would have to lie in a stretch without `<`. */
  lemma NoTagStartsIn(mini: string, kind: string, name: string, lo: nat, q: nat)
    requires lo <= |mini| && '<' !in mini[..lo]
    requires q < lo + TagLength(kind, name)
    ensures !TagEndsAt(mini, kind, name, q)
  {
    var n := TagLength(kind, name);
    if n <= q <= |mini| {
      assert mini[q - n] == mini[..lo][q - n];
      assert mini[q - n..q][0] == mini[q - n];
    }
  }

  /** The rendered tag ends where it is written. */
  lemma RenderedTagEnds(mini: string, kind: string, name: string, at: nat)
    requires at + TagLength(kind, name) <= |mini|
    requires mini[at..at + TagLength(kind, name)] == Tag(kind, '.', name)
    ensures TagEndsAt(mini, kind, name, at + TagLength(kind, name))
  {
    assert mini[at + 6 + |kind|] == Tag(kind, '.', name)[6 + |kind|] == '.';
  }

  /**
   After text without a `<`, the search finds the tag that follows it: no
   earlier tag can end inside a text that has nowhere for a tag to start.
   */
  lemma FoundAfterPlainText(pre: string, kind: string, name: string, rest: string)
    requires '<' !in pre
    ensures Search(pre + Tag(kind, '.', name) + rest, kind, name) == Some(|pre| + TagLength(kind, name))
  {
    var mini := pre + Tag(kind, '.', name) + rest;
    var n := TagLength(kind, name);
    assert mini[..|pre|] == pre;
    assert mini[|pre|..|pre| + n] == Tag(kind, '.', name);
    RenderedTagEnds(mini, kind, name, |pre|);
    forall q | 0 <= q < |pre| + n
      ensures !TagEndsAt(mini, kind, name, q)
    {
      NoTagStartsIn(mini, kind, name, |pre|, q);
    }
  }

  /** Before a closing brace, a value without braces is captured with its padding. */
  lemma BraceFreeOfValue(mini: string, p: nat, value: string)
    requires '}' !in value
    requires p + |value| + 3 <= |mini| && mini[p..p + |value| + 3] == " " + value + " }"
    ensures BraceFreeCapture(mini, p) == " " + value + " "
  {
    var t := mini[p..p + |value| + 3];
    var e := p + |value| + 2;
    assert mini[e] == t[|value| + 2] == '}';
    forall j | p <= j < e
      ensures NotCloseBrace(mini[j])
    {
      assert mini[j] == t[j - p];
      if 0 < j - p <= |value| {
        assert t[j - p] == value[j - p - 1];
      }
    }
    SpanEndsAt(mini, p, NotCloseBrace, e);
    assert mini[p..e] == t[..|value| + 2];
  }

  /** A rendered parameter is written as its tag followed by the padded value and the closing brace. */
  lemma RenderedParts(pre: string, kind: string, name: string, value: string, post: string)
    ensures pre + Rendered(kind, name, value) + post == pre + Tag(kind, '.', name) + (" " + value + " }" + post)
  {
  }

  /** The padded value and the closing brace follow the tag of a rendered parameter. */
  lemma ValueAfterTag(pre: string, kind: string, name: string, value: string, post: string)
    ensures var mini := pre + Rendered(kind, name, value) + post;
            var p := |pre| + TagLength(kind, name);
            p + |value| + 3 <= |mini| && mini[p..p + |value| + 3] == " " + value + " }"
  {
    var tail := " " + value + " }" + post;
    var mini := pre + Tag(kind, '.', name) + tail;
    RenderedParts(pre, kind, name, value, post);
    var p := |pre| + TagLength(kind, name);
    assert mini[p..p + |value| + 3] == tail[..|value| + 3];
  }

  /** The value text of a rendered parameter is what the value capture of the tag returns. */
  lemma CaptureOfRendered(pre: string, kind: string, name: string, value: string, post: string)
    requires '<' !in pre && '}' !in value
    ensures var mini := pre + Rendered(kind, name, value) + post;
            var p := |pre| + TagLength(kind, name);
            && Search(mini, kind, name) == Some(p)
            && p + |value| + 3 <= |mini| && mini[p..p + |value| + 3] == " " + value + " }"
            && BraceFreeCapture(mini, p) == " " + value + " "
  {
    RenderedParts(pre, kind, name, value, post);
    FoundAfterPlainText(pre, kind, name, " " + value + " }" + post);
    ValueAfterTag(pre, kind, name, value, post);
    BraceFreeOfValue(pre + Rendered(kind, name, value) + post, |pre| + TagLength(kind, name), value);
  }

  /** A tag followed by a value with any whitespace, or none, around it gives the value as the string parameter. */
  lemma StringAt(mini: string, name: string, p: nat, a: string, value: string, b: string)
    requires Search(mini, "String", name) == Some(p)
    requires p <= |mini| && BraceFreeCapture(mini, p) == a + value + b
    requires AllSpace(a) && AllSpace(b)
    requires |value| > 0 ==> !IsSpace(value[0]) && !IsSpace(value[|value| - 1])
    ensures ExtractString(mini, name) == Some(value)
  {
    TrimOfPadded(a, value, b);
  }

  /**
   A tag followed by a value with any whitespace, or none, around it gives
   whether the value is `"true"` in some letter case.
   */
  lemma BoolAt(mini: string, name: string, p: nat, a: string, value: string, b: string)
    requires Search(mini, "Bool", name) == Some(p)
    requires p <= |mini| && BraceFreeCapture(mini, p) == a + value + b
    requires AllSpace(a) && AllSpace(b)
    requires |value| > 0 ==> !IsSpace(value[0]) && !IsSpace(value[|value| - 1])
    ensures ExtractBool(mini, name) <==> Lower(value) == "\"true\""
  {
    TrimOfPadded(a, value, b);
    assert Lower(Trim(BraceFreeCapture(mini, p))) == Lower(value);
  }

  /** A rendered string parameter reads back as its value. */
  lemma StringRoundTrip(pre: string, name: string, value: string, post: string)
    requires '<' !in pre && '}' !in value
    requires |value| > 0 ==> !IsSpace(value[0]) && !IsSpace(value[|value| - 1])
    ensures ExtractString(pre + Rendered("String", name, value) + post, name) == Some(value)
  {
    CaptureOfRendered(pre, "String", name, value, post);
    StringAt(pre + Rendered("String", name, value) + post, name, |pre| + TagLength("String", name), " ", value, " ");
  }

  /** A rendered bool parameter reads back as true exactly when its value is `"true"` in some letter case. */
  lemma BoolRoundTrip(pre: string, name: string, value: string, post: string)
    requires '<' !in pre && '}' !in value
    requires |value| > 0 ==> !IsSpace(value[0]) && !IsSpace(value[|value| - 1])
    ensures ExtractBool(pre + Rendered("Bool", name, value) + post, name) <==> Lower(value) == "\"true\""
  {
    CaptureOfRendered(pre, "Bool", name, value, post);
    BoolAt(pre + Rendered("Bool", name, value) + post, name, |pre| + TagLength("Bool", name), " ", value, " ");
  }


  // ---------------------------------------------------------------------------
  // meta_fix_imagedirs

  /** The meta attributes of an image: each key maps to a list of strings. */
  type Meta = map<string, seq<string>>

  const ImageRowDir: string := "ImageRowDir"
  const ImageColumnDir: string := "ImageColumnDir"

  function DirStrings(v: Vec3, fmt: real -> string): seq<string> {
    [fmt(v.x), fmt(v.y), fmt(v.z)]
  }

  /**
   Adds the read direction as `ImageRowDir` and the phase direction as
   `ImageColumnDir`, each only when the key is missing; `fmt` stands for the
   `"{:.18f}".format` conversion.
   */
  function MetaFixImageDirs(meta: Meta, head: ImageHeader, fmt: real -> string): (r: Meta)
    ensures ImageRowDir in r && ImageColumnDir in r
    ensures ImageRowDir in meta ==> r[ImageRowDir] == meta[ImageRowDir]
    ensures ImageRowDir !in meta ==> r[ImageRowDir] == DirStrings(head.readDir, fmt)
    ensures ImageColumnDir in meta ==> r[ImageColumnDir] == meta[ImageColumnDir]
    ensures ImageColumnDir !in meta ==> r[ImageColumnDir] == DirStrings(head.phaseDir, fmt)
    ensures forall k | k != ImageRowDir && k != ImageColumnDir :: (k in r <==> k in meta)
    ensures forall k | k in meta && k != ImageRowDir && k != ImageColumnDir :: r[k] == meta[k]
  {
    var m := if ImageRowDir in meta then meta else meta[ImageRowDir := DirStrings(head.readDir, fmt)];
    if ImageColumnDir in m then m else m[ImageColumnDir := DirStrings(head.phaseDir, fmt)]
  }

  /** Fixing the directions twice is the same as fixing them once. */
  lemma MetaFixIdempotent(meta: Meta, head: ImageHeader, fmt: real -> string)
    ensures MetaFixImageDirs(MetaFixImageDirs(meta, head, fmt), head, fmt) == MetaFixImageDirs(meta, head, fmt)
  {
    var once := MetaFixImageDirs(meta, head, fmt);
    var twice := MetaFixImageDirs(once, head, fmt);
    assert twice.Keys == once.Keys;
  }

  /** Meta attributes that already carry both directions are left alone, whatever the header says. */
  lemma MetaFixKeepsPresent(meta: Meta, head: ImageHeader, fmt: real -> string)
    requires ImageRowDir in meta && ImageColumnDir in meta
    ensures MetaFixImageDirs(meta, head, fmt) == meta
  {
  }

  // ---------------------------------------------------------------------------
  // create_roi

  /**
   The numbers of an MRD ROI: colour, thickness, style and visibility, then
   the points as x, y pairs. Python takes `y[i]` for every index of `x`, so
   a `y` shorter than `x` raises IndexError and extra `y` values are ignored.
   */
  function RoiNumbers(x: seq<real>, y: seq<real>, rgb: (real, real, real), thickness: real, style: int, visibility: int): (r: Result<seq<real>>)
    ensures r.Success? <==> |y| >= |x|
    ensures r.Success? ==> |r.value| == 6 + 2 * |x|
    ensures r.Success? ==> r.value[..6] == [rgb.0, rgb.1, rgb.2, thickness, style as real, visibility as real]
  {
    if |y| < |x| then Failure("index out of range")
    else Success([rgb.0, rgb.1, rgb.2, thickness, style as real, visibility as real] + Interleave(x, y))
  }

  /** x[0], y[0], x[1], y[1], ... for the first |x| entries of y. */
  function Interleave(x: seq<real>, y: seq<real>): (r: seq<real>)
    requires |y| >= |x|
    ensures |r| == 2 * |x|
  {
    if |x| == 0 then [] else [x[0], y[0]] + Interleave(x[1..], y[1..])
  }

  /** Reads the points back from the x, y pairs of an ROI. */
  function Points(v: seq<real>): (r: seq<(real, real)>)
    requires |v| % 2 == 0
    ensures |r| == |v| / 2
  {
    if |v| == 0 then [] else [(v[0], v[1])] + Points(v[2..])
  }

  /** The point list of an ROI is the pairs of x and y. */
  lemma {:induction false} PointsOfInterleave(x: seq<real>, y: seq<real>)
    requires |y| >= |x|
    ensures forall i | 0 <= i < |x| :: Points(Interleave(x, y))[i] == (x[i], y[i])
  {
    if |x| > 0 {
      PointsOfInterleave(x[1..], y[1..]);
      var v := Interleave(x, y);
      assert v[2..] == Interleave(x[1..], y[1..]);
    }
  }

  /** Reading the ROI back gives the points it was made from. */
  lemma RoiRoundTrip(x: seq<real>, y: seq<real>, rgb: (real, real, real), thickness: real, style: int, visibility: int)
    requires |y| >= |x|
    ensures var r := RoiNumbers(x, y, rgb, thickness, style, visibility);
            && r.Success?
            && |Points(r.value[6..])| == |x|
            && forall i | 0 <= i < |x| :: Points(r.value[6..])[i] == (x[i], y[i])
  {
    var r := RoiNumbers(x, y, rgb, thickness, style, visibility);
    assert r.value[6..] == Interleave(x, y);
    PointsOfInterleave(x, y);
  }

  /**
   `create_roi`: the ROI as the list of strings stored in a meta attribute,
   each number converted with `fmt`, which stands for `'%f' %`.
   */
  method CreateRoi(x: seq<real>, y: seq<real>, rgb: (real, real, real), thickness: real, style: int, visibility: int, fmt: real -> string)
    returns (r: Result<seq<string>>)
    ensures r.Success? <==> |y| >= |x|
    ensures r.Success? ==> |r.value| == 6 + 2 * |x|
    ensures r.Success? ==> r.value[..6] == [fmt(rgb.0), fmt(rgb.1), fmt(rgb.2), fmt(thickness), fmt(style as real), fmt(visibility as real)]
    ensures r.Success? ==> forall i | 0 <= i < |x| :: r.value[6 + 2 * i] == fmt(x[i]) && r.value[7 + 2 * i] == fmt(y[i])
  {
    if |y| < |x| {
      return Failure("index out of range");
    }
    var roi := [fmt(rgb.0), fmt(rgb.1), fmt(rgb.2), fmt(thickness), fmt(style as real), fmt(visibility as real)];
    var i := 0;
    while i < |x|
      invariant 0 <= i <= |x|
      invariant |roi| == 6 + 2 * i
      invariant roi[..6] == [fmt(rgb.0), fmt(rgb.1), fmt(rgb.2), fmt(thickness), fmt(style as real), fmt(visibility as real)]
      invariant forall j | 0 <= j < i :: roi[6 + 2 * j] == fmt(x[j]) && roi[7 + 2 * j] == fmt(y[j])
    {
      roi := roi + [fmt(x[i]), fmt(y[i])];
      i := i + 1;
    }
    return Success(roi);
  }
}
