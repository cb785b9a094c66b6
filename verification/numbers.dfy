/**
 JavaScript numbers, as far as the progress arithmetic needs them.

 A value is either a finite real or not finite (NaN or an infinity). Every
 operation used here (division, scaling, addition) yields a non-finite result
 as soon as one operand is non-finite, and division by zero is non-finite, so
 one constructor stands for both NaN and the infinities.
 */
module Numbers {

  datatype JsNumber = Finite(value: real) | NonFinite

  /** `a / b` */
  function Div(a: real, b: real): (r: JsNumber)
    ensures r.Finite? <==> b != 0.0
    ensures r.Finite? ==> r.value * b == a
  {
    if b == 0.0 then NonFinite else Finite(a / b)
  }

  /** `x * k` for a finite literal `k` */
  function Scale(x: JsNumber, k: real): (r: JsNumber)
    ensures r.Finite? <==> x.Finite?
  {
    match x
    case Finite(v) => Finite(v * k)
    case NonFinite => NonFinite
  }

  /** `x + y` */
  function Add(x: JsNumber, y: JsNumber): (r: JsNumber)
    ensures r.Finite? <==> x.Finite? && y.Finite?
  {
    if x.Finite? && y.Finite? then Finite(x.value + y.value) else NonFinite
  }

  /** Weight of the upload in the overall progress (out of 100). */
  const UploadWeight: real := 25.0
  /** Weight of the converted pages in the overall progress (out of 100). */
  const PagesWeight: real := 75.0

  /**
   `uploadProgress * 25 + (pagesDone / pageCount) * 75`, the overall progress
   both versions of the converter show.
   */
  function WeightedProgress(upload: JsNumber, pagesDone: nat, pageCount: nat): (r: JsNumber)
    ensures r.Finite? <==> upload.Finite? && pageCount > 0
    ensures r.Finite? ==>
      r.value == upload.value * UploadWeight + (pagesDone as real / pageCount as real) * PagesWeight
  {
    Add(Scale(upload, UploadWeight), Scale(Div(pagesDone as real, pageCount as real), PagesWeight))
  }

  /** With the upload finished and every page done the progress is exactly 100. */
  lemma WeightedProgressComplete(n: nat)
    requires n > 0
    ensures WeightedProgress(Finite(1.0), n, n) == Finite(100.0)
  {
    assert n as real / n as real == 1.0;
  }

  /** For an upload fraction in [0, 1] and at most `pageCount` pages, progress stays in [0, 100]. */
  lemma WeightedProgressBounds(u: real, pagesDone: nat, pageCount: nat)
    requires 0.0 <= u <= 1.0 && 0 < pageCount && pagesDone <= pageCount
    ensures var r := WeightedProgress(Finite(u), pagesDone, pageCount);
      r.Finite? && 0.0 <= r.value <= 100.0
  {
    var c := pageCount as real;
    var p := pagesDone as real;
    var q := p / c;
    assert q * c == p;
    assert 0.0 <= q <= 1.0;
  }

  /** With a page still missing the progress stays below 100, whatever the upload fraction. */
  lemma WeightedProgressBelowHundred(u: real, pagesDone: nat, pageCount: nat)
    requires 0.0 <= u <= 1.0 && pagesDone < pageCount
    ensures var r := WeightedProgress(Finite(u), pagesDone, pageCount);
      r.Finite? && r.value < 100.0
  {
    var c := pageCount as real;
    var p := pagesDone as real;
    assert p / c < 1.0;
  }

  /** One more page never lowers the progress. */
  lemma WeightedProgressMonotone(u: real, pagesDone: nat, pageCount: nat)
    requires 0 < pageCount
    ensures WeightedProgress(Finite(u), pagesDone, pageCount).value
         <= WeightedProgress(Finite(u), pagesDone + 1, pageCount).value
  {
    var c := pageCount as real;
    assert (pagesDone + 1) as real / c == pagesDone as real / c + 1.0 / c;
  }
}
