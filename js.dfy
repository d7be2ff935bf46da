/** The few JavaScript built-ins the application's logic relies on. */
module Js {

  /** A JavaScript string: one element per UTF-16 code unit, which is what
      `length` and `substring` count. A Dafny `char` is a Unicode scalar
      value and cannot be a lone surrogate, so this is a relabelling of code
      units rather than an encoding: a string with characters outside the
      Basic Multilingual Plane, or a `substring` that cuts a surrogate pair
      in half, is not represented literally. The logic here only compares
      strings with ASCII literals and cuts them by length, which the
      relabelling preserves. */
  type JsString = seq<char>

  datatype Option<+T> = None | Some(value: T)

  /** A Web `File`, in the browser or in a multipart body: its name, its
      declared MIME type and its size in bytes. */
  datatype WebFile = WebFile(name: JsString, mimeType: JsString, size: nat)

  /** The MIME type both the browser and the upload endpoint accept. */
  const PdfType: JsString := "application/pdf"

  /** No two elements share an id. */
  predicate IdsDistinct<T>(xs: seq<T>, id: T -> JsString) {
    forall i, j :: 0 <= i < j < |xs| ==> id(xs[i]) != id(xs[j])
  }

  /** Index of the first element satisfying `p`, as `Array.prototype.find`
      and `findIndex` locate it. */
  function FindFirst<T>(s: seq<T>, p: T -> bool): (r: Option<nat>)
    ensures r.Some? ==> r.value < |s| && p(s[r.value])
    ensures r.Some? ==> forall j :: 0 <= j < r.value ==> !p(s[j])
    ensures r.None? ==> forall j :: 0 <= j < |s| ==> !p(s[j])
  {
    if s == [] then None
    else if p(s[0]) then Some(0)
    else match FindFirst(s[1..], p)
      case None => None
      case Some(i) => Some(i + 1)
  }

  /** Elements after the first match do not affect what `find` returns. */
  lemma {:induction false} FindFirstAppend<T>(s: seq<T>, more: seq<T>, p: T -> bool)
    requires exists i :: 0 <= i < |s| && p(s[i])
    ensures FindFirst(s + more, p) == FindFirst(s, p)
  {
    if !p(s[0]) {
      var i :| 0 <= i < |s| && p(s[i]);
      assert (s + more)[1..] == s[1..] + more;
      assert p(s[1..][i - 1]);
      FindFirstAppend(s[1..], more, p);
    }
  }

  predicate IsDigit(c: char) {
    '0' <= c <= '9'
  }

  function DigitValue(c: char): nat
    requires IsDigit(c)
  {
    c as int - '0' as int
  }

  function DigitChar(d: nat): (c: char)
    requires d < 10
    ensures IsDigit(c) && DigitValue(c) == d
  {
    ('0' as int + d) as char
  }

  /** Decimal text of a non-negative integral Number below 10^21, as
      `String(n)` and template literals render it: digits only, no leading
      zero. (From 10^21 on JavaScript switches to exponent form; no size or
      count here comes near that.) */
  function NatToString(n: nat): (s: JsString)
    ensures |s| >= 1
    ensures forall i :: 0 <= i < |s| ==> IsDigit(s[i])
    ensures s[0] == '0' ==> n == 0
  {
    if n < 10 then [DigitChar(n)] else NatToString(n / 10) + [DigitChar(n % 10)]
  }

  /** The number a string of decimal digits denotes. */
  function DecimalValue(s: JsString): nat
    requires forall i :: 0 <= i < |s| ==> IsDigit(s[i])
  {
    if s == [] then 0 else DecimalValue(s[..|s| - 1]) * 10 + DigitValue(s[|s| - 1])
  }

  /** Rendering a number in decimal loses nothing. */
  lemma {:induction false} DecimalRoundTrip(n: nat)
    ensures DecimalValue(NatToString(n)) == n
  {
    if n >= 10 {
      var s := NatToString(n);
      assert s[..|s| - 1] == NatToString(n / 10);
      DecimalRoundTrip(n / 10);
    }
  }

  /** Different numbers render differently. */
  lemma NatToStringInjective(m: nat, n: nat)
    requires NatToString(m) == NatToString(n)
    ensures m == n
  {
    DecimalRoundTrip(m);
    DecimalRoundTrip(n);
  }
}
