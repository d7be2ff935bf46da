/** `formatFileSize`: a byte count as "N bytes", "K.kk KB" or "M.mm MB".

    `formatFileSize` divides a Number by 1024 or 1048576 and calls `toFixed(2)`.
    Dividing an integral Number by a power of two is exact, and
    `Number.prototype.toFixed` (section 21.1.3.3 of ECMA-262) then picks the
    integer n for which n / 100 is closest to the quotient, the larger n on a
    tie, and writes it with two fraction digits. So the whole computation is
    integer arithmetic, modelled exactly here. */
module SizeFormat {
  import opened Js

  const KB: nat := 1024
  const MB: nat := 1048576

  /** |m * den - 100 * num|: how far m / 100 lies from num / den, scaled by 100 * den. */
  function Distance(m: int, num: nat, den: nat): nat {
    if m * den >= 100 * num then m * den - 100 * num else 100 * num - m * den
  }

  /** n is the integer toFixed(2) chooses for x = num / den: n / 100 - x is as
      close to zero as possible, and on a tie n is the larger candidate. */
  ghost predicate IsFixed2Choice(num: nat, den: nat, n: int) {
    forall m: int {:trigger Distance(m, num, den)} ::
      && Distance(n, num, den) <= Distance(m, num, den)
      && (Distance(m, num, den) == Distance(n, num, den) ==> m <= n)
  }

  /** num / den rounded to hundredths, halves up: for den = 1024 this is
      (num * 100 + 512) / 1024, for den = 1048576 (num * 100 + 524288) / 1048576. */
  function Hundredths(num: nat, den: nat): nat
    requires den > 0
  {
    (200 * num + den) / (2 * den)
  }

  lemma MulAtLeast(k: int, d: nat)
    requires k >= 1
    ensures k * d >= d
  {
  }

  /** Rounding halves up is exactly the choice toFixed(2) makes. */
  lemma {:induction false} HundredthsIsFixed2Choice(num: nat, den: nat)
    requires den > 0
    ensures IsFixed2Choice(num, den, Hundredths(num, den))
  {
    var n := Hundredths(num, den);
    var t := 100 * num;
    var e: int := n * den - t;
    assert 200 * num + den == n * (2 * den) + (200 * num + den) % (2 * den);
    assert 0 < 2 * e + den && 2 * e <= den;
    forall m: int
      ensures Distance(n, num, den) <= Distance(m, num, den)
      ensures Distance(m, num, den) == Distance(n, num, den) ==> m <= n
    {
      if m > n {
        MulAtLeast(m - n, den);
        assert m * den - t == e + (m - n) * den;
        assert 2 * Distance(m, num, den) > den;
      } else if m < n {
        MulAtLeast(n - m, den);
        assert m * den - t == e - (n - m) * den;
        assert 2 * Distance(m, num, den) >= den;
      }
    }
  }

  function Zeros(k: nat): (z: JsString)
    ensures |z| == k && forall i :: 0 <= i < k ==> z[i] == '0'
  {
    seq(k, _ => '0')
  }

  /** toFixed(2) for x = n / 100 (below 10^21), step by step as the standard
      writes it: the digits of n, left-padded with zeros to at least three,
      and a point before the last two. */
  function ToFixed2(n: nat): (r: JsString)
    ensures |r| >= 4 && r[|r| - 3] == '.'
  {
    var m := NatToString(n);
    var padded := if |m| <= 2 then Zeros(3 - |m|) + m else m;
    padded[..|padded| - 2] + "." + padded[|padded| - 2..]
  }

  /** Reading toFixed(2)'s text without its point gives back n: every
      other character is a digit, and the integer part has no superfluous
      leading zero. */
  lemma ToFixed2Digits(n: nat)
    ensures var r := ToFixed2(n);
      && (forall i :: 0 <= i < |r| && i != |r| - 3 ==> IsDigit(r[i]))
      && (r[0] == '0' ==> |r| == 4)
    ensures var r := ToFixed2(n); var digits := r[..|r| - 3] + r[|r| - 2..];
      (forall i :: 0 <= i < |digits| ==> IsDigit(digits[i])) && DecimalValue(digits) == n
  {
    var m := NatToString(n);
    var padded := if |m| <= 2 then Zeros(3 - |m|) + m else m;
    DecimalRoundTrip(n);
    if |m| <= 2 {
      DecimalValueLeadingZeros(3 - |m|, m);
    }
    var r := ToFixed2(n);
    assert r == padded[..|padded| - 2] + "." + padded[|padded| - 2..];
    assert r[..|r| - 3] + r[|r| - 2..] == padded;
  }

  /** Zeros in front do not change the number a digit string denotes. */
  lemma {:induction false} DecimalValueLeadingZeros(k: nat, m: JsString)
    requires forall i :: 0 <= i < |m| ==> IsDigit(m[i])
    ensures forall i :: 0 <= i < |Zeros(k) + m| ==> IsDigit((Zeros(k) + m)[i])
    ensures DecimalValue(Zeros(k) + m) == DecimalValue(m)
  {
    var z := Zeros(k) + m;
    if m == [] {
      assert z == Zeros(k);
      ZerosValue(k);
    } else {
      assert z[..|z| - 1] == Zeros(k) + m[..|m| - 1];
      DecimalValueLeadingZeros(k, m[..|m| - 1]);
    }
  }

  lemma {:induction false} ZerosValue(k: nat)
    ensures DecimalValue(Zeros(k)) == 0
  {
    if k > 0 {
      assert Zeros(k)[..k - 1] == Zeros(k - 1);
      ZerosValue(k - 1);
    }
  }

  /** The text toFixed(2) writes is the integer part, a point, and the two
      hundredths digits. */
  lemma {:induction false} ToFixed2Parts(n: nat)
    ensures ToFixed2(n) == NatToString(n / 100) + "." + [DigitChar(n / 10 % 10), DigitChar(n % 10)]
  {
    var m := NatToString(n);
    if n >= 100 {
      assert NatToString(n / 10) == NatToString(n / 100) + [DigitChar(n / 10 % 10)];
      assert m == NatToString(n / 100) + [DigitChar(n / 10 % 10), DigitChar(n % 10)];
    } else if n >= 10 {
      assert NatToString(n / 10) == [DigitChar(n / 10)];
      assert m == [DigitChar(n / 10), DigitChar(n % 10)];
    } else {
      assert m == [DigitChar(n)];
    }
  }

  /** The unit at the end of the text tells the band the size fell in. */
  function FormatFileSize(bytes: nat): (r: JsString)
    ensures |r| >= 7
    ensures bytes < KB <==> r[|r| - 6..] == " bytes"
    ensures KB <= bytes < MB <==> r[|r| - 3..] == " KB"
    ensures MB <= bytes <==> r[|r| - 3..] == " MB"
  {
    if bytes < KB then
      var r := NatToString(bytes) + " bytes";
      assert r[|r| - 6..] == " bytes" && r[|r| - 3..] == "tes";
      r
    else if bytes < MB then
      var r := ToFixed2(Hundredths(bytes, KB)) + " KB";
      assert r[|r| - 3..] == " KB" && r[|r| - 6..][5] == 'B';
      r
    else
      var r := ToFixed2(Hundredths(bytes, MB)) + " MB";
      assert r[|r| - 3..] == " MB" && r[|r| - 6..][5] == 'B';
      r
  }

  /** The three bands: below 1024 the decimal count and " bytes"; below
      1048576 the toFixed(2) choice for bytes / 1024 and " KB"; otherwise
      the choice for bytes / 1048576 and " MB". */
  lemma FormatFileSizeBands(bytes: nat)
    ensures bytes < KB ==>
      && FormatFileSize(bytes) == NatToString(bytes) + " bytes"
      && DecimalValue(NatToString(bytes)) == bytes
    ensures KB <= bytes < MB ==>
      var n := Hundredths(bytes, KB);
      && IsFixed2Choice(bytes, KB, n)
      && FormatFileSize(bytes) == NatToString(n / 100) + "." + [DigitChar(n / 10 % 10), DigitChar(n % 10)] + " KB"
    ensures MB <= bytes ==>
      var n := Hundredths(bytes, MB);
      && IsFixed2Choice(bytes, MB, n)
      && FormatFileSize(bytes) == NatToString(n / 100) + "." + [DigitChar(n / 10 % 10), DigitChar(n % 10)] + " MB"
  {
    if bytes < KB {
      DecimalRoundTrip(bytes);
    } else if bytes < MB {
      HundredthsIsFixed2Choice(bytes, KB);
      ToFixed2Parts(Hundredths(bytes, KB));
    } else {
      HundredthsIsFixed2Choice(bytes, MB);
      ToFixed2Parts(Hundredths(bytes, MB));
    }
  }

  /** Worked values, one in each band. */
  lemma FormatFileSizeBytesExample()
    ensures FormatFileSize(512) == "512 bytes"
  {
    assert NatToString(512) == "512" by {
      assert NatToString(512) == NatToString(51) + [DigitChar(2)];
      assert NatToString(51) == NatToString(5) + [DigitChar(1)];
    }
  }

  lemma FormatFileSizeKbExample()
    ensures FormatFileSize(2048) == "2.00 KB"
  {
    assert Hundredths(2048, KB) == 200;
    ToFixed2OfWhole(2);
  }

  lemma FormatFileSizeMbExample()
    ensures FormatFileSize(3145728) == "3.00 MB"
  {
    assert Hundredths(3145728, MB) == 300;
    ToFixed2OfWhole(3);
  }

  /** A whole number of units below ten renders with ".00". */
  lemma ToFixed2OfWhole(d: nat)
    requires d < 10
    ensures ToFixed2(d * 100) == [DigitChar(d)] + ".00"
  {
    ToFixed2Parts(d * 100);
    assert NatToString(d) == [DigitChar(d)];
  }

  /** The top of the KB band rounds up to "1024.00 KB" rather than
      switching to megabytes. */
  lemma FormatFileSizeTopOfKbBand()
    ensures FormatFileSize(1048575) == "1024.00 KB"
  {
    assert Hundredths(1048575, KB) == 102400;
    ToFixed2OfTopOfKbBand();
  }

  lemma ToFixed2OfTopOfKbBand()
    ensures ToFixed2(102400) == "1024.00"
  {
    ToFixed2Parts(102400);
    assert NatToString(1024) == NatToString(102) + [DigitChar(4)];
    assert NatToString(102) == NatToString(10) + [DigitChar(2)];
    assert NatToString(10) == NatToString(1) + [DigitChar(0)];
  }
}
