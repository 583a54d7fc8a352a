/** The formatting helpers: a byte count as "<number> <unit>" in powers of
    1024, the "W x H" dimension text, and the metadata record built for an
    uploaded file once its dimensions are known. */
module Helpers {
  import opened Types
  import opened NumberText

  const K: nat := 1024
  const SizeUnits: seq<string> := ["Bytes", "KB", "MB", "GB"]

  function Pow(b: nat, e: nat): (r: nat)
    ensures b > 0 ==> r > 0
  {
    if e == 0 then 1 else b * Pow(b, e - 1)
  }

  lemma {:induction false} PowMonotone(b: nat, i: nat, j: nat)
    requires b > 0 && i <= j
    ensures Pow(b, i) <= Pow(b, j)
  {
    if i < j {
      PowMonotone(b, i, j - 1);
      assert Pow(b, j) == b * Pow(b, j - 1);
    }
  }

  lemma UnitStep(bytes: nat, j: nat)
    requires bytes >= K
    requires Pow(K, j) <= bytes / K < Pow(K, j + 1)
    ensures Pow(K, j + 1) <= bytes < Pow(K, j + 2)
  {
    var q := bytes / K;
    assert K * q <= bytes < K * (q + 1);
    assert Pow(K, j + 1) == K * Pow(K, j);
    assert Pow(K, j + 2) == K * Pow(K, j + 1);
    assert K * Pow(K, j) <= K * q;
    assert K * (q + 1) <= K * Pow(K, j + 1);
  }

  /** The unit index: the exponent of the largest power of 1024 not above
      `bytes`, which is what `floor(log(bytes) / log(1024))` stands for. */
  function UnitIndex(bytes: nat): (i: nat)
    requires bytes > 0
    ensures Pow(K, i) <= bytes < Pow(K, i + 1)
  {
    if bytes < K then 0
    else
      var j := UnitIndex(bytes / K);
      UnitStep(bytes, j);
      j + 1
  }

  /** No larger exponent qualifies. */
  lemma UnitIndexIsLargest(bytes: nat, j: nat)
    requires bytes > 0 && Pow(K, j) <= bytes
    ensures j <= UnitIndex(bytes)
  {
    var i := UnitIndex(bytes);
    if j > i {
      PowMonotone(K, i + 1, j);
    }
  }

  /** `sizes[i]`; past the table JavaScript yields `undefined`, which the
      string concatenation prints as the word "undefined". */
  function UnitName(i: nat): (name: string)
    ensures i < |SizeUnits| ==> name == SizeUnits[i]
    ensures name == "undefined" <==> i >= |SizeUnits|
  {
    if i < |SizeUnits| then SizeUnits[i] else "undefined"
  }

  function FormatFileSize(bytes: nat): (r: string)
    ensures bytes == 0 ==> r == "0 Bytes"
  {
    if bytes == 0 then "0 Bytes"
    else
      var i := UnitIndex(bytes);
      ShortHundredths(RoundHalfUp(100 * bytes, Pow(K, i))) + " " + UnitName(i)
  }

  /** Below one kilobyte the count is printed as it is, in "Bytes". */
  lemma FormatFileSizeSmall(bytes: nat)
    requires 0 < bytes < K
    ensures FormatFileSize(bytes) == NatToString(bytes) + " Bytes"
  {
    assert UnitIndex(bytes) == 0;
    assert Pow(K, 0) == 1;
    var h := RoundHalfUp(100 * bytes, 1);
    assert h == 100 * bytes;
    ShortHundredthsWhole(bytes);
    assert UnitName(0) == "Bytes";
    assert FormatFileSize(bytes) == ShortHundredths(h) + " " + UnitName(0);
    assert ShortHundredths(h) == NatToString(bytes);
    assert NatToString(bytes) + " " + "Bytes" == NatToString(bytes) + " Bytes";
  }

  /** The general shape of the text: a number, one space and the unit of
      the largest power of 1024 not above `bytes`; the number reads back
      as `bytes / 1024^i` rounded to the nearest hundredth, it starts with
      the whole part's plain digits (no leading zero but for "0"), and it
      carries at most two decimals with no trailing zero. */
  lemma FormatFileSizeParts(bytes: nat) returns (number: string, h: nat, i: nat)
    requires bytes > 0
    ensures FormatFileSize(bytes) == number + " " + UnitName(i)
    ensures Pow(K, i) <= bytes < Pow(K, i + 1)
    ensures forall j: nat :: Pow(K, j) <= bytes ==> j <= i
    ensures ParseHundredths(number) == Some(h)
    ensures 2 * Pow(K, i) * h <= 200 * bytes + Pow(K, i) < 2 * Pow(K, i) * (h + 1)
    ensures '.' in number ==> number[|number| - 1] != '0'
    ensures |NatToString(h / 100)| <= |number| && number[..|NatToString(h / 100)|] == NatToString(h / 100)
    ensures |number| > 0 && (number[0] == '0' ==> h < 100)
  {
    i := UnitIndex(bytes);
    h := RoundHalfUp(100 * bytes, Pow(K, i));
    number := ShortHundredths(h);
    ShortHundredthsRoundTrip(h);
    ShortHundredthsLeads(h);
    forall j: nat | Pow(K, j) <= bytes
      ensures j <= i
    {
      UnitIndexIsLargest(bytes, j);
    }
  }

  /** Rounding can carry a value just under the next power up to "1024":
      1048575 bytes print as "1024 KB", not "1 MB". */
  lemma FormatFileSizeCarry()
    ensures FormatFileSize(1048575) == "1024 KB"
  {
    assert UnitIndex(1048575 / K) == 0;
    assert UnitIndex(1048575) == 1;
    assert Pow(K, 1) == 1024;
    var h := RoundHalfUp(104857500, 1024);
    assert h == 102400;
    ShortHundredthsWhole(1024);
    assert NatToString(1024) == "1024";
  }

  /** The "W x H" text shown for an image. */
  function DimensionsText(width: nat, height: nat): (s: string)
    ensures var k := |NatToString(width)|;
      && |s| > k + 3 && s[k..k + 3] == " x "
      && AllDigits(s[..k]) && DigitsValue(s[..k]) == width
      && AllDigits(s[k + 3..]) && DigitsValue(s[k + 3..]) == height
  {
    var w, h := NatToString(width), NatToString(height);
    NatToStringValue(width);
    NatToStringValue(height);
    assert (w + " x " + h)[..|w|] == w;
    assert (w + " x " + h)[|w| + 3..] == h;
    w + " x " + h
  }

  /** Position of the first space in `s`, or |s| when there is none. */
  function FirstSpace(s: string): (k: nat)
    ensures k <= |s|
    ensures forall j :: 0 <= j < k ==> s[j] != ' '
    ensures k < |s| ==> s[k] == ' '
  {
    if s == [] then 0 else if s[0] == ' ' then 0 else 1 + FirstSpace(s[1..])
  }

  /** Reads "W x H" text back into the two dimensions. */
  function ParseDimensions(s: string): Option<(nat, nat)>
  {
    var k := FirstSpace(s);
    if 0 < k && k + 3 < |s| && s[k..k + 3] == " x " && AllDigits(s[..k]) && AllDigits(s[k + 3..]) then
      Some((DigitsValue(s[..k]), DigitsValue(s[k + 3..])))
    else
      None
  }

  lemma {:induction false} FirstSpaceAfterDigits(a: string, b: string)
    requires AllDigits(a)
    ensures FirstSpace(a + b) == |a| + FirstSpace(b)
  {
    if a != [] {
      assert IsDigit(a[0]) && (a + b)[0] == a[0];
      assert (a + b)[1..] == a[1..] + b;
      assert AllDigits(a[1..]) by {
        forall i | 0 <= i < |a| - 1 ensures IsDigit(a[1..][i]) {
          assert a[1..][i] == a[i + 1];
        }
      }
      FirstSpaceAfterDigits(a[1..], b);
      assert (a + b)[0] != ' ';
      assert FirstSpace(a + b) == 1 + FirstSpace((a + b)[1..]);
    } else {
      assert a + b == b;
    }
  }

  /** Two non-empty digit strings joined by " x " read back as their
      values. */
  lemma ParseJoinedDigits(a: string, b: string)
    requires |a| > 0 && |b| > 0 && AllDigits(a) && AllDigits(b)
    ensures ParseDimensions(a + " x " + b) == Some((DigitsValue(a), DigitsValue(b)))
  {
    var s := a + " x " + b;
    assert s == a + (" x " + b);
    FirstSpaceAfterDigits(a, " x " + b);
    assert FirstSpace(" x " + b) == 0;
    assert s[..|a|] == a;
    assert s[|a|..|a| + 3] == " x ";
    assert s[|a| + 3..] == b;
  }

  lemma DimensionsRoundTrip(width: nat, height: nat)
    ensures ParseDimensions(DimensionsText(width, height)) == Some((width, height))
  {
    ParseJoinedDigits(NatToString(width), NatToString(height));
    NatToStringValue(width);
    NatToStringValue(height);
  }

  /** The metadata recorded for an uploaded file once its image has
      loaded: the file's name and formatted size, and the decoded
      dimensions both as text and as numbers. */
  function MetadataOf(fileName: string, fileSize: nat, width: nat, height: nat): (m: ImageMetadata)
    ensures m.name == fileName && m.width == width && m.height == height
    ensures ParseDimensions(m.dimensions) == Some((width, height))
    ensures m.size == FormatFileSize(fileSize)
    ensures fileSize == 0 ==> m.size == "0 Bytes"
  {
    DimensionsRoundTrip(width, height);
    ImageMetadata(fileName, FormatFileSize(fileSize), DimensionsText(width, height), width, height)
  }
}
