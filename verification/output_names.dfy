/**
 * The names of the extracted frame files: string.Format("{0:D6}.{1}", n, ext),
 * the frame number in decimal, left-padded with zeros to at least six
 * digits, then a dot and the extension.
 */
module OutputNames {

  predicate IsDigit(c: char)
  {
    '0' <= c <= '9'
  }

  predicate AllDigits(s: string)
  {
    forall i :: 0 <= i < |s| ==> IsDigit(s[i])
  }

  /** The value of a string of decimal digits, most significant digit first. */
  function DecimalValue(s: string): (v: nat)
    requires AllDigits(s)
  {
    if |s| == 0 then 0
    else DecimalValue(s[..|s| - 1]) * 10 + (s[|s| - 1] as int - '0' as int)
  }

  /** The shortest decimal spelling of n: the "D" format without a width. */
  function Decimal(n: nat): (s: string)
    ensures 1 <= |s|
    ensures AllDigits(s)
    ensures DecimalValue(s) == n
    ensures n > 0 ==> s[0] != '0'
  {
    var last := ('0' as int + n % 10) as char;
    if n < 10 then [last]
    else
      var s := Decimal(n / 10) + [last];
      assert s[..|s| - 1] == Decimal(n / 10);
      s
  }

  /** n zeros. */
  function Zeros(n: nat): (z: string)
    ensures |z| == n
    ensures forall i :: 0 <= i < n ==> z[i] == '0'
  {
    if n == 0 then [] else Zeros(n - 1) + ['0']
  }

  /** Leading zeros do not change the value of a decimal string. */
  lemma {:induction false} LeadingZerosValue(z: nat, s: string)
    requires AllDigits(s)
    ensures AllDigits(Zeros(z) + s)
    ensures DecimalValue(Zeros(z) + s) == DecimalValue(s)
    decreases |s|
  {
    var t := Zeros(z) + s;
    assert AllDigits(t) by {
      forall i | 0 <= i < |t|
        ensures IsDigit(t[i])
      {
        if i >= z {
          assert t[i] == s[i - z];
        }
      }
    }
    if |s| == 0 {
      assert t == Zeros(z);
      ZerosValue(z);
    } else {
      var init := s[..|s| - 1];
      LeadingZerosValue(z, init);
      assert t[..|t| - 1] == Zeros(z) + init;
    }
  }

  /** A run of zeros is worth 0. */
  lemma {:induction false} ZerosValue(z: nat)
    ensures AllDigits(Zeros(z))
    ensures DecimalValue(Zeros(z)) == 0
  {
    if z > 0 {
      ZerosValue(z - 1);
      assert Zeros(z)[..z - 1] == Zeros(z - 1);
    }
  }

  /** The "D6" format: the decimal spelling of n, left-padded with zeros to six digits. */
  function FormatD6(n: nat): (s: string)
    ensures |s| == if |Decimal(n)| < 6 then 6 else |Decimal(n)|
    ensures AllDigits(s)
    ensures DecimalValue(s) == n
    ensures 6 < |s| ==> s[0] != '0'
  {
    var d := Decimal(n);
    if |d| < 6 then
      LeadingZerosValue(6 - |d|, d);
      Zeros(6 - |d|) + d
    else d
  }

  /** The name of the output file of frame number n. */
  function FrameFileName(n: nat, extension: string): (name: string)
  {
    FormatD6(n) + "." + extension
  }

  /** The digits before the first dot of a frame file name spell the frame number, and the extension follows the dot. */
  lemma FrameFileNameParts(n: nat, extension: string)
    ensures var name := FrameFileName(n, extension);
      var dot := |FormatD6(n)|;
      && 6 <= dot < |name|
      && name[dot] == '.'
      && AllDigits(name[..dot])
      && DecimalValue(name[..dot]) == n
      && name[dot + 1..] == extension
      && (forall i :: 0 <= i < dot ==> name[i] != '.')
  {
    var name := FrameFileName(n, extension);
    var dot := |FormatD6(n)|;
    assert name[..dot] == FormatD6(n);
    assert name[dot + 1..] == extension;
  }

  /** Different frame numbers get different file names, whatever the extension. */
  lemma {:induction false} FrameFileNamesDistinct(n: nat, m: nat, extension: string)
    requires n != m
    ensures FrameFileName(n, extension) != FrameFileName(m, extension)
  {
    FrameFileNameParts(n, extension);
    FrameFileNameParts(m, extension);
  }

  /** The first frame file and a frame number wider than six digits. */
  lemma FrameFileNameExamples()
    ensures FrameFileName(1, "bmp") == "000001.bmp"
    ensures FrameFileName(42, "jpg") == "000042.jpg"
    ensures FrameFileName(1234567, "png") == "1234567.png"
  {
  }
}
