/**
 * Text helpers the controller layer relies on: UTF-8 encoding of names and values, the
 * `", ".join` of labelled fields with its inverse, and Python's `str(int)`.
 */
module Text {
  import opened Wrappers
  import opened Bytes

  /** UTF-8 encoding of one Unicode scalar value. */
  function EncodeChar(c: char): (r: bytes)
    ensures 1 <= |r| <= 4
    ensures |r| == 1 <==> c as int < 0x80
    ensures |r| == 1 ==> r[0] == c as int
  {
    var n := c as int;
    if n < 0x80 then [n]
    else if n < 0x800 then [0xC0 + n / 0x40, 0x80 + n % 0x40]
    else if n < 0x1_0000 then [0xE0 + n / 0x1000, 0x80 + (n / 0x40) % 0x40, 0x80 + n % 0x40]
    else [0xF0 + n / 0x4_0000, 0x80 + (n / 0x1000) % 0x40, 0x80 + (n / 0x40) % 0x40, 0x80 + n % 0x40]
  }

  /** `s.encode("UTF-8")`. */
  function Utf8(s: string): (r: bytes)
    ensures |s| <= |r| <= 4 * |s|
  {
    if s == [] then [] else EncodeChar(s[0]) + Utf8(s[1..])
  }

  predicate IsAscii(s: string) {
    forall i | 0 <= i < |s| :: s[i] as int < 0x80
  }

  /** ASCII text encodes one byte per character, each byte the character's code. */
  lemma {:induction false} Utf8Ascii(s: string)
    requires IsAscii(s)
    ensures |Utf8(s)| == |s|
    ensures forall i | 0 <= i < |s| :: Utf8(s)[i] == s[i] as int
  {
    if s != [] {
      assert IsAscii(s[1..]) by {
        forall i | 0 <= i < |s[1..]| ensures s[1..][i] as int < 0x80 {
          assert s[1..][i] == s[i + 1];
        }
      }
      Utf8Ascii(s[1..]);
    }
  }

  /** The encoding of ASCII text, byte for character, stated without recursion. */
  function Ascii(s: string): (r: bytes)
    requires IsAscii(s)
    ensures |r| == |s|
  {
    seq(|s|, i requires 0 <= i < |s| => s[i] as int)
  }

  /** For ASCII text the UTF-8 encoding is the byte-per-character one. */
  lemma {:induction false} Utf8IsAscii(s: string)
    requires IsAscii(s)
    ensures Utf8(s) == Ascii(s)
  {
    Utf8Ascii(s);
  }

  // ---------------------------------------------------------------------------------------
  // ", ".join and its inverse

  const SEP := ", "

  /** `", ".join(fields)`. */
  function Join(fields: seq<string>): string {
    if |fields| == 0 then ""
    else if |fields| == 1 then fields[0]
    else fields[0] + SEP + Join(fields[1..])
  }

  /** Offset of the first `", "` in `s`, if any. */
  function FindSep(s: string): (r: Option<nat>)
    ensures r.Some? ==> r.value + 2 <= |s| && s[r.value] == ',' && s[r.value + 1] == ' '
    decreases |s|
  {
    if |s| < 2 then None
    else if s[0] == ',' && s[1] == ' ' then Some(0)
    else match FindSep(s[1..])
      case None => None
      case Some(i) => Some(i + 1)
  }

  /** `s.split(", ")`. */
  function Split(s: string): seq<string>
    decreases |s|
  {
    match FindSep(s)
    case None => [s]
    case Some(i) => [s[..i]] + Split(s[i + 2..])
  }

  /** The fields of a joined line: none for the empty line, else the `", "`-separated pieces. */
  function SplitFields(s: string): seq<string> {
    if s == "" then [] else Split(s)
  }

  predicate CommaFree(s: string) {
    ',' !in s
  }

  /** A comma-free text holds no separator. */
  lemma FindSepCommaFree(s: string)
    requires CommaFree(s)
    ensures FindSep(s) == None
  {
  }

  /** In `a + ", " + b` with a comma-free `a`, the first separator is the one after `a`. */
  lemma {:induction false} FindSepAfter(a: string, b: string)
    requires CommaFree(a)
    ensures FindSep(a + SEP + b) == Some(|a|)
    decreases |a|
  {
    var s := a + SEP + b;
    if a == [] {
      assert s[0] == ',' && s[1] == ' ';
    } else {
      assert s[0] == a[0] && a[0] != ',';
      assert s[1..] == a[1..] + SEP + b;
      assert CommaFree(a[1..]) by {
        forall i | 0 <= i < |a[1..]| ensures a[1..][i] != ',' {
          assert a[1..][i] == a[i + 1];
        }
      }
      FindSepAfter(a[1..], b);
    }
  }

  /** Splitting a join of comma-free fields gives the fields back, in order. */
  lemma {:induction false} SplitJoin(fields: seq<string>)
    requires |fields| >= 1
    requires forall i | 0 <= i < |fields| :: CommaFree(fields[i])
    ensures Split(Join(fields)) == fields
    decreases |fields|
  {
    if |fields| == 1 {
      FindSepCommaFree(fields[0]);
    } else {
      var rest := Join(fields[1..]);
      FindSepAfter(fields[0], rest);
      var s := fields[0] + SEP + rest;
      assert s[..|fields[0]|] == fields[0];
      assert s[|fields[0]| + 2..] == rest;
      SplitJoin(fields[1..]);
      assert fields == [fields[0]] + fields[1..];
    }
  }

  /** Joining one more field appends a separator and the field. */
  lemma {:induction false} JoinSnoc(fields: seq<string>, f: string)
    requires |fields| >= 1
    ensures Join(fields + [f]) == Join(fields) + SEP + f
    decreases |fields|
  {
    if |fields| == 1 {
      assert (fields + [f])[1..] == [f];
    } else {
      assert (fields + [f])[1..] == fields[1..] + [f];
      JoinSnoc(fields[1..], f);
    }
  }

  // ---------------------------------------------------------------------------------------
  // str(int) and int()

  predicate IsDigit(c: char) {
    '0' <= c <= '9'
  }

  predicate AllDigits(s: string) {
    forall i | 0 <= i < |s| :: IsDigit(s[i])
  }

  function DigitChar(d: int): (c: char)
    requires 0 <= d < 10
    ensures IsDigit(c) && c as int - '0' as int == d
  {
    ('0' as int + d) as char
  }

  /** The decimal digits of `n`, most significant first, with no leading zero. */
  function NatDigits(n: nat): (s: string)
    ensures |s| >= 1 && AllDigits(s)
    ensures |s| > 1 ==> s[0] != '0'
    decreases n
  {
    if n < 10 then [DigitChar(n)] else NatDigits(n / 10) + [DigitChar(n % 10)]
  }

  /** `f"{n}"` for a Python int: a minus sign for negatives, then the digits. */
  function DecimalString(n: int): string {
    if n < 0 then "-" + NatDigits(-n) else NatDigits(n)
  }

  /** The value of a digit string, most significant digit first. */
  function DigitsValue(s: string): nat
    requires AllDigits(s)
  {
    if s == [] then 0 else DigitsValue(s[..|s| - 1]) * 10 + (s[|s| - 1] as int - '0' as int)
  }

  /** A reading of decimal integer text: an optional minus sign and at least one digit. */
  function ParseDecimal(s: string): Option<int> {
    if |s| >= 2 && s[0] == '-' && AllDigits(s[1..]) then Some(0 - DigitsValue(s[1..]))
    else if |s| >= 1 && AllDigits(s) then Some(DigitsValue(s))
    else None
  }

  lemma {:induction false} NatDigitsValue(n: nat)
    ensures DigitsValue(NatDigits(n)) == n
    decreases n
  {
    if n >= 10 {
      var s := NatDigits(n);
      assert s[..|s| - 1] == NatDigits(n / 10);
      NatDigitsValue(n / 10);
    }
  }

  /** Reading back the text of any integer gives the integer. */
  lemma DecimalRoundTrip(n: int)
    ensures ParseDecimal(DecimalString(n)) == Some(n)
  {
    NatDigitsValue(if n < 0 then -n else n);
    if n < 0 {
      assert DecimalString(n)[1..] == NatDigits(-n);
    }
  }
}
