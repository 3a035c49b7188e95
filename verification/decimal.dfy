/** Canonical decimal strings. JavaScript addresses array elements through
    property keys, and only the canonical decimal spelling of an index
    ("0", "7", "12" — not "07" or "+1") names an element. The same spelling is
    what `String(n)` produces for a non-negative integer. */
module Decimal {
  import opened Wrappers

  predicate IsDigit(c: char) {
    '0' <= c <= '9'
  }

  function DigitValue(c: char): nat
    requires IsDigit(c)
  {
    (c as int - '0' as int) as nat
  }

  function DigitChar(d: nat): (c: char)
    requires d < 10
    ensures IsDigit(c) && DigitValue(c) == d
  {
    ('0' as int + d) as char
  }

  predicate AllDigits(s: string) {
    forall i :: 0 <= i < |s| ==> IsDigit(s[i])
  }

  /** The value of a string of digits, most significant first. */
  function DigitsValue(s: string): nat
    requires AllDigits(s)
    decreases |s|
  {
    if |s| == 0 then 0 else DigitsValue(s[..|s| - 1]) * 10 + DigitValue(s[|s| - 1])
  }

  /** Non-empty, digits only, and no leading zero unless the string is "0". */
  predicate IsCanonical(s: string) {
    |s| >= 1 && AllDigits(s) && (s[0] == '0' ==> |s| == 1)
  }

  /** `String(n)` for a non-negative integer. */
  function NatToString(n: nat): (s: string)
    ensures |s| >= 1 && AllDigits(s)
    decreases n
  {
    if n < 10 then [DigitChar(n)] else NatToString(n / 10) + [DigitChar(n % 10)]
  }

  /** The largest array index, 2^32 - 2: an array's length is an unsigned
      32-bit integer, so a canonical key of 2^32 - 1 or more names an
      ordinary property of the array rather than an element. */
  const MaxIndex: nat := 4294967294

  /** The array index a property key names, if it names one. */
  function ParseIndex(k: string): (r: Option<nat>)
  {
    if IsCanonical(k) && DigitsValue(k) <= MaxIndex then Some(DigitsValue(k)) else None
  }

  /** Rendering a natural gives a canonical string that reads back as that
      natural; it names an array index exactly when it is at most `MaxIndex`. */
  lemma {:induction false} ParseRender(n: nat)
    ensures IsCanonical(NatToString(n)) && DigitsValue(NatToString(n)) == n
    ensures ParseIndex(NatToString(n)) == if n <= MaxIndex then Some(n) else None
    decreases n
  {
    var s := NatToString(n);
    if n >= 10 {
      ParseRender(n / 10);
      var p := NatToString(n / 10);
      assert s[..|s| - 1] == p;
      assert s[0] == p[0];
      assert p[0] != '0';
      assert DigitsValue(p) == n / 10;
      assert s[|s| - 1] == DigitChar(n % 10);
      assert DigitsValue(s) == DigitsValue(p) * 10 + n % 10;
      assert IsCanonical(s);
    }
  }

  /** A canonical key is the rendering of the index it names. */
  lemma {:induction false} RenderParse(k: string)
    requires IsCanonical(k)
    ensures NatToString(DigitsValue(k)) == k
    decreases |k|
  {
    if |k| >= 2 {
      var p := k[..|k| - 1];
      assert IsCanonical(p);
      LeadingNonZero(p);
      RenderParse(p);
      var n := DigitsValue(k);
      assert n / 10 == DigitsValue(p);
      assert n % 10 == DigitValue(k[|k| - 1]);
      assert DigitChar(DigitValue(k[|k| - 1])) == k[|k| - 1];
      assert k == p + [k[|k| - 1]];
    } else {
      assert DigitChar(DigitValue(k[0])) == k[0];
    }
  }

  /** A digit string that does not start with '0' has a positive value. */
  lemma {:induction false} LeadingNonZero(s: string)
    requires |s| >= 1 && AllDigits(s) && s[0] != '0'
    ensures DigitsValue(s) >= 1
    decreases |s|
  {
    if |s| >= 2 {
      LeadingNonZero(s[..|s| - 1]);
    }
  }

  /** Two keys naming the same index are the same key. */
  lemma ParseIndexInjective(k1: string, k2: string)
    requires ParseIndex(k1).Some? && ParseIndex(k1) == ParseIndex(k2)
    ensures k1 == k2
  {
    RenderParse(k1);
    RenderParse(k2);
  }
}
