/** The JavaScript string operations the core relies on: `trim()`, the
    relational operator `<` on strings, `String(n)` for a count and
    `padStart(n, '0')`. */
module JsString {

  /** The characters `String.prototype.trim` removes: the ECMAScript
      WhiteSpace set (tab, vertical tab, form feed, space, no-break space,
      byte order mark, every space separator of category Zs) and the
      LineTerminator set (line feed, carriage return, U+2028, U+2029).
      Among ASCII characters these are tab through carriage return and the
      space: no printable ASCII character is trimmed. */
  predicate IsWhitespace(c: char)
    ensures c < '\U{0080}' ==> (IsWhitespace(c) <==> '\t' <= c <= '\r' || c == ' ')
    ensures c == '\U{3000}' ==> IsWhitespace(c)
  {
    || c == '\t' || c == '\n' || c == '\U{000B}' || c == '\U{000C}' || c == '\r'
    || c == ' ' || c == '\U{00A0}' || c == '\U{1680}'
    || ('\U{2000}' <= c <= '\U{200A}')
    || c == '\U{2028}' || c == '\U{2029}' || c == '\U{202F}' || c == '\U{205F}'
    || c == '\U{3000}' || c == '\U{FEFF}'
  }

  predicate AllWhitespace(s: string) {
    forall i :: 0 <= i < |s| ==> IsWhitespace(s[i])
  }

  /** Length of the longest all-whitespace prefix of `s`. */
  function LeadingWhitespace(s: string): (k: nat)
    ensures k <= |s|
    ensures forall i :: 0 <= i < k ==> IsWhitespace(s[i])
    ensures k < |s| ==> !IsWhitespace(s[k])
  {
    if s == [] || !IsWhitespace(s[0]) then 0 else 1 + LeadingWhitespace(s[1..])
  }

  /** Length of the longest all-whitespace suffix of `s`. */
  function TrailingWhitespace(s: string): (k: nat)
    ensures k <= |s|
    ensures forall i :: |s| - k <= i < |s| ==> IsWhitespace(s[i])
    ensures k < |s| ==> !IsWhitespace(s[|s| - 1 - k])
  {
    if s == [] || !IsWhitespace(s[|s| - 1]) then 0
    else 1 + TrailingWhitespace(s[..|s| - 1])
  }

  /** `s.trim()`: `s` without its leading and trailing whitespace. The
      result is the slice of `s` starting after the whitespace prefix; what
      lies around it is whitespace, and it neither starts nor ends with
      whitespace. */
  function Trim(s: string): (r: string)
    ensures |r| <= |s|
    ensures LeadingWhitespace(s) + |r| <= |s|
    ensures r == s[LeadingWhitespace(s)..LeadingWhitespace(s) + |r|]
    ensures forall i :: 0 <= i < LeadingWhitespace(s) ==> IsWhitespace(s[i])
    ensures forall i :: LeadingWhitespace(s) + |r| <= i < |s| ==> IsWhitespace(s[i])
    ensures r != [] ==> !IsWhitespace(r[0]) && !IsWhitespace(r[|r| - 1])
    ensures r == [] <==> AllWhitespace(s)
  {
    var k := LeadingWhitespace(s);
    var t := s[k..];
    var r := t[..|t| - TrailingWhitespace(t)];
    assert r != [] ==> r[0] == s[k];
    r
  }

  /** A string that neither starts nor ends with whitespace is its own trim. */
  lemma TrimOfTrimmed(s: string)
    requires s != [] ==> !IsWhitespace(s[0]) && !IsWhitespace(s[|s| - 1])
    ensures Trim(s) == s
  {
    var r := Trim(s);
    if s != [] {
      assert LeadingWhitespace(s) == 0;
    }
  }

  /** Trimming twice is trimming once. */
  lemma TrimIdempotent(s: string)
    ensures Trim(Trim(s)) == Trim(s)
  {
    TrimOfTrimmed(Trim(s));
  }

  /** Lexicographic order stated without recursion: `a` is a proper prefix
      of `b`, or at the first position where they differ `a` has the
      smaller character. */
  ghost predicate LexBelow(a: string, b: string) {
    || (|a| < |b| && a == b[..|a|])
    || (exists k :: 0 <= k < |a| && k < |b| && a[..k] == b[..k] && a[k] < b[k])
  }

  /** JavaScript's `a < b` on strings: comparison by character code, one
      position at a time, where a proper prefix is smaller. It is the
      lexicographic order. */
  predicate Less(a: string, b: string)
    ensures Less(a, b) <==> LexBelow(a, b)
  {
    if a == [] then
      assert b != [] ==> b[..0] == a;
      b != []
    else if b == [] then false
    else
      LexBelowFirst(a, b);
      if a[0] != b[0] then a[0] < b[0] else Less(a[1..], b[1..])
  }

  /** How `LexBelow` is decided by the first characters. */
  lemma LexBelowFirst(a: string, b: string)
    requires a != [] && b != []
    ensures a[0] != b[0] ==> (LexBelow(a, b) <==> a[0] < b[0])
    ensures a[0] == b[0] ==> (LexBelow(a, b) <==> LexBelow(a[1..], b[1..]))
  {
    if a[0] != b[0] {
      if a[0] < b[0] { assert a[..0] == b[..0]; }
    } else {
      var a', b' := a[1..], b[1..];
      if |a| < |b| {
        assert a == b[..|a|] <==> a' == b'[..|a'|] by {
          assert a == [a[0]] + a';
          assert b[..|a|] == [b[0]] + b'[..|a'|];
        }
      }
      if exists k :: 0 <= k < |a| && k < |b| && a[..k] == b[..k] && a[k] < b[k] {
        var k :| 0 <= k < |a| && k < |b| && a[..k] == b[..k] && a[k] < b[k];
        assert k > 0;
        assert a'[..k - 1] == a[1..k] == b[1..k] == b'[..k - 1];
        assert a'[k - 1] < b'[k - 1];
      }
      if exists k :: 0 <= k < |a'| && k < |b'| && a'[..k] == b'[..k] && a'[k] < b'[k] {
        var k :| 0 <= k < |a'| && k < |b'| && a'[..k] == b'[..k] && a'[k] < b'[k];
        assert a[..k + 1] == [a[0]] + a'[..k] && b[..k + 1] == [b[0]] + b'[..k];
        assert a[k + 1] < b[k + 1];
      }
    }
  }

  lemma {:induction false} LessIrreflexive(a: string)
    ensures !Less(a, a)
  {
    if a != [] { LessIrreflexive(a[1..]); }
  }

  lemma {:induction false} LessTransitive(a: string, b: string, c: string)
    requires Less(a, b) && Less(b, c)
    ensures Less(a, c)
  {
    if a != [] && b != [] && c != [] && a[0] == b[0] && b[0] == c[0] {
      LessTransitive(a[1..], b[1..], c[1..]);
    }
  }

  /** Distinct strings are always ordered one way or the other, so
      `!(a < b)`, which is JavaScript's `a >= b`, means `b < a || a == b`. */
  lemma {:induction false} LessTotal(a: string, b: string)
    ensures a == b || Less(a, b) || Less(b, a)
  {
    if a != [] && b != [] && a[0] == b[0] {
      LessTotal(a[1..], b[1..]);
      if a[1..] == b[1..] {
        assert a == [a[0]] + a[1..] && b == [b[0]] + b[1..];
      }
    }
  }

  predicate IsDigit(c: char) { '0' <= c <= '9' }

  function DigitValue(c: char): nat
    requires IsDigit(c)
  {
    c as int - '0' as int
  }

  /** A time of day as an HTML time input yields it: "HH:MM", zero padded,
      hours 00-23 and minutes 00-59. */
  predicate IsTimeOfDay(s: string) {
    && |s| == 5
    && IsDigit(s[0]) && IsDigit(s[1]) && s[2] == ':' && IsDigit(s[3]) && IsDigit(s[4])
    && DigitValue(s[0]) * 10 + DigitValue(s[1]) < 24
    && DigitValue(s[3]) < 6
  }

  /** Minutes since midnight of an "HH:MM" time. */
  function MinuteOfDay(s: string): (m: nat)
    requires IsTimeOfDay(s)
    ensures m < 24 * 60
  {
    (DigitValue(s[0]) * 10 + DigitValue(s[1])) * 60 + DigitValue(s[3]) * 10 + DigitValue(s[4])
  }

  /** Two strings of equal length that first differ at `k` compare as
      their characters at `k` do. */
  lemma {:induction false} LessAtFirstDifference(a: string, b: string, k: nat)
    requires |a| == |b| && k < |a|
    requires a[..k] == b[..k] && a[k] != b[k]
    ensures Less(a, b) <==> a[k] < b[k]
  {
    if k > 0 {
      assert a[0] == a[..k][0] && b[0] == b[..k][0];
      assert a[1..][..k - 1] == a[..k][1..] && b[1..][..k - 1] == b[..k][1..];
      LessAtFirstDifference(a[1..], b[1..], k - 1);
    }
  }

  /** For well-formed "HH:MM" values, string order is chronological order. */
  lemma TimeOrder(a: string, b: string)
    requires IsTimeOfDay(a) && IsTimeOfDay(b)
    ensures Less(a, b) <==> MinuteOfDay(a) < MinuteOfDay(b)
  {
    if a == b {
      LessIrreflexive(a);
    } else if a[0] != b[0] {
      LessAtFirstDifference(a, b, 0);
    } else if a[1] != b[1] {
      LessAtFirstDifference(a, b, 1);
    } else if a[3] != b[3] {
      LessAtFirstDifference(a, b, 3);
    } else {
      assert a[4] != b[4] by {
        assert a == [a[0], a[1], a[2], a[3], a[4]] && b == [b[0], b[1], b[2], b[3], b[4]];
      }
      LessAtFirstDifference(a, b, 4);
    }
  }

  /** The decimal digit for `d`. */
  function DigitChar(d: nat): (c: char)
    requires d < 10
    ensures IsDigit(c) && DigitValue(c) == d
  {
    ('0' as int + d) as char
  }

  /** `String(n)` for a natural number: its decimal digits, without leading
      zeros. */
  function Decimal(n: nat): (s: string)
    ensures 0 < |s|
    ensures forall i :: 0 <= i < |s| ==> IsDigit(s[i])
    decreases n
  {
    if n < 10 then [DigitChar(n)] else Decimal(n / 10) + [DigitChar(n % 10)]
  }

  /** The number a string of decimal digits denotes. */
  function DigitsValue(s: string): nat
    requires forall i :: 0 <= i < |s| ==> IsDigit(s[i])
  {
    if s == [] then 0 else DigitsValue(s[..|s| - 1]) * 10 + DigitValue(s[|s| - 1])
  }

  /** Reading back `String(n)` gives `n`. */
  lemma {:induction false} DecimalRoundTrip(n: nat)
    ensures DigitsValue(Decimal(n)) == n
    decreases n
  {
    if n >= 10 {
      DecimalRoundTrip(n / 10);
      var s := Decimal(n);
      assert s[..|s| - 1] == Decimal(n / 10);
    } else {
      assert Decimal(n)[..0] == [];
    }
  }

  /** `s.padStart(n, c)` with a one-character pad: `s` itself when it has at
      least `n` characters, otherwise `s` preceded by enough copies of `c` to
      reach length `n`. */
  function PadStart(s: string, n: nat, c: char): (r: string)
    ensures |r| == if |s| >= n then |s| else n
    ensures r[|r| - |s|..] == s
    ensures forall i :: 0 <= i < |r| - |s| ==> r[i] == c
  {
    if |s| >= n then s else seq(n - |s|, _ => c) + s
  }

  /** Leading zeros do not change the value of a digit string. */
  lemma {:induction false} LeadingZerosValue(z: string, s: string)
    requires forall i :: 0 <= i < |z| ==> z[i] == '0'
    requires forall i :: 0 <= i < |s| ==> IsDigit(s[i])
    ensures forall i :: 0 <= i < |z + s| ==> IsDigit((z + s)[i])
    ensures DigitsValue(z + s) == DigitsValue(s)
    decreases |s|
  {
    if s == [] {
      assert z + s == z;
      ZerosValue(z);
    } else {
      var t := z + s;
      assert t[..|t| - 1] == z + s[..|s| - 1];
      LeadingZerosValue(z, s[..|s| - 1]);
    }
  }

  lemma {:induction false} ZerosValue(z: string)
    requires forall i :: 0 <= i < |z| ==> z[i] == '0'
    ensures DigitsValue(z) == 0
  {
    if z != [] { ZerosValue(z[..|z| - 1]); }
  }

  /** Zero padding `String(n)` keeps its value, so distinct numbers stay
      distinct after padding. */
  lemma PaddedDecimalValue(n: nat, width: nat)
    ensures forall i :: 0 <= i < |PadStart(Decimal(n), width, '0')| ==> IsDigit(PadStart(Decimal(n), width, '0')[i])
    ensures DigitsValue(PadStart(Decimal(n), width, '0')) == n
  {
    var s := Decimal(n);
    var r := PadStart(s, width, '0');
    assert r == r[..|r| - |s|] + s;
    LeadingZerosValue(r[..|r| - |s|], s);
    DecimalRoundTrip(n);
  }
}
