/** Python string primitives the scripts rely on: `str.isspace`, `str.strip`,
    `str.join`, the `in` substring test and decimal formatting of an index. */
module Text {
  import opened Seqs

  /** Python's `str.isspace()` for one character: the code points that `str.split()`
      and `str.strip()` with no argument treat as whitespace. */
  predicate IsSpace(c: char) {
    || c == ' ' || ('\t' <= c <= '\r') || ('\U{1C}' <= c <= '\U{1F}')
    || c == '\U{85}' || c == '\U{A0}' || c == '\U{1680}'
    || ('\U{2000}' <= c <= '\U{200A}') || c == '\U{2028}' || c == '\U{2029}'
    || c == '\U{202F}' || c == '\U{205F}' || c == '\U{3000}'
  }

  /** Every character is whitespace (`not s.strip()` in Python). */
  predicate IsBlank(s: string) {
    forall i | 0 <= i < |s| :: IsSpace(s[i])
  }

  /** Number of leading whitespace characters. */
  function LeadingSpace(s: string): (n: nat)
    ensures n <= |s|
    ensures forall i | 0 <= i < n :: IsSpace(s[i])
    ensures n < |s| ==> !IsSpace(s[n])
  {
    if |s| == 0 || !IsSpace(s[0]) then 0 else 1 + LeadingSpace(s[1..])
  }

  /** Number of trailing whitespace characters. */
  function TrailingSpace(s: string): (n: nat)
    ensures n <= |s|
    ensures forall i | |s| - n <= i < |s| :: IsSpace(s[i])
    ensures n < |s| ==> !IsSpace(s[|s| - n - 1])
  {
    if |s| == 0 || !IsSpace(s[|s| - 1]) then 0 else 1 + TrailingSpace(s[..|s| - 1])
  }

  /** Python's `str.strip()`: the slice between the leading and the trailing whitespace. */
  function Strip(s: string): (r: string)
    ensures |r| <= |s|
    ensures |r| > 0 ==> !IsSpace(r[0]) && !IsSpace(r[|r| - 1])
    ensures r == [] <==> IsBlank(s)
    ensures exists i | 0 <= i <= |s| - |r| :: (s[i..i + |r|] == r
      && IsBlank(s[..i]) && IsBlank(s[i + |r|..]))
  {
    var a := LeadingSpace(s);
    var b := if a == |s| then 0 else TrailingSpace(s[a..]);
    StripSlice(s, a, b);
    s[a..|s| - b]
  }

  /** The slice between `a` leading and `b` trailing whitespace characters, where the
      character after the leading run and the one before the trailing run are not
      whitespace, is what `Strip` promises. */
  lemma StripSlice(s: string, a: nat, b: nat)
    requires a <= |s|
    requires forall i | 0 <= i < a :: IsSpace(s[i])
    requires a < |s| ==> !IsSpace(s[a])
    requires a == |s| ==> b == 0
    requires a < |s| ==> b == TrailingSpace(s[a..])
    ensures a + b <= |s|
    ensures var r := s[a..|s| - b];
      && (|r| > 0 ==> !IsSpace(r[0]) && !IsSpace(r[|r| - 1]))
      && (r == [] <==> IsBlank(s))
      && s[a..a + |r|] == r && IsBlank(s[..a]) && IsBlank(s[a + |r|..])
  {
    if a < |s| {
      var t := s[a..];
      assert b < |t| by {
        assert !IsSpace(t[0]);
      }
      assert forall i | |t| - b <= i < |t| :: IsSpace(t[i]);
      assert !IsSpace(t[|t| - b - 1]);
      var r := s[a..|s| - b];
      assert r == t[..|t| - b];
      assert s[a + |r|..] == t[|t| - b..];
      assert !IsSpace(r[0]);
      assert !IsBlank(s) by {
        assert !IsSpace(s[a]);
      }
    } else {
      assert s[a..|s| - b] == [];
    }
  }

  /** Python's `sep.join(pieces)`. */
  function Join(pieces: seq<string>, sep: string): string {
    if |pieces| == 0 then ""
    else if |pieces| == 1 then pieces[0]
    else pieces[0] + sep + Join(pieces[1..], sep)
  }

  /** Joining two non-empty runs of pieces puts one separator between their joins. */
  lemma {:induction false} JoinAppend(a: seq<string>, b: seq<string>, sep: string)
    requires |a| > 0 && |b| > 0
    ensures Join(a + b, sep) == Join(a, sep) + sep + Join(b, sep)
  {
    if |a| == 1 {
      assert (a + b)[1..] == b;
    } else {
      assert (a + b)[1..] == a[1..] + b;
      JoinAppend(a[1..], b, sep);
    }
  }

  /** Python's `sub in s` for strings. */
  predicate Contains(s: string, sub: string) {
    exists i | 0 <= i <= |s| - |sub| :: OccursAt(s, sub, i)
  }

  /** `sub` occurs in `s` starting at index `i`. */
  predicate OccursAt(s: string, sub: string, i: int) {
    0 <= i <= |s| - |sub| && s[i..i + |sub|] == sub
  }

  /** The decimal digit for `d`. */
  function DigitChar(d: nat): char
    requires d < 10
  {
    ['0', '1', '2', '3', '4', '5', '6', '7', '8', '9'][d]
  }

  predicate IsDigit(c: char) {
    '0' <= c <= '9'
  }

  /** Python's `f"{n}"` for a non-negative integer. */
  function Decimal(n: nat): (r: string)
    ensures |r| > 0
    ensures forall i | 0 <= i < |r| :: IsDigit(r[i])
  {
    if n < 10 then [DigitChar(n)] else Decimal(n / 10) + [DigitChar(n % 10)]
  }

  /** The number a string of decimal digits denotes (Python's `int(s)`). */
  function DecimalValue(s: string): nat
    requires forall i | 0 <= i < |s| :: IsDigit(s[i])
  {
    if |s| == 0 then 0
    else
      var last := s[|s| - 1];
      assert IsDigit(last);
      10 * DecimalValue(s[..|s| - 1]) + (last as int - '0' as int)
  }

  /** Reading back a formatted index gives the index. */
  lemma {:induction false} DecimalRoundTrip(n: nat)
    ensures DecimalValue(Decimal(n)) == n
  {
    if n >= 10 {
      var s := Decimal(n);
      assert s[..|s| - 1] == Decimal(n / 10);
      DecimalRoundTrip(n / 10);
    }
  }

  /** Distinct indices format to distinct strings. */
  lemma DecimalInjective(m: nat, n: nat)
    requires Decimal(m) == Decimal(n)
    ensures m == n
  {
    DecimalRoundTrip(m);
    DecimalRoundTrip(n);
  }
}
