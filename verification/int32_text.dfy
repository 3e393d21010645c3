/**
 * Decimal text of 32-bit signed integers, as .NET writes and reads it:
 * `int.ToString()` with an invariant-style culture ("-" as negative sign, no
 * group separators) and `int.TryParse(string, out int)`, whose default style
 * is NumberStyles.Integer: optional leading and trailing white space, an
 * optional leading sign and at least one decimal digit, rejected when the
 * value does not fit in 32 bits.
 */
module Int32Text {
  import opened Wrappers

  const MinInt32: int := -0x8000_0000
  const MaxInt32: int := 0x7fff_ffff

  type int32 = x: int | MinInt32 <= x <= MaxInt32

  predicate IsDigit(c: char) { '0' <= c <= '9' }

  /** White space NumberStyles.Integer skips: U+0009 to U+000D and U+0020. */
  predicate IsWhite(c: char) { c == ' ' || '\t' <= c <= '\r' }

  predicate IsSign(c: char) { c == '+' || c == '-' }

  predicate AllDigits(s: string) {
    forall i :: 0 <= i < |s| ==> IsDigit(s[i])
  }

  function DigitValue(c: char): (d: nat)
    requires IsDigit(c)
    ensures d < 10
  {
    c as int - '0' as int
  }

  function DigitChar(d: nat): (c: char)
    requires d < 10
    ensures IsDigit(c) && DigitValue(c) == d
  {
    ('0' as int + d) as char
  }

  /** Shortest decimal digits of `n`, most significant first. */
  function NatDigits(n: nat): (r: string)
    ensures |r| > 0 && AllDigits(r)
    decreases n
  {
    if n < 10 then [DigitChar(n)] else NatDigits(n / 10) + [DigitChar(n % 10)]
  }

  /** The number a run of decimal digits denotes (0 for the empty run). */
  function DigitsValue(s: string): nat
    requires AllDigits(s)
    decreases |s|
  {
    if |s| == 0 then 0 else DigitsValue(s[..|s| - 1]) * 10 + DigitValue(s[|s| - 1])
  }

  /** `int.ToString()`. */
  function Format(n: int32): (r: string)
    ensures |r| > 0 && !IsWhite(r[0]) && IsDigit(r[|r| - 1])
    ensures forall i :: 0 <= i < |r| ==> IsDigit(r[i]) || (i == 0 && r[i] == '-')
    ensures r[0] == '-' <==> n < 0
  {
    if n < 0 then "-" + NatDigits(-(n as int)) else NatDigits(n)
  }

  /** Drops the leading white space; what is left starts with a non-white character. */
  function TrimStart(s: string): (r: string)
    ensures |r| <= |s| && r == s[|s| - |r|..]
    ensures forall i :: 0 <= i < |s| - |r| ==> IsWhite(s[i])
    ensures |r| > 0 ==> !IsWhite(r[0])
    decreases |s|
  {
    if |s| > 0 && IsWhite(s[0]) then TrimStart(s[1..]) else s
  }

  /** Drops the trailing white space; what is left ends with a non-white character. */
  function TrimEnd(s: string): (r: string)
    ensures |r| <= |s| && r == s[..|r|]
    ensures forall i :: |r| <= i < |s| ==> IsWhite(s[i])
    ensures |r| > 0 ==> !IsWhite(r[|r| - 1])
    decreases |s|
  {
    if |s| > 0 && IsWhite(s[|s| - 1]) then TrimEnd(s[..|s| - 1]) else s
  }

  /** The digits of a trimmed token: the token without its sign, if it has one. */
  function Unsigned(t: string): string {
    if |t| > 0 && IsSign(t[0]) then t[1..] else t
  }

  /**
   * A token with its surrounding white space removed: an optional sign and
   * at least one digit, and a value within 32 bits.
   */
  function ParseTrimmed(t: string): Option<int32> {
    var digits := Unsigned(t);
    if |digits| == 0 || !AllDigits(digits) then None
    else
      var magnitude := DigitsValue(digits);
      var v: int := if t[0] == '-' then -(magnitude as int) else magnitude;
      if MinInt32 <= v <= MaxInt32 then Some(v) else None
  }

  /**
   * `int.TryParse(s, out v)` with NumberStyles.Integer: `Some(v)` when it
   * returns true, `None` when it returns false (and leaves `v` at 0). A token
   * it accepts holds nothing but digits, signs and white space, and at least
   * one digit.
   */
  function TryParse(s: string): (r: Option<int32>)
    ensures r.Some? ==> forall i :: 0 <= i < |s| ==> IsDigit(s[i]) || IsWhite(s[i]) || IsSign(s[i])
    ensures r.Some? ==> exists i :: 0 <= i < |s| && IsDigit(s[i])
  {
    var t := TrimEnd(TrimStart(s));
    var r := ParseTrimmed(t);
    if r.Some? then
      AcceptedShape(s);
      r
    else r
  }

  /** The shape of a token whose trimmed core has a well-formed unsigned part. */
  lemma AcceptedShape(s: string)
    requires var u := Unsigned(TrimEnd(TrimStart(s))); |u| > 0 && AllDigits(u)
    ensures forall i :: 0 <= i < |s| ==> IsDigit(s[i]) || IsWhite(s[i]) || IsSign(s[i])
    ensures exists i :: 0 <= i < |s| && IsDigit(s[i])
  {
    var ts := TrimStart(s);
    var t := TrimEnd(ts);
    var off := |s| - |ts|;
    assert ts == s[off..];
    assert t == ts[..|t|];
    SignedDigits(t);
    forall i | 0 <= i < |s| ensures IsDigit(s[i]) || IsWhite(s[i]) || IsSign(s[i]) {
      if off <= i < off + |t| {
        assert s[i] == ts[i - off] == t[i - off];
      } else if off + |t| <= i {
        assert s[i] == ts[i - off];
      }
    }
    assert s[off + |t| - 1] == t[|t| - 1];
  }

  lemma {:induction false} NatDigitsValue(n: nat)
    ensures DigitsValue(NatDigits(n)) == n
    decreases n
  {
    if n >= 10 {
      NatDigitsValue(n / 10);
      var r := NatDigits(n);
      assert r[..|r| - 1] == NatDigits(n / 10);
    }
  }

  function Abs(n: int): nat {
    if n < 0 then -n else n
  }

  lemma FormatTrimmed(n: int32)
    ensures TrimEnd(TrimStart(Format(n))) == Format(n)
  {
    assert TrimStart(Format(n)) == Format(n);
  }

  lemma FormatUnsigned(n: int32)
    ensures Unsigned(Format(n)) == NatDigits(Abs(n))
    ensures Format(n)[0] == '-' <==> n < 0
  {
  }

  lemma ParseFormatted(n: int32)
    ensures ParseTrimmed(Format(n)) == Some(n)
  {
    FormatUnsigned(n);
    NatDigitsValue(Abs(n));
  }

  /** What `int.ToString()` writes, `int.TryParse` reads back unchanged. */
  lemma ParseFormatRoundTrip(n: int32)
    ensures TryParse(Format(n)) == Some(n)
  {
    FormatTrimmed(n);
    assert TryParse(Format(n)) == ParseTrimmed(Format(n));
    ParseFormatted(n);
  }

  /** A token with no white space at either end is parsed as it stands. */
  lemma UntrimmedParse(t: string)
    requires |t| > 0 && !IsWhite(t[0]) && !IsWhite(t[|t| - 1])
    ensures TryParse(t) == ParseTrimmed(t)
  {
    assert TrimStart(t) == t;
    assert TrimEnd(t) == t;
  }

  /** The decimal text of an integer outside the 32-bit range is rejected, whatever its sign. */
  lemma OutOfRangeRejected(n: int)
    requires n < MinInt32 || n > MaxInt32
    ensures n > 0 ==> TryParse(NatDigits(n)) == None
    ensures n < 0 ==> TryParse("-" + NatDigits(-n)) == None
  {
    NatDigitsValue(Abs(n));
    var digits := NatDigits(Abs(n));
    var text := if n < 0 then "-" + digits else digits;
    UntrimmedParse(text);
    assert Unsigned(text) == digits;
  }

  /** A token without a single digit is rejected: the empty token, a lone sign, white space. */
  lemma NoDigitRejected(s: string)
    requires forall i :: 0 <= i < |s| ==> !IsDigit(s[i])
    ensures TryParse(s) == None
  {
  }

  /**
   * White space between two digits is rejected: only the ends of a token are
   * trimmed, so the white space stays inside the digits.
   */
  lemma InnerSpaceRejected(s: string, i: int, j: int, k: int)
    requires 0 <= i < j < k < |s|
    requires IsDigit(s[i]) && IsWhite(s[j]) && IsDigit(s[k])
    ensures TryParse(s) == None
  {
    var t := TrimEnd(TrimStart(s));
    var off := |s| - |TrimStart(s)|;
    assert 0 < j - off < |t| && t[j - off] == s[j] by {
      TrimKeepsInside(s, i, j, k);
    }
    WhiteAfterHeadRejected(t, j - off);
  }

  /** Trimming keeps every character between two non-white ones, at the offset the front trim leaves. */
  lemma TrimKeepsInside(s: string, i: int, j: int, k: int)
    requires 0 <= i < j < k < |s| && !IsWhite(s[i]) && !IsWhite(s[k])
    ensures var off := |s| - |TrimStart(s)|;
      0 < j - off < |TrimEnd(TrimStart(s))| && TrimEnd(TrimStart(s))[j - off] == s[j]
  {
    var ts := TrimStart(s);
    var off := |s| - |ts|;
    FrontKeeps(s, i);
    assert ts == s[off..];
    assert ts[k - off] == s[k] && ts[j - off] == s[j];
    BackKeeps(ts, k - off);
    var t := TrimEnd(ts);
    assert t == ts[..|t|];
    assert t[j - off] == ts[j - off];
  }

  /** The front trim stops at or before the first non-white character. */
  lemma FrontKeeps(s: string, i: int)
    requires 0 <= i < |s| && !IsWhite(s[i])
    ensures |s| - |TrimStart(s)| <= i
  {
  }

  /** The back trim stops at or after the last non-white character. */
  lemma BackKeeps(s: string, k: int)
    requires 0 <= k < |s| && !IsWhite(s[k])
    ensures k < |TrimEnd(s)|
  {
  }

  /** A trimmed token with white space after its first character is rejected. */
  lemma WhiteAfterHeadRejected(t: string, p: int)
    requires 0 < p < |t| && IsWhite(t[p])
    ensures ParseTrimmed(t) == None
  {
    var u := Unsigned(t);
    var at := if IsSign(t[0]) then p - 1 else p;
    assert u[at] == t[p];
  }

  /** At most one sign is accepted: a second sign right after the first is rejected. */
  lemma DoubleSignRejected(s: string)
    requires |TrimStart(s)| >= 2 && IsSign(TrimStart(s)[0]) && IsSign(TrimStart(s)[1])
    ensures TryParse(s) == None
  {
    var ts := TrimStart(s);
    var t := TrimEnd(ts);
    assert 1 < |t|;
    assert t[0] == ts[0] && t[1] == ts[1];
    assert Unsigned(t)[0] == ts[1];
  }

  /** A trimmed token whose unsigned part is all digits holds only digits and signs, and ends in a digit. */
  lemma SignedDigits(t: string)
    requires |Unsigned(t)| > 0 && AllDigits(Unsigned(t))
    ensures |t| > 0 && IsDigit(t[|t| - 1])
    ensures forall j :: 0 <= j < |t| ==> IsDigit(t[j]) || IsSign(t[j])
  {
    var off := if IsSign(t[0]) then 1 else 0;
    assert Unsigned(t) == t[off..];
    forall j | off <= j < |t| ensures IsDigit(t[j]) {
      assert t[j] == Unsigned(t)[j - off];
    }
  }
}
