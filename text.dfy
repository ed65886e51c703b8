/**
 * The Python string built-ins the schedule parser relies on: `str.strip()`,
 * `str.lower()`, `str.startswith`, `str.split(',')` and `int()` on a field,
 * over strings modelled as `seq<char>`.
 */
module Text {
  import opened Wrappers

  // ---------------------------------------------------------------------
  // Whitespace and str.strip()
  // ---------------------------------------------------------------------

  /** The characters Python's `str.isspace()` accepts, which `str.strip()` removes. */
  predicate IsSpace(c: char) {
    var x := c as int;
    (0x09 <= x <= 0x0D) || (0x1C <= x <= 0x20) || x == 0x85 || x == 0xA0 ||
    x == 0x1680 || (0x2000 <= x <= 0x200A) || x == 0x2028 || x == 0x2029 ||
    x == 0x202F || x == 0x205F || x == 0x3000
  }

  predicate AllSpace(s: string) {
    forall k :: 0 <= k < |s| ==> IsSpace(s[k])
  }

  /** The length of the run of whitespace `s` starts with. */
  function LeadingSpaces(s: string): (n: nat)
    ensures n <= |s| && AllSpace(s[..n])
    ensures n == |s| || !IsSpace(s[n])
  {
    if s != [] && IsSpace(s[0]) then
      var m := LeadingSpaces(s[1..]);
      LeadStep(s, m);
      1 + m
    else 0
  }

  lemma LeadStep(s: string, m: nat)
    requires s != [] && IsSpace(s[0]) && m <= |s| - 1 && AllSpace(s[1..][..m])
    requires m == |s| - 1 || !IsSpace(s[1..][m])
    ensures AllSpace(s[..1 + m]) && (1 + m == |s| || !IsSpace(s[1 + m]))
  {
    var t := s[..1 + m];
    forall k | 0 <= k < |t| ensures IsSpace(t[k]) {
      if k > 0 { assert t[k] == s[1..][..m][k - 1]; }
    }
  }

  /** The length of the run of whitespace `s` ends with. */
  function TrailingSpaces(s: string): (n: nat)
    ensures n <= |s| && AllSpace(s[|s| - n..])
    ensures n == |s| || !IsSpace(s[|s| - n - 1])
  {
    if s != [] && IsSpace(s[|s| - 1]) then
      var m := TrailingSpaces(s[..|s| - 1]);
      TrailStep(s, m);
      1 + m
    else 0
  }

  lemma TrailStep(s: string, m: nat)
    requires s != [] && IsSpace(s[|s| - 1]) && m <= |s| - 1
    requires AllSpace(s[..|s| - 1][|s| - 1 - m..])
    requires m == |s| - 1 || !IsSpace(s[..|s| - 1][|s| - 1 - m - 1])
    ensures AllSpace(s[|s| - (1 + m)..]) && (1 + m == |s| || !IsSpace(s[|s| - (1 + m) - 1]))
  {
    var t := s[|s| - (1 + m)..];
    forall k | 0 <= k < |t| ensures IsSpace(t[k]) {
      if k < m { assert t[k] == s[..|s| - 1][|s| - 1 - m..][k]; }
    }
  }

  /**
   * `str.strip()`: the slice of `s` left after removing whitespace at both ends.
   * It neither starts nor ends with whitespace, and it is empty exactly when `s` is all space.
   */
  function Strip(s: string): (r: string)
    ensures var i := LeadingSpaces(s);
      i + |r| <= |s| && r == s[i..i + |r|] && AllSpace(s[..i]) && AllSpace(s[i + |r|..])
    ensures r == [] || (!IsSpace(r[0]) && !IsSpace(r[|r| - 1]))
    ensures r == [] <==> AllSpace(s)
  {
    var i := LeadingSpaces(s);
    var j := |s| - TrailingSpaces(s[i..]);
    StripSlice(s, i, j);
    s[i..j]
  }

  lemma StripSlice(s: string, i: nat, j: nat)
    requires i == LeadingSpaces(s) && i <= |s| && j == |s| - TrailingSpaces(s[i..])
    ensures i <= j <= |s|
    ensures var r := s[i..j]; i + |r| <= |s| && r == s[i..i + |r|] && AllSpace(s[..i]) && AllSpace(s[i + |r|..])
    ensures var r := s[i..j]; r == [] || (!IsSpace(r[0]) && !IsSpace(r[|r| - 1]))
    ensures s[i..j] == [] <==> AllSpace(s)
  {
    StripTail(s, i, j);
    StripEmpty(s, i, j);
    assert i + (j - i) == j;
  }

  lemma StripTail(s: string, i: nat, j: nat)
    requires i <= |s| && j == |s| - TrailingSpaces(s[i..])
    ensures i <= j <= |s| && AllSpace(s[j..])
    ensures j == i || !IsSpace(s[j - 1])
  {
    var a := s[i..];
    assert s[j..] == a[|a| - TrailingSpaces(a)..];
    if j > i {
      assert s[j - 1] == a[|a| - TrailingSpaces(a) - 1];
    }
  }

  lemma StripEmpty(s: string, i: nat, j: nat)
    requires i == LeadingSpaces(s) && i <= j <= |s| && AllSpace(s[j..])
    ensures j == i <==> AllSpace(s)
  {
    if j == i {
      AllSpaceGlue(s, i);
    }
  }

  lemma AllSpaceGlue(s: string, i: nat)
    requires i <= |s| && AllSpace(s[..i]) && AllSpace(s[i..])
    ensures AllSpace(s)
  {
    forall k | 0 <= k < |s| ensures IsSpace(s[k]) {
      if k < i { assert s[..i][k] == s[k]; } else { assert s[i..][k - i] == s[k]; }
    }
  }

  /** Stripping never removes a non-space character: one at index `k` lies within the strip. */
  lemma StripKeeps(s: string, k: nat)
    requires k < |s| && !IsSpace(s[k])
    ensures LeadingSpaces(s) <= k < LeadingSpaces(s) + |Strip(s)|
  {
    var i := LeadingSpaces(s);
    var j := i + |Strip(s)|;
    forall m | 0 <= m < i ensures IsSpace(s[m]) {
      assert s[m] == s[..i][m];
    }
    forall m | j <= m < |s| ensures IsSpace(s[m]) {
      assert s[m] == s[j..][m - j];
    }
  }

  /** A string that already has no whitespace at either end is its own strip. */
  lemma StripFixed(s: string)
    requires s == [] || (!IsSpace(s[0]) && !IsSpace(s[|s| - 1]))
    ensures Strip(s) == s
  {
    assert LeadingSpaces(s) == 0;
    assert s[0..] == s;
  }

  // ---------------------------------------------------------------------
  // str.lower() and str.startswith
  // ---------------------------------------------------------------------

  /** An ASCII capital letter becomes its small letter, 32 code points on; nothing else changes. */
  function LowerChar(c: char): (r: char)
    ensures !('A' <= r <= 'Z')
    ensures 'A' <= c <= 'Z' ==> 'a' <= r <= 'z' && r as int - c as int == 'a' as int - 'A' as int
    ensures !('A' <= c <= 'Z') ==> r == c
  {
    if 'A' <= c <= 'Z' then (c as int + 32) as char else c
  }

  /**
   * `str.lower()` on ASCII letters: the result has no capital letter left, and every
   * character that is not a capital letter is kept in place.
   */
  function Lower(s: string): (r: string)
    ensures |r| == |s|
    ensures forall k :: 0 <= k < |s| ==> r[k] == LowerChar(s[k])
    ensures forall k :: 0 <= k < |r| ==> !('A' <= r[k] <= 'Z')
  {
    seq(|s|, k requires 0 <= k < |s| => LowerChar(s[k]))
  }

  /** Lower-casing twice gives what lower-casing once gives. */
  lemma LowerIdempotent(s: string)
    ensures Lower(Lower(s)) == Lower(s)
  {
    var r := Lower(s);
    assert forall k :: 0 <= k < |r| ==> Lower(r)[k] == r[k];
  }

  /** `s.startswith(prefix)`. */
  predicate StartsWith(s: string, prefix: string) {
    prefix <= s
  }

  // ---------------------------------------------------------------------
  // str.split(sep)
  // ---------------------------------------------------------------------

  /** Joins `fields` with `sep` between consecutive fields (`sep.join(fields)`). */
  function Join(fields: seq<string>, sep: char): string
    requires |fields| > 0
  {
    if |fields| == 1 then fields[0] else fields[0] + [sep] + Join(fields[1..], sep)
  }

  /**
   * `s.split(sep)`: the fields between the occurrences of `sep`. There is always at
   * least one field, no field contains `sep`, and joining them back gives `s`.
   */
  function Split(s: string, sep: char): (r: seq<string>)
    ensures |r| > 0
    ensures forall k :: 0 <= k < |r| ==> sep !in r[k]
    ensures Join(r, sep) == s
  {
    if s == [] then [""]
    else
      var rest := Split(s[1..], sep);
      if s[0] == sep then
        [""] + rest
      else
        assert Join(rest, sep) == s[1..];
        JoinConsFirst(rest, sep, s[0]);
        [[s[0]] + rest[0]] + rest[1..]
  }

  lemma JoinConsFirst(fields: seq<string>, sep: char, c: char)
    requires |fields| > 0
    ensures Join([[c] + fields[0]] + fields[1..], sep) == [c] + Join(fields, sep)
  {
    var g := [[c] + fields[0]] + fields[1..];
    assert g[1..] == fields[1..];
  }

  /** Splitting a join of separator-free fields gives those fields back. */
  lemma {:induction false} SplitJoin(fields: seq<string>, sep: char)
    requires |fields| > 0
    requires forall k :: 0 <= k < |fields| ==> sep !in fields[k]
    ensures Split(Join(fields, sep), sep) == fields
  {
    if |fields| == 1 {
      SplitNoSep(fields[0], sep);
    } else {
      SplitJoin(fields[1..], sep);
      SplitPrefix(fields[0], sep, Join(fields[1..], sep));
    }
  }

  lemma {:induction false} SplitNoSep(s: string, sep: char)
    requires sep !in s
    ensures Split(s, sep) == [s]
  {
    if s != [] {
      SplitNoSep(s[1..], sep);
    }
  }

  lemma {:induction false} SplitPrefix(a: string, sep: char, b: string)
    requires sep !in a
    ensures Split(a + [sep] + b, sep) == [a] + Split(b, sep)
  {
    if a == [] {
      assert ([sep] + b)[1..] == b;
    } else {
      assert (a + [sep] + b)[1..] == a[1..] + [sep] + b;
      SplitPrefix(a[1..], sep, b);
      assert [a[0]] + a[1..] == a;
    }
  }

  /** Strips every field, as `[p.strip() for p in fields]`. */
  function StripAll(fields: seq<string>): (r: seq<string>)
    ensures |r| == |fields|
    ensures forall k :: 0 <= k < |r| ==> r[k] == Strip(fields[k])
    ensures forall k :: 0 <= k < |r| ==> r[k] == [] || (!IsSpace(r[k][0]) && !IsSpace(r[k][|r[k]| - 1]))
  {
    seq(|fields|, k requires 0 <= k < |fields| => Strip(fields[k]))
  }

  // ---------------------------------------------------------------------
  // int() on a decimal field
  // ---------------------------------------------------------------------

  predicate IsDigit(c: char) {
    '0' <= c <= '9'
  }

  function DigitValue(c: char): (d: nat)
    requires IsDigit(c)
    ensures d < 10
  {
    c as int - '0' as int
  }

  function DigitChar(d: nat): (c: char)
    requires d < 10
    ensures IsDigit(c) && DigitValue(c) == d
  {
    ('0' as int + d) as char
  }

  /** The body of an `int()` literal: ASCII digits, with single underscores allowed between two digits. */
  predicate IsDigitRun(s: string) {
    |s| > 0 && forall k :: 0 <= k < |s| ==> DigitRunAt(s, k)
  }

  /** Position `k` of `s` holds a digit, or an underscore with a digit on each side. */
  predicate DigitRunAt(s: string, k: nat)
    requires k < |s|
  {
    IsDigit(s[k]) || (s[k] == '_' && 0 < k < |s| - 1 && IsDigit(s[k - 1]) && IsDigit(s[k + 1]))
  }

  lemma DigitRunChars(s: string)
    requires IsDigitRun(s)
    ensures IsDigit(s[0]) && IsDigit(s[|s| - 1])
    ensures forall k :: 0 <= k < |s| ==> IsDigit(s[k]) || s[k] == '_'
  {
    assert DigitRunAt(s, 0) && DigitRunAt(s, |s| - 1);
    forall k | 0 <= k < |s| ensures IsDigit(s[k]) || s[k] == '_' {
      assert DigitRunAt(s, k);
    }
  }

  /** The decimal value of the digits of `s`, read left to right; underscores carry no value. */
  function DigitRunValue(s: string): nat {
    if s == [] then 0
    else
      var p := s[..|s| - 1];
      var c := s[|s| - 1];
      if IsDigit(c) then DigitRunValue(p) * 10 + DigitValue(c) else DigitRunValue(p)
  }

  /**
   * Python's `int(s)` on a field that has already been stripped: an optional sign
   * followed by a digit run; anything else is a failed parse (`ValueError`).
   */
  function ParseInt(s: string): (r: Option<int>)
    ensures r.Some? ==> |s| > 0 && (IsDigit(s[0]) || s[0] == '+' || s[0] == '-')
    ensures r.Some? && s[0] == '-' ==> r.value <= 0
    ensures r.Some? && s[0] != '-' ==> r.value >= 0
  {
    if |s| > 0 && (s[0] == '+' || s[0] == '-') && IsDigitRun(s[1..]) then
      DigitRunChars(s[1..]);
      var n: int := DigitRunValue(s[1..]);
      Some(if s[0] == '-' then -n else n)
    else if IsDigitRun(s) then
      DigitRunChars(s);
      Some(DigitRunValue(s))
    else
      None
  }

  /** The decimal digits of `n`, most significant first (Python's `str(n)`). */
  function FormatNat(n: nat): (r: string)
    ensures |r| > 0
    ensures forall k :: 0 <= k < |r| ==> IsDigit(r[k])
  {
    (if n < 10 then "" else FormatNat(n / 10)) + [DigitChar(n % 10)]
  }

  /** An optional minus sign followed by at least one ASCII digit. */
  predicate IsDecimalText(s: string) {
    |s| > 0 && (IsDigit(s[0]) || s[0] == '-') && IsDigit(s[|s| - 1]) &&
    forall k :: 0 < k < |s| ==> IsDigit(s[k])
  }

  /** Python's `str(i)` for an integer. */
  function FormatInt(i: int): (r: string)
    ensures IsDecimalText(r)
  {
    if i < 0 then "-" + FormatNat(-i) else FormatNat(i)
  }

  lemma {:induction false} FormatNatValue(n: nat)
    ensures DigitRunValue(FormatNat(n)) == n
  {
    var s := FormatNat(n);
    assert s[..|s| - 1] == if n < 10 then "" else FormatNat(n / 10);
    if n >= 10 {
      FormatNatValue(n / 10);
    }
  }

  /** `int(str(i)) == i`: the integer parser inverts decimal formatting. */
  lemma ParseFormat(i: int)
    ensures ParseInt(FormatInt(i)) == Some(i)
  {
    if i < 0 {
      var n: nat := -i;
      ParseNegative(n);
      assert FormatInt(i) == "-" + FormatNat(n);
    } else {
      ParseNat(i);
    }
  }

  /** The negative half of `ParseFormat`: `int("-" + str(n)) == -n`. */
  lemma ParseNegative(n: nat)
    ensures ParseInt("-" + FormatNat(n)) == Some(-(n as int))
  {
    ParsePadded("-", 0, n);
    assert Zeros(0) == [];
    assert "-" + Zeros(0) + FormatNat(n) == "-" + FormatNat(n);
  }

  function Zeros(z: nat): (r: string)
    ensures |r| == z && forall k :: 0 <= k < z ==> r[k] == '0'
  {
    seq(z, _ => '0')
  }

  /**
   * `int()` also reads the forms `str` never writes: an explicit `+`, and zeros before
   * the digits. `int(sign + "0" * z + str(n))` is `n`, negated for a `-` sign.
   */
  lemma ParsePadded(sign: string, z: nat, n: nat)
    requires sign == "" || sign == "+" || sign == "-"
    ensures ParseInt(sign + Zeros(z) + FormatNat(n)) == Some(if sign == "-" then -(n as int) else n as int)
  {
    var d := Zeros(z) + FormatNat(n);
    PaddedValue(z, n);
    if sign == "" {
      assert sign + Zeros(z) + FormatNat(n) == d;
      ParseDigits(d);
    } else {
      assert sign + Zeros(z) + FormatNat(n) == [sign[0]] + d;
      ParseSigned(sign[0], d);
    }
  }

  /** Zeros before the digits of `n` leave a digit run whose value is still `n`. */
  lemma PaddedValue(z: nat, n: nat)
    ensures IsDigitRun(Zeros(z) + FormatNat(n)) && DigitRunValue(Zeros(z) + FormatNat(n)) == n
  {
    PaddedDigits(z, n);
    LeadingZerosValue(z, FormatNat(n));
    FormatNatValue(n);
  }

  lemma PaddedDigits(z: nat, n: nat)
    ensures IsDigitRun(Zeros(z) + FormatNat(n))
  {
    var d := Zeros(z) + FormatNat(n);
    forall k | 0 <= k < |d| ensures DigitRunAt(d, k) {
      if k >= z { assert d[k] == FormatNat(n)[k - z]; }
    }
  }

  /** A digit run on its own reads as its value. */
  lemma ParseDigits(d: string)
    requires IsDigitRun(d)
    ensures ParseInt(d) == Some(DigitRunValue(d) as int)
  {
    assert DigitRunAt(d, 0);
  }

  /** A sign followed by a digit run reads as its value, negated for `-`. */
  lemma ParseSigned(c: char, d: string)
    requires c == '+' || c == '-'
    requires IsDigitRun(d)
    ensures ParseInt([c] + d) == Some(if c == '-' then -(DigitRunValue(d) as int) else DigitRunValue(d) as int)
  {
    var s := [c] + d;
    assert s[1..] == d;
  }

  lemma AllDigitsRun(d: string)
    requires |d| > 0 && forall k :: 0 <= k < |d| ==> IsDigit(d[k])
    ensures IsDigitRun(d)
  {
    forall k | 0 <= k < |d| ensures DigitRunAt(d, k) {
      assert IsDigit(d[k]);
    }
  }

  /** Zeros before a digit run add nothing to its value. */
  lemma {:induction false} LeadingZerosValue(z: nat, t: string)
    ensures DigitRunValue(Zeros(z) + t) == DigitRunValue(t)
    decreases z + |t|
  {
    var u := Zeros(z) + t;
    if t == [] {
      if z > 0 {
        assert u[..|u| - 1] == Zeros(z - 1) + [];
        LeadingZerosValue(z - 1, []);
      }
    } else {
      var t' := t[..|t| - 1];
      assert u[..|u| - 1] == Zeros(z) + t';
      LeadingZerosValue(z, t');
    }
  }

  /** The unsigned case: the digits of `n` are a digit run whose value is `n`. */
  lemma ParseNat(n: nat)
    ensures IsDigitRun(FormatNat(n)) && !(FormatNat(n)[0] in "+-")
    ensures ParseInt(FormatNat(n)) == Some(n)
  {
    var s := FormatNat(n);
    AllDigitsRun(s);
    assert IsDigit(s[0]);
    FormatNatValue(n);
  }

  /**
   * The shapes `int()` accepts on a stripped field: after an optional sign, only digits
   * and underscores, an underscore always between two digits, and a digit at the end.
   * So `1.5`, `1e3`, `1__0`, `1_` and `_1` are all rejected.
   */
  lemma ParseIntShape(s: string)
    requires ParseInt(s).Some?
    ensures |s| > 0 && IsDigit(s[|s| - 1])
    ensures forall k :: 0 < k < |s| ==> IntCharAt(s, k)
  {
    if |s| > 0 && (s[0] == '+' || s[0] == '-') && IsDigitRun(s[1..]) {
      var b := s[1..];
      forall k | 0 < k < |s| ensures IntCharAt(s, k) {
        assert DigitRunAt(b, k - 1);
        assert b[k - 1] == s[k];
        if !IsDigit(s[k]) {
          assert 0 < k - 1 && b[k - 2] == s[k - 1] && b[k] == s[k + 1];
        }
      }
      assert DigitRunAt(b, |b| - 1);
    } else {
      forall k | 0 < k < |s| ensures IntCharAt(s, k) {
        assert DigitRunAt(s, k);
      }
      assert DigitRunAt(s, |s| - 1);
    }
  }

  /** Position `k` after the first of an accepted field: a digit, or an underscore between two digits. */
  predicate IntCharAt(s: string, k: nat)
    requires 0 < k < |s|
  {
    IsDigit(s[k]) || (s[k] == '_' && k + 1 < |s| && IsDigit(s[k - 1]) && IsDigit(s[k + 1]))
  }

  /** Fields `int()` reads although `str` never writes them. */
  lemma ParseIntAccepts()
    ensures ParseInt("+7") == Some(7) && ParseInt("007") == Some(7) && ParseInt("-0") == Some(0)
  {
    ParsePlusSeven();
    ParseZeroPadded();
    ParseMinusZero();
  }

  lemma ParsePlusSeven()
    ensures ParseInt("+7") == Some(7)
  {
    ParsePadded("+", 0, 7);
    assert "+" + Zeros(0) + FormatNat(7) == "+7";
  }

  lemma ParseZeroPadded()
    ensures ParseInt("007") == Some(7)
  {
    ParsePadded("", 2, 7);
    assert "" + Zeros(2) + FormatNat(7) == "007";
  }

  lemma ParseMinusZero()
    ensures ParseInt("-0") == Some(0)
  {
    ParsePadded("-", 0, 0);
    assert "-" + Zeros(0) + FormatNat(0) == "-0";
  }

  /** An underscore between digits is read and carries no value: `int("1_000") == 1000`. */
  lemma ParseUnderscore()
    ensures ParseInt("1_000") == Some(1000)
  {
    var s := "1_000";
    assert IsDigitRun(s) by {
      forall k | 0 <= k < 5 ensures DigitRunAt(s, k) { }
    }
    assert s[..4] == "1_00" && s[..3] == "1_0" && s[..2] == "1_" && s[..1] == "1";
    assert "1_00"[..3] == "1_0" && "1_0"[..2] == "1_" && "1_"[..1] == "1" && "1"[..0] == "";
  }

  /** Fields `int()` rejects: no digits, a decimal point, an exponent, doubled or leading underscores. */
  lemma ParseIntRejects()
    ensures ParseInt("").None? && ParseInt("-").None? && ParseInt("1.5").None?
    ensures ParseInt("1e3").None? && ParseInt("1__0").None? && ParseInt("_1").None?
  {
    RejectsEnd("");
    RejectsEnd("-");
    RejectsAt("1.5", 1);
    RejectsAt("1e3", 1);
    RejectsAt("1__0", 1);
  }

  lemma RejectsEnd(s: string)
    requires |s| == 0 || !IsDigit(s[|s| - 1])
    ensures ParseInt(s).None?
  {
    if ParseInt(s).Some? {
      ParseIntShape(s);
    }
  }

  lemma RejectsAt(s: string, k: nat)
    requires 0 < k < |s| && !IntCharAt(s, k)
    ensures ParseInt(s).None?
  {
    if ParseInt(s).Some? {
      ParseIntShape(s);
    }
  }
}
