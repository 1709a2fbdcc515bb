// The numeric-argument helpers of src/string_utils.c: `is_number`, which decides
// whether a command-line token may be a filter parameter, and `tmp_atof`, the
// hand-written decimal scanner that turns it into a value.
//
// A C string is the sequence of its characters before the terminating NUL, so
// it holds no '\0'; reading one position past its end yields '\0', which is
// neither a space, a sign, a digit nor a dot. The scanner's `double`s are
// exact reals here.
module StringUtils {

  type CString = s: seq<char> | '\0' !in s

  /** `s[i]` in C: the character at i, or the terminator at |s| and beyond. */
  function At(s: CString, i: nat): char
  {
    if i < |s| then s[i] else '\0'
  }

  /** `isdigit` in the C locale. */
  predicate IsDigit(c: char)
  {
    '0' <= c <= '9'
  }

  /** `isspace` in the C locale: blank, tab, newline, vertical tab, form feed, carriage return. */
  predicate IsSpace(c: char)
  {
    c == ' ' || '\t' <= c <= '\r'
  }

  predicate IsSign(c: char)
  {
    c == '+' || c == '-'
  }

  predicate AllDigits(d: seq<char>)
  {
    forall k | 0 <= k < |d| :: IsDigit(d[k])
  }

  predicate AllSpaces(d: seq<char>)
  {
    forall k | 0 <= k < |d| :: IsSpace(d[k])
  }

  // ---- is_number ---------------------------------------------------------

  /** A character `is_number` lets through at position i: a sign at the very
      start, a dot, or a digit. */
  predicate NumberChar(s: CString, i: nat)
    requires i < |s|
  {
    (i == 0 && IsSign(s[i])) || s[i] == '.' || IsDigit(s[i])
  }

  /** What `is_number` accepts: only characters it lets through, and no two dots.
      Nothing demands a digit, so "", "+", "-" and "." are accepted. */
  predicate NumberSyntax(s: CString)
  {
    && (forall i | 0 <= i < |s| :: NumberChar(s, i))
    && (forall i, j | 0 <= i < j < |s| :: !(s[i] == '.' && s[j] == '.'))
  }

  /** `is_number`: one pass with a `has_dot` flag; the first bad character or the
      second dot rejects at once. */
  method IsNumber(str: CString) returns (ok: bool)
    ensures ok == NumberSyntax(str)
  {
    var hasDot := false;
    var i := 0;
    while At(str, i) != '\0'
      invariant i <= |str|
      invariant forall k | 0 <= k < i :: NumberChar(str, k)
      invariant forall k, l | 0 <= k < l < i :: !(str[k] == '.' && str[l] == '.')
      invariant hasDot <==> exists k | 0 <= k < i :: str[k] == '.'
      decreases |str| - i
    {
      if i == 0 && (str[i] == '-' || str[i] == '+') {
        i := i + 1;
        continue;
      }
      if str[i] == '.' {
        if hasDot {
          var k :| 0 <= k < i && str[k] == '.';
          assert str[k] == '.' && str[i] == '.';
          return false;
        }
        hasDot := true;
        i := i + 1;
        continue;
      }
      if !IsDigit(str[i]) {
        assert !NumberChar(str, i);
        return false;
      }
      i := i + 1;
    }
    return true;
  }

  /** The empty string, a lone sign and a lone dot are numbers to `is_number`. */
  lemma NumberSyntaxDegenerate()
    ensures NumberSyntax("") && NumberSyntax("+") && NumberSyntax("-") && NumberSyntax(".")
  {
  }

  /** A second dot anywhere makes the token a non-number. */
  lemma SecondDotRejected(s: CString, i: nat, j: nat)
    requires i < j < |s| && s[i] == '.' && s[j] == '.'
    ensures !NumberSyntax(s)
  {
  }

  /** A sign anywhere but at the start makes the token a non-number. */
  lemma SignOnlyAtStart(s: CString, i: nat)
    requires 0 < i < |s| && IsSign(s[i])
    ensures !NumberSyntax(s)
  {
    assert !NumberChar(s, i);
  }

  // ---- tmp_atof ----------------------------------------------------------

  /** End of the run of spaces starting at i. */
  function SpacesEnd(s: CString, i: nat): (j: nat)
    requires i <= |s|
    ensures i <= j <= |s|
    ensures forall k | i <= k < j :: IsSpace(s[k])
    ensures !IsSpace(At(s, j))
    decreases |s| - i
  {
    if IsSpace(At(s, i)) then SpacesEnd(s, i + 1) else i
  }

  /** End of the run of digits starting at i. */
  function DigitsEnd(s: CString, i: nat): (j: nat)
    requires i <= |s|
    ensures i <= j <= |s|
    ensures forall k | i <= k < j :: IsDigit(s[k])
    ensures !IsDigit(At(s, j))
    decreases |s| - i
  {
    if IsDigit(At(s, i)) then DigitsEnd(s, i + 1) else i
  }

  /** A run of spaces that stops at j ends at j. */
  lemma {:induction false} SpacesEndAt(s: CString, i: nat, j: nat)
    requires i <= j <= |s|
    requires forall k | i <= k < j :: IsSpace(s[k])
    requires !IsSpace(At(s, j))
    ensures SpacesEnd(s, i) == j
    decreases j - i
  {
    if i < j {
      SpacesEndAt(s, i + 1, j);
    }
  }

  /** A run of digits that stops at j ends at j. */
  lemma {:induction false} DigitsEndAt(s: CString, i: nat, j: nat)
    requires i <= j <= |s|
    requires forall k | i <= k < j :: IsDigit(s[k])
    requires !IsDigit(At(s, j))
    ensures DigitsEnd(s, i) == j
    decreases j - i
  {
    if i < j {
      DigitsEndAt(s, i + 1, j);
    }
  }

  function Pow10(k: nat): (p: nat)
    ensures p >= 1
  {
    if k == 0 then 1 else 10 * Pow10(k - 1)
  }

  function DigitValue(c: char): nat
    requires IsDigit(c)
  {
    c as int - '0' as int
  }

  /** The integer a string of decimal digits denotes, most significant first. */
  function DigitsValue(d: seq<char>): nat
    requires AllDigits(d)
  {
    if |d| == 0 then 0 else 10 * DigitsValue(d[..|d| - 1]) + DigitValue(d[|d| - 1])
  }

  lemma Regroup(x: int, p: int, y: int, d: int)
    ensures 10 * (x * p + y) + d == x * (10 * p) + (10 * y + d)
  {
  }

  /** Writing digits b after digits a scales a by ten per digit of b. */
  lemma {:induction false} DigitsValueAppend(a: seq<char>, b: seq<char>)
    requires AllDigits(a) && AllDigits(b)
    ensures AllDigits(a + b)
    ensures DigitsValue(a + b) == DigitsValue(a) * Pow10(|b|) + DigitsValue(b)
    decreases |b|
  {
    if |b| > 0 {
      var b' := b[..|b| - 1];
      var d := DigitValue(b[|b| - 1]);
      assert (a + b)[..|a + b| - 1] == a + b';
      assert (a + b)[|a + b| - 1] == b[|b| - 1];
      DigitsValueAppend(a, b');
      var x, p, y := DigitsValue(a), Pow10(|b'|), DigitsValue(b');
      assert DigitsValue(a + b) == 10 * (x * p + y) + d;
      assert Pow10(|b|) == 10 * p;
      assert DigitsValue(b) == 10 * y + d;
      Regroup(x, p, y, d);
    } else {
      assert a + b == a;
    }
  }

  /** The parts `tmp_atof` finds: a minus sign or not, the digits before the
      dot, the digits after it, and the index where the scan stops. */
  datatype Scan = Scan(negative: bool, whole: seq<char>, fraction: seq<char>, end: nat)

  /** The scan of `tmp_atof`: skip spaces, take one optional sign, the digits,
      one optional dot, then the digits again. */
  function ScanOf(s: CString): (sc: Scan)
    ensures sc.end <= |s|
    ensures AllDigits(sc.whole) && AllDigits(sc.fraction)
  {
    var i0 := SpacesEnd(s, 0);
    var i1 := if IsSign(At(s, i0)) then i0 + 1 else i0;
    var j1 := DigitsEnd(s, i1);
    var i2 := if At(s, j1) == '.' then j1 + 1 else j1;
    var j2 := DigitsEnd(s, i2);
    Scan(At(s, i0) == '-', s[i1..j1], s[i2..j2], j2)
  }

  /** All digits read, as one integer, with the sign, over ten to the number of
      fraction digits. */
  function ScanValue(sc: Scan): real
    requires AllDigits(sc.whole) && AllDigits(sc.fraction)
  {
    DigitsValueAppend(sc.whole, sc.fraction);
    Scaled(SignValue(sc.negative), DigitsValue(sc.whole + sc.fraction) as real, Pow10(|sc.fraction|) as real)
  }

  function SignValue(negative: bool): real
  {
    if negative then -1.0 else 1.0
  }

  /** The closing `sign * val / power` of `tmp_atof`. */
  function Scaled(sign: real, val: real, power: real): real
    requires power > 0.0
  {
    sign * val / power
  }

  /** The value `tmp_atof` returns; 0.0 for the empty string. */
  function Atof(s: CString): real
  {
    if |s| == 0 then 0.0 else ScanValue(ScanOf(s))
  }

  /** How many characters `tmp_atof` consumes. */
  function AtofEnd(s: CString): nat
  {
    if |s| == 0 then 0 else ScanOf(s).end
  }

  lemma DigitsSnoc(d: seq<char>, c: char)
    requires AllDigits(d) && IsDigit(c)
    ensures AllDigits(d + [c])
    ensures DigitsValue(d + [c]) == 10 * DigitsValue(d) + DigitValue(c)
  {
    assert (d + [c])[..|d|] == d;
  }

  /** The integer-part loop of `tmp_atof`: read digits from `start`, each one
      multiplying the value so far by ten. */
  method ReadWhole(s: CString, start: nat) returns (i: nat, val: real)
    requires start <= |s|
    ensures i == DigitsEnd(s, start)
    ensures AllDigits(s[start..i]) && val == DigitsValue(s[start..i]) as real
  {
    i, val := start, 0.0;
    assert s[start..i] == [];
    while IsDigit(At(s, i))
      invariant start <= i <= |s| && DigitsEnd(s, i) == DigitsEnd(s, start)
      invariant AllDigits(s[start..i]) && val == DigitsValue(s[start..i]) as real
      decreases |s| - i
    {
      assert s[start..i + 1] == s[start..i] + [s[i]];
      DigitsSnoc(s[start..i], s[i]);
      val := 10.0 * val + (s[i] as int - '0' as int) as real;
      i := i + 1;
    }
  }

  /** The fraction loop of `tmp_atof`: read digits from `start` into the same
      value, counting them in `power`. */
  method ReadFraction(s: CString, start: nat, ghost whole: seq<char>, val0: real)
    returns (i: nat, val: real, power: real)
    requires start <= |s| && AllDigits(whole) && val0 == DigitsValue(whole) as real
    ensures i == DigitsEnd(s, start)
    ensures AllDigits(whole + s[start..i]) && val == DigitsValue(whole + s[start..i]) as real
    ensures power == Pow10(i - start) as real
  {
    i, val, power := start, val0, 1.0;
    assert whole + s[start..i] == whole;
    while IsDigit(At(s, i))
      invariant start <= i <= |s| && DigitsEnd(s, i) == DigitsEnd(s, start)
      invariant AllDigits(whole + s[start..i]) && val == DigitsValue(whole + s[start..i]) as real
      invariant power == Pow10(i - start) as real
      decreases |s| - i
    {
      ghost var read := whole + s[start..i];
      assert whole + s[start..i + 1] == read + [s[i]] by {
        assert s[start..i + 1] == s[start..i] + [s[i]];
      }
      DigitsSnoc(read, s[i]);
      val := 10.0 * val + (s[i] as int - '0' as int) as real;
      power := power * 10.0;
      i := i + 1;
    }
  }

  /** `tmp_atof`. The value is `sign * val / power`, where `val` accumulates
      every digit read and `power` is ten per fraction digit. */
  method TmpAtof(s: CString) returns (v: real, ghost end: nat)
    ensures v == Atof(s)
    ensures end == AtofEnd(s)
  {
    if |s| == 0 {
      return 0.0, 0;
    }
    var i := 0;
    while IsSpace(At(s, i))
      invariant i <= |s| && SpacesEnd(s, i) == SpacesEnd(s, 0)
      decreases |s| - i
    {
      i := i + 1;
    }
    ghost var i0 := i;
    var sign := if At(s, i) == '-' then -1 else 1;
    if At(s, i) == '+' || At(s, i) == '-' {
      i := i + 1;
    }
    ghost var i1 := i;
    var val;
    i, val := ReadWhole(s, i);
    ghost var j1 := i;
    if At(s, i) == '.' {
      i := i + 1;
    }
    ghost var i2 := i;
    var power;
    i, val, power := ReadFraction(s, i, s[i1..j1], val);
    ScanResult(s, i0, i1, j1, i2, i, sign, val, power);
    v := Scaled(sign as real, val, power);
    end := i;
  }

  /** What the loops of `tmp_atof` have read, once they stop, is the scan of s. */
  lemma ScanResult(s: CString, i0: nat, i1: nat, j1: nat, i2: nat, j2: nat, sign: int, val: real, power: real)
    requires |s| > 0 && i0 == SpacesEnd(s, 0)
    requires i1 == (if IsSign(At(s, i0)) then i0 + 1 else i0) && j1 == DigitsEnd(s, i1)
    requires i2 == (if At(s, j1) == '.' then j1 + 1 else j1) && j2 == DigitsEnd(s, i2)
    requires sign == if At(s, i0) == '-' then -1 else 1
    requires AllDigits(s[i1..j1] + s[i2..j2]) && val == DigitsValue(s[i1..j1] + s[i2..j2]) as real
    requires power == Pow10(j2 - i2) as real
    ensures Atof(s) == Scaled(sign as real, val, power) && AtofEnd(s) == j2
  {
    var sc := ScanOf(s);
    assert sc == Scan(At(s, i0) == '-', s[i1..j1], s[i2..j2], j2);
    assert sign as real == SignValue(sc.negative);
    assert sc.whole + sc.fraction == s[i1..j1] + s[i2..j2];
    ScanValueOf(sc, val, power);
    assert Atof(s) == ScanValue(sc);
  }

  predicate OptionalSign(sg: seq<char>)
  {
    sg == "" || sg == "+" || sg == "-"
  }

  /** The scan of s, given where each of its runs ends. */
  lemma ScanAt(s: CString, i0: nat, j1: nat, j2: nat)
    requires i0 <= |s| && (forall k | 0 <= k < i0 :: IsSpace(s[k])) && !IsSpace(At(s, i0))
    requires var i1 := if IsSign(At(s, i0)) then i0 + 1 else i0;
      && i1 <= j1 <= |s| && (forall k | i1 <= k < j1 :: IsDigit(s[k])) && !IsDigit(At(s, j1))
    requires var i2 := if At(s, j1) == '.' then j1 + 1 else j1;
      && i2 <= j2 <= |s| && (forall k | i2 <= k < j2 :: IsDigit(s[k])) && !IsDigit(At(s, j2))
    ensures var i1 := if IsSign(At(s, i0)) then i0 + 1 else i0;
      var i2 := if At(s, j1) == '.' then j1 + 1 else j1;
      ScanOf(s) == Scan(At(s, i0) == '-', s[i1..j1], s[i2..j2], j2)
  {
    var i1 := if IsSign(At(s, i0)) then i0 + 1 else i0;
    var i2 := if At(s, j1) == '.' then j1 + 1 else j1;
    SpacesEndAt(s, 0, i0);
    DigitsEndAt(s, i1, j1);
    DigitsEndAt(s, i2, j2);
  }

  lemma RealOfSum(x: int, p: int, y: int)
    ensures (x * p + y) as real == x as real * p as real + y as real
  {
  }

  lemma SignedQuotient(sign: real, a: real, p: real)
    requires p > 0.0
    ensures sign * a / p == sign * (a / p)
  {
  }

  lemma QuotientSplit(sign: real, n: int, x: int, p: int, y: int)
    requires n == x * p + y && p >= 1
    ensures sign * (n as real) / (p as real) == sign * (x as real + y as real / p as real)
  {
    RealOfSum(x, p, y);
    DivideSum(x as real, y as real, p as real);
    SignedQuotient(sign, n as real, p as real);
  }

  /** The value of a scan, given the digits' value and the power of ten. */
  lemma ScanValueOf(sc: Scan, val: real, power: real)
    requires AllDigits(sc.whole) && AllDigits(sc.fraction) && AllDigits(sc.whole + sc.fraction)
    requires val == DigitsValue(sc.whole + sc.fraction) as real
    requires power == Pow10(|sc.fraction|) as real
    ensures ScanValue(sc) == Scaled(SignValue(sc.negative), val, power)
  {
  }

  lemma DivideSum(x: real, y: real, p: real)
    requires p > 0.0
    ensures (x * p + y) / p == x + y / p
  {
    assert (x + y / p) * p == x * p + y;
  }

  /** The value of the decimal numeral with the given sign, integer digits and
      fraction digits, in the usual positional notation. */
  function DecimalValue(negative: bool, whole: seq<char>, frac: seq<char>): real
    requires AllDigits(whole) && AllDigits(frac)
  {
    SignValue(negative) * (DigitsValue(whole) as real + DigitsValue(frac) as real / Pow10(|frac|) as real)
  }

  /** Reading all digits as one integer and dividing by ten per fraction digit
      gives the positional value of the numeral. */
  lemma ScanValueIsDecimal(sc: Scan)
    requires AllDigits(sc.whole) && AllDigits(sc.fraction)
    ensures ScanValue(sc) == DecimalValue(sc.negative, sc.whole, sc.fraction)
  {
    DigitsValueAppend(sc.whole, sc.fraction);
    var n, p := DigitsValue(sc.whole + sc.fraction), Pow10(|sc.fraction|);
    QuotientSplit(SignValue(sc.negative), n, DigitsValue(sc.whole), p, DigitsValue(sc.fraction));
  }

  /** A numeral without fraction digits is worth its signed integer part. */
  lemma DecimalValueInteger(negative: bool, whole: seq<char>)
    requires AllDigits(whole)
    ensures DecimalValue(negative, whole, []) == SignValue(negative) * DigitsValue(whole) as real
  {
    assert DigitsValue([]) == 0 && Pow10(0) == 1;
  }

  /** Where the scan of spaces in [0, a), an optional sign in [a, b), digits in
      [b, c), a dot at c and digits after it finds each part. */
  lemma ScanDecimal(s: CString, a: nat, b: nat, c: nat)
    requires a <= b <= c < |s|
    requires AllSpaces(s[..a]) && OptionalSign(s[a..b]) && AllDigits(s[b..c])
    requires s[c] == '.' && AllDigits(s[c + 1..])
    ensures ScanOf(s) == Scan(s[a..b] == "-", s[b..c], s[c + 1..], |s|)
  {
    assert forall k | 0 <= k < a :: IsSpace(s[k]) by {
      forall k | 0 <= k < a ensures IsSpace(s[k]) {
        assert s[..a][k] == s[k];
      }
    }
    assert IsSign(At(s, a)) <==> b == a + 1 by {
      if b == a + 1 {
        assert s[a..b][0] == s[a];
      }
    }
    assert At(s, a) == '-' <==> s[a..b] == "-" by {
      if b == a + 1 {
        assert s[a..b][0] == s[a];
      }
    }
    assert !IsSpace(At(s, a)) by {
      if b == a + 1 {
        assert s[a..b][0] == s[a];
      } else if b < c {
        assert s[b..c][0] == s[a];
      }
    }
    assert forall k | b <= k < c :: IsDigit(s[k]) by {
      forall k | b <= k < c ensures IsDigit(s[k]) {
        assert s[b..c][k - b] == s[k];
      }
    }
    assert forall k | c + 1 <= k < |s| :: IsDigit(s[k]) by {
      forall k | c + 1 <= k < |s| ensures IsDigit(s[k]) {
        assert s[c + 1..][k - c - 1] == s[k];
      }
    }
    ScanAt(s, a, c, |s|);
    assert s[c + 1..|s|] == s[c + 1..];
  }

  /** Spaces in [0, a), an optional sign in [a, b), digits in [b, c), a dot at c
      and digits after it: `tmp_atof` reads all of s and returns the signed
      decimal value it denotes. */
  lemma AtofDecimal(s: CString, a: nat, b: nat, c: nat)
    requires a <= b <= c < |s|
    requires AllSpaces(s[..a]) && OptionalSign(s[a..b]) && AllDigits(s[b..c])
    requires s[c] == '.' && AllDigits(s[c + 1..])
    ensures Atof(s) == DecimalValue(s[a..b] == "-", s[b..c], s[c + 1..])
    ensures AtofEnd(s) == |s|
  {
    ScanDecimal(s, a, b, c);
    ScanValueIsDecimal(ScanOf(s));
  }

  /** Where the scan of spaces in [0, a), an optional sign in [a, b) and digits
      after it finds each part. */
  lemma ScanInteger(s: CString, a: nat, b: nat)
    requires a <= b <= |s| && |s| > 0
    requires AllSpaces(s[..a]) && OptionalSign(s[a..b]) && AllDigits(s[b..])
    ensures ScanOf(s) == Scan(s[a..b] == "-", s[b..], [], |s|)
  {
    assert forall k | 0 <= k < a :: IsSpace(s[k]) by {
      forall k | 0 <= k < a ensures IsSpace(s[k]) {
        assert s[..a][k] == s[k];
      }
    }
    assert IsSign(At(s, a)) <==> b == a + 1 by {
      if b == a + 1 {
        assert s[a..b][0] == s[a];
      } else if b < |s| {
        assert s[b..][0] == s[a];
      }
    }
    assert At(s, a) == '-' <==> s[a..b] == "-" by {
      if b == a + 1 {
        assert s[a..b][0] == s[a];
      }
    }
    assert !IsSpace(At(s, a)) by {
      if b == a + 1 {
        assert s[a..b][0] == s[a];
      } else if b < |s| {
        assert s[b..][0] == s[a];
      }
    }
    assert forall k | b <= k < |s| :: IsDigit(s[k]) by {
      forall k | b <= k < |s| ensures IsDigit(s[k]) {
        assert s[b..][k - b] == s[k];
      }
    }
    ScanAt(s, a, |s|, |s|);
    assert s[b..|s|] == s[b..];
    assert s[|s|..|s|] == [];
  }

  /** Spaces in [0, a), an optional sign in [a, b) and digits after it:
      `tmp_atof` reads all of s and returns the signed integer it denotes. */
  lemma AtofInteger(s: CString, a: nat, b: nat)
    requires a <= b <= |s| && |s| > 0
    requires AllSpaces(s[..a]) && OptionalSign(s[a..b]) && AllDigits(s[b..])
    ensures Atof(s) == DecimalValue(s[a..b] == "-", s[b..], [])
    ensures AtofEnd(s) == |s|
  {
    ScanInteger(s, a, b);
    ScanValueIsDecimal(ScanOf(s));
  }

  /** Only one sign is honoured: a second sign right after it ends the scan,
      and the value is 0. */
  lemma AtofOneSign(s: CString)
    requires |s| >= 2 && IsSign(s[0]) && IsSign(s[1])
    ensures Atof(s) == 0.0 && AtofEnd(s) == 1
  {
    ScanAt(s, 0, 1, 1);
    assert s[1..1] == [];
  }

  /** Whatever `is_number` accepts, `tmp_atof` reads to its end. */
  lemma NumberIsConsumed(s: CString)
    requires NumberSyntax(s) && |s| > 0
    ensures AtofEnd(s) == |s|
  {
    assert NumberChar(s, 0);
    SpacesEndAt(s, 0, 0);
    var i1 := if IsSign(s[0]) then 1 else 0;
    var j1 := DigitsEnd(s, i1);
    if j1 < |s| {
      assert NumberChar(s, j1);
      assert s[j1] == '.';
      forall k | j1 < k < |s| ensures IsDigit(s[k]) {
        assert NumberChar(s, k);
        assert !(s[j1] == '.' && s[k] == '.');
      }
      DigitsEndAt(s, j1 + 1, |s|);
    }
  }
}
