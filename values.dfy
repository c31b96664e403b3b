/** The JavaScript values the validation engine handles, and the built-in
    conversions it relies on: truthiness (`if (v)`, `v || w`), `String(v)`,
    jQuery's `$.trim`, `parseInt(v, 10)` and the number conversion that a
    relational comparison `n < v` applies to its right operand. */
module Values {

  datatype Option<+T> = None | Some(value: T)

  /** An attribute value, a rule parameter, a message or a rule result.
      Numbers are integers here (see README, "Left out"). */
  datatype Value = Undefined | Null | Bool(b: bool) | Num(n: int) | Str(s: string)

  /** JavaScript truthiness. */
  predicate Truthy(v: Value) {
    match v
    case Undefined => false
    case Null => false
    case Bool(b) => b
    case Num(n) => n != 0
    case Str(s) => s != ""
  }

  // ---------------------------------------------------------------------
  // Decimal digits

  predicate IsDigit(c: char) {
    '0' <= c <= '9'
  }

  predicate AllDigits(s: string) {
    forall i :: 0 <= i < |s| ==> IsDigit(s[i])
  }

  function DigitChar(d: nat): (c: char)
    requires d < 10
    ensures IsDigit(c) && c as int - '0' as int == d
  {
    (48 + d) as char
  }

  /** The shortest decimal spelling of `n`, as `String(n)` gives it. */
  function NatToDecimal(n: nat): (s: string)
    ensures |s| > 0 && AllDigits(s)
    ensures s[0] != '0' || n == 0
  {
    if n < 10 then [DigitChar(n)] else NatToDecimal(n / 10) + [DigitChar(n % 10)]
  }

  /** The number a string of decimal digits denotes. */
  function DecimalValue(ds: string): nat
    requires AllDigits(ds)
  {
    if ds == [] then 0
    else 10 * DecimalValue(ds[..|ds| - 1]) + (ds[|ds| - 1] as int - '0' as int)
  }

  /** Reading back the decimal spelling of a number gives the number. */
  lemma {:induction false} DecimalRoundTrip(n: nat)
    ensures DecimalValue(NatToDecimal(n)) == n
  {
    if n >= 10 {
      var s := NatToDecimal(n);
      assert s[..|s| - 1] == NatToDecimal(n / 10);
      DecimalRoundTrip(n / 10);
    }
  }

  /** The longest prefix of `s` made of decimal digits. */
  function DigitPrefix(s: string): (ds: string)
    ensures |ds| <= |s| && ds == s[..|ds|] && AllDigits(ds)
    ensures |ds| == |s| || !IsDigit(s[|ds|])
  {
    if s != [] && IsDigit(s[0]) then [s[0]] + DigitPrefix(s[1..]) else []
  }

  // ---------------------------------------------------------------------
  // String(v)

  /** `String(v)`, the text that `'...' + v` and `result += v` append. */
  function Show(v: Value): (s: string)
    ensures Truthy(v) ==> s != ""
  {
    match v
    case Undefined => "undefined"
    case Null => "null"
    case Bool(b) => if b then "true" else "false"
    case Num(n) => if n < 0 then "-" + NatToDecimal(-n) else NatToDecimal(n)
    case Str(s) => s
  }

  // ---------------------------------------------------------------------
  // String length

  /** A character JavaScript stores in one UTF-16 code unit: one in the
      Basic Multilingual Plane, below U+10000. */
  predicate InOneUnit(c: char) {
    c < '\U{10000}'
  }

  /** `s.length`: the number of UTF-16 code units of `s`. A character beyond
      U+FFFF is stored as a surrogate pair and counts twice. */
  function Utf16Length(s: string): (n: nat)
    ensures |s| <= n <= 2 * |s|
    ensures n == |s| <==> forall i :: 0 <= i < |s| ==> InOneUnit(s[i])
  {
    if s == [] then 0 else (if InOneUnit(s[0]) then 1 else 2) + Utf16Length(s[1..])
  }

  // ---------------------------------------------------------------------
  // Whitespace and $.trim

  /** The characters JavaScript's `\s` matches. */
  predicate IsSpace(c: char) {
    || c == ' ' || c == '\t' || c == '\n' || c == '\r' || c == '\U{B}' || c == '\U{C}'
    || c == '\U{A0}' || c == '\U{1680}' || ('\U{2000}' <= c <= '\U{200A}')
    || c == '\U{2028}' || c == '\U{2029}' || c == '\U{202F}' || c == '\U{205F}'
    || c == '\U{3000}' || c == '\U{FEFF}'
  }

  predicate AllSpace(s: string) {
    forall i :: 0 <= i < |s| ==> IsSpace(s[i])
  }

  /** How many whitespace characters `s` starts with. */
  function LeadingSpaces(s: string): (n: nat)
    ensures n <= |s| && AllSpace(s[..n])
    ensures n == |s| || !IsSpace(s[n])
  {
    if s != [] && IsSpace(s[0]) then 1 + LeadingSpaces(s[1..]) else 0
  }

  /** How many whitespace characters `s` ends with. */
  function TrailingSpaces(s: string): (n: nat)
    ensures n <= |s| && AllSpace(s[|s| - n..])
    ensures n == |s| || !IsSpace(s[|s| - n - 1])
  {
    if s != [] && IsSpace(s[|s| - 1]) then 1 + TrailingSpaces(s[..|s| - 1]) else 0
  }

  /** `s` with its leading whitespace removed. */
  function TrimStart(s: string): string {
    s[LeadingSpaces(s)..]
  }

  /** `s` with whitespace removed at both ends: what is left is a slice of
      `s`, everything cut away is whitespace, and the slice neither starts
      nor ends with whitespace. */
  function TrimString(s: string): (r: string)
    ensures var k := LeadingSpaces(s);
            k + |r| <= |s| && r == s[k..k + |r|] && AllSpace(s[k + |r|..])
    ensures r == [] || (!IsSpace(r[0]) && !IsSpace(r[|r| - 1]))
    ensures r == [] <==> AllSpace(s)
  {
    var k := LeadingSpaces(s);
    var t := s[k..];
    var r := t[..|t| - TrailingSpaces(t)];
    TrimBothEnds(s, k, t, r);
    r
  }

  /** Gluing the guarantees of LeadingSpaces and TrailingSpaces together. */
  lemma TrimBothEnds(s: string, k: nat, t: string, r: string)
    requires k <= |s| && t == s[k..] && AllSpace(s[..k]) && (t == [] || !IsSpace(t[0]))
    requires |r| <= |t| && r == t[..|r|] && AllSpace(t[|r|..]) && (r == [] || !IsSpace(r[|r| - 1]))
    ensures k <= |s| - |r| && r == s[k..k + |r|] && AllSpace(s[k + |r|..])
    ensures r == [] || (!IsSpace(r[0]) && !IsSpace(r[|r| - 1]))
    ensures r == [] <==> AllSpace(s)
  {
    assert r == s[k..k + |r|];
    assert s[k + |r|..] == t[|r|..];
    if r == [] {
      forall i | 0 <= i < |s| ensures IsSpace(s[i]) {
        assert s[..k][i] == s[i];
      }
    }
    if r != [] {
      assert r[0] == t[0];
    }
  }

  /** Whitespace around a string that has no whitespace at its ends is what
      trimming removes, and nothing more. */
  lemma TrimPadded(pre: string, s: string, post: string)
    requires AllSpace(pre) && AllSpace(post)
    requires s == [] || (!IsSpace(s[0]) && !IsSpace(s[|s| - 1]))
    ensures TrimString(pre + s + post) == s
  {
    var w := pre + s + post;
    if s == [] {
      assert AllSpace(w) by {
        forall i | 0 <= i < |w| ensures IsSpace(w[i]) {
          if i < |pre| { assert w[i] == pre[i]; } else { assert w[i] == post[i - |pre|]; }
        }
      }
    } else {
      TrimSliceUnique(pre, s, post, LeadingSpaces(w), TrimString(w));
    }
  }

  /** The only slice of `pre + s + post` with whitespace outside it and
      none at its ends is `s` itself, when `s` is not empty. */
  lemma TrimSliceUnique(pre: string, s: string, post: string, k: nat, r: string)
    requires AllSpace(pre) && AllSpace(post)
    requires s != [] && !IsSpace(s[0]) && !IsSpace(s[|s| - 1])
    requires var w := pre + s + post;
             k <= |w| - |r| && r == w[k..k + |r|] && AllSpace(w[..k]) && AllSpace(w[k + |r|..])
    requires r == [] || (!IsSpace(r[0]) && !IsSpace(r[|r| - 1]))
    ensures r == s
  {
    var w := pre + s + post;
    var a, b := |pre|, |pre| + |s| - 1;
    assert w[a] == s[0] && w[b] == s[|s| - 1];
    if r != [] {
      assert k == a && |r| == |s|;
      assert w[a..a + |s|] == s;
    }
  }

  /** `$.trim(v)` as jQuery 1.5 and later define it: null and undefined
      become the empty string, any other value is converted with `String(v)`
      and stripped of surrounding whitespace. */
  function TrimValue(v: Value): (r: string)
    ensures v.Str? ==> (r == "" <==> AllSpace(v.s))
    ensures v.Null? || v.Undefined? ==> r == ""
  {
    if v.Null? || v.Undefined? then "" else TrimString(Show(v))
  }

  // ---------------------------------------------------------------------
  // Numbers from values

  predicate IsSign(c: char) {
    c == '-' || c == '+'
  }

  /** An optional leading sign: its factor and the text after it. */
  function SplitSign(t: string): (int, string) {
    if t != [] && t[0] == '-' then (-1, t[1..])
    else if t != [] && t[0] == '+' then (1, t[1..])
    else (1, t)
  }

  /** `parseInt(v, 10)`: the text of `v`, leading whitespace skipped, an
      optional sign, then as many decimal digits as follow. `None` stands
      for `NaN`, the result when no digit follows. */
  function ParseInt(v: Value): Option<int> {
    var (sign, rest) := SplitSign(TrimStart(Show(v)));
    var ds := DigitPrefix(rest);
    if ds == [] then None else Some(sign * DecimalValue(ds))
  }

  /** The converse of reading a leading integer: when `parseInt` yields a
      number, the text is whitespace, an optional sign, digits worth that
      number, and then text that does not start with a digit. */
  lemma ParseIntReadsPrefix(v: Value) returns (pre: string, sign: string, ds: string, rest: string)
    ensures ParseInt(v).Some? ==>
              && Show(v) == pre + sign + ds + rest
              && AllSpace(pre) && (sign == [] || (|sign| == 1 && IsSign(sign[0])))
              && ds != [] && AllDigits(ds) && (rest == [] || !IsDigit(rest[0]))
              && ParseInt(v).value == (if sign == "-" then -1 else 1) * DecimalValue(ds)
  {
    pre, sign, ds, rest := TextReadsPrefix(Show(v));
  }

  /** `ParseIntReadsPrefix` on the text itself. */
  lemma TextReadsPrefix(s: string) returns (pre: string, sign: string, ds: string, rest: string)
    ensures s == pre + sign + ds + rest
    ensures AllSpace(pre) && (sign == [] || (|sign| == 1 && IsSign(sign[0])))
    ensures ds == DigitPrefix(SplitSign(TrimStart(s)).1) && (rest == [] || !IsDigit(rest[0]))
    ensures SplitSign(TrimStart(s)).0 == (if sign == "-" then -1 else 1)
  {
    var t := TrimStart(s);
    pre := LeadOf(s);
    sign := SignOf(t);
    var r := SplitSign(t).1;
    ds, rest := DigitsOf(r);
    Regroup4(pre, sign, ds, rest);
  }

  lemma Regroup4(a: string, b: string, c: string, d: string)
    ensures a + b + c + d == a + (b + (c + d))
  {
  }

  /** The whitespace `TrimStart` takes off the front of `s`. */
  lemma LeadOf(s: string) returns (pre: string)
    ensures AllSpace(pre) && s == pre + TrimStart(s)
  {
    pre := s[..LeadingSpaces(s)];
    assert s == pre + s[LeadingSpaces(s)..];
  }

  /** The sign `SplitSign` takes off the front of `t`. */
  lemma SignOf(t: string) returns (sign: string)
    ensures sign == [] || (|sign| == 1 && IsSign(sign[0]))
    ensures t == sign + SplitSign(t).1 && SplitSign(t).0 == (if sign == "-" then -1 else 1)
  {
    sign := if t != [] && IsSign(t[0]) then t[..1] else [];
    assert t == sign + t[|sign|..];
  }

  /** The digits `DigitPrefix` takes off the front of `r`, and what follows. */
  lemma DigitsOf(r: string) returns (ds: string, rest: string)
    ensures ds == DigitPrefix(r) && r == ds + rest && (rest == [] || !IsDigit(rest[0]))
  {
    ds := DigitPrefix(r);
    rest := r[|ds|..];
    assert r == ds + rest;
  }

  /** Values whose text does not start with digits parse to `NaN`. */
  lemma NonNumericParsesToNaN(v: Value)
    requires v.Undefined? || v.Null? || v.Bool?
    ensures ParseInt(v) == None
  {
    var s := Show(v);
    assert !IsSpace(s[0]);
    assert TrimStart(s) == s;
    assert !IsDigit(s[0]);
  }

  /** The number a relational comparison `n < v` compares against: `None`
      stands for `NaN`, against which every comparison is false. Strings
      are read as a whole (surrounding whitespace allowed, an empty string
      is 0); a string that is not an optionally signed decimal integer is
      `NaN`. */
  function ToNumber(v: Value): Option<int> {
    match v
    case Undefined => None
    case Null => Some(0)
    case Bool(b) => Some(if b then 1 else 0)
    case Num(n) => Some(n)
    case Str(s) =>
      var t := TrimString(s);
      if t == [] then Some(0)
      else
        var (sign, rest) := SplitSign(t);
        if rest != [] && AllDigits(rest) then Some(sign * DecimalValue(rest)) else None
  }

  /** A string compares as `NaN` exactly when its trimmed text is a lone
      sign, or holds a character that is neither a digit nor a leading
      sign. */
  lemma ToNumberNaNIff(s: string)
    ensures var t := TrimString(s);
            ToNumber(Str(s)).None?
            <==> (|t| == 1 && IsSign(t[0]))
                 || exists i :: 0 <= i < |t| && !IsDigit(t[i]) && (i > 0 || !IsSign(t[0]))
  {
    var t := TrimString(s);
    if t != [] {
      var (sign, rest) := SplitSign(t);
      if IsSign(t[0]) {
        assert rest == t[1..];
        if rest != [] && !AllDigits(rest) {
          var k :| 0 <= k < |rest| && !IsDigit(rest[k]);
          assert t[k + 1] == rest[k];
        }
        if exists i :: 0 <= i < |t| && !IsDigit(t[i]) && (i > 0 || !IsSign(t[0])) {
          var i :| 0 <= i < |t| && !IsDigit(t[i]) && (i > 0 || !IsSign(t[0]));
          assert rest[i - 1] == t[i];
        }
      } else {
        assert rest == t;
      }
    }
  }

  /** `n < v` for a number `n`. */
  predicate LessThan(n: int, v: Value) {
    ToNumber(v).Some? && n < ToNumber(v).value
  }

  /** `n > v` for a number `n`. */
  predicate GreaterThan(n: int, v: Value) {
    ToNumber(v).Some? && n > ToNumber(v).value
  }
}
