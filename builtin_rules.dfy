/** The named rules registered in `Backbone.Validation.validators`. Each
    takes the candidate value, the attribute name, the shared message and
    the rule's parameter, and returns an error (a truthy value) or
    `undefined`. */
module BuiltinRules {
  import opened Values

  /** The shape of a registered rule: `(value, attr, msg, param) -> result`. */
  type RuleFn = (Value, string, Value, Value) -> Value

  /** `msg || fallback`: the declared message when it is truthy. */
  function Message(msg: Value, fallback: string): (r: Value)
    requires fallback != ""
    ensures Truthy(r)
    ensures Truthy(msg) ==> r == msg
  {
    if Truthy(msg) then msg else Str(fallback)
  }

  /** `required`: null, undefined, a string of nothing but whitespace and
      the boolean `false` are missing values. */
  function Required(value: Value, attr: string, msg: Value, param: Value): (r: Value)
    ensures Truthy(r) <==> (value.Null? || value.Undefined? || value == Bool(false)
                            || (value.Str? && AllSpace(value.s)))
    ensures Truthy(r) ==> r == Message(msg, attr + " is required")
    ensures !Truthy(r) ==> r == Undefined
  {
    var isEmptyString := value.Str? && TrimValue(value) == "";
    var isFalseBoolean := value.Bool? && value == Bool(false);
    if value.Null? || value.Undefined? || isEmptyString || isFalseBoolean then
      Message(msg, attr + " is required")
    else
      Undefined
  }

  // `parseInt` always yields a number (NaN included) and, from underscore 1.2
  // on, `_.isNumber(NaN)` holds, so the `!_.isNumber` test of `min` and `max`
  // never fires; a comparison with NaN is false.

  /** `min`: the integer the value starts with must not be below the bound. */
  function Min(value: Value, attr: string, msg: Value, minValue: Value): (r: Value)
    ensures ParseInt(value).None? ==> r == Undefined
    ensures ParseInt(value).Some? ==> (Truthy(r) <==> LessThan(ParseInt(value).value, minValue))
    ensures Truthy(r) ==> r == Message(msg, attr + " must be larger than or equal to " + Show(minValue))
    ensures !Truthy(r) ==> r == Undefined
  {
    var n := ParseInt(value);
    if n.Some? && LessThan(n.value, minValue) then
      Message(msg, attr + " must be larger than or equal to " + Show(minValue))
    else
      Undefined
  }

  /** `max`: the integer the value starts with must not exceed the bound. */
  function Max(value: Value, attr: string, msg: Value, maxValue: Value): (r: Value)
    ensures ParseInt(value).None? ==> r == Undefined
    ensures ParseInt(value).Some? ==> (Truthy(r) <==> GreaterThan(ParseInt(value).value, maxValue))
    ensures Truthy(r) ==> r == Message(msg, attr + " must be less than or equal to " + Show(maxValue))
    ensures !Truthy(r) ==> r == Undefined
  {
    var n := ParseInt(value);
    if n.Some? && GreaterThan(n.value, maxValue) then
      Message(msg, attr + " must be less than or equal to " + Show(maxValue))
    else
      Undefined
  }

  // From jQuery 1.5 on, `$.trim` always yields a string, so the `_.isString`
  // test of `minLength` and `maxLength` always holds.

  /** `minLength`: the trimmed text must have at least the given length,
      counted in UTF-16 code units as `value.length` counts. */
  function MinLength(value: Value, attr: string, msg: Value, minLength: Value): (r: Value)
    ensures Truthy(r) ==> r == Message(msg, attr + " must be longer than or equal to " + Show(minLength) + " characters")
    ensures !Truthy(r) ==> r == Undefined
  {
    var t := TrimValue(value);
    if LessThan(Utf16Length(t), minLength) then
      Message(msg, attr + " must be longer than or equal to " + Show(minLength) + " characters")
    else
      Undefined
  }

  /** `maxLength`: the trimmed text must have at most the given length,
      counted in UTF-16 code units as `value.length` counts. */
  function MaxLength(value: Value, attr: string, msg: Value, maxLength: Value): (r: Value)
    ensures Truthy(r) ==> r == Message(msg, attr + " must be shorter than or equal to" + Show(maxLength) + " characters")
    ensures !Truthy(r) ==> r == Undefined
  {
    var t := TrimValue(value);
    if GreaterThan(Utf16Length(t), maxLength) then
      Message(msg, attr + " must be shorter than or equal to" + Show(maxLength) + " characters")
    else
      Undefined
  }

  /** The registry as the library ships it. The `pattern` rule matches
      regular expressions, which this model does not interpret, so it is
      supplied by the caller. */
  function DefaultRegistry(pattern: RuleFn): (r: map<string, RuleFn>)
    ensures r.Keys == {"required", "min", "max", "minLength", "maxLength", "pattern"}
    ensures r["required"] == Required && r["min"] == Min && r["max"] == Max
    ensures r["minLength"] == MinLength && r["maxLength"] == MaxLength && r["pattern"] == pattern
  {
    map["required" := Required, "min" := Min, "max" := Max,
        "minLength" := MinLength, "maxLength" := MaxLength, "pattern" := pattern]
  }

  // ---------------------------------------------------------------------
  // Properties of the rules

  /** With numeric bounds, a number passes both `min` and `max` exactly when
      it lies in the closed range between them. */
  lemma NumberInRange(n: int, lo: int, hi: int, attr: string, msg: Value)
    ensures Min(Num(n), attr, msg, Num(lo)) == Undefined && Max(Num(n), attr, msg, Num(hi)) == Undefined
            <==> lo <= n <= hi
  {
    NumberParsesBack(n);
  }

  /** Each violated bound contributes an error of its own. */
  lemma NumberOutOfRange(n: int, lo: int, hi: int, attr: string, msg: Value)
    ensures Truthy(Min(Num(n), attr, msg, Num(lo))) <==> n < lo
    ensures Truthy(Max(Num(n), attr, msg, Num(hi))) <==> n > hi
  {
    NumberParsesBack(n);
  }

  /** Text that starts with an integer, after leading whitespace, passes
      both `min` and `max` exactly when that integer lies in the closed
      range between them: " 18 years" is judged as 18. */
  lemma LeadingIntegerInRange(pre: string, n: int, rest: string, lo: int, hi: int, attr: string, msg: Value)
    requires AllSpace(pre)
    requires rest == [] || !IsDigit(rest[0])
    ensures var v := Str(pre + Show(Num(n)) + rest);
            Min(v, attr, msg, Num(lo)) == Undefined && Max(v, attr, msg, Num(hi)) == Undefined
            <==> lo <= n <= hi
  {
    ParseLeadingInteger(pre, n, rest);
  }

  /** Each bound such text violates contributes an error of its own. */
  lemma LeadingIntegerOutOfRange(pre: string, n: int, rest: string, lo: int, hi: int, attr: string, msg: Value)
    requires AllSpace(pre)
    requires rest == [] || !IsDigit(rest[0])
    ensures Truthy(Min(Str(pre + Show(Num(n)) + rest), attr, msg, Num(lo))) <==> n < lo
    ensures Truthy(Max(Str(pre + Show(Num(n)) + rest), attr, msg, Num(hi))) <==> n > hi
  {
    ParseLeadingInteger(pre, n, rest);
  }

  /** `parseInt` reads the integer at the start of a string, after leading
      whitespace, and ignores whatever text follows it. */
  lemma ParseLeadingInteger(pre: string, n: int, rest: string)
    requires AllSpace(pre)
    requires rest == [] || !IsDigit(rest[0])
    ensures ParseInt(Str(pre + Show(Num(n)) + rest)) == Some(n)
  {
    var m: nat := if n < 0 then -n else n;
    var sign := if n < 0 then -1 else 1;
    var ds := NatToDecimal(m);
    var tail := SignedDecimalTail(n, rest);
    TrimPadding(pre, Show(Num(n)), rest);
    DigitPrefixOfDigits(ds, rest);
    DecimalRoundTrip(m);
    ParseFromParts(pre + Show(Num(n)) + rest, tail, sign, ds, rest);
  }

  /** A number's own text parses back to that number. */
  lemma NumberParsesBack(n: int)
    ensures ParseInt(Num(n)) == Some(n)
  {
    var t := Show(Num(n));
    assert "" + t + "" == t;
    ParseLeadingInteger("", n, "");
    ParseIntOfText(Num(n), Str(t));
  }

  /** A string holding an integer's text, with whitespace around it,
      compares as that integer. */
  lemma ToNumberReadsInteger(pre: string, n: int, post: string)
    requires AllSpace(pre) && AllSpace(post)
    ensures ToNumber(Str(pre + Show(Num(n)) + post)) == Some(n)
  {
    var t := SignedDecimalTail(n, "");
    assert t == Show(Num(n));
    IntegerTextEnds(n);
    TrimPadded(pre, t, post);
    ToNumberOfTrimmed(pre + t + post, t);
    IntegerTextReads(n, t);
  }

  /** A number's text ends with a digit. */
  lemma IntegerTextEnds(n: int)
    ensures var t := Show(Num(n)); t != [] && IsDigit(t[|t| - 1])
  {
    var ds := NatToDecimal(if n < 0 then -n else n);
    assert Show(Num(n))[|Show(Num(n))| - 1] == ds[|ds| - 1];
  }

  /** A string compares as the number its trimmed text spells. */
  lemma ToNumberOfTrimmed(s: string, t: string)
    ensures TrimString(s) == t && TrimString(t) == t ==> ToNumber(Str(s)) == ToNumber(Str(t))
  {
  }

  /** A number's text, with no padding, compares as that number. */
  lemma IntegerTextReads(n: int, t: string)
    requires t == Show(Num(n)) + "" && TrimString(t) == t
    ensures ToNumber(Str(t)) == Some(n)
  {
    var m: nat := if n < 0 then -n else n;
    var tail := SignedDecimalTail(n, "");
    assert SplitSign(t).1 == NatToDecimal(m);
    DecimalRoundTrip(m);
  }

  /** `parseInt` reads only the text of its argument. */
  lemma ParseIntOfText(v: Value, w: Value)
    requires Show(v) == Show(w)
    ensures ParseInt(v) == ParseInt(w)
  {
  }

  /** A number's text followed by `rest`, read as sign and digits. */
  lemma SignedDecimalTail(n: int, rest: string) returns (tail: string)
    ensures tail == Show(Num(n)) + rest && tail != [] && !IsSpace(tail[0])
    ensures SplitSign(tail) == (if n < 0 then -1 else 1, NatToDecimal(if n < 0 then -n else n) + rest)
  {
    var ds := NatToDecimal(if n < 0 then -n else n);
    tail := Show(Num(n)) + rest;
    if n < 0 {
      assert tail == "-" + (ds + rest);
    } else {
      assert tail == ds + rest && IsDigit(tail[0]);
    }
  }

  lemma TrimPadding(pre: string, num: string, rest: string)
    requires AllSpace(pre) && num != [] && !IsSpace(num[0])
    ensures TrimStart(pre + num + rest) == num + rest
  {
    assert pre + num + rest == pre + (num + rest);
    LeadingSpacesOfPadded(pre, num + rest);
  }

  lemma ParseFromParts(s: string, tail: string, sign: int, ds: string, rest: string)
    requires TrimStart(s) == tail && SplitSign(tail) == (sign, ds + rest)
    requires ds != [] && AllDigits(ds) && DigitPrefix(ds + rest) == ds
    ensures ParseInt(Str(s)) == Some(sign * DecimalValue(ds))
  {
  }

  lemma {:induction false} LeadingSpacesOfPadded(pre: string, s: string)
    requires AllSpace(pre) && (s == [] || !IsSpace(s[0]))
    ensures LeadingSpaces(pre + s) == |pre|
  {
    if pre != [] {
      assert (pre + s)[1..] == pre[1..] + s;
      LeadingSpacesOfPadded(pre[1..], s);
    }
  }

  lemma {:induction false} DigitPrefixOfDigits(ds: string, rest: string)
    requires AllDigits(ds) && (rest == [] || !IsDigit(rest[0]))
    ensures DigitPrefix(ds + rest) == ds
  {
    if ds != [] {
      assert (ds + rest)[1..] == ds[1..] + rest;
      DigitPrefixOfDigits(ds[1..], rest);
    }
  }

  /** The length rules measure the text without surrounding whitespace:
      padding a string with whitespace changes neither rule's verdict. */
  lemma LengthIgnoresPadding(pre: string, s: string, post: string, attr: string, msg: Value, bound: Value)
    requires AllSpace(pre) && AllSpace(post)
    ensures MinLength(Str(pre + s + post), attr, msg, bound) == MinLength(Str(s), attr, msg, bound)
    ensures MaxLength(Str(pre + s + post), attr, msg, bound) == MaxLength(Str(s), attr, msg, bound)
  {
    TrimIgnoresPadding(pre, s, post);
    assert TrimValue(Str(pre + s + post)) == TrimValue(Str(s));
  }

  /** Trimming a padded string gives what trimming the string gives. */
  lemma TrimIgnoresPadding(pre: string, s: string, post: string)
    requires AllSpace(pre) && AllSpace(post)
    ensures TrimString(pre + s + post) == TrimString(s)
  {
    var t := TrimString(s);
    var a, b := TrimmedCore(s);
    AllSpaceConcat(pre, a);
    AllSpaceConcat(b, post);
    Regroup(pre, a, t, b, post);
    TrimPadded(pre + a, t, b + post);
  }

  lemma Regroup(pre: string, a: string, t: string, b: string, post: string)
    ensures pre + (a + t + b) + post == (pre + a) + t + (b + post)
  {
  }

  /** A string is its trimmed text with whitespace on either side. */
  lemma TrimmedCore(s: string) returns (a: string, b: string)
    ensures s == a + TrimString(s) + b && AllSpace(a) && AllSpace(b)
  {
    var t := TrimString(s);
    var k := LeadingSpaces(s);
    a, b := s[..k], s[k + |t|..];
    SliceThree(s, k, k + |t|);
  }

  lemma SliceThree(s: string, i: nat, j: nat)
    requires i <= j <= |s|
    ensures s == s[..i] + s[i..j] + s[j..]
  {
    assert s[..j] == s[..i] + s[i..j];
  }

  lemma AllSpaceConcat(x: string, y: string)
    requires AllSpace(x) && AllSpace(y)
    ensures AllSpace(x + y)
  {
    forall i | 0 <= i < |x + y| ensures IsSpace((x + y)[i]) {
      if i >= |x| { assert (x + y)[i] == y[i - |x|]; }
    }
  }

  /** With numeric bounds, a string passes both length rules exactly when
      the UTF-16 length of its trimmed text lies in the closed range between
      them. */
  lemma LengthInRange(s: string, lo: int, hi: int, attr: string, msg: Value)
    ensures MinLength(Str(s), attr, msg, Num(lo)) == Undefined && MaxLength(Str(s), attr, msg, Num(hi)) == Undefined
            <==> lo <= Utf16Length(TrimString(s)) <= hi
  {
    LengthVerdicts(s, lo, hi, attr, msg);
  }

  /** A character beyond U+FFFF counts twice: an emoji alone is long enough
      for `minLength: 2`, and too long for `maxLength: 1`. */
  lemma SurrogatePairCountsTwice(attr: string, msg: Value)
    ensures MinLength(Str("\U{1F600}"), attr, msg, Num(2)) == Undefined
    ensures Truthy(MaxLength(Str("\U{1F600}"), attr, msg, Num(1)))
  {
    var e := "\U{1F600}";
    EmojiUnits(e);
    LengthVerdicts(e, 2, 1, attr, msg);
  }

  lemma EmojiUnits(e: string)
    requires e == "\U{1F600}"
    ensures Utf16Length(TrimString(e)) == 2
  {
    TrimPadded("", e, "");
    assert "" + e + "" == e;
    assert !InOneUnit(e[0]) && e[1..] == [];
  }

  /** Each length rule's verdict on its own bound. */
  lemma LengthVerdicts(s: string, lo: int, hi: int, attr: string, msg: Value)
    ensures MinLength(Str(s), attr, msg, Num(lo)) == Undefined <==> lo <= Utf16Length(TrimString(s))
    ensures Truthy(MaxLength(Str(s), attr, msg, Num(hi))) <==> Utf16Length(TrimString(s)) > hi
  {
  }
}
