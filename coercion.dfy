/** How `csv_to_json` turns a CSV cell into a value: Python's `int()` and `float()` on a
    string, and the order in which the two are tried. */
module Coercion {
  import opened Wrappers
  import opened Values
  import opened Text

  /** The whitespace `int()` and `float()` ignore around a number. CPython first maps every
      non-ASCII character that `str.isspace` accepts to a space and then strips only ASCII
      tab, line feed, vertical tab, form feed, carriage return and space; U+001C to U+001F,
      which `str.isspace` also accepts, are ASCII and are therefore not stripped. */
  predicate IsSpace(c: char) {
    || ('\t' <= c <= '\r')
    || c == ' '
    || c == '\U{85}' || c == '\U{A0}' || c == '\U{1680}'
    || ('\U{2000}' <= c <= '\U{200A}')
    || c == '\U{2028}' || c == '\U{2029}' || c == '\U{202F}' || c == '\U{205F}' || c == '\U{3000}'
  }

  function StripLeft(s: string): string {
    if s != [] && IsSpace(s[0]) then StripLeft(s[1..]) else s
  }

  function StripRight(s: string): string {
    if s != [] && IsSpace(s[|s| - 1]) then StripRight(s[..|s| - 1]) else s
  }

  /** `s.strip()`. */
  function Strip(s: string): string {
    StripRight(StripLeft(s))
  }

  /** An optional leading sign: whether it is '-', and the text after it. */
  function Unsign(t: string): (bool, string) {
    if t != [] && (t[0] == '+' || t[0] == '-') then (t[0] == '-', t[1..]) else (false, t)
  }

  /** A run of ASCII digits in which every '_' stands between two digits. */
  predicate IsDigitPart(s: string) {
    && |s| > 0 && IsDigit(s[0]) && IsDigit(s[|s| - 1])
    && (forall i :: 0 <= i < |s| ==> IsDigit(s[i]) || s[i] == '_')
    && (forall i :: 0 <= i < |s| - 1 ==> s[i] == '_' ==> s[i + 1] != '_')
  }

  /** The number spelt by the digits of `s`, underscores ignored. */
  function DigitsValue(s: string): nat {
    if s == [] then 0
    else if IsDigit(s[|s| - 1]) then 10 * DigitsValue(s[..|s| - 1]) + (s[|s| - 1] as int - '0' as int)
    else DigitsValue(s[..|s| - 1])
  }

  /** How many digits `s` holds. */
  function DigitCount(s: string): nat {
    if s == [] then 0 else DigitCount(s[..|s| - 1]) + (if IsDigit(s[|s| - 1]) then 1 else 0)
  }

  function Signed(neg: bool, n: nat): int {
    if neg then -(n as int) else n
  }

  /** A signed run of digits with no surrounding text. */
  function ParseSignedDigits(t: string): Option<int> {
    var u := Unsign(t);
    if IsDigitPart(u.1) then Some(Signed(u.0, DigitsValue(u.1))) else None
  }

  /** CPython's default limit on the number of digits `int()` converts from a string
      (`sys.int_info.default_max_str_digits`); a longer digit run raises ValueError. */
  const MaxStrDigits: nat := 4300

  /** `int(value)` in base 10; None where Python raises ValueError, which includes a
      digit run longer than `MaxStrDigits` (underscores are not digits). Text that `int()`
      accepts never holds a '.'. */
  function ParseInt(value: string): (r: Option<int>)
    ensures r.Some? ==> '.' !in value
  {
    var t := Strip(value);
    if DigitCount(Unsign(t).1) <= MaxStrDigits then
      match ParseSignedDigits(t)
      case Some(n) =>
        SignedDigitsHaveNoDot(t);
        StripKeepsDots(value);
        Some(n)
      case None => None
    else None
  }

  /** The first index of `c` or `d` in `s`, or `|s|` when neither occurs. */
  function FirstIndex(s: string, c: char, d: char): (k: nat)
    ensures k <= |s|
  {
    if s == [] || s[0] == c || s[0] == d then 0 else 1 + FirstIndex(s[1..], c, d)
  }

  function Pow10(n: nat): (p: nat)
    ensures p >= 1
  {
    if n == 0 then 1 else 10 * Pow10(n - 1)
  }

  /** The exact value of `m * 10^e`, one power of ten at a time. */
  function Scaled(m: nat, e: int): real
    decreases if e < 0 then -e else e
  {
    if e == 0 then m as real
    else if e > 0 then 10.0 * Scaled(m, e - 1)
    else Scaled(m, e + 1) / 10.0
  }

  /** Scaling down by `k` powers of ten divides by `10^k`. */
  lemma {:induction false} ScaledDown(m: nat, k: nat)
    ensures Scaled(m, -(k as int)) == m as real / Pow10(k) as real
  {
    if k > 0 {
      ScaledDown(m, k - 1);
      var p := Pow10(k - 1) as real;
      assert Pow10(k) as real == 10.0 * p;
      assert (m as real / p) / 10.0 == m as real / (10.0 * p);
    }
  }

  /** The digits before and after an optional '.' (at least one digit on either side):
      the number they spell with the point removed, and how many digits follow the point. */
  function ParseMantissa(mant: string): Option<(nat, nat)> {
    var d := FirstIndex(mant, '.', '.');
    var ip := mant[..d];
    var fp := if d < |mant| then mant[d + 1..] else [];
    if (ip == [] || IsDigitPart(ip)) && (fp == [] || IsDigitPart(fp)) && (ip != [] || fp != [])
    then Some((DigitsValue(ip + fp), DigitCount(fp)))
    else None
  }

  /** An unsigned float literal: a mantissa and an optional exponent `e`/`E` with its own sign. */
  function ParseUnsignedDecimal(num: string): Option<real> {
    var e := FirstIndex(num, 'e', 'E');
    match ParseMantissa(num[..e])
    case None => None
    case Some(m) =>
      if e == |num| then Some(Scaled(m.0, -(m.1 as int)))
      else
        match ParseSignedDigits(num[e + 1..])
        case None => None
        case Some(x) => Some(Scaled(m.0, x - m.1))
  }

  /** `float(value)` for a value that contains '.': optional whitespace around an optional
      sign and an unsigned literal; '_' may separate digits. None where Python raises
      ValueError. Python's other spellings of a float (inf, infinity, nan) contain no '.'. */
  function ParseDecimal(value: string): Option<real> {
    var u := Unsign(Strip(value));
    match ParseUnsignedDecimal(u.1)
    case Some(r) => Some(if u.0 then -r else r)
    case None => None
  }

  /** The value `csv_to_json` stores for a non-empty cell: `float(value)` when the text
      contains '.', `int(value)` otherwise, and the text itself when that parse raises
      ValueError. So a cell becomes a float only if it holds a '.', an int only if it holds
      none, and otherwise stays exactly the text it was. */
  function Coerce(value: string): (r: Json)
    ensures r.JFloat? || r.JInt? || r == JStr(value)
    ensures r.JFloat? ==> '.' in value
    ensures r.JInt? ==> '.' !in value
  {
    if '.' in value then
      match ParseDecimal(value)
      case Some(r) => JFloat(r)
      case None => JStr(value)
    else
      match ParseInt(value)
      case Some(n) => JInt(n)
      case None => JStr(value)
  }

  // ---------------------------------------------------------------------------
  // What the coercion does with particular shapes of text

  /** Stripping removes whitespace only, so no '.' is lost. */
  lemma {:induction false} StripKeepsDots(s: string)
    ensures multiset(Strip(s))['.'] == multiset(s)['.']
  {
    StripLeftKeepsDots(s);
    StripRightKeepsDots(StripLeft(s));
  }

  lemma {:induction false} StripLeftKeepsDots(s: string)
    ensures multiset(StripLeft(s))['.'] == multiset(s)['.']
  {
    if s != [] && IsSpace(s[0]) {
      StripLeftKeepsDots(s[1..]);
      assert s == [s[0]] + s[1..];
    }
  }

  lemma {:induction false} StripRightKeepsDots(s: string)
    ensures multiset(StripRight(s))['.'] == multiset(s)['.']
  {
    if s != [] && IsSpace(s[|s| - 1]) {
      StripRightKeepsDots(s[..|s| - 1]);
      assert s == s[..|s| - 1] + [s[|s| - 1]];
    }
  }

  /** A run of digits never holds a '.'. */
  lemma DigitPartHasNoDot(s: string)
    requires IsDigitPart(s)
    ensures multiset(s)['.'] == 0
  {
  }

  lemma MantissaHasOneDot(mant: string)
    requires ParseMantissa(mant).Some?
    ensures multiset(mant)['.'] <= 1
  {
    var d := FirstIndex(mant, '.', '.');
    FirstIndexSkips(mant, '.', '.');
    assert multiset(mant[..d])['.'] == 0;
    if d < |mant| {
      var fp := mant[d + 1..];
      if fp != [] {
        assert IsDigitPart(fp);
        DigitPartHasNoDot(fp);
      }
      DotsSplit(mant, d);
    } else {
      assert mant[..d] == mant;
    }
  }

  /** The '.' of `s` are those before index `d`, at `d` and after it. */
  lemma DotsSplit(s: string, d: nat)
    requires d < |s|
    ensures multiset(s)['.'] == multiset(s[..d])['.'] + multiset([s[d]])['.'] + multiset(s[d + 1..])['.']
  {
    assert s == s[..d] + [s[d]] + s[d + 1..];
  }

  lemma SignedDigitsHaveNoDot(t: string)
    requires ParseSignedDigits(t).Some?
    ensures multiset(t)['.'] == 0
  {
    DigitPartHasNoDot(Unsign(t).1);
    if t != [] && (t[0] == '+' || t[0] == '-') {
      assert t == [t[0]] + t[1..];
    }
  }

  lemma UnsignedDecimalHasOneDot(num: string)
    requires ParseUnsignedDecimal(num).Some?
    ensures multiset(num)['.'] <= 1
  {
    var e := FirstIndex(num, 'e', 'E');
    assert ParseMantissa(num[..e]).Some?;
    MantissaHasOneDot(num[..e]);
    if e < |num| {
      FirstIndexFinds(num, 'e', 'E');
      assert ParseSignedDigits(num[e + 1..]).Some?;
      SignedDigitsHaveNoDot(num[e + 1..]);
      DotsSplit(num, e);
    } else {
      assert num[..e] == num;
    }
  }

  /** A float literal has at most one '.'. */
  lemma DecimalHasOneDot(value: string)
    requires ParseDecimal(value).Some?
    ensures multiset(value)['.'] <= 1
  {
    StripKeepsDots(value);
    var t := Strip(value);
    UnsignedDecimalHasOneDot(Unsign(t).1);
    if t != [] && (t[0] == '+' || t[0] == '-') {
      assert t == [t[0]] + t[1..];
    }
  }

  lemma {:induction false} FirstIndexFinds(s: string, c: char, d: char)
    requires FirstIndex(s, c, d) < |s|
    ensures s[FirstIndex(s, c, d)] == c || s[FirstIndex(s, c, d)] == d
  {
    if s != [] && s[0] != c && s[0] != d {
      FirstIndexFinds(s[1..], c, d);
    }
  }

  lemma {:induction false} FirstIndexSkips(s: string, c: char, d: char)
    ensures c !in s[..FirstIndex(s, c, d)] && d !in s[..FirstIndex(s, c, d)]
  {
    if s != [] && s[0] != c && s[0] != d {
      FirstIndexSkips(s[1..], c, d);
      assert s[..FirstIndex(s, c, d)] == [s[0]] + s[1..][..FirstIndex(s[1..], c, d)];
    }
  }

  /** A cell with two or more '.' (such as "3.14.15") is kept as text. */
  lemma TwoDotsStayText(value: string)
    requires multiset(value)['.'] >= 2
    ensures Coerce(value) == JStr(value)
  {
    if ParseDecimal(value).Some? {
      DecimalHasOneDot(value);
    }
  }

  /** A cell without '.' never becomes a float: it is an int or stays text. */
  lemma NoDotNeverFloat(value: string)
    requires '.' !in value
    ensures Coerce(value).JInt? || Coerce(value) == JStr(value)
  {
  }

  /** What a run of unsigned ASCII digits spells; leading zeros do not count. A run of
      more than `MaxStrDigits` digits exceeds `int()`'s limit and stays text. */
  lemma AllDigitsIsInt(value: string)
    requires value != [] && forall k :: 0 <= k < |value| ==> IsDigit(value[k])
    ensures |value| <= MaxStrDigits ==> ParseInt(value) == Some(DigitsValue(value))
    ensures |value| <= MaxStrDigits ==> Coerce(value) == JInt(DigitsValue(value))
    ensures |value| > MaxStrDigits ==> ParseInt(value) == None && Coerce(value) == JStr(value)
  {
    DigitsArePart(value);
    StripPlain(value);
    DigitCountOfDigits(value);
    assert Unsign(value) == (false, value);
  }

  /** A non-empty run of ASCII digits is a digit part and holds no '.'. */
  lemma DigitsArePart(s: string)
    requires s != [] && forall k :: 0 <= k < |s| ==> IsDigit(s[k])
    ensures IsDigitPart(s) && '.' !in s
    ensures !IsSpace(s[0]) && !IsSpace(s[|s| - 1])
  {
  }

  lemma {:induction false} DigitCountOfDigits(s: string)
    requires forall k :: 0 <= k < |s| ==> IsDigit(s[k])
    ensures DigitCount(s) == |s|
  {
    if s != [] {
      DigitCountOfDigits(s[..|s| - 1]);
    }
  }

  /** A cell of the form digits '.' digits becomes the float it spells. */
  lemma DecimalCell(ip: string, fp: string)
    requires ip != [] && forall k :: 0 <= k < |ip| ==> IsDigit(ip[k])
    requires fp != [] && forall k :: 0 <= k < |fp| ==> IsDigit(fp[k])
    ensures ParseUnsignedDecimal(ip + "." + fp) == Some(DigitsValue(ip + fp) as real / Pow10(|fp|) as real)
    ensures Coerce(ip + "." + fp) == JFloat(DigitsValue(ip + fp) as real / Pow10(|fp|) as real)
  {
    var value := ip + "." + fp;
    assert value[|ip|] == '.';
    assert value[0] == ip[0] && value[|value| - 1] == fp[|fp| - 1];
    StripPlain(value);
    assert Unsign(value) == (false, value);
    NoExponentMark(value);
    PlainMantissa(ip, fp);
    UnsignedPlain(value);
    ScaledDown(DigitsValue(ip + fp), |fp|);
    FloatCell(value, DigitsValue(ip + fp) as real / Pow10(|fp|) as real);
  }

  /** Text with a '.' that, once stripped and past its optional sign, is an unsigned float
      literal of value `x` becomes the float `x`, negated when the sign is '-'. */
  lemma FloatCell(value: string, x: real)
    requires '.' in value && ParseUnsignedDecimal(Unsign(Strip(value)).1) == Some(x)
    ensures Coerce(value) == JFloat(if Unsign(Strip(value)).0 then -x else x)
  {
  }

  /** A cell of the form whitespace, optional sign, digits '.' digits, whitespace becomes
      the float the digits spell, negated after a '-'. */
  lemma SignedDecimalCell(lead: string, sign: string, ip: string, fp: string, trail: string)
    requires forall k :: 0 <= k < |lead| ==> IsSpace(lead[k])
    requires forall k :: 0 <= k < |trail| ==> IsSpace(trail[k])
    requires sign == "" || sign == "+" || sign == "-"
    requires ip != [] && forall k :: 0 <= k < |ip| ==> IsDigit(ip[k])
    requires fp != [] && forall k :: 0 <= k < |fp| ==> IsDigit(fp[k])
    ensures var x := DigitsValue(ip + fp) as real / Pow10(|fp|) as real;
      Coerce(lead + sign + (ip + "." + fp) + trail) == JFloat(if sign == "-" then -x else x)
  {
    var num := ip + "." + fp;
    DecimalCell(ip, fp);
    assert num[0] == ip[0] && num[|num| - 1] == fp[|fp| - 1] && num[|ip|] == '.';
    SignedLiteralCell(lead, sign, num, trail, DigitsValue(ip + fp) as real / Pow10(|fp|) as real);
  }

  /** Whitespace, an optional sign, an unsigned literal with a '.' that starts and ends
      with a digit, and whitespace: the literal's value, negated after a '-'. */
  lemma SignedLiteralCell(lead: string, sign: string, num: string, trail: string, x: real)
    requires forall k :: 0 <= k < |lead| ==> IsSpace(lead[k])
    requires forall k :: 0 <= k < |trail| ==> IsSpace(trail[k])
    requires sign == "" || sign == "+" || sign == "-"
    requires num != [] && IsDigit(num[0]) && IsDigit(num[|num| - 1]) && '.' in num
    requires ParseUnsignedDecimal(num) == Some(x)
    ensures Coerce(lead + sign + num + trail) == JFloat(if sign == "-" then -x else x)
  {
    var value := lead + sign + num + trail;
    SignedText(lead, sign, num, trail);
    var d :| 0 <= d < |num| && num[d] == '.';
    assert value[|lead| + |sign| + d] == '.';
    FloatCell(value, x);
  }

  /** `strip()` and the sign step take whitespace, an optional sign, text that starts and
      ends with a digit, and whitespace back to that text and its sign. */
  lemma SignedText(lead: string, sign: string, num: string, trail: string)
    requires forall k :: 0 <= k < |lead| ==> IsSpace(lead[k])
    requires forall k :: 0 <= k < |trail| ==> IsSpace(trail[k])
    requires sign == "" || sign == "+" || sign == "-"
    requires num != [] && IsDigit(num[0]) && IsDigit(num[|num| - 1])
    ensures Unsign(Strip(lead + sign + num + trail)) == (sign == "-", num)
  {
    var t := sign + num;
    assert lead + sign + num + trail == lead + t + trail;
    assert t[|t| - 1] == num[|num| - 1];
    assert t[0] == if sign == "" then num[0] else sign[0];
    StripPadded(lead, t, trail);
    if sign == "" {
      assert t == num;
    } else {
      assert t[1..] == num;
    }
  }

  /** `strip()` removes whitespace around text that starts and ends with something else. */
  lemma StripPadded(lead: string, t: string, trail: string)
    requires forall k :: 0 <= k < |lead| ==> IsSpace(lead[k])
    requires forall k :: 0 <= k < |trail| ==> IsSpace(trail[k])
    requires t != [] && !IsSpace(t[0]) && !IsSpace(t[|t| - 1])
    ensures Strip(lead + t + trail) == t
  {
    assert lead + t + trail == lead + (t + trail);
    StripLeftSpaces(lead, t + trail);
    StripRightSpaces(t, trail);
  }

  lemma {:induction false} StripLeftSpaces(pad: string, t: string)
    requires forall k :: 0 <= k < |pad| ==> IsSpace(pad[k])
    requires t != [] && !IsSpace(t[0])
    ensures StripLeft(pad + t) == t
  {
    if pad == [] {
      assert pad + t == t;
    } else {
      assert (pad + t)[1..] == pad[1..] + t;
      StripLeftSpaces(pad[1..], t);
    }
  }

  lemma {:induction false} StripRightSpaces(t: string, pad: string)
    requires forall k :: 0 <= k < |pad| ==> IsSpace(pad[k])
    requires t != [] && !IsSpace(t[|t| - 1])
    ensures StripRight(t + pad) == t
  {
    if pad == [] {
      assert t + pad == t;
    } else {
      var n := |pad| - 1;
      assert (t + pad)[..|t + pad| - 1] == t + pad[..n];
      StripRightSpaces(t, pad[..n]);
    }
  }

  /** Text that neither starts nor ends with whitespace is left as it is by `strip()`. */
  lemma StripPlain(s: string)
    requires s != [] && !IsSpace(s[0]) && !IsSpace(s[|s| - 1])
    ensures Strip(s) == s
  {
  }

  /** A literal without an exponent is its mantissa's digits over a power of ten. */
  lemma UnsignedPlain(num: string)
    requires FirstIndex(num, 'e', 'E') == |num| && ParseMantissa(num).Some?
    ensures ParseUnsignedDecimal(num) ==
      Some(Scaled(ParseMantissa(num).value.0, -(ParseMantissa(num).value.1 as int)))
  {
    assert num[..|num|] == num;
  }

  lemma PlainMantissa(ip: string, fp: string)
    requires ip != [] && forall k :: 0 <= k < |ip| ==> IsDigit(ip[k])
    requires fp != [] && forall k :: 0 <= k < |fp| ==> IsDigit(fp[k])
    ensures ParseMantissa(ip + "." + fp) == Some((DigitsValue(ip + fp), |fp|))
  {
    var mant := ip + "." + fp;
    DotAt(ip, fp);
    assert mant[..|ip|] == ip;
    assert mant[|ip| + 1..] == fp;
    DigitCountOfDigits(fp);
  }

  lemma NoExponentMark(value: string)
    requires forall k :: 0 <= k < |value| ==> IsDigit(value[k]) || value[k] == '.'
    ensures FirstIndex(value, 'e', 'E') == |value|
  {
    if value != [] {
      NoExponentMark(value[1..]);
    }
  }

  lemma {:induction false} DotAt(ip: string, fp: string)
    requires forall k :: 0 <= k < |ip| ==> IsDigit(ip[k])
    ensures FirstIndex(ip + "." + fp, '.', '.') == |ip|
  {
    if ip != [] {
      DotAt(ip[1..], fp);
      assert (ip + "." + fp)[1..] == ip[1..] + "." + fp;
    }
  }

  lemma {:induction false} DigitsOfNat(n: nat)
    ensures NatToString(n) != []
    ensures forall k :: 0 <= k < |NatToString(n)| ==> IsDigit(NatToString(n)[k])
    ensures DigitsValue(NatToString(n)) == n
  {
    if n >= 10 {
      DigitsOfNat(n / 10);
      var s := NatToString(n);
      assert s[..|s| - 1] == NatToString(n / 10);
    }
  }

  function Magnitude(n: int): nat {
    if n < 0 then -n else n
  }

  /** `str(n)` read back by `int()` is `n`: a CSV cell written from an int is coerced
      back to that int, as long as its digits are within `int()`'s limit. Beyond the
      limit the digits stay text (and `str(n)` itself raises in CPython). */
  lemma IntCellRoundTrip(n: int)
    ensures |NatToString(Magnitude(n))| <= MaxStrDigits ==> ParseInt(IntToString(n)) == Some(n)
    ensures |NatToString(Magnitude(n))| <= MaxStrDigits ==> Coerce(IntToString(n)) == JInt(n)
    ensures |NatToString(Magnitude(n))| > MaxStrDigits ==> Coerce(IntToString(n)) == JStr(IntToString(n))
  {
    if n >= 0 {
      DigitsOfNat(n);
      AllDigitsIsInt(NatToString(n));
    } else {
      NegativeCell(-n);
    }
  }

  lemma NegativeCell(m: nat)
    requires m > 0
    ensures |NatToString(m)| <= MaxStrDigits ==> ParseInt("-" + NatToString(m)) == Some(-(m as int))
    ensures |NatToString(m)| > MaxStrDigits ==> ParseInt("-" + NatToString(m)) == None
    ensures '.' !in "-" + NatToString(m)
  {
    DigitsOfNat(m);
    NegativeDigits(NatToString(m), m);
  }

  /** '-' followed by the digits of `m` is read by `int()` as `-m`, within the limit. */
  lemma NegativeDigits(digits: string, m: nat)
    requires digits != [] && forall k :: 0 <= k < |digits| ==> IsDigit(digits[k])
    requires DigitsValue(digits) == m
    ensures |digits| <= MaxStrDigits ==> ParseInt("-" + digits) == Some(-(m as int))
    ensures |digits| > MaxStrDigits ==> ParseInt("-" + digits) == None
    ensures '.' !in "-" + digits
  {
    var s := "-" + digits;
    MinusDigits(digits);
    DigitCountOfDigits(digits);
    ParseIntPlain(s);
    assert ParseSignedDigits(s) == Some(-(m as int));
  }

  /** `int()` of text that `strip()` leaves alone: the signed digits, within the limit. */
  lemma ParseIntPlain(t: string)
    requires Strip(t) == t
    ensures ParseInt(t) == if DigitCount(Unsign(t).1) <= MaxStrDigits then ParseSignedDigits(t) else None
  {
  }

  /** A '-' followed by a run of digits is left as it is by `strip()`, its sign is '-',
      and it holds no '.'. */
  lemma MinusDigits(digits: string)
    requires digits != [] && forall k :: 0 <= k < |digits| ==> IsDigit(digits[k])
    ensures Strip("-" + digits) == "-" + digits && Unsign("-" + digits) == (true, digits)
    ensures IsDigitPart(digits) && '.' !in "-" + digits
  {
    DigitsArePart(digits);
    var s := "-" + digits;
    assert s[0] == '-' && s[1..] == digits && s[|s| - 1] == digits[|digits| - 1];
    StripPlain(s);
  }

  /** "42" and "007" are ints; leading zeros are dropped. */
  lemma IntExamples()
    ensures Coerce("42") == JInt(42)
    ensures Coerce("007") == JInt(7)
  {
    ShortDigitsIsInt("42", 42);
    ShortDigitsIsInt("007", 7);
  }

  lemma ShortDigitsIsInt(value: string, n: nat)
    requires value != [] && forall k :: 0 <= k < |value| ==> IsDigit(value[k])
    requires |value| <= MaxStrDigits && DigitsValue(value) == n
    ensures Coerce(value) == JInt(n)
  {
    AllDigitsIsInt(value);
  }

  /** "3.5" is the float 3.5. */
  lemma FloatExample()
    ensures Coerce("3.5") == JFloat(3.5)
  {
    DecimalCell("3", "5");
    assert "3" + "." + "5" == "3.5" && "3" + "5" == "35";
    ThirtyFive("35");
    assert Pow10(1) == 10 by { assert Pow10(0) == 1; }
    ThreeAndAHalf(DigitsValue("35"), Pow10(1));
  }

  /** `float(" -3.5")` is -3.5: the whitespace is stripped and the sign applied. */
  lemma PaddedNegativeExample()
    ensures Coerce(" -3.5") == JFloat(-3.5)
  {
    SignedDecimalCell(" ", "-", "3", "5", "");
    assert " " + "-" + ("3" + "." + "5") + "" == " -3.5" && "3" + "5" == "35";
    ThirtyFive("35");
    assert Pow10(1) == 10 by { assert Pow10(0) == 1; }
    ThreeAndAHalf(DigitsValue("35"), Pow10(1));
  }

  lemma ThreeAndAHalf(d: nat, p: nat)
    requires d == 35 && p == 10
    ensures d as real / p as real == 3.5
  {
  }

  lemma ThirtyFive(s: string)
    requires |s| == 2 && s[0] == '3' && s[1] == '5'
    ensures DigitsValue(s) == 35
  {
    var p := s[..1];
    assert |p| == 1 && p[0] == '3' && p[..0] == [];
    assert DigitsValue(p) == 3;
  }

  /** "abc" fails `int()` and stays text. */
  lemma WordExample()
    ensures Coerce("abc") == JStr("abc")
  {
    assert Strip("abc") == "abc" && Unsign("abc") == (false, "abc");
    assert !IsDigitPart("abc") by { assert !IsDigit('a'); }
  }

  /** "1e5" has no '.', so only `int()` is tried, and it fails: the cell stays text
      although `float()` would accept it. */
  lemma ExponentExample()
    ensures Coerce("1e5") == JStr("1e5")
  {
    assert Strip("1e5") == "1e5" && Unsign("1e5") == (false, "1e5");
    assert !IsDigitPart("1e5") by { assert !IsDigit("1e5"[1]); }
  }

  /** "3.14.15" fails `float()` and stays text. */
  lemma TwoDotsExample()
    ensures Coerce("3.14.15") == JStr("3.14.15")
  {
    assert multiset("3.14.15")['.'] == 2;
    TwoDotsStayText("3.14.15");
  }
}
