/** The gender convention baked into student codes: the last `-`-separated segment of the
  * code, read with JavaScript's `parseInt(…, 10)`, is male when it lies in 1..13 and female
  * otherwise (store/attendanceStore.ts:134-135, hooks/useAttendanceDb.ts:128-129). */
module Gender {

  /** The text after the last `-` of `code`, or the whole code when it has no `-`:
    * what `code.split("-").pop()` yields. */
  function LastSegment(code: string): string
  {
    if code == [] then []
    else if code[|code| - 1] == '-' then []
    else LastSegment(code[..|code| - 1]) + [code[|code| - 1]]
  }

  /** `pop() || "0"`: an empty last segment is read as "0". */
  function SegmentOrZero(code: string): string
  {
    var seg := LastSegment(code);
    if seg == [] then "0" else seg
  }

  /** The characters `parseInt` skips before the number: ECMAScript's white space
    * (tab, vertical tab, form feed, every Zs space, BOM) and line terminators. */
  predicate IsJsWhiteSpace(c: char)
  {
    || c == '\t' || c == '\n' || c == '\U{000B}' || c == '\U{000C}' || c == '\r'
    || c == ' ' || c == '\U{00A0}' || c == '\U{1680}' || ('\U{2000}' <= c <= '\U{200A}')
    || c == '\U{2028}' || c == '\U{2029}' || c == '\U{202F}' || c == '\U{205F}'
    || c == '\U{3000}' || c == '\U{FEFF}'
  }

  predicate IsDigit(c: char)
  {
    '0' <= c <= '9'
  }

  predicate AllDigits(s: string)
  {
    forall i :: 0 <= i < |s| ==> IsDigit(s[i])
  }

  /** `s` without its leading white space. */
  function TrimStart(s: string): string
  {
    if s != [] && IsJsWhiteSpace(s[0]) then TrimStart(s[1..]) else s
  }

  /** The longest prefix of `s` made of decimal digits. */
  function DigitPrefix(s: string): string
  {
    if s != [] && IsDigit(s[0]) then [s[0]] + DigitPrefix(s[1..]) else []
  }

  /** The value of a string of decimal digits (leading zeros allowed), read left to right. */
  function DigitsValue(d: string): int
  {
    if d == [] then 0 else DigitsValue(d[..|d| - 1]) * 10 + (d[|d| - 1] as int - '0' as int)
  }

  /** The outcome of `parseInt`: a number or `NaN`. */
  datatype Parsed = NaN | Num(n: int)

  /** `parseInt(s, 10)`: skip leading white space, take an optional sign, then the longest
    * run of decimal digits; `NaN` when that run is empty. */
  function ParseInt(s: string): Parsed
  {
    var t := TrimStart(s);
    var negative := t != [] && t[0] == '-';
    var u := if t != [] && (t[0] == '-' || t[0] == '+') then t[1..] else t;
    var d := DigitPrefix(u);
    if d == [] then NaN
    else if negative then Num(-DigitsValue(d))
    else Num(DigitsValue(d))
  }

  /** The last segment is a `-`-free suffix of the code, and the character before it is a `-`. */
  lemma {:induction false} LastSegmentShape(code: string)
    ensures var seg := LastSegment(code);
            && |seg| <= |code| && seg == code[|code| - |seg|..]
            && '-' !in seg
            && (|seg| < |code| ==> code[|code| - |seg| - 1] == '-')
  {
    if code != [] && code[|code| - 1] != '-' {
      LastSegmentShape(code[..|code| - 1]);
    }
  }

  /** Trimming removes only white space, and what is left does not start with white space. */
  lemma {:induction false} TrimStartShape(s: string)
    ensures var r := TrimStart(s);
            && |r| <= |s| && r == s[|s| - |r|..]
            && (forall i :: 0 <= i < |s| - |r| ==> IsJsWhiteSpace(s[i]))
            && (r != [] ==> !IsJsWhiteSpace(r[0]))
  {
    if s != [] && IsJsWhiteSpace(s[0]) {
      var t := s[1..];
      TrimStartShape(t);
      var r := TrimStart(t);
      assert TrimStart(s) == r;
      assert s[|s| - |r|..] == t[|t| - |r|..];
      forall i | 0 <= i < |s| - |r| ensures IsJsWhiteSpace(s[i]) {
        if i > 0 {
          assert s[i] == t[i - 1];
        }
      }
    }
  }

  /** The digit prefix is the longest prefix made of digits. */
  lemma {:induction false} DigitPrefixShape(s: string)
    ensures var d := DigitPrefix(s);
            && |d| <= |s| && d == s[..|d|]
            && AllDigits(d)
            && (|d| < |s| ==> !IsDigit(s[|d|]))
  {
    if s != [] && IsDigit(s[0]) {
      DigitPrefixShape(s[1..]);
    }
  }

  /** A string that starts with a digit parses to a number that is not negative; an empty string,
    * or one that starts with anything but white space, a sign or a digit, parses to `NaN`. */
  lemma ParseIntShape(s: string)
    ensures s != [] && IsDigit(s[0]) ==> ParseInt(s).Num? && ParseInt(s).n >= 0
    ensures s == [] ==> ParseInt(s) == NaN
    ensures s != [] && !IsJsWhiteSpace(s[0]) && !IsDigit(s[0]) && s[0] != '+' && s[0] != '-' ==> ParseInt(s) == NaN
  {
    if s != [] && IsDigit(s[0]) {
      assert TrimStart(s) == s;
      assert DigitPrefix(s) != [];
      DigitPrefixShape(s);
      DigitsValueNonNegative(DigitPrefix(s));
    }
  }

  lemma {:induction false} DigitsValueNonNegative(d: string)
    requires AllDigits(d)
    ensures DigitsValue(d) >= 0
  {
    if d != [] {
      DigitsValueNonNegative(d[..|d| - 1]);
    }
  }

  /** `codeNum >= 1 && codeNum <= 13`, where `NaN` compares false with everything. */
  predicate IsMale(code: string)
  {
    match ParseInt(SegmentOrZero(code))
    case NaN => false
    case Num(n) => 1 <= n <= 13
  }

  /** A string of digits parses to its own value. */
  lemma ParseDigits(d: string)
    requires d != [] && AllDigits(d)
    ensures ParseInt(d) == Num(DigitsValue(d))
  {
    assert TrimStart(d) == d;
    DigitPrefixOfDigits(d);
  }

  lemma {:induction false} DigitPrefixOfDigits(d: string)
    requires AllDigits(d)
    ensures DigitPrefix(d) == d
  {
    if d != [] {
      DigitPrefixOfDigits(d[1..]);
    }
  }

  /** Appending a `-`-free text after a `-` makes that text the last segment. */
  lemma {:induction false} LastSegmentAfterDash(prefix: string, seg: string)
    requires '-' !in seg
    ensures LastSegment(prefix + "-" + seg) == seg
  {
    if seg == [] {
      assert (prefix + "-" + seg)[|prefix + "-" + seg| - 1] == '-';
    } else {
      var code := prefix + "-" + seg;
      var last := |seg| - 1;
      assert code[..|code| - 1] == prefix + "-" + seg[..last];
      assert seg[last] in seg;
      LastSegmentAfterDash(prefix, seg[..last]);
      assert seg[..last] + [seg[last]] == seg;
    }
  }

  /** A code whose last segment is a run of digits is male exactly when the run's value lies in 1..13. */
  lemma MaleIffInRange(prefix: string, digits: string)
    requires digits != [] && AllDigits(digits)
    ensures IsMale(prefix + "-" + digits) <==> 1 <= DigitsValue(digits) <= 13
  {
    assert forall i :: 0 <= i < |digits| ==> digits[i] != '-';
    LastSegmentAfterDash(prefix, digits);
    ParseDigits(digits);
  }

  /** A code ending in `-` (an empty last segment) is read as 0 and so is female. */
  lemma EmptySegmentIsFemale(prefix: string)
    ensures !IsMale(prefix + "-")
  {
    LastSegmentAfterDash(prefix, "");
    ParseDigits("0");
  }

  /** A last segment without a single digit parses to `NaN` (or, when empty, is read as 0), whatever
    * white space or sign it starts with, so the code is female. */
  lemma NonNumericIsFemale(prefix: string, seg: string)
    requires '-' !in seg && forall i :: 0 <= i < |seg| ==> !IsDigit(seg[i])
    ensures !IsMale(prefix + "-" + seg)
  {
    LastSegmentAfterDash(prefix, seg);
    if seg == [] {
      ParseDigits("0");
    } else {
      TrimStartShape(seg);
      var t := TrimStart(seg);
      forall i | 0 <= i < |t| ensures !IsDigit(t[i]) {
        assert t[i] == seg[|seg| - |t| + i];
      }
      var u := if t != [] && (t[0] == '-' || t[0] == '+') then t[1..] else t;
      assert u == [] || !IsDigit(u[0]);
      assert DigitPrefix(u) == [];
      assert ParseInt(seg) == NaN;
    }
  }

  /** The boundaries of the male range: `-1` and `-13` are male, `-0` and `-14` female, and leading
    * zeros do not matter (`-013` is male). */
  lemma Boundaries(prefix: string)
    ensures IsMale(prefix + "-" + "1") && IsMale(prefix + "-" + "13") && IsMale(prefix + "-" + "013")
    ensures !IsMale(prefix + "-" + "0") && !IsMale(prefix + "-" + "14")
  {
    One(prefix);
    Zero(prefix);
    Thirteen(prefix);
    LeadingZero(prefix);
    Fourteen(prefix);
  }

  lemma One(prefix: string)
    ensures IsMale(prefix + "-" + "1")
  {
    assert DigitsValue("1") == 1 by { assert "1"[..0] == []; }
    MaleIffInRange(prefix, "1");
  }

  lemma Zero(prefix: string)
    ensures !IsMale(prefix + "-" + "0")
  {
    assert DigitsValue("0") == 0 by { assert "0"[..0] == []; }
    MaleIffInRange(prefix, "0");
  }

  lemma Thirteen(prefix: string)
    ensures IsMale(prefix + "-" + "13")
  {
    assert DigitsValue("13") == 13 by { assert "13"[..1] == "1"; }
    MaleIffInRange(prefix, "13");
  }

  lemma LeadingZero(prefix: string)
    ensures IsMale(prefix + "-" + "013")
  {
    assert DigitsValue("013") == 13 by { assert "013"[..2] == "01"; assert "01"[..1] == "0"; }
    MaleIffInRange(prefix, "013");
  }

  lemma Fourteen(prefix: string)
    ensures !IsMale(prefix + "-" + "14")
  {
    assert DigitsValue("14") == 14 by { assert "14"[..1] == "1"; }
    MaleIffInRange(prefix, "14");
  }
}
