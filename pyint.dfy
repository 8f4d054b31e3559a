/**
 * Python's conversions between strings and integers as the week filter uses
 * them: `int(text)` for base-ten text and the format `f"{w:02d}"`.
 */
module PyInt {
  import opened Wrappers
  import opened Strings

  function DigitChar(d: nat): (c: char)
    requires d < 10
    ensures IsDigit(c) && c as int - '0' as int == d
  {
    ('0' as int + d) as char
  }

  function DigitValue(c: char): nat
    requires IsDigit(c)
  {
    c as int - '0' as int
  }

  /** `str(n)` for a natural number: its decimal digits, without leading zeros. */
  function Decimal(n: nat): (r: string)
    ensures |r| >= 1
    ensures forall i :: 0 <= i < |r| ==> IsDigit(r[i])
    ensures r[0] == '0' ==> n == 0
    decreases n
  {
    if n < 10 then [DigitChar(n)] else Decimal(n / 10) + [DigitChar(n % 10)]
  }

  /** `f"{w:02d}"`: zero-padded to two characters; a minus sign counts toward
      the width, so negative numbers are never padded. */
  function Pad2(w: int): string {
    if 0 <= w < 10 then "0" + Decimal(w)
    else if w >= 10 then Decimal(w)
    else "-" + Decimal(-w)
  }

  /** The digit part that `int()` accepts: ASCII digits, with single underscores
      allowed between two digits. */
  predicate DigitGroups(t: string) {
    && |t| > 0
    && IsDigit(t[0])
    && IsDigit(t[|t| - 1])
    && forall i :: 0 <= i < |t| ==> IsDigit(t[i]) || (t[i] == '_' && i + 1 < |t| && IsDigit(t[i + 1]))
  }

  /** The value of a digit string read from the left; underscores are skipped. */
  function GroupsValue(t: string): nat
    decreases |t|
  {
    if |t| == 0 then 0
    else
      var last := t[|t| - 1];
      var prefix := GroupsValue(t[..|t| - 1]);
      if IsDigit(last) then 10 * prefix + DigitValue(last) else prefix
  }

  /** The whitespace `int()` skips around the number: the ASCII characters 9 to
      13 and the space, and every non-ASCII character `str.isspace()` accepts.
      The ASCII separators 28 to 31, which `str.strip()` removes, are not
      skipped: CPython's parser tests those with its ASCII-only `Py_ISSPACE`. */
  predicate IsIntSpace(c: char) {
    IsSpace(c) && !(28 <= c as int <= 31)
  }

  /** Drops leading `int()` whitespace. */
  function IntTrimStart(s: string): (r: string)
    ensures |r| <= |s| && r == s[|s| - |r|..]
    ensures r == [] || !IsIntSpace(r[0])
    ensures forall i :: 0 <= i < |s| - |r| ==> IsIntSpace(s[i])
    decreases |s|
  {
    if |s| > 0 && IsIntSpace(s[0]) then IntTrimStart(s[1..]) else s
  }

  /** Drops trailing `int()` whitespace. */
  function IntTrimEnd(s: string): (r: string)
    ensures |r| <= |s| && r == s[..|r|]
    ensures r == [] || !IsIntSpace(r[|r| - 1])
    ensures forall i :: |r| <= i < |s| ==> IsIntSpace(s[i])
    decreases |s|
  {
    if |s| > 0 && IsIntSpace(s[|s| - 1]) then IntTrimEnd(s[..|s| - 1]) else s
  }

  /** The text `int()` reads once its surrounding whitespace is skipped. */
  function IntStrip(s: string): (r: string)
    ensures r == [] || (!IsIntSpace(r[0]) && !IsIntSpace(r[|r| - 1]))
  {
    IntTrimEnd(IntTrimStart(s))
  }

  /** What `int()` reads is a slice of its text. */
  lemma IntStripSlice(s: string)
    ensures exists a, b :: 0 <= a <= b <= |s| && IntStrip(s) == s[a..b]
  {
    var t := IntTrimStart(s);
    var a := |s| - |t|;
    var r := IntTrimEnd(t);
    assert r == t[..|r|] && t == s[a..];
    assert r == s[a..a + |r|];
  }

  /** Python's `int(text)`: surrounding whitespace is ignored, one optional sign
      is allowed, and anything else that is not a digit group fails with
      `ValueError`, modelled as `None`. */
  function ParseInt(s: string): (r: Option<int>)
    ensures r.Some? ==> exists i :: 0 <= i < |s| && IsDigit(s[i])
  {
    IntStripSlice(s);
    ParseStripped(IntStrip(s))
  }

  /** `int()` on text without surrounding whitespace. */
  function ParseStripped(t: string): (r: Option<int>)
    ensures r.Some? ==> exists i :: 0 <= i < |t| && IsDigit(t[i])
  {
    if |t| > 0 && (t[0] == '+' || t[0] == '-') then
      if DigitGroups(t[1..]) then
        assert IsDigit(t[1..][0]);
        var v: int := GroupsValue(t[1..]);
        Some(if t[0] == '-' then -v else v)
      else None
    else if DigitGroups(t) then
      assert IsDigit(t[0]);
      Some(GroupsValue(t))
    else None
  }

  /** Reading back the decimal notation of `n` gives `n`. */
  lemma {:induction false} GroupsValueDecimal(n: nat)
    ensures GroupsValue(Decimal(n)) == n
    decreases n
  {
    if n >= 10 {
      GroupsValueDecimal(n / 10);
      var d := Decimal(n);
      assert d[..|d| - 1] == Decimal(n / 10);
    } else {
      assert Decimal(n)[..0] == [];
    }
  }

  /** Text that neither starts nor ends with `int()` whitespace is read as it is. */
  lemma IntStripClean(t: string)
    requires |t| > 0 && !IsIntSpace(t[0]) && !IsIntSpace(t[|t| - 1])
    ensures IntStrip(t) == t
  {
    assert IntTrimStart(t) == t;
  }

  /** `int()` skips ASCII whitespace around a number, as `int(" 4\n") == 4`. */
  lemma IntSkipsAsciiSpace()
    ensures ParseInt(" 4\n") == Some(4)
  {
    assert IntTrimStart(" 4\n") == "4\n";
    assert IntTrimEnd("4\n") == "4";
    StrippedDigits("4");
  }

  /** `int()` rejects a trailing ASCII separator that `str.strip()` would
      remove: `int("4\x1c")` raises `ValueError` although `"4\x1c".strip()`
      is `"4"`. */
  lemma IntKeepsSeparators()
    ensures Strip("4\U{1c}") == "4"
    ensures ParseInt("4\U{1c}") == None
  {
    SeparatorStripped();
    SeparatorRejected();
  }

  lemma SeparatorStripped()
    ensures Strip("4\U{1c}") == "4"
  {
    var t := "4\U{1c}";
    assert IsSpace(t[1]) && !IsSpace(t[0]);
    StripExact(t, 0, 1);
  }

  lemma SeparatorRejected()
    ensures ParseInt("4\U{1c}") == None
  {
    SeparatorKept();
    SeparatorNotNumber();
  }

  lemma SeparatorKept()
    ensures IntStrip("4\U{1c}") == "4\U{1c}"
  {
    var t := "4\U{1c}";
    assert !IsIntSpace(t[0]) && !IsIntSpace(t[1]);
    IntStripClean(t);
  }

  lemma SeparatorNotNumber()
    ensures ParseStripped("4\U{1c}") == None
  {
    var t := "4\U{1c}";
    assert !IsDigit(t[|t| - 1]);
    NonDigitEndRejected(t);
  }

  /** Text whose last character is not a digit is not a number. */
  lemma NonDigitEndRejected(t: string)
    requires |t| > 0 && !IsDigit(t[|t| - 1])
    ensures ParseStripped(t) == None
  {
    if |t| > 1 {
      assert t[1..][|t[1..]| - 1] == t[|t| - 1];
    }
  }

  /** `int()` reads a plain run of ASCII digits as its decimal value. */
  lemma ParseDigits(t: string)
    requires |t| > 0 && forall i :: 0 <= i < |t| ==> IsDigit(t[i])
    ensures ParseInt(t) == Some(GroupsValue(t))
  {
    IntStripClean(t);
    StrippedDigits(t);
  }

  lemma StrippedDigits(t: string)
    requires |t| > 0 && forall i :: 0 <= i < |t| ==> IsDigit(t[i])
    ensures ParseStripped(t) == Some(GroupsValue(t))
  {
    assert t[0] != '+' && t[0] != '-';
    assert DigitGroups(t);
  }

  /** `int(str(n)) == n`. */
  lemma ParseDecimal(n: nat)
    ensures ParseInt(Decimal(n)) == Some(n)
  {
    ParseDigits(Decimal(n));
    GroupsValueDecimal(n);
  }

  /** `int("0" + d) == d` for a single digit `d`. */
  lemma ParsePaddedDigit(d: nat)
    requires d < 10
    ensures ParseInt("0" + Decimal(d)) == Some(d)
  {
    ParseDigits("0" + Decimal(d));
    PaddedValue(d);
  }

  lemma PaddedValue(d: nat)
    requires d < 10
    ensures GroupsValue("0" + Decimal(d)) == d
  {
    var t := "0" + Decimal(d);
    assert t == ['0', DigitChar(d)];
    assert t[..1] == ['0'];
    assert GroupsValue(t[..1]) == 0 by {
      assert ['0'][..0] == [];
    }
  }

  /** `int("-" + str(n)) == -n`. */
  lemma ParseNegative(n: nat)
    ensures ParseInt("-" + Decimal(n)) == Some(-(n as int))
  {
    NegativeStrip(n);
    StrippedNegative(n);
  }

  lemma NegativeStrip(n: nat)
    ensures IntStrip("-" + Decimal(n)) == "-" + Decimal(n)
  {
    var t := "-" + Decimal(n);
    assert t[0] == '-' && t[|t| - 1] == Decimal(n)[|Decimal(n)| - 1];
    IntStripClean(t);
  }

  lemma StrippedNegative(n: nat)
    ensures ParseStripped("-" + Decimal(n)) == Some(-(n as int))
  {
    var t := "-" + Decimal(n);
    assert t[1..] == Decimal(n);
    DecimalGroups(n);
    GroupsValueDecimal(n);
  }

  lemma DecimalGroups(n: nat)
    ensures DigitGroups(Decimal(n))
  {
  }

  /** `int(f"{w:02d}") == w` for every integer. */
  lemma ParsePad2(w: int)
    ensures ParseInt(Pad2(w)) == Some(w)
  {
    if 0 <= w < 10 {
      Pad2Small(w);
    } else if w >= 10 {
      Pad2Large(w);
    } else {
      Pad2Negative(w);
    }
  }

  lemma Pad2Small(w: int)
    requires 0 <= w < 10
    ensures ParseInt(Pad2(w)) == Some(w)
  {
    assert Pad2(w) == "0" + Decimal(w);
    ParsePaddedDigit(w);
  }

  lemma Pad2Large(w: int)
    requires w >= 10
    ensures ParseInt(Pad2(w)) == Some(w)
  {
    assert Pad2(w) == Decimal(w);
    ParseDecimal(w);
  }

  lemma Pad2Negative(w: int)
    requires w < 0
    ensures ParseInt(Pad2(w)) == Some(w)
  {
    var n: nat := -w;
    assert Pad2(w) == "-" + Decimal(n);
    ParseNegative(n);
  }

  /** The formatted number holds digits and a minus sign only. */
  lemma Pad2NoSpace(w: int)
    ensures forall k :: 0 <= k < |Pad2(w)| ==> Pad2(w)[k] != ' '
  {
  }

  /** Different numbers are formatted differently. */
  lemma Pad2Injective(a: int, b: int)
    requires Pad2(a) == Pad2(b)
    ensures a == b
  {
    ParsePad2(a);
    ParsePad2(b);
  }

  /** Different natural numbers have different decimal notations. */
  lemma DecimalInjective(a: nat, b: nat)
    requires Decimal(a) == Decimal(b)
    ensures a == b
  {
    ParseDecimal(a);
    ParseDecimal(b);
  }
}
