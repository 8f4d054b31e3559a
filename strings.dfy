/**
 * The handful of Python string operations the mock-exam generator relies on:
 * whitespace stripping, splitting on one character, joining, ASCII case
 * folding and prefix/suffix tests. Strings are sequences of code points.
 */
module Strings {

  /** Python's `str.isspace()` on one character; `str.strip()` and the
      regular-expression class `\s` use the same set. `int()` skips a smaller
      set, `PyInt.IsIntSpace`. */
  predicate IsSpace(c: char) {
    var n := c as int;
    (9 <= n <= 13) || (28 <= n <= 32) || n == 0x85 || n == 0xA0 || n == 0x1680
    || (0x2000 <= n <= 0x200A) || n == 0x2028 || n == 0x2029 || n == 0x202F
    || n == 0x205F || n == 0x3000
  }

  predicate IsDigit(c: char) { '0' <= c <= '9' }

  /** ASCII lower-casing; the only letters the program compares case-insensitively
      are ASCII ones. */
  function LowerChar(c: char): (r: char)
    ensures 'A' <= c <= 'Z' ==> r as int == c as int + 32
    ensures !('A' <= c <= 'Z') ==> r == c
  {
    if 'A' <= c <= 'Z' then (c as int + 32) as char else c
  }

  predicate StartsWith(s: string, prefix: string) {
    |prefix| <= |s| && s[..|prefix|] == prefix
  }

  predicate EndsWith(s: string, suffix: string) {
    |suffix| <= |s| && s[|s| - |suffix|..] == suffix
  }

  /** Drops leading whitespace. */
  function TrimStart(s: string): (r: string)
    ensures |r| <= |s| && r == s[|s| - |r|..]
    ensures r == [] || !IsSpace(r[0])
    ensures forall i :: 0 <= i < |s| - |r| ==> IsSpace(s[i])
    decreases |s|
  {
    if |s| > 0 && IsSpace(s[0]) then TrimStart(s[1..]) else s
  }

  /** Drops trailing whitespace. */
  function TrimEnd(s: string): (r: string)
    ensures |r| <= |s| && r == s[..|r|]
    ensures r == [] || !IsSpace(r[|r| - 1])
    ensures forall i :: |r| <= i < |s| ==> IsSpace(s[i])
    decreases |s|
  {
    if |s| > 0 && IsSpace(s[|s| - 1]) then TrimEnd(s[..|s| - 1]) else s
  }

  /** Python's `str.strip()` without arguments. */
  function Strip(s: string): string {
    TrimEnd(TrimStart(s))
  }

  /** `Strip` returns exactly the part of `s` between a whitespace prefix and a
      whitespace suffix whose end characters are not whitespace. */
  lemma StripExact(s: string, a: nat, b: nat)
    requires a <= b <= |s|
    requires forall i :: 0 <= i < a ==> IsSpace(s[i])
    requires forall i :: b <= i < |s| ==> IsSpace(s[i])
    requires a < b ==> !IsSpace(s[a]) && !IsSpace(s[b - 1])
    ensures Strip(s) == s[a..b]
  {
    if a < b {
      TrimStartExact(s, a);
      TrimEndFrom(s, a, b);
    } else {
      TrimStartExact(s, |s|);
      assert s[|s|..] == [];
    }
  }

  /** `TrimEnd` on the suffix of `s` from `a` stops at the non-space before `b`. */
  lemma TrimEndFrom(s: string, a: nat, b: nat)
    requires a < b <= |s|
    requires forall i :: b <= i < |s| ==> IsSpace(s[i])
    requires !IsSpace(s[b - 1])
    ensures TrimEnd(s[a..]) == s[a..b]
  {
    var t := s[a..];
    forall i | b - a <= i < |t| ensures IsSpace(t[i]) {
      assert t[i] == s[a + i];
    }
    assert t[b - a - 1] == s[b - 1];
    TrimEndExact(t, b - a);
    assert t[..b - a] == s[a..b];
  }

  /** `TrimStart` removes exactly a whitespace prefix ending before a non-space. */
  lemma TrimStartExact(s: string, a: nat)
    requires a <= |s|
    requires forall i :: 0 <= i < a ==> IsSpace(s[i])
    requires a < |s| ==> !IsSpace(s[a])
    ensures TrimStart(s) == s[a..]
  {
    var t := TrimStart(s);
    var k := |s| - |t|;
    assert |t| > 0 ==> t[0] == s[k];
    assert k == a;
  }

  /** `TrimEnd` removes exactly a whitespace suffix starting after a non-space. */
  lemma TrimEndExact(s: string, b: nat)
    requires 0 < b <= |s|
    requires forall i :: b <= i < |s| ==> IsSpace(s[i])
    requires !IsSpace(s[b - 1])
    ensures TrimEnd(s) == s[..b]
  {
    var t := TrimEnd(s);
    assert |t| > 0 ==> t[|t| - 1] == s[|t| - 1];
    assert |t| == b;
  }

  /** The strip of a string is made of the string's characters. */
  lemma StripInner(s: string)
    ensures forall c :: c in Strip(s) ==> c in s
  {
    var t := TrimStart(s);
    assert forall c :: c in TrimEnd(t) ==> c in t;
    assert forall c :: c in t ==> c in s;
  }

  /** A string without whitespace at either end is its own strip. */
  lemma StripClean(s: string)
    requires s == [] || (!IsSpace(s[0]) && !IsSpace(s[|s| - 1]))
    ensures Strip(s) == s
  {
    StripExact(s, 0, |s|);
  }

  /** Python's `s.split(sep)` for a one-character separator: every separator
      ends a piece, so there is always one piece more than separators. */
  function Split(s: string, sep: char): (parts: seq<string>)
    ensures |parts| >= 1
    decreases |s|
  {
    if |s| == 0 then [""]
    else
      var rest := Split(s[1..], sep);
      if s[0] == sep then [""] + rest
      else [[s[0]] + rest[0]] + rest[1..]
  }

  /** No piece of a split holds the separator, and there is more than one
      piece exactly when the string holds a separator. */
  lemma {:induction false} SplitPieces(s: string, sep: char)
    ensures forall i :: 0 <= i < |Split(s, sep)| ==> sep !in Split(s, sep)[i]
    ensures |Split(s, sep)| == 1 <==> sep !in s
    decreases |s|
  {
    if |s| > 0 {
      SplitPieces(s[1..], sep);
      var rest := Split(s[1..], sep);
      if s[0] != sep {
        assert sep in s <==> sep in s[1..] by {
          if sep in s { var k :| 0 <= k < |s| && s[k] == sep; assert s[1..][k - 1] == sep; }
        }
        forall i | 0 <= i < |Split(s, sep)| ensures sep !in Split(s, sep)[i] {
          if i == 0 {
            assert ([s[0]] + rest[0])[0] == s[0];
            assert forall k :: 1 <= k < |[s[0]] + rest[0]| ==> ([s[0]] + rest[0])[k] == rest[0][k - 1];
          } else {
            assert Split(s, sep)[i] == rest[i];
          }
        }
      } else {
        assert s[0] in s;
        forall i | 0 <= i < |Split(s, sep)| ensures sep !in Split(s, sep)[i] {
          if i > 0 { assert Split(s, sep)[i] == rest[i - 1]; }
        }
      }
    }
  }

  /** Python's `sep.join(parts)` for a one-character separator. */
  function Join(parts: seq<string>, sep: char): string
    decreases |parts|
  {
    if |parts| == 0 then ""
    else if |parts| == 1 then parts[0]
    else parts[0] + [sep] + Join(parts[1..], sep)
  }

  /** Joining the pieces of a split gives back the original string. */
  lemma {:induction false} JoinSplit(s: string, sep: char)
    ensures Join(Split(s, sep), sep) == s
    decreases |s|
  {
    if |s| > 0 {
      JoinSplit(s[1..], sep);
      var rest := Split(s[1..], sep);
      if s[0] != sep {
        if |rest| > 1 {
          assert [s[0]] + rest[0] + [sep] + Join(rest[1..], sep)
              == [s[0]] + (rest[0] + [sep] + Join(rest[1..], sep));
        }
      }
      assert s == [s[0]] + s[1..];
    }
  }

  /** Splitting a string that starts with a separator-free piece. */
  lemma {:induction false} SplitAfterPiece(a: string, sep: char, b: string)
    requires sep !in a
    ensures Split(a + [sep] + b, sep) == [a] + Split(b, sep)
    decreases |a|
  {
    if |a| > 0 {
      SplitAfterPiece(a[1..], sep, b);
      assert (a + [sep] + b)[1..] == a[1..] + [sep] + b;
      assert [a[0]] + a[1..] == a;
    } else {
      assert a + [sep] + b == [sep] + b;
      assert ([sep] + b)[1..] == b;
    }
  }

  /** A separator-free string splits into itself. */
  lemma {:induction false} SplitNoSep(a: string, sep: char)
    requires sep !in a
    ensures Split(a, sep) == [a]
    decreases |a|
  {
    if |a| > 0 {
      SplitNoSep(a[1..], sep);
      assert [a[0]] + a[1..] == a;
    }
  }

  /** Splitting a join of separator-free pieces gives back the pieces. */
  lemma {:induction false} SplitJoin(parts: seq<string>, sep: char)
    requires |parts| >= 1
    requires forall i :: 0 <= i < |parts| ==> sep !in parts[i]
    ensures Split(Join(parts, sep), sep) == parts
    decreases |parts|
  {
    if |parts| == 1 {
      SplitNoSep(parts[0], sep);
    } else {
      SplitJoin(parts[1..], sep);
      SplitAfterPiece(parts[0], sep, Join(parts[1..], sep));
      assert [parts[0]] + parts[1..] == parts;
    }
  }

  /** Appending to a string extends its left trim, unless the string is all whitespace. */
  lemma {:induction false} TrimStartAppend(s: string, c: char)
    ensures TrimStart(s + [c]) == if TrimStart(s) == [] then TrimStart([c]) else TrimStart(s) + [c]
    decreases |s|
  {
    if |s| == 0 {
      assert s + [c] == [c];
    } else {
      assert (s + [c])[0] == s[0];
      assert (s + [c])[1..] == s[1..] + [c];
      if IsSpace(s[0]) {
        TrimStartAppend(s[1..], c);
      }
    }
  }

  /** Whitespace appended to a string disappears in its strip. */
  lemma StripAppendSpace(s: string, c: char)
    requires IsSpace(c)
    ensures Strip(s + [c]) == Strip(s)
  {
    TrimStartAppend(s, c);
    var t := TrimStart(s);
    if t == [] {
      assert [c][1..] == [];
      assert TrimStart([c]) == TrimStart([]);
    } else {
      assert (t + [c])[..|t|] == t;
      assert TrimEnd(t + [c]) == TrimEnd(t);
    }
  }

  /** The pieces of a split with the last one extended by `c`. */
  function ExtendLast(parts: seq<string>, c: char): seq<string>
    requires |parts| >= 1
  {
    parts[..|parts| - 1] + [parts[|parts| - 1] + [c]]
  }

  /** Appending a non-separator extends the last piece of a split. */
  lemma {:induction false} SplitAppend(s: string, c: char, sep: char)
    requires c != sep
    ensures Split(s + [c], sep) == ExtendLast(Split(s, sep), c)
    decreases |s|
  {
    if |s| == 0 {
      assert [c][1..] == [];
      assert s + [c] == [c];
      assert Split([c], sep) == [[c]] by {
        assert Split([c], sep) == [[c] + ""];
        assert [c] + "" == [c];
      }
      assert ExtendLast([""], c) == [[c]] by {
        assert "" + [c] == [c];
      }
    } else {
      SplitAppend(s[1..], c, sep);
      assert (s + [c])[1..] == s[1..] + [c];
      if s[0] == sep {
        SplitAppendAfterSep(s, c, sep);
      } else {
        SplitAppendAfterChar(s, c, sep);
      }
    }
  }

  lemma SplitAppendAfterSep(s: string, c: char, sep: char)
    requires |s| > 0 && s[0] == sep && c != sep
    requires Split(s[1..] + [c], sep) == ExtendLast(Split(s[1..], sep), c)
    ensures Split(s + [c], sep) == ExtendLast(Split(s, sep), c)
  {
    assert (s + [c])[0] == sep;
    assert (s + [c])[1..] == s[1..] + [c];
    var rest := Split(s[1..], sep);
    assert Split(s + [c], sep) == [""] + ExtendLast(rest, c);
    assert Split(s, sep) == [""] + rest;
    var n := |rest|;
    var w := [""] + rest;
    assert w[..n] == [""] + rest[..n - 1];
    assert w[n] == rest[n - 1];
  }

  lemma SplitAppendAfterChar(s: string, c: char, sep: char)
    requires |s| > 0 && s[0] != sep && c != sep
    requires Split(s[1..] + [c], sep) == ExtendLast(Split(s[1..], sep), c)
    ensures Split(s + [c], sep) == ExtendLast(Split(s, sep), c)
  {
    assert (s + [c])[0] == s[0];
    assert (s + [c])[1..] == s[1..] + [c];
    var rest := Split(s[1..], sep);
    var rest' := Split(s[1..] + [c], sep);
    assert Split(s + [c], sep) == [[s[0]] + rest'[0]] + rest'[1..];
    assert Split(s, sep) == [[s[0]] + rest[0]] + rest[1..];
    if |rest| == 1 {
      ExtendOne(s[0], rest[0], c);
    } else {
      ExtendMany(s[0], rest, c);
    }
  }

  lemma ExtendOne(x: char, r: string, c: char)
    ensures [[x] + (ExtendLast([r], c)[0])] + ExtendLast([r], c)[1..] == ExtendLast([[x] + r], c)
  {
    assert ExtendLast([r], c) == [r + [c]];
    assert ExtendLast([[x] + r], c) == [([x] + r) + [c]];
    assert [x] + (r + [c]) == ([x] + r) + [c];
  }

  lemma ExtendMany(x: char, rest: seq<string>, c: char)
    requires |rest| > 1
    ensures [[x] + (ExtendLast(rest, c)[0])] + ExtendLast(rest, c)[1..] == ExtendLast([[x] + rest[0]] + rest[1..], c)
  {
    var n := |rest|;
    var e := ExtendLast(rest, c);
    assert e[0] == rest[0];
    assert e[1..] == rest[1..n - 1] + [rest[n - 1] + [c]];
    var w := [[x] + rest[0]] + rest[1..];
    assert w[..n - 1] == [[x] + rest[0]] + rest[1..n - 1];
    assert w[n - 1] == rest[n - 1];
  }

  /** A final empty piece adds one trailing separator to a join. */
  lemma {:induction false} JoinAppendEmpty(parts: seq<string>, sep: char)
    requires |parts| >= 1
    ensures Join(parts + [""], sep) == Join(parts, sep) + [sep]
    decreases |parts|
  {
    if |parts| > 1 {
      JoinAppendEmpty(parts[1..], sep);
      assert (parts + [""])[1..] == parts[1..] + [""];
    } else {
      assert (parts + [""])[1..] == [""];
    }
  }
}
