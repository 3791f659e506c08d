/** The text operations the application relies on (Python's `str` methods and
    `int()`/`str()` on integers), restricted to ASCII. */
module Strings {
  import opened Common

  predicate IsDigit(c: char) { '0' <= c <= '9' }

  predicate AllDigits(s: string) { forall i :: 0 <= i < |s| ==> IsDigit(s[i]) }

  /** `str.isspace()` on the ASCII range: space, \t \n \v \f \r and the separators 0x1c-0x1f. */
  predicate IsSpace(c: char) { c == ' ' || 9 <= c as int <= 13 || 28 <= c as int <= 31 }

  /** The characters at which `str.splitlines()` ends a line: \n \v \f \r,
      the separators 0x1c-0x1e, NEL and the Unicode line and paragraph separators. */
  predicate IsLineBreak(c: char) {
    10 <= c as int <= 13 || 28 <= c as int <= 30 || c as int == 0x85 || c as int == 0x2028 || c as int == 0x2029
  }

  /** Text that `str.splitlines()` leaves in one piece. */
  predicate SingleLine(s: string) { forall i :: 0 <= i < |s| ==> !IsLineBreak(s[i]) }

  function UpperChar(c: char): (u: char)
    ensures 'a' <= c <= 'z' ==> u as int == c as int - 32
    ensures !('a' <= c <= 'z') ==> u == c
  {
    if 'a' <= c <= 'z' then (c as int - 32) as char else c
  }

  function LowerChar(c: char): (l: char)
    ensures 'A' <= c <= 'Z' ==> l as int == c as int + 32
    ensures !('A' <= c <= 'Z') ==> l == c
  {
    if 'A' <= c <= 'Z' then (c as int + 32) as char else c
  }

  /** `str.upper()` on ASCII letters. */
  function Upper(s: string): (u: string)
    ensures |u| == |s|
    ensures forall i :: 0 <= i < |s| ==> u[i] == UpperChar(s[i])
  {
    seq(|s|, i requires 0 <= i < |s| => UpperChar(s[i]))
  }

  /** `str.lower()` on ASCII letters. */
  function Lower(s: string): (l: string)
    ensures |l| == |s|
    ensures forall i :: 0 <= i < |s| ==> l[i] == LowerChar(s[i])
  {
    seq(|s|, i requires 0 <= i < |s| => LowerChar(s[i]))
  }

  /** Upper-casing a string that has no lower-case letter changes nothing. */
  lemma UpperNoLower(s: string)
    requires forall i :: 0 <= i < |s| ==> !('a' <= s[i] <= 'z')
    ensures Upper(s) == s
  {
  }

  /** Upper-casing undoes lower-casing on a string without lower-case letters. */
  lemma UpperOfLower(s: string)
    requires forall i :: 0 <= i < |s| ==> !('a' <= s[i] <= 'z')
    ensures Upper(Lower(s)) == s
  {
    forall i | 0 <= i < |s| ensures Upper(Lower(s))[i] == s[i] {
      if 'A' <= s[i] <= 'Z' {
        assert Lower(s)[i] as int == s[i] as int + 32;
      }
    }
  }

  // ---------------------------------------------------------------------------
  // Searching

  /** Index of the first occurrence of `c` (`str.index`). */
  function IndexOf(s: string, c: char): (i: nat)
    requires c in s
    ensures i < |s| && s[i] == c && c !in s[..i]
  {
    if s[0] == c then 0
    else
      var j := IndexOf(s[1..], c);
      assert s[..j + 1] == [s[0]] + s[1..][..j];
      1 + j
  }

  /** The first occurrence of the separator in `a + [c] + b` is the one after `a`. */
  lemma {:induction false} IndexOfAfter(a: string, c: char, b: string)
    requires c !in a
    ensures c in a + [c] + b && IndexOf(a + [c] + b, c) == |a|
  {
    var s := a + [c] + b;
    assert s[|a|] == c;
    if a != [] {
      assert s[1..] == a[1..] + [c] + b;
      IndexOfAfter(a[1..], c, b);
    }
  }

  /** Index of the last occurrence of `c` (`str.rindex`). */
  function LastIndexOf(s: string, c: char): (i: nat)
    requires c in s
    ensures i < |s| && s[i] == c && c !in s[i + 1..]
  {
    if s[|s| - 1] == c then |s| - 1
    else
      assert s == s[..|s| - 1] + [s[|s| - 1]];
      var j := LastIndexOf(s[..|s| - 1], c);
      assert s[j + 1..] == s[..|s| - 1][j + 1..] + [s[|s| - 1]];
      j
  }

  // ---------------------------------------------------------------------------
  // Splitting and joining

  /** `s.split(sep)`: the pieces between the separators, always at least one. */
  function Split(s: string, sep: char): (parts: seq<string>)
    ensures |parts| >= 1
    ensures forall k :: 0 <= k < |parts| ==> sep !in parts[k]
    decreases |s|
  {
    if sep in s then
      var i := IndexOf(s, sep);
      [s[..i]] + Split(s[i + 1..], sep)
    else
      [s]
  }

  /** `sep.join(parts)`. */
  function Join(parts: seq<string>, sep: char): string
    requires |parts| >= 1
  {
    if |parts| == 1 then parts[0] else parts[0] + [sep] + Join(parts[1..], sep)
  }

  /** Splitting and joining back gives the original text. */
  lemma {:induction false} JoinSplit(s: string, sep: char)
    ensures Join(Split(s, sep), sep) == s
    decreases |s|
  {
    if sep in s {
      var i := IndexOf(s, sep);
      var rest := Split(s[i + 1..], sep);
      JoinSplit(s[i + 1..], sep);
      var parts := Split(s, sep);
      assert parts == [s[..i]] + rest;
      assert parts[0] == s[..i] && parts[1..] == rest;
      assert Join(parts, sep) == s[..i] + [sep] + Join(rest, sep);
      assert s == s[..i] + [sep] + s[i + 1..];
    }
  }

  /** Joining separator-free pieces and splitting again gives the pieces back. */
  lemma {:induction false} SplitJoin(parts: seq<string>, sep: char)
    requires |parts| >= 1
    requires forall k :: 0 <= k < |parts| ==> sep !in parts[k]
    ensures Split(Join(parts, sep), sep) == parts
  {
    if |parts| > 1 {
      var rest := Join(parts[1..], sep);
      IndexOfAfter(parts[0], sep, rest);
      var s := parts[0] + [sep] + rest;
      assert Join(parts, sep) == s;
      assert s[..|parts[0]|] == parts[0];
      assert s[|parts[0]| + 1..] == rest;
      assert sep in s && IndexOf(s, sep) == |parts[0]|;
      assert Split(s, sep) == [parts[0]] + Split(rest, sep);
      SplitJoin(parts[1..], sep);
      assert parts == [parts[0]] + parts[1..];
    }
  }

  // ---------------------------------------------------------------------------
  // Stripping

  function StripLeft(s: string): (r: string)
    ensures |r| <= |s| && r == s[|s| - |r|..]
    ensures r == [] || !IsSpace(r[0])
    ensures forall i :: 0 <= i < |s| - |r| ==> IsSpace(s[i])
  {
    if s != [] && IsSpace(s[0]) then StripLeft(s[1..]) else s
  }

  function StripRight(s: string): (r: string)
    ensures |r| <= |s| && r == s[..|r|]
    ensures r == [] || !IsSpace(r[|r| - 1])
    ensures forall i :: |r| <= i < |s| ==> IsSpace(s[i])
  {
    if s != [] && IsSpace(s[|s| - 1]) then StripRight(s[..|s| - 1]) else s
  }

  /** `str.strip()`: `s` without its leading and trailing white space. */
  function Strip(s: string): (r: string)
    ensures r == [] || (!IsSpace(r[0]) && !IsSpace(r[|r| - 1]))
    ensures |r| <= |s|
  {
    var l := StripLeft(s);
    var r := StripRight(l);
    assert r != [] ==> r[0] == l[0] && l[0] == s[|s| - |l|];
    r
  }

  /** What stripping on the right leaves after the leading white space is
      followed only by white space in `s`. */
  lemma {:induction false} TrailingSpaces(s: string)
    ensures |s| - |StripLeft(s)| + |Strip(s)| <= |s|
    ensures forall k :: |s| - |StripLeft(s)| + |Strip(s)| <= k < |s| ==> IsSpace(s[k])
  {
    var l := StripLeft(s);
    var r := StripRight(l);
    var i := |s| - |l|;
    assert Strip(s) == r;
    forall k | i + |r| <= k < |s| ensures IsSpace(s[k]) {
      assert s[k] == l[k - i];
    }
  }

  /** The stripped text starts where stripping on the left stopped. */
  lemma {:induction false} StripSlice(s: string)
    ensures |s| - |StripLeft(s)| + |Strip(s)| <= |s|
    ensures forall k :: 0 <= k < |Strip(s)| ==> Strip(s)[k] == s[|s| - |StripLeft(s)| + k]
  {
    var l := StripLeft(s);
    var r := StripRight(l);
    var i := |s| - |l|;
    assert Strip(s) == r;
    assert l == s[i..] && r == l[..|r|];
    forall k | 0 <= k < |r| ensures r[k] == s[i + k] {
      assert r[k] == l[k] == s[i + k];
    }
  }

  /** The stripped text is the slice of `s` that has only white space before
      and after it; with `Strip`'s own contract (no white space at either of
      its ends) this is exactly `str.strip()`. */
  lemma {:induction false} StripIsTrim(s: string)
    ensures var i := |s| - |StripLeft(s)|;
      i + |Strip(s)| <= |s| &&
      (forall k :: 0 <= k < i ==> IsSpace(s[k])) &&
      (forall k :: 0 <= k < |Strip(s)| ==> Strip(s)[k] == s[i + k]) &&
      (forall k :: i + |Strip(s)| <= k < |s| ==> IsSpace(s[k]))
  {
    StripSlice(s);
    TrailingSpaces(s);
  }

  /** Stripping leaves nothing exactly when the text is all white space. */
  lemma StripEmptyIff(s: string)
    ensures Strip(s) == [] <==> forall i :: 0 <= i < |s| ==> IsSpace(s[i])
  {
    var l := StripLeft(s);
    if l != [] {
      assert StripRight(l) != [];
      assert !IsSpace(s[|s| - |l|]);
    }
  }

  /** A string with no white space at either end strips to itself. */
  lemma StripTrimmed(s: string)
    requires s == [] || (!IsSpace(s[0]) && !IsSpace(s[|s| - 1]))
    ensures Strip(s) == s
  {
  }

  // ---------------------------------------------------------------------------
  // Decimal numbers: Python's str(n) and int(s)

  function DigitChar(d: nat): (c: char)
    requires d < 10
    ensures IsDigit(c)
  {
    ('0' as int + d) as char
  }

  function DigitValue(c: char): (d: nat)
    requires IsDigit(c)
    ensures d < 10 && DigitChar(d) == c
  {
    c as int - '0' as int
  }

  /** `str(n)` for a non-negative integer: its decimal digits, no leading zero. */
  function NatToString(n: nat): (s: string)
    ensures s != [] && AllDigits(s)
    ensures |s| > 1 ==> s[0] != '0'
    decreases n
  {
    if n < 10 then [DigitChar(n)] else NatToString(n / 10) + [DigitChar(n % 10)]
  }

  /** The number a string of decimal digits denotes. */
  function DigitsValue(s: string): nat
    requires AllDigits(s)
  {
    if s == [] then 0 else DigitsValue(s[..|s| - 1]) * 10 + DigitValue(s[|s| - 1])
  }

  /** Reading back the digits of `n` gives `n`. */
  lemma {:induction false} DigitsOfNat(n: nat)
    ensures DigitsValue(NatToString(n)) == n
    decreases n
  {
    var s := NatToString(n);
    if n < 10 {
      assert s[..0] == [];
    } else {
      DigitsOfNat(n / 10);
      assert s[..|s| - 1] == NatToString(n / 10);
    }
  }

  /** Different numbers have different decimal forms. */
  lemma NatToStringInjective(a: nat, b: nat)
    requires NatToString(a) == NatToString(b)
    ensures a == b
  {
    DigitsOfNat(a);
    DigitsOfNat(b);
  }

  /** `str(i)` for any integer. */
  function IntToString(i: int): (s: string)
    ensures s != [] && !IsSpace(s[0]) && !IsSpace(s[|s| - 1])
    ensures forall k :: 0 <= k < |s| ==> IsDigit(s[k]) || s[k] == '-'
  {
    if i < 0 then "-" + NatToString(-i) else NatToString(i)
  }

  /** Decimal digits in groups joined by single underscores, as `int()` takes
      them: a digit at both ends and never two underscores in a row. */
  predicate GroupedDigits(s: string) {
    s != [] && IsDigit(s[0]) && IsDigit(s[|s| - 1]) &&
    (forall i :: 0 <= i < |s| ==> IsDigit(s[i]) || s[i] == '_') &&
    (forall i :: 0 <= i < |s| - 1 ==> s[i] == '_' ==> s[i + 1] != '_')
  }

  /** The digits of `s` without its underscores. */
  function DropUnderscores(s: string): (r: string)
    ensures (forall i :: 0 <= i < |s| ==> IsDigit(s[i]) || s[i] == '_') ==> AllDigits(r)
    ensures AllDigits(s) ==> r == s
    ensures GroupedDigits(s) ==> AllDigits(r)
  {
    if s == [] then []
    else
      var init := s[..|s| - 1];
      assert s == init + [s[|s| - 1]];
      var r := DropUnderscores(init);
      if s[|s| - 1] == '_' then r else r + [s[|s| - 1]]
  }

  /** The value of grouped digits: their digits read without the underscores. */
  function GroupedValue(s: string): nat
    requires GroupedDigits(s)
  {
    DigitsValue(DropUnderscores(s))
  }

  /** Unsigned decimal digits, at least one, optionally grouped by underscores. */
  function ParseNat(s: string): (r: Option<nat>)
    ensures s != [] && AllDigits(s) ==> r == Some(DigitsValue(s))
    ensures r.Some? ==> GroupedDigits(s)
  {
    if GroupedDigits(s) then Some(GroupedValue(s)) else None
  }

  /** The text starts with a sign. */
  predicate Signed(t: string) { t != [] && (t[0] == '+' || t[0] == '-') }

  /** `int()` on a text without surrounding white space: digits grouped by
      single underscores, optionally after one sign; `None` where Python raises
      `ValueError`. */
  function ParseSigned(t: string): (r: Option<int>)
    ensures r.Some? <==> GroupedDigits(t) || (Signed(t) && GroupedDigits(t[1..]))
    ensures GroupedDigits(t) ==> r == Some(GroupedValue(t))
    ensures Signed(t) && GroupedDigits(t[1..]) ==>
      r == Some((if t[0] == '-' then -1 else 1) * GroupedValue(t[1..]))
  {
    if Signed(t) then
      match ParseNat(t[1..])
      case Some(n) => var v: int := n; Some(if t[0] == '-' then -v else v)
      case None => None
    else
      match ParseNat(t)
      case Some(n) => Some(n)
      case None => None
  }

  /** `int(s)` on an ASCII string: the stripped text parsed by `ParseSigned`. */
  function ParseInt(s: string): (r: Option<int>)
    ensures r.Some? ==> Strip(s) != []
    ensures Strip(s) != [] && AllDigits(Strip(s)) ==> r == Some(DigitsValue(Strip(s)))
    ensures r.Some? && Strip(s)[0] != '-' && Strip(s)[0] != '+' ==> GroupedDigits(Strip(s))
  {
    ParseSigned(Strip(s))
  }

  lemma DropUnderscoresExample()
    ensures DropUnderscores("1_000") == "1000"
  {
    assert DropUnderscores("1") == "1";
    assert "1_"[..1] == "1";
    assert DropUnderscores("1_") == "1";
    assert "1_0"[..2] == "1_";
    assert DropUnderscores("1_0") == "10";
    assert "1_00"[..3] == "1_0";
    assert DropUnderscores("1_00") == "100";
    assert "1_000"[..4] == "1_00";
  }

  lemma DigitsValueExample()
    ensures DigitsValue("1000") == 1000
  {
    assert "1000"[..3] == "100" && "100"[..2] == "10" && "10"[..1] == "1";
  }

  /** Underscores between digits are accepted. */
  lemma UnderscoreExample()
    ensures ParseInt("1_000") == Some(1000)
  {
    var t := "1_000";
    assert t[0] == '1' && t[4] == '0';
    assert GroupedDigits(t);
    DropUnderscoresExample();
    DigitsValueExample();
    assert ParseSigned(t) == Some(1000);
    StripTrimmed(t);
  }

  /** A doubled underscore is refused. */
  lemma DoubleUnderscoreExample()
    ensures ParseInt("1__0") == None
  {
    var t := "1__0";
    assert t[1] == '_' && t[2] == '_';
    assert !GroupedDigits(t) && !Signed(t);
    assert ParseSigned(t) == None;
    StripTrimmed(t);
  }

  /** A leading underscore is refused. */
  lemma LeadingUnderscoreExample()
    ensures ParseInt("_1") == None
  {
    var t := "_1";
    assert t[0] == '_' && !IsDigit(t[0]);
    assert !GroupedDigits(t) && !Signed(t);
    assert ParseSigned(t) == None;
    StripTrimmed(t);
  }

  /** `int(str(i)) == i`. */
  lemma ParseIntToString(i: int)
    ensures ParseInt(IntToString(i)) == Some(i)
  {
    var s := IntToString(i);
    StripTrimmed(s);
    assert Strip(s) == s;
    if i < 0 {
      var d := NatToString(-i);
      assert s == "-" + d && s[0] == '-' && s[1..] == d;
      DigitsOfNat(-i);
      assert ParseNat(d) == Some(-i);
    } else {
      DigitsOfNat(i);
      assert s != [] && AllDigits(s);
    }
  }

}
