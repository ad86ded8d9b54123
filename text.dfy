/** Character-level helpers shared by the input validation and the time
    display: Python's `str.strip()`, decimal rendering and `int(text)`. */
module Text {
  import opened Wrappers

  /** The characters Python's `str.isspace()` accepts. */
  predicate IsSpace(c: char) {
    var n := c as int;
    (9 <= n <= 13) || (28 <= n <= 32) || n == 0x85 || n == 0xA0 || n == 0x1680
    || (0x2000 <= n <= 0x200A) || n == 0x2028 || n == 0x2029 || n == 0x202F
    || n == 0x205F || n == 0x3000
  }

  predicate IsDigit(c: char) { '0' <= c <= '9' }

  predicate AllDigits(s: string) { forall i :: 0 <= i < |s| ==> IsDigit(s[i]) }

  predicate AllSpace(s: string) { forall i :: 0 <= i < |s| ==> IsSpace(s[i]) }

  /** Drops leading whitespace: the result is a suffix of `s`, everything
      dropped is whitespace, and what is left does not start with any. */
  function TrimLeft(s: string): (r: string)
    ensures |r| <= |s| && r == s[|s| - |r|..]
    ensures forall i :: 0 <= i < |s| - |r| ==> IsSpace(s[i])
    ensures r != [] ==> !IsSpace(r[0])
  {
    if s != [] && IsSpace(s[0]) then TrimLeft(s[1..]) else s
  }

  /** Drops trailing whitespace: the result is a prefix of `s`. */
  function TrimRight(s: string): (r: string)
    ensures |r| <= |s| && r == s[..|r|]
    ensures forall i :: |r| <= i < |s| ==> IsSpace(s[i])
    ensures r != [] ==> !IsSpace(r[|r| - 1])
  {
    if s != [] && IsSpace(s[|s| - 1]) then TrimRight(s[..|s| - 1]) else s
  }

  /** Python's `s.strip()`: the slice of `s` left after dropping the
      whitespace at both ends, and no more than that whitespace. */
  function Strip(s: string): (r: string)
    ensures |r| <= |s|
    ensures r != [] ==> !IsSpace(r[0]) && !IsSpace(r[|r| - 1])
    ensures exists i, j :: 0 <= i <= j <= |s| && r == s[i..j] && AllSpace(s[..i]) && AllSpace(s[j..])
  {
    var l := TrimLeft(s);
    var r := TrimRight(l);
    TrimmedSlice(s, l, r);
    r
  }

  /** What is left after whitespace is cut off both ends is a slice with
      whitespace before and after it. */
  lemma TrimmedSlice(s: string, l: string, r: string)
    requires |l| <= |s| && l == s[|s| - |l|..]
    requires forall k :: 0 <= k < |s| - |l| ==> IsSpace(s[k])
    requires |r| <= |l| && r == l[..|r|]
    requires forall k :: |r| <= k < |l| ==> IsSpace(l[k])
    ensures exists i, j :: 0 <= i <= j <= |s| && r == s[i..j] && AllSpace(s[..i]) && AllSpace(s[j..])
  {
    var i := |s| - |l|;
    var j := i + |r|;
    PrefixOfSuffix(s, i, l, r);
    SpaceUpTo(s, i);
    SpaceFrom(l, |r|);
    SliceOfSuffix(s, i, l, |r|);
    assert r == s[i..j] && AllSpace(s[..i]) && AllSpace(s[j..]);
  }

  /** Whitespace before position `n` makes an all-whitespace prefix. */
  lemma SpaceUpTo(s: string, n: nat)
    requires n <= |s| && forall idx :: 0 <= idx < n ==> IsSpace(s[idx])
    ensures AllSpace(s[..n])
  {
    forall k | 0 <= k < n ensures IsSpace(s[..n][k]) {
      assert s[..n][k] == s[k];
    }
  }

  /** Whitespace from position `n` on makes an all-whitespace suffix. */
  lemma SpaceFrom(l: string, n: nat)
    requires n <= |l| && forall idx :: n <= idx < |l| ==> IsSpace(l[idx])
    ensures AllSpace(l[n..])
  {
    forall k | 0 <= k < |l| - n ensures IsSpace(l[n..][k]) {
      assert l[n..][k] == l[n + k];
    }
  }

  /** A prefix of a suffix is a slice. */
  lemma PrefixOfSuffix<T>(s: seq<T>, i: int, l: seq<T>, r: seq<T>)
    requires 0 <= i <= |s| && l == s[i..] && |r| <= |l| && r == l[..|r|]
    ensures r == s[i..i + |r|]
  {
  }

  /** A suffix of a suffix. */
  lemma SliceOfSuffix<T>(s: seq<T>, i: int, l: seq<T>, p: int)
    requires 0 <= i <= |s| && l == s[i..] && 0 <= p <= |l|
    ensures s[i + p..] == l[p..]
  {
  }

  /** `s.strip()` is empty exactly when `s` is blank, which is the test the
      task, habit and user-name inputs apply. */
  lemma StripEmptyIffBlank(s: string)
    ensures Strip(s) == [] <==> AllSpace(s)
  {
    if Strip(s) == [] {
      assert TrimLeft(s) == [];
    }
  }

  /** Stripping a string without whitespace leaves it as it is. */
  lemma {:induction false} StripNoSpace(s: string)
    requires forall i :: 0 <= i < |s| ==> !IsSpace(s[i])
    ensures Strip(s) == s
  {
    assert TrimLeft(s) == s;
    assert TrimRight(s) == s;
  }

  function DigitChar(d: int): (c: char)
    requires 0 <= d < 10
    ensures IsDigit(c) && c as int - '0' as int == d
  {
    ('0' as int + d) as char
  }

  /** The decimal digits of `n`, most significant first, as `str(n)` gives them. */
  function Decimal(n: nat): (r: string)
    ensures |r| >= 1 && AllDigits(r)
    ensures |r| == 1 <==> n < 10
  {
    if n < 10 then [DigitChar(n)] else Decimal(n / 10) + [DigitChar(n % 10)]
  }

  /** The number a string of decimal digits denotes. */
  function DigitsValue(s: string): int
  {
    if s == [] then 0 else DigitsValue(s[..|s| - 1]) * 10 + (s[|s| - 1] as int - '0' as int)
  }

  lemma {:induction false} DecimalRoundTrip(n: nat)
    ensures DigitsValue(Decimal(n)) == n
  {
    if n >= 10 {
      var d := Decimal(n / 10);
      var r := d + [DigitChar(n % 10)];
      assert r[..|r| - 1] == d;
      DecimalRoundTrip(n / 10);
    }
  }

  /** An optional sign followed by one or more ASCII digits. */
  predicate IntLiteral(t: string) {
    t != [] &&
    var digits := if t[0] == '-' || t[0] == '+' then t[1..] else t;
    digits != [] && AllDigits(digits)
  }

  /** Python's `int(text)`: accepted exactly when the text is an integer
      literal with blanks around it; anything else is rejected (`None`). */
  function ParseInt(text: string): (r: Option<int>)
    ensures r.Some? ==> !AllSpace(text)
    ensures r.Some? <==> IntLiteral(Strip(text))
  {
    var t := Strip(text);
    StripEmptyIffBlank(text);
    if t == [] then None else ParseSigned(t)
  }

  /** Only an integer literal with blanks around it is accepted: a stray
      character anywhere makes `int()` fail. */
  lemma ParseIntShape(text: string)
    ensures ParseInt(text).Some? ==>
      exists i, j :: 0 <= i < j <= |text| && AllSpace(text[..i]) && AllSpace(text[j..])
                     && IntLiteral(text[i..j])
  {
    if ParseInt(text).Some? {
      var i, j :| 0 <= i <= j <= |text| && Strip(text) == text[i..j]
                  && AllSpace(text[..i]) && AllSpace(text[j..]);
      assert IntLiteral(text[i..j]);
    }
  }

  /** An optional sign followed by one or more digits. */
  function ParseSigned(t: string): (r: Option<int>)
    requires t != []
    ensures r.Some? <==> IntLiteral(t)
  {
    var digits := if t[0] == '-' || t[0] == '+' then t[1..] else t;
    if digits == [] || !AllDigits(digits) then None
    else if t[0] == '-' then Some(-DigitsValue(digits))
    else Some(DigitsValue(digits))
  }

  lemma DigitsAreNotSpace(s: string)
    requires AllDigits(s)
    ensures forall i :: 0 <= i < |s| ==> !IsSpace(s[i])
  {
  }

  /** `int(d) == value(d)` for a non-empty string of digits. */
  lemma ParseDigits(d: string)
    requires d != [] && AllDigits(d)
    ensures ParseInt(d) == Some(DigitsValue(d))
  {
    DigitsAreNotSpace(d);
    StripNoSpace(d);
    assert d[0] != '-' && d[0] != '+';
  }

  /** `int(t) == -value(t[1..])` when `t` is a minus sign followed by digits. */
  lemma ParseMinusDigits(t: string)
    requires |t| >= 2 && t[0] == '-' && AllDigits(t[1..])
    ensures ParseInt(t) == Some(-DigitsValue(t[1..]))
  {
    forall i | 0 <= i < |t| ensures !IsSpace(t[i]) {
      if i > 0 { assert t[i] == t[1..][i - 1]; }
    }
    StripNoSpace(t);
  }

  /** `int(t) == value(t[1..])` when `t` is a plus sign followed by digits. */
  lemma ParsePlusDigits(t: string)
    requires |t| >= 2 && t[0] == '+' && AllDigits(t[1..])
    ensures ParseInt(t) == Some(DigitsValue(t[1..]))
  {
    forall i | 0 <= i < |t| ensures !IsSpace(t[i]) {
      if i > 0 { assert t[i] == t[1..][i - 1]; }
    }
    StripNoSpace(t);
  }

  /** `int(str(n)) == n` for every natural number. */
  lemma ParseDecimal(n: nat)
    ensures ParseInt(Decimal(n)) == Some(n as int)
  {
    ParseDigits(Decimal(n));
    DecimalRoundTrip(n);
  }

  /** A text with a stray letter is not a number. */
  lemma ParseRejectsLetter()
    ensures ParseInt("12a") == None
  {
    StripNoSpace("12a");
    assert !IsDigit("12a"[2]);
  }

  /** Blanks around a number are ignored. */
  lemma ParseIgnoresBlanks(pre: string, t: string, post: string)
    requires AllSpace(pre) && AllSpace(post) && IntLiteral(t)
    ensures ParseInt(pre + t + post) == ParseInt(t)
  {
    LiteralEnds(t);
    StripPadded(pre, t, post);
    StripPadded([], t, []);
    NoPadding(t);
    SameStripSameParse(pre + t + post, t);
  }

  /** An integer literal starts with a sign or a digit and ends with a digit. */
  lemma LiteralEnds(t: string)
    requires IntLiteral(t)
    ensures t != [] && !IsSpace(t[0]) && !IsSpace(t[|t| - 1])
  {
    var digits := if t[0] == '-' || t[0] == '+' then t[1..] else t;
    assert t[|t| - 1] == digits[|digits| - 1];
    assert IsDigit(digits[|digits| - 1]);
  }

  lemma NoPadding<T>(t: seq<T>)
    ensures [] + t + [] == t
  {
  }

  /** `int()` only sees the stripped text. */
  lemma SameStripSameParse(a: string, b: string)
    requires Strip(a) == Strip(b)
    ensures ParseInt(a) == ParseInt(b)
  {
  }

  /** A text with blanks around a word strips to the word. */
  lemma StripPadded(pre: string, mid: string, post: string)
    requires AllSpace(pre) && AllSpace(post)
    requires mid != [] && !IsSpace(mid[0]) && !IsSpace(mid[|mid| - 1])
    ensures Strip(pre + mid + post) == mid
  {
    assert pre + mid + post == pre + (mid + post);
    assert (mid + post)[0] == mid[0];
    TrimLeftPadded(pre, mid + post);
    TrimRightPadded(mid, post);
  }

  lemma {:induction false} TrimLeftPadded(pre: string, rest: string)
    requires AllSpace(pre) && (rest == [] || !IsSpace(rest[0]))
    ensures TrimLeft(pre + rest) == rest
  {
    if pre == [] {
      assert pre + rest == rest;
    } else {
      assert (pre + rest)[0] == pre[0];
      assert (pre + rest)[1..] == pre[1..] + rest;
      SpaceFrom(pre, 1);
      TrimLeftPadded(pre[1..], rest);
    }
  }

  lemma {:induction false} TrimRightPadded(rest: string, post: string)
    requires AllSpace(post) && (rest == [] || !IsSpace(rest[|rest| - 1]))
    ensures TrimRight(rest + post) == rest
  {
    if post == [] {
      assert rest + post == rest;
    } else {
      var n := |post|;
      var all := rest + post;
      assert all[|all| - 1] == post[n - 1];
      assert all[..|all| - 1] == rest + post[..n - 1];
      SpaceUpTo(post, n - 1);
      TrimRightPadded(rest, post[..n - 1]);
    }
  }

  /** A leading minus sign negates. */
  lemma ParseKeepsSign()
    ensures ParseInt("-7") == Some(-7)
  {
    ParseMinusDigits("-7");
    assert "-7"[1..] == "7";
  }
}
