/** The parts of java.lang.String, java.lang.Integer and java.util.regex that
    the spider relies on, stated over sequences of characters. */
module JavaStrings {
  import opened Results

  predicate IsDigit(c: char) { '0' <= c <= '9' }

  predicate IsDigits(s: string) { forall i :: 0 <= i < |s| ==> IsDigit(s[i]) }

  /** A numeral as Integer.parseInt reads it here: one or more ASCII digits. */
  predicate IsNumeral(s: string) { |s| > 0 && IsDigits(s) }

  /** The regex class `\s`: space, tab, line feed, vertical tab, form feed, carriage return. */
  predicate IsSpace(c: char) {
    c == ' ' || c == '\t' || c == '\n' || c == '\U{0B}' || c == '\U{0C}' || c == '\r'
  }

  /** The characters the regex `.` does not match. */
  predicate IsLineTerminator(c: char) {
    c == '\n' || c == '\r' || c == '\U{85}' || c == '\U{2028}' || c == '\U{2029}'
  }

  predicate HasPrefix(s: string, p: string) { |p| <= |s| && s[..|p|] == p }

  /** s.contains(p) */
  predicate Contains(s: string, p: string)
    decreases |s|
  {
    HasPrefix(s, p) || (|s| > 0 && Contains(s[1..], p))
  }

  /** s.indexOf(c): the position of the first c, or -1 when there is none. */
  function IndexOf(s: string, c: char): (r: int)
    ensures -1 <= r < |s|
    ensures r == -1 <==> c !in s
    ensures r >= 0 ==> s[r] == c && c !in s[..r]
  {
    if |s| == 0 then -1
    else if s[0] == c then 0
    else
      var k := IndexOf(s[1..], c);
      assert s[1..][..k + 1] == s[1..k + 2] by { if k >= 0 { assert k + 1 <= |s[1..]|; } }
      if k == -1 then -1 else k + 1
  }

  lemma IndexOfFirst(a: string, c: char, b: string)
    requires c !in a
    ensures IndexOf(a + [c] + b, c) == |a|
  {
    var s := a + [c] + b;
    assert s[|a|] == c;
    assert s[..|a|] == a;
  }

  function DigitValue(c: char): (d: nat)
    requires IsDigit(c)
    ensures d < 10
  {
    c as int - '0' as int
  }

  function Digit(d: nat): (c: char)
    requires d < 10
    ensures IsDigit(c) && DigitValue(c) == d
  {
    ('0' as int + d) as char
  }

  /** The value of a string of decimal digits, most significant first. */
  function NumeralValue(s: string): nat
    requires IsDigits(s)
  {
    if |s| == 0 then 0
    else
      10 * NumeralValue(s[..|s| - 1]) + DigitValue(s[|s| - 1])
  }

  /** Integer.parseInt, over unsigned ASCII numerals and unbounded values. */
  function ParseInt(s: string): (r: Result<nat>)
    ensures r.Ok? <==> IsNumeral(s)
    ensures r.Err? ==> r.error == NumberFormat
  {
    if IsNumeral(s) then Ok(NumeralValue(s)) else Err(NumberFormat)
  }

  /** Integer.toString of a non-negative value: shortest decimal numeral. */
  function IntegerToString(n: nat): (r: string)
    ensures IsNumeral(r)
    ensures r[0] == '0' <==> n == 0
  {
    if n < 10 then [Digit(n)]
    else
      var high := IntegerToString(n / 10);
      assert (high + [Digit(n % 10)])[0] == high[0];
      high + [Digit(n % 10)]
  }

  /** Parsing what Integer.toString printed gives the value back. */
  lemma {:induction false} ParseIntegerToString(n: nat)
    ensures ParseInt(IntegerToString(n)) == Ok(n)
  {
    if n >= 10 {
      ParseIntegerToString(n / 10);
      var high, r := IntegerToString(n / 10), IntegerToString(n);
      assert r == high + [Digit(n % 10)];
      assert r[..|r| - 1] == high;
      assert NumeralValue(r) == 10 * NumeralValue(high) + DigitValue(Digit(n % 10));
    }
  }

  lemma {:induction false} NumeralPositive(s: string)
    requires IsNumeral(s) && s[0] != '0'
    ensures NumeralValue(s) > 0
  {
    if |s| > 1 {
      var p := s[..|s| - 1];
      assert p[0] == s[0];
      NumeralPositive(p);
    }
  }

  /** Printing a parsed numeral without leading zeros gives the numeral back. */
  lemma {:induction false} IntegerToStringParse(s: string)
    requires IsNumeral(s) && (s[0] == '0' ==> |s| == 1)
    ensures ParseInt(s) == Ok(NumeralValue(s))
    ensures IntegerToString(NumeralValue(s)) == s
  {
    if |s| == 1 {
      assert NumeralValue(s) == DigitValue(s[0]);
      assert [Digit(DigitValue(s[0]))] == s;
    } else {
      var p := s[..|s| - 1];
      assert p[0] == s[0];
      NumeralPositive(p);
      IntegerToStringParse(p);
      var v := NumeralValue(s);
      assert v == 10 * NumeralValue(p) + DigitValue(s[|s| - 1]);
      assert v / 10 == NumeralValue(p) && v % 10 == DigitValue(s[|s| - 1]);
      assert s == p + [s[|s| - 1]];
    }
  }

  /** s.replace(pat, rep): every occurrence of pat, found left to right without
      overlap, becomes rep. */
  function ReplaceAll(s: string, pat: string, rep: string): (r: string)
    requires |pat| > 0
    ensures |rep| == |pat| ==> |r| == |s|
    ensures HasPrefix(s, pat) ==> HasPrefix(r, rep)
    decreases |s|
  {
    if |s| == 0 then []
    else if HasPrefix(s, pat) then rep + ReplaceAll(s[|pat|..], pat, rep)
    else [s[0]] + ReplaceAll(s[1..], pat, rep)
  }

  lemma {:induction false} ContainsSuffix(s: string, k: nat, q: string)
    requires k <= |s|
    ensures Contains(s[k..], q) ==> Contains(s, q)
  {
    if k > 0 {
      assert s[1..][k - 1..] == s[k..];
      ContainsSuffix(s[1..], k - 1, q);
    }
  }

  lemma {:induction false} ContainsPrefix(s: string, k: nat, q: string)
    requires k <= |s|
    ensures Contains(s[..k], q) ==> Contains(s, q)
  {
    if k > 0 {
      assert HasPrefix(s[..k], q) ==> HasPrefix(s, q) by {
        if |q| <= k { assert s[..k][..|q|] == s[..|q|]; }
      }
      assert s[..k][1..] == s[1..][..k - 1];
      ContainsPrefix(s[1..], k - 1, q);
    }
  }

  /** Adding one character in front: the prefix test looks at that character first. */
  lemma PrefixCons(x: char, s: string, q: string)
    requires |q| > 0
    ensures HasPrefix([x] + s, q) <==> q[0] == x && HasPrefix(s, q[1..])
    ensures Contains([x] + s, q) <==> HasPrefix([x] + s, q) || Contains(s, q)
  {
    assert ([x] + s)[1..] == s;
    if |q| <= |s| + 1 {
      assert ([x] + s)[..|q|] == [x] + s[..|q| - 1];
      assert q == [q[0]] + q[1..];
    }
  }

  /** An occurrence of q cannot start inside a part none of whose characters is q's first. */
  lemma {:induction false} ContainsAfter(a: string, b: string, q: string)
    requires |q| > 0 && q[0] !in a
    ensures Contains(a + b, q) ==> Contains(b, q)
  {
    if |a| > 0 {
      assert a + b == [a[0]] + (a[1..] + b);
      PrefixCons(a[0], a[1..] + b, q);
      ContainsAfter(a[1..], b, q);
    } else {
      assert a + b == b;
    }
  }

  /** A prefix of the replaced text that avoids the replacement's first character
      was already a prefix of the original text. */
  lemma {:induction false} ReplacePrefix(t: string, pat: string, rep: string, q: string)
    requires |pat| > 0 && |rep| > 0 && rep[0] !in q
    ensures HasPrefix(ReplaceAll(t, pat, rep), q) ==> HasPrefix(t, q)
  {
    if |t| > 0 && |q| > 0 {
      if HasPrefix(t, pat) {
        assert ReplaceAll(t, pat, rep)[0] == rep[0];
      } else {
        var tail := ReplaceAll(t[1..], pat, rep);
        assert ReplaceAll(t, pat, rep) == [t[0]] + tail;
        PrefixCons(t[0], tail, q);
        PrefixCons(t[0], t[1..], q);
        assert t == [t[0]] + t[1..];
        ReplacePrefix(t[1..], pat, rep, q[1..]);
      }
    }
  }

  /** Replacing pat by text that cannot start or end up inside q never creates q. */
  lemma {:induction false} ReplaceKeepsAbsent(t: string, pat: string, rep: string, q: string)
    requires |pat| > 0 && |rep| > 0 && |q| > 0 && rep[0] !in q && q[0] !in rep
    requires !Contains(t, q)
    ensures !Contains(ReplaceAll(t, pat, rep), q)
  {
    if |t| > 0 {
      if HasPrefix(t, pat) {
        ContainsSuffix(t, |pat|, q);
        ReplaceKeepsAbsent(t[|pat|..], pat, rep, q);
        ContainsAfter(rep, ReplaceAll(t[|pat|..], pat, rep), q);
      } else {
        var tail := ReplaceAll(t[1..], pat, rep);
        assert ReplaceAll(t, pat, rep) == [t[0]] + tail;
        ContainsSuffix(t, 1, q);
        ReplaceKeepsAbsent(t[1..], pat, rep, q);
        ReplacePrefix(t[1..], pat, rep, q[1..]);
        PrefixCons(t[0], tail, q);
        PrefixCons(t[0], t[1..], q);
        assert t == [t[0]] + t[1..];
      }
    }
  }

  /** When rep shares no first character with pat, no occurrence of pat survives. */
  lemma {:induction false} ReplaceRemoves(t: string, pat: string, rep: string)
    requires |pat| > 0 && |rep| > 0 && rep[0] !in pat && pat[0] !in rep
    ensures !Contains(ReplaceAll(t, pat, rep), pat)
  {
    if |t| > 0 {
      if HasPrefix(t, pat) {
        ReplaceRemoves(t[|pat|..], pat, rep);
        ContainsAfter(rep, ReplaceAll(t[|pat|..], pat, rep), pat);
      } else {
        var tail := ReplaceAll(t[1..], pat, rep);
        assert ReplaceAll(t, pat, rep) == [t[0]] + tail;
        ReplaceRemoves(t[1..], pat, rep);
        ReplacePrefix(t[1..], pat, rep, pat[1..]);
        PrefixCons(t[0], tail, pat);
        PrefixCons(t[0], t[1..], pat);
        assert t == [t[0]] + t[1..];
      }
    }
  }

  /** Text without an occurrence of pat is returned as it is. */
  lemma {:induction false} ReplaceAbsentUnchanged(t: string, pat: string, rep: string)
    requires |pat| > 0 && !Contains(t, pat)
    ensures ReplaceAll(t, pat, rep) == t
  {
    if |t| > 0 {
      ReplaceAbsentUnchanged(t[1..], pat, rep);
      assert t == [t[0]] + t[1..];
    }
  }

  /** A replacement no longer than pat never lengthens the text, and a
      shorter one shortens it exactly when pat occurs in it. */
  lemma {:induction false} ReplaceShortens(t: string, pat: string, rep: string)
    requires 0 < |rep| <= |pat|
    ensures |ReplaceAll(t, pat, rep)| <= |t|
    ensures |rep| < |pat| && Contains(t, pat) ==> |ReplaceAll(t, pat, rep)| < |t|
    ensures |rep| < |pat| && |ReplaceAll(t, pat, rep)| < |t| ==> Contains(t, pat)
  {
    if !Contains(t, pat) {
      ReplaceAbsentUnchanged(t, pat, rep);
    }
    if |t| > 0 {
      if HasPrefix(t, pat) {
        ReplaceShortens(t[|pat|..], pat, rep);
      } else {
        ReplaceShortens(t[1..], pat, rep);
      }
    }
  }

  /** Undoing a replacement of the character c by e: when e starts with a
      character found nowhere else in it and e does not already occur in t,
      replacing e by c afterwards restores t. */
  lemma {:induction false} ReplaceUndone(t: string, c: char, e: string)
    requires |e| > 0 && e[0] !in e[1..]
    requires !Contains(t, e)
    ensures ReplaceAll(ReplaceAll(t, [c], e), e, [c]) == t
  {
    if |t| > 0 {
      ContainsSuffix(t, 1, e);
      ReplaceUndone(t[1..], c, e);
      var x := ReplaceAll(t[1..], [c], e);
      if HasPrefix(t, [c]) {
        assert t == [c] + t[1..];
        assert ReplaceAll(t, [c], e) == e + x;
        assert HasPrefix(e + x, e) && (e + x)[|e|..] == x;
      } else {
        var y := [t[0]] + x;
        assert ReplaceAll(t, [c], e) == y;
        ReplacePrefix(t[1..], [c], e, e[1..]);
        PrefixCons(t[0], x, e);
        PrefixCons(t[0], t[1..], e);
        assert t == [t[0]] + t[1..];
        assert y[1..] == x;
      }
    }
  }

  /** The leading characters String.trim drops: those at or below U+0020. */
  function TrimStart(s: string): (r: string)
    ensures |r| <= |s|
    ensures r == s[|s| - |r|..]
    ensures forall i :: 0 <= i < |s| - |r| ==> s[i] <= ' '
    ensures |r| > 0 ==> r[0] > ' '
  {
    if |s| > 0 && s[0] <= ' ' then TrimStart(s[1..]) else s
  }

  /** The trailing characters String.trim drops. */
  function TrimEnd(s: string): (r: string)
    ensures |r| <= |s|
    ensures r == s[..|r|]
    ensures forall i :: |r| <= i < |s| ==> s[i] <= ' '
    ensures |r| > 0 ==> r[|r| - 1] > ' '
  {
    if |s| > 0 && s[|s| - 1] <= ' ' then TrimEnd(s[..|s| - 1]) else s
  }

  /** s.trim(): what is left has no character at or below U+0020 at either
      end, and text that already has none there is kept whole. */
  function Trim(s: string): (r: string)
    ensures |r| <= |s|
    ensures |r| > 0 ==> r[0] > ' ' && r[|r| - 1] > ' '
    ensures |s| > 0 && s[0] > ' ' && s[|s| - 1] > ' ' ==> r == s
  {
    TrimEnd(TrimStart(s))
  }
}
