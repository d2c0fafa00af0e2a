/**
 * The few Python string built-ins the application relies on:
 * `str.strip()`, `str.lstrip(c)`, `str.lower()`, `int(str)` and the
 * decimal rendering of a natural number.
 */
module Text {
  import opened Wrappers

  /** Python's `str.isspace()` on one character (the characters `str.strip()` removes). */
  predicate IsSpace(c: char)
  {
    var n := c as int;
    (9 <= n <= 13) || (28 <= n <= 32) || n == 0x85 || n == 0xA0 || n == 0x1680 ||
    (0x2000 <= n <= 0x200A) || n == 0x2028 || n == 0x2029 || n == 0x202F ||
    n == 0x205F || n == 0x3000
  }

  /**
   * The whitespace `int()` skips around a literal. Below 128 it is only tab,
   * line feed, vertical tab, form feed, carriage return and space: the
   * separators U+001C..U+001F count for `str.strip()` but not for `int()`.
   */
  predicate IsIntSpace(c: char)
  {
    IsSpace(c) && !(28 <= c as int <= 31)
  }

  /** Every character of `s` is in the set `sp`. */
  predicate AllIn(s: string, sp: char -> bool)
  {
    forall i :: 0 <= i < |s| ==> sp(s[i])
  }

  predicate AllSpace(s: string)
  {
    AllIn(s, IsSpace)
  }

  /** The first index at or after `lo` whose character is not in `sp` (`|s|` when there is none). */
  function SkipSpaces(s: string, lo: nat, sp: char -> bool): (n: nat)
    requires lo <= |s|
    ensures lo <= n <= |s|
    ensures forall k :: lo <= k < n ==> sp(s[k])
    ensures n < |s| ==> !sp(s[n])
    decreases |s| - lo
  {
    if lo == |s| || !sp(s[lo]) then lo else SkipSpaces(s, lo + 1, sp)
  }

  /** The end of `s[lo..hi]` once its trailing characters in `sp` are cut off. */
  function TrimEnd(s: string, lo: nat, hi: nat, sp: char -> bool): (m: nat)
    requires lo <= hi <= |s|
    ensures lo <= m <= hi
    ensures forall k :: m <= k < hi ==> sp(s[k])
    ensures m > lo ==> !sp(s[m - 1])
    decreases hi
  {
    if hi == lo || !sp(s[hi - 1]) then hi else TrimEnd(s, lo, hi - 1, sp)
  }

  /** Any index with the two properties of `SkipSpaces` is the one it returns. */
  lemma SkipSpacesUnique(s: string, lo: nat, n: nat, sp: char -> bool)
    requires lo <= n <= |s|
    requires forall k :: lo <= k < n ==> sp(s[k])
    requires n < |s| ==> !sp(s[n])
    ensures SkipSpaces(s, lo, sp) == n
  {
  }

  /** Any index with the two properties of `TrimEnd` is the one it returns. */
  lemma TrimEndUnique(s: string, lo: nat, hi: nat, m: nat, sp: char -> bool)
    requires lo <= m <= hi <= |s|
    requires forall k :: m <= k < hi ==> sp(s[k])
    requires m > lo ==> !sp(s[m - 1])
    ensures TrimEnd(s, lo, hi, sp) == m
  {
  }

  /**
   * `s` without the characters of `sp` at either end: the part that starts
   * at its first character outside `sp` and ends at its last one, with only
   * characters of `sp` around it.
   */
  function StripBy(s: string, sp: char -> bool): (r: string)
    ensures var i := SkipSpaces(s, 0, sp);
      && i + |r| <= |s| && r == s[i..i + |r|]
      && (forall k :: 0 <= k < i ==> sp(s[k]))
      && (forall k :: i + |r| <= k < |s| ==> sp(s[k]))
    ensures r == [] || (!sp(r[0]) && !sp(r[|r| - 1]))
    ensures r == [] <==> AllIn(s, sp)
  {
    var i := SkipSpaces(s, 0, sp);
    s[i..TrimEnd(s, i, |s|, sp)]
  }

  /** The conditions in StripBy's contract pin down its result. */
  lemma StripByUnique(pre: string, core: string, post: string, sp: char -> bool)
    requires AllIn(pre, sp) && AllIn(post, sp)
    requires core == [] || (!sp(core[0]) && !sp(core[|core| - 1]))
    ensures StripBy(pre + core + post, sp) == core
  {
    var s := pre + core + post;
    if core == [] {
      assert forall k :: 0 <= k < |s| ==> sp(s[k]) by {
        forall k | 0 <= k < |s| ensures sp(s[k]) {
          if k < |pre| { assert s[k] == pre[k]; } else { assert s[k] == post[k - |pre|]; }
        }
      }
      SkipSpacesUnique(s, 0, |s|, sp);
      TrimEndUnique(s, |s|, |s|, |s|, sp);
    } else {
      var i, m := |pre|, |pre| + |core|;
      assert s[i] == core[0] && s[m - 1] == core[|core| - 1];
      assert forall k :: 0 <= k < i ==> sp(s[k]) by {
        forall k | 0 <= k < i ensures sp(s[k]) { assert s[k] == pre[k]; }
      }
      assert forall k :: m <= k < |s| ==> sp(s[k]) by {
        forall k | m <= k < |s| ensures sp(s[k]) { assert s[k] == post[k - m]; }
      }
      SkipSpacesUnique(s, 0, i, sp);
      TrimEndUnique(s, i, |s|, m, sp);
      assert s[i..m] == core;
    }
  }

  /** Python's `s.strip()`: `s` without the whitespace of `str.isspace()` at either end. */
  function Strip(s: string): (r: string)
    ensures var i := SkipSpaces(s, 0, IsSpace);
      && i + |r| <= |s| && r == s[i..i + |r|]
      && (forall k :: 0 <= k < i ==> IsSpace(s[k]))
      && (forall k :: i + |r| <= k < |s| ==> IsSpace(s[k]))
    ensures r == [] || (!IsSpace(r[0]) && !IsSpace(r[|r| - 1]))
    ensures r == [] <==> AllSpace(s)
  {
    StripBy(s, IsSpace)
  }

  /** Stripping whitespace from around a core with non-space ends gives back exactly that core. */
  lemma StripUnique(pre: string, core: string, post: string)
    requires AllSpace(pre) && AllSpace(post)
    requires core == [] || (!IsSpace(core[0]) && !IsSpace(core[|core| - 1]))
    ensures Strip(pre + core + post) == core
  {
    StripByUnique(pre, core, post, IsSpace);
  }

  lemma StripIdempotent(s: string)
    ensures Strip(Strip(s)) == Strip(s)
  {
    var r := Strip(s);
    assert [] + r + [] == r;
    StripUnique([], r, []);
  }

  /** Python's `s.strip() or None`: the stripped text, or `None` when nothing is left. */
  function StripOrNone(s: string): (r: Option<string>)
    ensures r == None <==> AllSpace(s)
    ensures r.Some? ==> r.value == Strip(s) && r.value != []
  {
    var t := Strip(s);
    if t == [] then None else Some(t)
  }

  /** Python's `s.lstrip(c)` for a one-character argument. */
  function LStripChar(s: string, c: char): (r: string)
    ensures |r| <= |s| && s[|s| - |r|..] == r
    ensures forall i :: 0 <= i < |s| - |r| ==> s[i] == c
    ensures r == [] || r[0] != c
  {
    if |s| > 0 && s[0] == c then LStripChar(s[1..], c) else s
  }

  predicate IsDigit(c: char)
  {
    '0' <= c <= '9'
  }

  predicate AllDigits(s: string)
  {
    forall i :: 0 <= i < |s| ==> IsDigit(s[i])
  }

  function DigitValue(c: char): (d: nat)
    requires IsDigit(c)
    ensures d < 10
  {
    (c as int) - ('0' as int)
  }

  function DigitChar(d: nat): (c: char)
    requires d < 10
    ensures IsDigit(c) && DigitValue(c) == d
  {
    (('0' as int) + d) as char
  }

  /** The value of a string of decimal digits, leading zeros allowed (`int("007") == 7`). */
  function DecimalValue(s: string): nat
    requires AllDigits(s)
  {
    if s == [] then 0 else 10 * DecimalValue(s[..|s| - 1]) + DigitValue(s[|s| - 1])
  }

  /** Appending a digit multiplies the value by ten and adds the digit. */
  lemma DecimalValueSnoc(s: string, c: char)
    requires AllDigits(s) && IsDigit(c)
    ensures AllDigits(s + [c]) && DecimalValue(s + [c]) == 10 * DecimalValue(s) + DigitValue(c)
  {
    assert (s + [c])[..|s|] == s;
  }

  /** The value of the first ten digits of `TwoToSixtyThree`. */
  lemma TwoToSixtyThreeHigh()
    ensures DecimalValue("9223372036") == 9223372036
  {
    var p: string := "9";
    DecimalValueSnoc(p, '2'); p := p + ['2'];
    assert DecimalValue(p) == 92;
    DecimalValueSnoc(p, '2'); p := p + ['2'];
    assert DecimalValue(p) == 922;
    DecimalValueSnoc(p, '3'); p := p + ['3'];
    assert DecimalValue(p) == 9223;
    DecimalValueSnoc(p, '3'); p := p + ['3'];
    assert DecimalValue(p) == 92233;
    DecimalValueSnoc(p, '7'); p := p + ['7'];
    assert DecimalValue(p) == 922337;
    DecimalValueSnoc(p, '2'); p := p + ['2'];
    assert DecimalValue(p) == 9223372;
    DecimalValueSnoc(p, '0'); p := p + ['0'];
    assert DecimalValue(p) == 92233720;
    DecimalValueSnoc(p, '3'); p := p + ['3'];
    assert DecimalValue(p) == 922337203;
    DecimalValueSnoc(p, '6'); p := p + ['6'];
    assert DecimalValue(p) == 9223372036;
    assert p == "9223372036";
  }

  /** The digits of 2 to the 63rd, one more than the largest 64-bit integer. */
  lemma TwoToSixtyThree()
    ensures AllDigits("9223372036854775808") && DecimalValue("9223372036854775808") == 9223372036854775808
  {
    TwoToSixtyThreeHigh();
    var p: string := "9223372036";
    DecimalValueSnoc(p, '8'); p := p + ['8'];
    assert DecimalValue(p) == 92233720368;
    DecimalValueSnoc(p, '5'); p := p + ['5'];
    assert DecimalValue(p) == 922337203685;
    DecimalValueSnoc(p, '4'); p := p + ['4'];
    assert DecimalValue(p) == 9223372036854;
    DecimalValueSnoc(p, '7'); p := p + ['7'];
    assert DecimalValue(p) == 92233720368547;
    DecimalValueSnoc(p, '7'); p := p + ['7'];
    assert DecimalValue(p) == 922337203685477;
    DecimalValueSnoc(p, '5'); p := p + ['5'];
    assert DecimalValue(p) == 9223372036854775;
    DecimalValueSnoc(p, '8'); p := p + ['8'];
    assert DecimalValue(p) == 92233720368547758;
    DecimalValueSnoc(p, '0'); p := p + ['0'];
    assert DecimalValue(p) == 922337203685477580;
    DecimalValueSnoc(p, '8'); p := p + ['8'];
    assert DecimalValue(p) == 9223372036854775808;
    assert p == "9223372036854775808";
  }

  /**
   * The most digits `int()` reads from a decimal string, and `str()` writes
   * for an integer (`sys.int_info.default_max_str_digits`); a longer
   * literal raises ValueError.
   */
  const MaxStrDigits: nat := 4300

  /** The decimal rendering of a natural number: its digits without leading zeros, as `str(n)` writes it. */
  function NatToString(n: nat): (s: string)
    ensures |s| > 0 && AllDigits(s)
    ensures |s| > 1 ==> s[0] != '0'
  {
    if n < 10 then [DigitChar(n)] else NatToString(n / 10) + [DigitChar(n % 10)]
  }

  /** `n` has at most `MaxStrDigits` digits, so `str(n)` and `int()` of its rendering do not raise. */
  predicate WithinStrDigits(n: nat)
  {
    |NatToString(n)| <= MaxStrDigits
  }

  /** A single digit renders as one character. */
  lemma SmallWithinStrDigits(xs: seq<nat>)
    requires forall i :: 0 <= i < |xs| ==> xs[i] < 10
    ensures forall i :: 0 <= i < |xs| ==> WithinStrDigits(xs[i])
  {
  }

  lemma {:induction false} DecimalValueOfNatToString(n: nat)
    ensures DecimalValue(NatToString(n)) == n
  {
    if n >= 10 {
      var s := NatToString(n);
      DecimalValueOfNatToString(n / 10);
      assert s[..|s| - 1] == NatToString(n / 10);
    }
  }

  /** The body of a decimal integer literal: digits, with single underscores between digits. */
  predicate ValidDigitBody(s: string)
  {
    |s| > 0 && IsDigit(s[0]) && IsDigit(s[|s| - 1]) &&
    (forall i :: 0 <= i < |s| ==> IsDigit(s[i]) || s[i] == '_') &&
    (forall i :: 0 <= i < |s| - 1 ==> !(s[i] == '_' && s[i + 1] == '_'))
  }

  /** A digit body `int()` accepts: well formed and at most `MaxStrDigits` digits once the underscores are gone. */
  predicate ValidNumeral(s: string)
  {
    ValidDigitBody(s) && |WithoutUnderscores(s)| <= MaxStrDigits
  }

  function WithoutUnderscores(s: string): (r: string)
    requires forall i :: 0 <= i < |s| ==> IsDigit(s[i]) || s[i] == '_'
    ensures AllDigits(r)
    ensures AllDigits(s) ==> r == s
  {
    if s == [] then []
    else if s[0] == '_' then WithoutUnderscores(s[1..])
    else [s[0]] + WithoutUnderscores(s[1..])
  }

  /**
   * Python's `int(s)` on a string: the whitespace `int()` skips is ignored
   * around the literal, then an optional sign and at most `MaxStrDigits`
   * digits. `None` stands for the ValueError.
   */
  function ParseInt(s: string): (r: Option<int>)
    ensures AllDigits(s) && 0 < |s| <= MaxStrDigits ==> r == Some(DecimalValue(s))
    ensures AllDigits(s) && |s| > MaxStrDigits ==> r == None
    ensures AllIn(s, IsIntSpace) ==> r == None
    ensures (exists i :: 0 <= i < |s| && !NumeralChar(s[i]) && !IsIntSpace(s[i])) ==> r == None
  {
    var t := StripBy(s, IsIntSpace);
    assert AllDigits(s) && s != [] ==> t == s by {
      if AllDigits(s) && s != [] {
        StripOfDigits(s);
      }
    }
    assert (exists i :: 0 <= i < |s| && !NumeralChar(s[i]) && !IsIntSpace(s[i])) ==>
        exists j :: 0 <= j < |t| && !NumeralChar(t[j]) by {
      if exists i :: 0 <= i < |s| && !NumeralChar(s[i]) && !IsIntSpace(s[i]) {
        var i :| 0 <= i < |s| && !NumeralChar(s[i]) && !IsIntSpace(s[i]);
        var lo := SkipSpaces(s, 0, IsIntSpace);
        assert t[i - lo] == s[i];
      }
    }
    ParseSigned(t)
  }

  /** `int()` ignores the whitespace it skips around the literal. */
  lemma ParseIntPadded(pre: string, t: string, post: string)
    requires AllIn(pre, IsIntSpace) && AllIn(post, IsIntSpace)
    requires t != [] && !IsIntSpace(t[0]) && !IsIntSpace(t[|t| - 1])
    ensures ParseInt(pre + t + post) == ParseSigned(t)
  {
    StripByUnique(pre, t, post, IsIntSpace);
  }

  /** `int(" -1_000 ")` is -1000. */
  lemma ParseIntExample()
    ensures ParseInt(" -1_000 ") == Some(-1000)
  {
    assert " -1_000 " == " " + "-1_000" + " ";
    ParseIntPadded(" ", "-1_000", " ");
    assert "-1_000"[1..] == "1_000";
    DigitGroupsExample();
  }

  lemma DigitGroupsExample()
    ensures ValidNumeral("1_000") && DecimalValue(WithoutUnderscores("1_000")) == 1000
  {
    DigitGroupsBody();
    DigitGroupsValue();
  }

  lemma DigitGroupsBody()
    ensures ValidDigitBody("1_000") && WithoutUnderscores("1_000") == "1000"
  {
    var s := "1_000";
    assert s == ['1', '_', '0', '0', '0'];
    assert s[1..] == "_000" && s[1..][1..] == "000";
    assert WithoutUnderscores("000") == "000";
  }

  lemma DigitGroupsValue()
    ensures DecimalValue("1000") == 1000
  {
    assert "1000"[..3] == "100" && "100"[..2] == "10" && "10"[..1] == "1";
  }

  /**
   * A file separator (U+001C) before a digit: `str.strip()` removes it, but
   * `int()` does not skip it and raises.
   */
  lemma SeparatorIsNotIntSpace()
    ensures var s := [28 as char, '5'];
      Strip(s) == "5" && ParseInt(s) == None
  {
    var s := [28 as char, '5'];
    assert s == [28 as char] + "5" + [];
    StripUnique([28 as char], "5", []);
    assert !NumeralChar(s[0]) && !IsIntSpace(s[0]);
  }

  /** `int("1" * 4301)` raises: one digit more than `int()` reads. */
  lemma TooManyDigits()
    ensures ParseInt(seq(MaxStrDigits + 1, _ => '1')) == None
  {
    var s := seq(MaxStrDigits + 1, _ => '1');
    assert AllDigits(s);
  }

  /** A non-empty string of digits has nothing to strip, for either whitespace set. */
  lemma StripOfDigits(s: string)
    requires AllDigits(s) && s != []
    ensures Strip(s) == s && StripBy(s, IsIntSpace) == s
  {
    assert [] + s + [] == s;
    StripUnique([], s, []);
    StripByUnique([], s, [], IsIntSpace);
  }

  /** A character that can occur in an `int()` literal once the whitespace is gone. */
  predicate NumeralChar(c: char)
  {
    IsDigit(c) || c == '_' || c == '+' || c == '-'
  }

  /**
   * `int(t)` once surrounding whitespace is gone: an optional sign, then the
   * digits with single underscores between them, at most `MaxStrDigits` of
   * them (underscores do not count); anything else is a ValueError.
   */
  function ParseSigned(t: string): (r: Option<int>)
    ensures AllDigits(t) && 0 < |t| <= MaxStrDigits ==> r == Some(DecimalValue(t))
    ensures AllDigits(t) && |t| > MaxStrDigits ==> r == None
    ensures ValidNumeral(t) ==> r == Some(DecimalValue(WithoutUnderscores(t)))
    ensures |t| > 0 && t[0] == '+' && ValidNumeral(t[1..]) ==> r == Some(DecimalValue(WithoutUnderscores(t[1..])))
    ensures |t| > 0 && t[0] == '-' && ValidNumeral(t[1..]) ==> r == Some(-(DecimalValue(WithoutUnderscores(t[1..])) as int))
    ensures r.Some? <==> ValidNumeral(t) || (|t| > 0 && (t[0] == '+' || t[0] == '-') && ValidNumeral(t[1..]))
    ensures (exists i :: 0 <= i < |t| && !NumeralChar(t[i])) ==> r == None
  {
    NonNumeralRejected(t);
    if |t| > 0 && t[0] == '-' then
      if ValidNumeral(t[1..]) then Some(-(DecimalValue(WithoutUnderscores(t[1..])) as int)) else None
    else if |t| > 0 && t[0] == '+' then
      if ValidNumeral(t[1..]) then Some(DecimalValue(WithoutUnderscores(t[1..]))) else None
    else
      if ValidNumeral(t) then Some(DecimalValue(WithoutUnderscores(t))) else None
  }

  /** A character outside the numeral alphabet spoils the literal, with or without its sign. */
  lemma NonNumeralRejected(t: string)
    ensures AllDigits(t) && |t| > 0 ==> ValidDigitBody(t)
    ensures (exists i :: 0 <= i < |t| && !NumeralChar(t[i])) ==>
      !ValidDigitBody(t) && (|t| > 0 && (t[0] == '+' || t[0] == '-') ==> !ValidDigitBody(t[1..]))
  {
    if exists i :: 0 <= i < |t| && !NumeralChar(t[i]) {
      var i :| 0 <= i < |t| && !NumeralChar(t[i]);
      if |t| > 0 && (t[0] == '+' || t[0] == '-') {
        assert t[1..][i - 1] == t[i];
      }
    }
  }

  function ToLowerChar(c: char): char
  {
    if 'A' <= c <= 'Z' then ((c as int) + 32) as char else c
  }

  /** Python's `s.lower()` on ASCII letters. */
  function ToLower(s: string): (r: string)
    ensures |r| == |s|
    ensures forall i :: 0 <= i < |s| ==> r[i] == ToLowerChar(s[i])
  {
    seq(|s|, i requires 0 <= i < |s| => ToLowerChar(s[i]))
  }
  /** Python's `sep.join(pieces)` for a one-character separator. */
  function Join(pieces: seq<string>, sep: char): string
  {
    if |pieces| == 0 then ""
    else if |pieces| == 1 then pieces[0]
    else pieces[0] + [sep] + Join(pieces[1..], sep)
  }

  /** Python's `s.split(sep)` for a one-character separator: never empty, pieces free of `sep`. */
  function Split(s: string, sep: char): (r: seq<string>)
    ensures |r| >= 1
    ensures forall i :: 0 <= i < |r| ==> sep !in r[i]
    ensures Join(r, sep) == s
  {
    if s == [] then [[]]
    else
      var rest := Split(s[1..], sep);
      assert s == [s[0]] + s[1..];
      if s[0] == sep then
        assert Join([[]] + rest, sep) == [] + [sep] + Join(rest, sep);
        [[]] + rest
      else
        var r := [[s[0]] + rest[0]] + rest[1..];
        assert r[1..] == rest[1..];
        assert |rest| > 1 ==> Join(rest, sep) == rest[0] + [sep] + Join(rest[1..], sep);
        r
  }

  lemma {:induction false} SplitPrefix(p: string, t: string, sep: char)
    requires sep !in p
    ensures Split(p + t, sep) == [p + Split(t, sep)[0]] + Split(t, sep)[1..]
  {
    var st := Split(t, sep);
    if p != [] {
      assert (p + t)[0] == p[0] && (p + t)[1..] == p[1..] + t;
      SplitPrefix(p[1..], t, sep);
      var rest := Split(p[1..] + t, sep);
      assert rest[0] == p[1..] + st[0] && rest[1..] == st[1..];
      assert [p[0]] + (p[1..] + st[0]) == p + st[0];
    } else {
      assert p + t == t && p + st[0] == st[0];
      assert st == [st[0]] + st[1..];
    }
  }

  /** A character of a joined string other than the separator lies in one of the pieces. */
  lemma {:induction false} PieceOf(pieces: seq<string>, sep: char, i: nat) returns (j: nat, k: nat)
    requires i < |Join(pieces, sep)| && Join(pieces, sep)[i] != sep
    ensures j < |pieces| && k < |pieces[j]| && pieces[j][k] == Join(pieces, sep)[i]
  {
    if |pieces| == 1 {
      j, k := 0, i;
    } else {
      var head, tail := pieces[0], Join(pieces[1..], sep);
      assert Join(pieces, sep) == head + [sep] + tail;
      if i < |head| {
        j, k := 0, i;
      } else {
        assert Join(pieces, sep)[i] == tail[i - |head| - 1];
        var j', k' := PieceOf(pieces[1..], sep, i - |head| - 1);
        j, k := j' + 1, k';
      }
    }
  }

  /** Splitting undoes joining, when no piece holds the separator. */
  lemma {:induction false} SplitJoin(pieces: seq<string>, sep: char)
    requires |pieces| >= 1
    requires forall i :: 0 <= i < |pieces| ==> sep !in pieces[i]
    ensures Split(Join(pieces, sep), sep) == pieces
  {
    if |pieces| == 1 {
      assert pieces[0] + [] == pieces[0];
      SplitPrefix(pieces[0], [], sep);
      assert Split([], sep) == [[]];
    } else {
      var tail := Join(pieces[1..], sep);
      SplitJoin(pieces[1..], sep);
      assert Split([sep] + tail, sep) == [[]] + Split(tail, sep) by {
        assert ([sep] + tail)[1..] == tail;
      }
      assert pieces[0] + [sep] + tail == pieces[0] + ([sep] + tail);
      SplitPrefix(pieces[0], [sep] + tail, sep);
      var st := Split([sep] + tail, sep);
      assert st[0] == [] && st[1..] == pieces[1..];
      assert pieces[0] + st[0] == pieces[0];
      assert Join(pieces, sep) == pieces[0] + [sep] + tail;
      assert pieces == [pieces[0]] + pieces[1..];
    }
  }
}
