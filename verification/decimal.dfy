/** The text handling the guessing loop relies on: `str::trim`, which strips
    surrounding whitespace from the line read, `u32::from_str`, which turns the
    trimmed text into a guess, and the `{}` formatting of a `u32`, which is how a
    guess is echoed back. */
module Decimal {

  datatype Option<+T> = None | Some(value: T)

  const U32_MAX: nat := 0xFFFF_FFFF

  /** Rust's `u32`. */
  type U32 = n: nat | n <= 0xFFFF_FFFF

  // ---------------------------------------------------------------------------
  // str::trim
  // ---------------------------------------------------------------------------

  /** `char::is_whitespace`: the characters with the Unicode White_Space property. */
  predicate IsWhitespace(c: char) {
    var k := c as int;
    || k == 0x20 || 0x09 <= k <= 0x0D
    || k == 0x85 || k == 0xA0 || k == 0x1680
    || 0x2000 <= k <= 0x200A
    || k == 0x2028 || k == 0x2029 || k == 0x202F || k == 0x205F || k == 0x3000
  }

  /** Every character of `s[lo..hi]` is whitespace. */
  predicate WhitespaceSpan(s: string, lo: nat, hi: nat)
    requires lo <= hi <= |s|
  {
    forall k :: lo <= k < hi ==> IsWhitespace(s[k])
  }

  predicate AllWhitespace(s: string) {
    WhitespaceSpan(s, 0, |s|)
  }

  /** True when `s` has no whitespace at either end (the empty text included). */
  predicate Unpadded(s: string) {
    s == [] || (!IsWhitespace(s[0]) && !IsWhitespace(s[|s| - 1]))
  }

  /** The forward search of `trim`: the index of the first character at or after
      `from` that is not whitespace, or `|s|` when there is none. */
  function SkipForward(s: string, from: nat): (i: nat)
    requires from <= |s|
    ensures from <= i <= |s|
    ensures WhitespaceSpan(s, from, i)
    ensures i < |s| ==> !IsWhitespace(s[i])
    decreases |s| - from
  {
    if from < |s| && IsWhitespace(s[from]) then SkipForward(s, from + 1) else from
  }

  /** The backward search of `trim`: the index just past the last character
      before `to` that is not whitespace, or 0 when there is none. */
  function SkipBackward(s: string, to: nat): (j: nat)
    requires to <= |s|
    ensures j <= to
    ensures WhitespaceSpan(s, j, to)
    ensures 0 < j ==> !IsWhitespace(s[j - 1])
  {
    if 0 < to && IsWhitespace(s[to - 1]) then SkipBackward(s, to - 1) else to
  }

  /** `str::trim`: the slice from the first to the last character that is not
      whitespace, or the empty text when every character is whitespace. What is
      left has no whitespace at either end; TrimSplit shows that only whitespace
      is removed. */
  function Trim(s: string): (r: string)
    ensures |r| <= |s|
    ensures Unpadded(r)
  {
    var i := SkipForward(s, 0);
    if i == |s| then [] else s[i..SkipBackward(s, |s|)]
  }

  /** A line is its trimmed text with whitespace on either side. */
  lemma TrimSplit(s: string) returns (pre: string, post: string)
    ensures AllWhitespace(pre) && AllWhitespace(post)
    ensures s == pre + Trim(s) + post
  {
    var i := SkipForward(s, 0);
    if i == |s| {
      pre, post := s, [];
      assert s == pre + [] + post;
    } else {
      var j := SkipBackward(s, |s|);
      pre, post := s[..i], s[j..];
      assert AllWhitespace(pre) by {
        forall k | 0 <= k < |pre| ensures IsWhitespace(pre[k]) {
          assert pre[k] == s[k];
        }
      }
      assert AllWhitespace(post) by {
        forall k | 0 <= k < |post| ensures IsWhitespace(post[k]) {
          assert post[k] == s[j + k];
        }
      }
      assert s == pre + s[i..j] + post;
    }
  }

  // ---------------------------------------------------------------------------
  // u32::from_str
  // ---------------------------------------------------------------------------

  predicate IsDigit(c: char) {
    '0' <= c <= '9'
  }

  predicate AllDigits(s: string) {
    forall k :: 0 <= k < |s| ==> IsDigit(s[k])
  }

  function DigitValue(c: char): (d: nat)
    requires IsDigit(c)
    ensures d < 10
  {
    (c as int) - ('0' as int)
  }

  function DigitChar(d: nat): (c: char)
    requires d < 10
    ensures IsDigit(c) && DigitValue(c) == d
  {
    (('0' as int) + d) as char
  }

  /** The mathematical value of the decimal numeral `acc` followed by the digits
      of `s`, without any width limit. */
  function Fold(acc: nat, s: string): (r: nat)
    requires AllDigits(s)
    ensures acc <= r
    decreases |s|
  {
    if s == [] then acc else Fold(acc * 10 + DigitValue(s[0]), s[1..])
  }

  /** The value of a decimal numeral. */
  function Value(s: string): nat
    requires AllDigits(s)
  {
    Fold(0, s)
  }

  /** The digit loop of `u32::from_str_radix` for radix 10: each character must be
      an ASCII digit, and `checked_mul(10)` then `checked_add(digit)` must stay
      within `u32`; either failure aborts the parse. The loop is equal to the
      unbounded fold when, and only when, that fold fits in 32 bits. */
  function Accumulate(acc: U32, s: string): (r: Option<U32>)
    ensures r.Some? <==> AllDigits(s) && Fold(acc, s) <= U32_MAX
    ensures r.Some? ==> r.value == Fold(acc, s)
    decreases |s|
  {
    if s == [] then Some(acc)
    else if !IsDigit(s[0]) then None
    else if acc * 10 > U32_MAX then None
    else if acc * 10 + DigitValue(s[0]) > U32_MAX then None
    else Accumulate(acc * 10 + DigitValue(s[0]), s[1..])
  }

  /** The digits of `t` once an optional leading `+` is set aside. */
  function Unsigned(t: string): (d: string)
    ensures d == t || (t != [] && t[0] == '+' && d == t[1..])
  {
    if t != [] && t[0] == '+' then t[1..] else t
  }

  /** What `u32::from_str` accepts: an optional `+`, then at least one ASCII
      digit, with a value of at most 4294967295. */
  predicate IsU32Literal(t: string) {
    var d := Unsigned(t);
    d != [] && AllDigits(d) && Value(d) <= U32_MAX
  }

  /** `u32::from_str` with the error kind discarded: the empty text is rejected,
      so is a lone sign; a leading `+` is skipped (a `-` is never accepted, since
      the type is unsigned) and the rest goes through the digit loop. */
  function FromStr(t: string): (r: Option<U32>)
    ensures r.Some? <==> IsU32Literal(t)
    ensures r.Some? ==> r.value == Value(Unsigned(t))
  {
    if t == [] then None
    else if t == "+" || t == "-" then None
    else if t[0] == '+' then Accumulate(0, t[1..])
    else Accumulate(0, t)
  }

  /** `line.trim().parse::<u32>()` with the error kind discarded. */
  function ParseU32(line: string): (r: Option<U32>)
    ensures r.Some? <==> IsU32Literal(Trim(line))
    ensures r.Some? ==> r.value == Value(Unsigned(Trim(line)))
  {
    FromStr(Trim(line))
  }

  // ---------------------------------------------------------------------------
  // Display for u32
  // ---------------------------------------------------------------------------

  /** The `{}` rendering of an unsigned integer: its decimal digits, with no
      sign and no leading zero. */
  function Format(n: nat): (s: string)
    ensures s != [] && AllDigits(s)
    ensures s[0] == '0' ==> n == 0 && s == "0"
  {
    if n < 10 then [DigitChar(n)] else Format(n / 10) + [DigitChar(n % 10)]
  }

  // ---------------------------------------------------------------------------
  // Properties
  // ---------------------------------------------------------------------------

  lemma WhitespaceJoins(a: string, b: string)
    requires AllWhitespace(a) && AllWhitespace(b)
    ensures AllWhitespace(a + b)
  {
  }

  /** Trimming strips exactly the padding: whitespace around unpadded text. */
  lemma TrimUnwraps(pre: string, mid: string, post: string)
    requires AllWhitespace(pre) && AllWhitespace(post) && Unpadded(mid)
    ensures Trim(pre + mid + post) == mid
  {
    var s := pre + mid + post;
    var i := SkipForward(s, 0);
    if mid == [] {
      assert s == pre + post;
    } else {
      var lo, hi := |pre|, |pre| + |mid|;
      assert s[lo] == mid[0] && s[hi - 1] == mid[|mid| - 1];
      assert i == lo;
      var j := SkipBackward(s, |s|);
      assert j == hi;
      assert s[lo..hi] == mid;
    }
  }

  /** Trimming twice is trimming once. */
  lemma TrimIdempotent(s: string)
    ensures Trim(Trim(s)) == Trim(s)
  {
  }

  /** Extra whitespace around a line does not change what it trims to. */
  lemma TrimIgnoresPadding(pre: string, s: string, post: string)
    requires AllWhitespace(pre) && AllWhitespace(post)
    ensures Trim(pre + s + post) == Trim(s)
  {
    var t := Trim(s);
    var a, b := TrimSplit(s);
    assert AllWhitespace(pre + a) && AllWhitespace(b + post) by {
      WhitespaceJoins(pre, a);
      WhitespaceJoins(b, post);
    }
    assert pre + s + post == (pre + a) + t + (b + post);
    TrimUnwraps(pre + a, t, b + post);
  }

  /** The line terminator and any other surrounding whitespace do not affect
      the parse: a line parses as its trimmed text does, and as any re-padding
      of it does. */
  lemma ParseIgnoresPadding(pre: string, line: string, post: string)
    requires AllWhitespace(pre) && AllWhitespace(post)
    ensures ParseU32(pre + line + post) == ParseU32(line)
    ensures ParseU32(Trim(line)) == ParseU32(line)
  {
    TrimIgnoresPadding(pre, line, post);
    TrimIdempotent(line);
  }

  /** A blank line, the empty line read at end of input included, is rejected. */
  lemma BlankRejected(line: string)
    requires AllWhitespace(line)
    ensures ParseU32(line) == None
  {
  }

  /** A character that is neither a digit nor a leading `+` makes the parse fail:
      a `-` sign, a decimal point, a letter, inner whitespace. */
  lemma StrayCharRejected(t: string, k: nat)
    requires k < |t| && !IsDigit(t[k]) && !(k == 0 && t[k] == '+')
    ensures FromStr(t) == None
  {
  }

  /** Appending a digit to a numeral multiplies its value by ten and adds the digit. */
  lemma {:induction false} FoldSnoc(acc: nat, s: string, c: char)
    requires AllDigits(s) && IsDigit(c)
    ensures AllDigits(s + [c])
    ensures Fold(acc, s + [c]) == Fold(acc, s) * 10 + DigitValue(c)
    decreases |s|
  {
    if s != [] {
      assert (s + [c])[1..] == s[1..] + [c];
      FoldSnoc(acc * 10 + DigitValue(s[0]), s[1..], c);
    } else {
      assert s + [c] == [c];
    }
  }

  /** Reading back the `{}` rendering of a number gives the number. */
  lemma {:induction false} ValueOfFormat(n: nat)
    ensures Value(Format(n)) == n
  {
    if n >= 10 {
      var c := DigitChar(n % 10);
      assert Format(n) == Format(n / 10) + [c];
      ValueOfFormat(n / 10);
      FoldSnoc(0, Format(n / 10), c);
    } else {
      var c := DigitChar(n);
      assert Format(n) == [c];
      assert [c][1..] == [];
      assert Fold(0, [c]) == Fold(DigitValue(c), []);
    }
  }

  /** Leading zeros do not change the value of a numeral. */
  lemma {:induction false} FoldSkipsZeros(z: string, s: string)
    requires forall k :: 0 <= k < |z| ==> z[k] == '0'
    requires AllDigits(s)
    ensures AllDigits(z + s) && Fold(0, z + s) == Fold(0, s)
    decreases |z|
  {
    if z != [] {
      assert (z + s)[1..] == z[1..] + s;
      FoldSkipsZeros(z[1..], s);
    } else {
      assert z + s == s;
    }
  }

  /** Round trip: a line holding the echoed form of a `u32`, however padded,
      parses back to that number. */
  lemma ParseFormatted(pre: string, n: U32, post: string)
    requires AllWhitespace(pre) && AllWhitespace(post)
    ensures ParseU32(pre + Format(n) + post) == Some(n)
  {
    var f := Format(n);
    TrimUnwraps(pre, f, post);
    ValueOfFormat(n);
  }

  /** `parse::<u32>` also accepts a leading `+` and leading zeros. */
  lemma SignAndZerosAccepted(plus: bool, zeros: nat, n: U32)
    ensures var z := seq(zeros, _ => '0');
      FromStr((if plus then "+" else "") + z + Format(n)) == Some(n)
  {
    var z := seq(zeros, _ => '0');
    var u := z + Format(n);
    assert Value(u) == n && AllDigits(u) by {
      FoldSkipsZeros(z, Format(n));
      ValueOfFormat(n);
    }
    assert u[0] != '+' by {
      if zeros == 0 {
        assert u == Format(n);
      } else {
        assert u[0] == z[0];
      }
    }
    var t := (if plus then "+" else "") + u;
    assert Unsigned(t) == u by {
      if plus {
        assert t[0] == '+' && t[1..] == u;
      } else {
        assert t == u;
      }
    }
    assert t == (if plus then "+" else "") + z + Format(n);
    assert IsU32Literal(t);
  }

  /** Concrete lines: a guess with its line terminator is accepted; a decimal
      fraction, a negative number and the empty line read at end of input are
      rejected. */
  lemma AcceptsTerminatedGuess()
    ensures ParseU32("42\n") == Some(42)
  {
    assert Format(42) == "42";
    assert "" + "42" + "\n" == "42\n";
    ParseFormatted("", 42, "\n");
  }

  lemma RejectsFraction()
    ensures ParseU32("12.5\n") == None
  {
    assert Trim("12.5\n") == "12.5" by {
      assert "" + "12.5" + "\n" == "12.5\n";
      TrimUnwraps("", "12.5", "\n");
    }
    StrayCharRejected("12.5", 2);
  }

  lemma RejectsNegative()
    ensures ParseU32("-3\n") == None
  {
    assert Trim("-3\n") == "-3" by {
      assert "" + "-3" + "\n" == "-3\n";
      TrimUnwraps("", "-3", "\n");
    }
    StrayCharRejected("-3", 0);
  }
}
