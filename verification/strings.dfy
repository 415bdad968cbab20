/** The pieces of Rust's `str` and integer parsing the program relies on:
    `split` on a single character, `trim`, ASCII case mapping, single
    character `replace`, `contains`, and `u8::from_str_radix`. */
module Strings {
  import opened Common

  // ---------------------------------------------------------------------
  // split / join
  // ---------------------------------------------------------------------

  /** Glue `parts` back together with `sep` between neighbours. */
  function Join(parts: seq<string>, sep: char): string
  {
    if |parts| == 0 then ""
    else if |parts| == 1 then parts[0]
    else parts[0] + [sep] + Join(parts[1..], sep)
  }

  /** Number of occurrences of `c` in `s`. */
  function Count(s: string, c: char): nat
  {
    if |s| == 0 then 0 else (if s[0] == c then 1 else 0) + Count(s[1..], c)
  }

  /** `s.split(sep)` collected into a vector: always at least one part, the
      parts never contain `sep`, there is one more part than there are
      separators, and joining the parts gives `s` back. */
  function Split(s: string, sep: char): (parts: seq<string>)
    ensures |parts| == Count(s, sep) + 1
    ensures forall i :: 0 <= i < |parts| ==> sep !in parts[i]
    ensures Join(parts, sep) == s
  {
    if |s| == 0 then [""]
    else
      var rest := Split(s[1..], sep);
      assert s == [s[0]] + s[1..];
      if s[0] == sep then
        var r := [""] + rest;
        assert r[1..] == rest;
        r
      else
        var r := [[s[0]] + rest[0]] + rest[1..];
        assert r[1..] == rest[1..];
        assert |rest| > 1 ==> Join(rest, sep) == rest[0] + [sep] + Join(rest[1..], sep);
        r
  }

  /** Splitting a word that holds no separator, followed by a separator. */
  lemma {:induction false} SplitAfterWord(w: string, t: string, sep: char)
    requires sep !in w
    ensures Split(w + [sep] + t, sep) == [w] + Split(t, sep)
    decreases |w|
  {
    var s := w + [sep] + t;
    if |w| == 0 {
      assert s[1..] == t;
    } else {
      assert s[1..] == w[1..] + [sep] + t;
      SplitAfterWord(w[1..], t, sep);
      assert [w[0]] + w[1..] == w;
    }
  }

  /** A word that holds no separator splits into itself. */
  lemma {:induction false} SplitWord(w: string, sep: char)
    requires sep !in w
    ensures Split(w, sep) == [w]
    decreases |w|
  {
    if |w| > 0 {
      SplitWord(w[1..], sep);
      assert [w[0]] + w[1..] == w;
    }
  }

  /** The other half of the round trip: splitting a join of separator-free
      parts gives the parts back. */
  lemma {:induction false} SplitJoin(parts: seq<string>, sep: char)
    requires |parts| >= 1
    requires forall i :: 0 <= i < |parts| ==> sep !in parts[i]
    ensures Split(Join(parts, sep), sep) == parts
    decreases |parts|
  {
    if |parts| == 1 {
      SplitWord(parts[0], sep);
    } else {
      SplitJoin(parts[1..], sep);
      SplitAfterWord(parts[0], Join(parts[1..], sep), sep);
      assert [parts[0]] + parts[1..] == parts;
    }
  }

  // ---------------------------------------------------------------------
  // trim
  // ---------------------------------------------------------------------

  /** Rust's `char::is_whitespace`: the Unicode White_Space property. */
  predicate IsWhitespace(c: char)
  {
    || ('\t' <= c <= '\r')
    || c == ' '
    || c == '\U{0085}' || c == '\U{00A0}' || c == '\U{1680}'
    || ('\U{2000}' <= c <= '\U{200A}')
    || c == '\U{2028}' || c == '\U{2029}' || c == '\U{202F}'
    || c == '\U{205F}' || c == '\U{3000}'
  }

  /** `str::trim_start`: drops the leading whitespace, and only that. */
  function TrimStart(s: string): (r: string)
    ensures |r| <= |s| && r == s[|s| - |r|..]
    ensures forall i :: 0 <= i < |s| - |r| ==> IsWhitespace(s[i])
    ensures |r| > 0 ==> !IsWhitespace(r[0])
  {
    if |s| > 0 && IsWhitespace(s[0]) then TrimStart(s[1..]) else s
  }

  /** `str::trim_end`: drops the trailing whitespace, and only that. */
  function TrimEnd(s: string): (r: string)
    ensures |r| <= |s| && r == s[..|r|]
    ensures forall i :: |r| <= i < |s| ==> IsWhitespace(s[i])
    ensures |r| > 0 ==> !IsWhitespace(r[|r| - 1])
  {
    if |s| > 0 && IsWhitespace(s[|s| - 1]) then TrimEnd(s[..|s| - 1]) else s
  }

  /** `r` is the slice of `s` starting at `i`, with only whitespace
      around it. */
  predicate IsCoreAt(s: string, r: string, i: int)
  {
    && 0 <= i <= |s| - |r| && r == s[i..i + |r|]
    && (forall k :: 0 <= k < i ==> IsWhitespace(s[k]))
    && (forall k :: i + |r| <= k < |s| ==> IsWhitespace(s[k]))
  }

  /** `str::trim`: the slice of `s` between its leading and its trailing
      whitespace. */
  function Trim(s: string): (r: string)
    ensures exists i :: IsCoreAt(s, r, i)
    ensures |r| > 0 ==> !IsWhitespace(r[0]) && !IsWhitespace(r[|r| - 1])
  {
    var front := TrimStart(s);
    var r := TrimEnd(front);
    var i := |s| - |front|;
    assert IsCoreAt(s, r, i);
    r
  }

  /** Trimming a string that neither starts nor ends with whitespace
      leaves it alone. */
  lemma TrimNoOp(s: string)
    requires |s| > 0 ==> !IsWhitespace(s[0]) && !IsWhitespace(s[|s| - 1])
    ensures Trim(s) == s
  {
  }

  // ---------------------------------------------------------------------
  // ASCII case mapping, replace, contains
  // ---------------------------------------------------------------------

  predicate IsAsciiLower(c: char) { 'a' <= c <= 'z' }

  predicate IsAsciiUpper(c: char) { 'A' <= c <= 'Z' }

  function UpperChar(c: char): char
  {
    if IsAsciiLower(c) then (c as int - 32) as char else c
  }

  function LowerChar(c: char): char
  {
    if IsAsciiUpper(c) then (c as int + 32) as char else c
  }

  /** `str::to_uppercase` on ASCII letters: same length, no lower-case
      ASCII letter left, every other character kept. */
  function ToUpper(s: string): (r: string)
    ensures |r| == |s|
    ensures forall i :: 0 <= i < |s| ==> !IsAsciiLower(r[i])
    ensures forall i :: 0 <= i < |s| && !IsAsciiLower(s[i]) ==> r[i] == s[i]
    ensures forall i :: 0 <= i < |s| ==> LowerChar(r[i]) == LowerChar(s[i])
  {
    seq(|s|, i requires 0 <= i < |s| => UpperChar(s[i]))
  }

  /** `str::to_lowercase` on ASCII letters: same length, no upper-case
      ASCII letter left, every other character kept. */
  function ToLower(s: string): (r: string)
    ensures |r| == |s|
    ensures forall i :: 0 <= i < |s| ==> !IsAsciiUpper(r[i])
    ensures forall i :: 0 <= i < |s| && !IsAsciiUpper(s[i]) ==> r[i] == s[i]
    ensures forall i :: 0 <= i < |s| ==> UpperChar(r[i]) == UpperChar(s[i])
  {
    seq(|s|, i requires 0 <= i < |s| => LowerChar(s[i]))
  }

  /** `str::replace` with single-character pattern and replacement. */
  function ReplaceChar(s: string, from: char, to: char): (r: string)
    ensures |r| == |s|
    ensures from != to ==> from !in r
    ensures forall i :: 0 <= i < |s| ==> r[i] == (if s[i] == from then to else s[i])
  {
    seq(|s|, i requires 0 <= i < |s| => if s[i] == from then to else s[i])
  }

  /** `needle` occurs in `s` at position `i`. */
  predicate OccursAt(s: string, needle: string, i: int)
  {
    0 <= i && i + |needle| <= |s| && s[i..i + |needle|] == needle
  }

  /** `str::contains` with a string pattern: some position of `s` starts
      an occurrence of `needle`. */
  function Contains(s: string, needle: string): (r: bool)
    ensures r <==> exists i :: OccursAt(s, needle, i)
    decreases |s|
  {
    if |needle| > |s| then false
    else if s[..|needle|] == needle then
      assert OccursAt(s, needle, 0);
      true
    else
      var r := Contains(s[1..], needle);
      assert forall i :: OccursAt(s[1..], needle, i) ==> OccursAt(s, needle, i + 1) by {
        forall i | OccursAt(s[1..], needle, i) ensures OccursAt(s, needle, i + 1) {
          assert s[1..][i..i + |needle|] == s[i + 1..i + 1 + |needle|];
        }
      }
      assert forall i :: OccursAt(s, needle, i) && i > 0 ==> OccursAt(s[1..], needle, i - 1) by {
        forall i | OccursAt(s, needle, i) && i > 0 ensures OccursAt(s[1..], needle, i - 1) {
          assert s[1..][i - 1..i - 1 + |needle|] == s[i..i + |needle|];
        }
      }
      r
  }

  // ---------------------------------------------------------------------
  // numbers
  // ---------------------------------------------------------------------

  predicate IsDecimalDigit(c: char) { '0' <= c <= '9' }

  /** `char::to_digit(radix)` succeeds, for radix 10 or 16. */
  predicate IsDigitOf(c: char, radix: nat)
  {
    IsDecimalDigit(c) || (radix == 16 && ('a' <= c <= 'f' || 'A' <= c <= 'F'))
  }

  predicate AllDigits(s: string, radix: nat)
  {
    forall i :: 0 <= i < |s| ==> IsDigitOf(s[i], radix)
  }

  /** The value `char::to_digit` gives a digit. */
  function DigitValue(c: char): nat
  {
    if IsDecimalDigit(c) then c as int - '0' as int
    else if 'a' <= c <= 'f' then c as int - 'a' as int + 10
    else if 'A' <= c <= 'F' then c as int - 'A' as int + 10
    else 0
  }

  /** The value of a digit string in `radix`, most significant digit first. */
  function DigitsValue(s: string, radix: nat): nat
  {
    if |s| == 0 then 0 else DigitsValue(s[..|s| - 1], radix) * radix + DigitValue(s[|s| - 1])
  }

  /** The digits `u8::from_str_radix` reads: an optional leading '+' is
      skipped; a '-' is not a sign for an unsigned type. */
  function UnsignedDigits(s: string): string
  {
    if |s| > 0 && s[0] == '+' then s[1..] else s
  }

  /** `u8::from_str_radix(s, radix)` (and `s.parse::<u8>()` for radix 10):
      the empty string, a lone sign, a non-digit and a value above 255 are
      all errors. Leading zeros are accepted. */
  function ParseByte(s: string, radix: nat): (r: Option<nat>)
    requires radix == 10 || radix == 16
    ensures r.Some? ==> r.value < 256
    ensures r.Some? <==> |UnsignedDigits(s)| > 0 && AllDigits(UnsignedDigits(s), radix)
                          && DigitsValue(UnsignedDigits(s), radix) < 256
    ensures r.Some? ==> r.value == DigitsValue(UnsignedDigits(s), radix)
  {
    var digits := UnsignedDigits(s);
    if |digits| == 0 || !AllDigits(digits, radix) then None
    else
      var v := DigitsValue(digits, radix);
      if v < 256 then Some(v) else None
  }

  /** The character of decimal digit `d`. */
  function DecimalChar(d: nat): char
    requires d < 10
  {
    ('0' as int + d) as char
  }

  /** Decimal rendering of a natural number, as `Display` for integers
      writes it: no sign and no leading zero. */
  function NatText(n: nat): (r: string)
    ensures |r| >= 1
    ensures AllDigits(r, 10)
    ensures r[0] == '0' ==> n == 0
    ensures n < 10 ==> |r| == 1
    ensures n < 100 ==> |r| <= 2
    ensures n < 1000 ==> |r| <= 3
    ensures DigitsValue(r, 10) == n
  {
    if n < 10 then [DecimalChar(n)]
    else
      var r := NatText(n / 10) + [DecimalChar(n % 10)];
      assert r[..|r| - 1] == NatText(n / 10);
      r
  }

  /** A non-empty decimal digit string without a leading zero has a value
      of at least one. */
  lemma {:induction false} NoLeadingZeroPositive(s: string)
    requires |s| >= 1 && AllDigits(s, 10) && s[0] != '0'
    ensures DigitsValue(s, 10) >= 1
    decreases |s|
  {
    if |s| > 1 {
      NoLeadingZeroPositive(s[..|s| - 1]);
    }
  }

  /** Rendering is the inverse of reading, on canonical digit strings:
      a digit string without a leading zero is the rendering of its value. */
  lemma {:induction false} NatTextOfDigits(s: string)
    requires |s| >= 1 && AllDigits(s, 10)
    requires s[0] == '0' ==> |s| == 1
    ensures NatText(DigitsValue(s, 10)) == s
    decreases |s|
  {
    var v := DigitsValue(s, 10);
    if |s| > 1 {
      var init := s[..|s| - 1];
      NoLeadingZeroPositive(init);
      NatTextOfDigits(init);
      assert v / 10 == DigitsValue(init, 10);
      assert v % 10 == DigitValue(s[|s| - 1]);
      assert init + [s[|s| - 1]] == s;
    }
  }

  /** `s.parse::<u8>()` reads back what `Display` wrote, with or without a
      leading '+'. */
  lemma ParseByteOfText(n: nat)
    requires n < 256
    ensures ParseByte(NatText(n), 10) == Some(n)
    ensures ParseByte("+" + NatText(n), 10) == Some(n)
  {
    assert ("+" + NatText(n))[1..] == NatText(n);
  }
}
