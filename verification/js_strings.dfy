/**
 * The JavaScript string built-ins that the candidates route relies on, as
 * ECMAScript defines them: `String.prototype.trim`, `split` with a
 * one-character separator, `toLowerCase` (ASCII letters only),
 * `includes`, and the global `parseInt` without a radix argument.
 */
module JsStrings {
  import opened Wrappers

  // ---------------------------------------------------------------------
  // Whitespace and trim()
  // ---------------------------------------------------------------------

  /** ECMAScript WhiteSpace and LineTerminator code points: what `trim`
      removes at both ends and what `parseInt` skips at the start. */
  predicate IsWhitespace(c: char) {
    || c == '\t' || c == '\n' || c == '\U{B}' || c == '\U{C}' || c == '\r'
    || c == ' ' || c == '\U{A0}' || c == '\U{1680}'
    || ('\U{2000}' <= c <= '\U{200A}')
    || c == '\U{2028}' || c == '\U{2029}' || c == '\U{202F}' || c == '\U{205F}'
    || c == '\U{3000}' || c == '\U{FEFF}'
  }

  predicate AllWhitespace(s: string) {
    forall i :: 0 <= i < |s| ==> IsWhitespace(s[i])
  }

  /** `s` with its leading whitespace removed. */
  function TrimStart(s: string): string
    decreases |s|
  {
    if s != [] && IsWhitespace(s[0]) then TrimStart(s[1..]) else s
  }

  /** `s` with its trailing whitespace removed. */
  function TrimEnd(s: string): string
    decreases |s|
  {
    if s != [] && IsWhitespace(s[|s| - 1]) then TrimEnd(s[..|s| - 1]) else s
  }

  /** `s.trim()`. */
  function Trim(s: string): string {
    TrimEnd(TrimStart(s))
  }

  /** TrimStart keeps a suffix of `s`, drops only whitespace, and leaves no
      whitespace at the front. */
  lemma {:induction false} TrimStartSpec(s: string)
    ensures var r := TrimStart(s);
            && |r| <= |s| && r == s[|s| - |r|..]
            && AllWhitespace(s[..|s| - |r|])
            && (r == [] || !IsWhitespace(r[0]))
    decreases |s|
  {
    if s != [] && IsWhitespace(s[0]) {
      TrimStartSpec(s[1..]);
      var r := TrimStart(s);
      assert s[1..][|s| - 1 - |r|..] == s[|s| - |r|..];
      forall i | 0 <= i < |s| - |r| ensures IsWhitespace(s[i]) {
        if i > 0 {
          assert s[1..][..|s| - 1 - |r|][i - 1] == s[i];
        }
      }
    }
  }

  /** TrimEnd keeps a prefix of `s`, drops only whitespace, and leaves no
      whitespace at the end. */
  lemma {:induction false} TrimEndSpec(s: string)
    ensures var r := TrimEnd(s);
            && |r| <= |s| && r == s[..|r|]
            && AllWhitespace(s[|r|..])
            && (r == [] || !IsWhitespace(r[|r| - 1]))
    decreases |s|
  {
    if s != [] && IsWhitespace(s[|s| - 1]) {
      var t := s[..|s| - 1];
      TrimEndSpec(t);
      var r := TrimEnd(s);
      assert t[..|r|] == s[..|r|];
      assert forall i :: |r| <= i < |s| - 1 ==> s[i] == t[|r|..][i - |r|];
      assert forall i :: |r| <= i < |s| ==> s[|r|..][i - |r|] == s[i];
    }
  }

  /** What trim() leaves neither starts nor ends with whitespace, and it is
      empty exactly when the text is all whitespace. */
  lemma TrimSpec(s: string)
    ensures var r := Trim(s);
            && |r| <= |s|
            && (r == [] || (!IsWhitespace(r[0]) && !IsWhitespace(r[|r| - 1])))
            && (r == [] <==> AllWhitespace(s))
  {
    var t := TrimStart(s);
    TrimStartSpec(s);
    TrimEndSpec(t);
    var r := TrimEnd(t);
    assert s == s[..|s| - |t|] + t;
    if r != [] {
      assert r[0] == t[0];
      assert exists i :: 0 <= i < |s| && !IsWhitespace(s[i]) by {
        assert s[|s| - |t|] == t[0];
      }
    } else {
      assert t[|r|..] == t;
      forall i | 0 <= i < |s| ensures IsWhitespace(s[i]) {
        assert (s[..|s| - |t|] + t)[i] == s[i];
      }
    }
  }

  /** TrimStart removes exactly a whitespace prefix in front of a non-whitespace character. */
  lemma {:induction false} TrimStartPadded(pre: string, t: string)
    requires AllWhitespace(pre)
    requires t == [] || !IsWhitespace(t[0])
    ensures TrimStart(pre + t) == t
    decreases |pre|
  {
    if pre == [] {
      assert pre + t == t;
    } else {
      assert (pre + t)[0] == pre[0];
      assert (pre + t)[1..] == pre[1..] + t;
      TrimStartPadded(pre[1..], t);
    }
  }

  /** TrimEnd removes exactly a whitespace suffix behind a non-whitespace character. */
  lemma {:induction false} TrimEndPadded(t: string, post: string)
    requires AllWhitespace(post)
    requires t == [] || !IsWhitespace(t[|t| - 1])
    ensures TrimEnd(t + post) == t
    decreases |post|
  {
    if post == [] {
      assert t + post == t;
    } else {
      var s := t + post;
      assert s[|s| - 1] == post[|post| - 1];
      assert s[..|s| - 1] == t + post[..|post| - 1];
      TrimEndPadded(t, post[..|post| - 1]);
    }
  }

  /** Trimming recovers the text between any whitespace padding. */
  lemma TrimPadded(pre: string, t: string, post: string)
    requires AllWhitespace(pre) && AllWhitespace(post)
    requires t == [] || (!IsWhitespace(t[0]) && !IsWhitespace(t[|t| - 1]))
    ensures Trim(pre + t + post) == t
  {
    var s := pre + t + post;
    if t == [] {
      forall i | 0 <= i < |s| ensures IsWhitespace(s[i]) {
        if i < |pre| { assert s[i] == pre[i]; } else { assert s[i] == post[i - |pre|]; }
      }
      TrimSpec(s);
    } else {
      assert s == pre + (t + post);
      assert (t + post)[0] == t[0];
      TrimStartPadded(pre, t + post);
      TrimEndPadded(t, post);
    }
  }

  /** trim() is idempotent. */
  lemma TrimIdempotent(s: string)
    ensures Trim(Trim(s)) == Trim(s)
  {
    var t := Trim(s);
    TrimSpec(s);
    TrimStartPadded([], t);
    assert [] + t == t;
    TrimEndPadded(t, []);
    assert t + [] == t;
  }

  // ---------------------------------------------------------------------
  // split(sep) and its inverse join(sep)
  // ---------------------------------------------------------------------

  /** `s.split(sep)` for a one-character separator: the pieces between the
      separators, in order. There is always one more piece than separators,
      so the empty string splits into one empty piece. */
  function Split(s: string, sep: char): (parts: seq<string>)
    ensures |parts| == multiset(s)[sep] + 1
    ensures forall p :: p in parts ==> sep !in p
    decreases |s|
  {
    if s == [] then [[]]
    else
      var rest := Split(s[1..], sep);
      assert s == [s[0]] + s[1..];
      if s[0] == sep then [[]] + rest
      else [[s[0]] + rest[0]] + rest[1..]
  }

  /** `parts.join(sep)`. */
  function Join(parts: seq<string>, sep: char): string
    decreases |parts|
  {
    if parts == [] then []
    else if |parts| == 1 then parts[0]
    else parts[0] + [sep] + Join(parts[1..], sep)
  }

  /** Joining the pieces with the separator gives back the original text. */
  lemma {:induction false} JoinSplit(s: string, sep: char)
    ensures Join(Split(s, sep), sep) == s
    decreases |s|
  {
    if s != [] {
      var rest := Split(s[1..], sep);
      JoinSplit(s[1..], sep);
      if s[0] == sep {
        assert Join([[]] + rest, sep) == [] + [sep] + Join(rest, sep);
      } else {
        var parts := [[s[0]] + rest[0]] + rest[1..];
        if |rest| == 1 {
          assert Join(rest, sep) == rest[0];
        } else {
          assert Join(rest, sep) == rest[0] + [sep] + Join(rest[1..], sep);
          assert parts[1..] == rest[1..];
        }
      }
    }
  }

  /** Splitting `p + t` where `p` has no separator glues `p` to the first piece of `t`. */
  lemma {:induction false} SplitPrefix(p: string, t: string, sep: char)
    requires sep !in p
    ensures Split(p + t, sep) == [p + Split(t, sep)[0]] + Split(t, sep)[1..]
    decreases |p|
  {
    var st := Split(t, sep);
    if p == [] {
      assert p + t == t;
      assert p + st[0] == st[0];
      assert st == [st[0]] + st[1..];
    } else {
      var r := Split(p[1..] + t, sep);
      SplitPrefix(p[1..], t, sep);
      assert (p + t)[1..] == p[1..] + t;
      assert (p + t)[0] == p[0] != sep;
      assert Split(p + t, sep) == [[p[0]] + r[0]] + r[1..];
      assert [p[0]] + (p[1..] + st[0]) == p + st[0];
    }
  }

  /** A separator in front of `t` adds one empty piece in front of the pieces of `t`. */
  lemma SplitSeparator(t: string, sep: char)
    ensures Split([sep] + t, sep) == [[]] + Split(t, sep)
  {
    assert ([sep] + t)[1..] == t;
  }

  /** Splitting a join of separator-free pieces gives back the pieces. */
  lemma {:induction false} SplitJoin(parts: seq<string>, sep: char)
    requires |parts| >= 1
    requires forall p :: p in parts ==> sep !in p
    ensures Split(Join(parts, sep), sep) == parts
    decreases |parts|
  {
    var first := parts[0];
    assert first in parts;
    if |parts| == 1 {
      SplitPrefix(first, [], sep);
      assert first + [] == first;
      assert Split([], sep) == [[]];
    } else {
      var others := parts[1..];
      var tail := Join(others, sep);
      assert Join(parts, sep) == first + ([sep] + tail);
      assert forall p :: p in others ==> p in parts;
      SplitJoin(others, sep);
      SplitSeparator(tail, sep);
      SplitPrefix(first, [sep] + tail, sep);
      assert first + [] == first;
      assert parts == [first] + others;
    }
  }

  // ---------------------------------------------------------------------
  // toLowerCase() and includes()
  // ---------------------------------------------------------------------

  predicate IsUpperAscii(c: char) { 'A' <= c <= 'Z' }

  /** The lower-case form of one character; only ASCII letters change. */
  function LowerChar(c: char): (d: char)
    ensures !IsUpperAscii(d)
    ensures IsUpperAscii(c) ==> d as int == c as int + 32
    ensures !IsUpperAscii(c) ==> d == c
  {
    if IsUpperAscii(c) then (c as int + 32) as char else c
  }

  /** `s.toLowerCase()`, restricted to ASCII letters. */
  function ToLower(s: string): (r: string)
    ensures |r| == |s|
    ensures forall i :: 0 <= i < |s| ==> r[i] == LowerChar(s[i])
    decreases |s|
  {
    if s == [] then [] else [LowerChar(s[0])] + ToLower(s[1..])
  }

  /** Lower-casing twice is lower-casing once. */
  lemma ToLowerIdempotent(s: string)
    ensures ToLower(ToLower(s)) == ToLower(s)
  {
    var t := ToLower(s);
    assert forall i :: 0 <= i < |t| ==> ToLower(t)[i] == t[i];
  }

  predicate StartsWith(s: string, prefix: string) {
    |prefix| <= |s| && s[..|prefix|] == prefix
  }

  /** `s.includes(needle)`. */
  predicate Includes(s: string, needle: string)
    decreases |s|
  {
    StartsWith(s, needle) || (s != [] && Includes(s[1..], needle))
  }

  /** `needle` occurs in `s` at position `i`. */
  ghost predicate OccursAt(s: string, needle: string, i: int) {
    0 <= i && i + |needle| <= |s| && s[i..i + |needle|] == needle
  }

  /** `needle` occurs somewhere in `s`. */
  ghost predicate Occurs(s: string, needle: string) {
    exists i :: OccursAt(s, needle, i)
  }

  /** `includes` holds exactly when the needle occurs at some position. */
  lemma {:induction false} IncludesIff(s: string, needle: string)
    ensures Includes(s, needle) <==> Occurs(s, needle)
    decreases |s|
  {
    if StartsWith(s, needle) {
      assert OccursAt(s, needle, 0);
    }
    forall i | OccursAt(s, needle, i) && i == 0 ensures StartsWith(s, needle) {
    }
    if s != [] {
      IncludesIff(s[1..], needle);
      forall i | OccursAt(s[1..], needle, i) ensures OccursAt(s, needle, i + 1) {
        assert s[1..][i..i + |needle|] == s[i + 1..i + 1 + |needle|];
      }
      forall i | OccursAt(s, needle, i) && i > 0 ensures OccursAt(s[1..], needle, i - 1) {
        assert s[1..][i - 1..i - 1 + |needle|] == s[i..i + |needle|];
      }
    }
  }

  /** The empty string is included in every string. */
  lemma IncludesEmpty(s: string)
    ensures Includes(s, [])
  {
    assert StartsWith(s, []);
  }

  // ---------------------------------------------------------------------
  // Digits, numerals and parseInt()
  // ---------------------------------------------------------------------

  /** The value of a digit character in radix 36 (`0`-`9`, then letters of
      either case); 36 for every other character. */
  function DigitOf(c: char): (v: nat)
    ensures v <= 36
  {
    if '0' <= c <= '9' then c as int - '0' as int
    else if 'a' <= c <= 'z' then c as int - 'a' as int + 10
    else if 'A' <= c <= 'Z' then c as int - 'A' as int + 10
    else 36
  }

  /** A decimal digit, the `\d` of a regular expression. */
  predicate IsDigit(c: char) { '0' <= c <= '9' }

  predicate AllDigits(s: string, radix: nat) {
    forall i :: 0 <= i < |s| ==> DigitOf(s[i]) < radix
  }

  /** The longest prefix of `s` made of digits of the given radix. */
  function LeadingDigits(s: string, radix: nat): (ds: string)
    ensures |ds| <= |s| && ds == s[..|ds|]
    ensures AllDigits(ds, radix)
    ensures |ds| == |s| || DigitOf(s[|ds|]) >= radix
    decreases |s|
  {
    if s != [] && DigitOf(s[0]) < radix then [s[0]] + LeadingDigits(s[1..], radix) else []
  }

  /** The number a digit string denotes in the given radix, most significant digit first. */
  function Value(ds: string, radix: nat): nat
    requires AllDigits(ds, radix)
    decreases |ds|
  {
    if ds == [] then 0
    else radix * Value(ds[..|ds| - 1], radix) + DigitOf(ds[|ds| - 1])
  }

  /** The character of a decimal digit. */
  function DigitChar(d: nat): (c: char)
    requires d < 10
    ensures IsDigit(c) && DigitOf(c) == d
  {
    ('0' as int + d) as char
  }

  /** The decimal numeral of `n`, without leading zeros. */
  function NatToDecimal(n: nat): (s: string)
    ensures |s| >= 1 && AllDigits(s, 10)
    ensures |s| > 1 ==> s[0] != '0'
    decreases n
  {
    if n < 10 then [DigitChar(n)] else NatToDecimal(n / 10) + [DigitChar(n % 10)]
  }

  /** Reading a decimal numeral gives back the number it was printed from. */
  lemma {:induction false} DecimalRoundTrip(n: nat)
    ensures Value(NatToDecimal(n), 10) == n
    decreases n
  {
    if n >= 10 {
      DecimalRoundTrip(n / 10);
      var s := NatToDecimal(n);
      assert s[..|s| - 1] == NatToDecimal(n / 10);
    }
  }

  /** The text after an optional leading sign. */
  function Unsigned(t: string): (u: string)
    ensures |u| <= |t|
  {
    if t != [] && (t[0] == '-' || t[0] == '+') then t[1..] else t
  }

  /** The magnitude `parseInt` reads after the sign: radix 16 after a
      `0x`/`0X` prefix, radix 10 otherwise, up to the first character that is
      not a digit; `None` when no digit is there. */
  function ParseMagnitude(u: string): (r: Option<nat>)
  {
    var hex := |u| >= 2 && u[0] == '0' && (u[1] == 'x' || u[1] == 'X');
    var radix: nat := if hex then 16 else 10;
    var ds := LeadingDigits(if hex then u[2..] else u, radix);
    if ds == [] then None else Some(Value(ds, radix))
  }

  /** The global `parseInt(s)`: skip leading whitespace, take an optional sign,
      then read the magnitude. `None` stands for NaN. */
  function ParseInt(s: string): (r: Option<int>)
  {
    var t := TrimStart(s);
    match ParseMagnitude(Unsigned(t))
    case None => None
    case Some(v) =>
      var magnitude: int := v;
      Some(if t != [] && t[0] == '-' then -magnitude else magnitude)
  }

  /** The decimal numeral of an integer, with a leading `-` when negative. */
  function IntToDecimal(n: int): string {
    if n < 0 then ['-'] + NatToDecimal(-n) else NatToDecimal(n)
  }

  /** The longest digit prefix of a numeral followed by a non-digit is the numeral. */
  lemma {:induction false} LeadingDigitsOfNumeral(ds: string, rest: string, radix: nat)
    requires AllDigits(ds, radix)
    requires rest == [] || DigitOf(rest[0]) >= radix
    ensures LeadingDigits(ds + rest, radix) == ds
    decreases |ds|
  {
    if ds == [] {
      assert ds + rest == rest;
    } else {
      assert (ds + rest)[0] == ds[0];
      assert (ds + rest)[1..] == ds[1..] + rest;
      LeadingDigitsOfNumeral(ds[1..], rest, radix);
    }
  }

  /** After whitespace and the sign, a printed integer leaves its unsigned numeral. */
  lemma UnsignedOfPrinted(pre: string, n: int, rest: string)
    requires AllWhitespace(pre)
    ensures var t := TrimStart(pre + IntToDecimal(n) + rest);
            && (t != [] && t[0] == '-') == (n < 0)
            && Unsigned(t) == NatToDecimal(if n < 0 then -n else n) + rest
  {
    var digits := NatToDecimal(if n < 0 then -n else n);
    var body := IntToDecimal(n) + rest;
    assert pre + IntToDecimal(n) + rest == pre + body;
    assert IsDigit(digits[0]);
    if n < 0 {
      assert body == ['-'] + (digits + rest);
      TrimStartPadded(pre, body);
      assert Unsigned(body) == body[1..] == digits + rest;
    } else {
      assert body == digits + rest;
      assert body[0] == digits[0];
      TrimStartPadded(pre, body);
    }
  }

  /** The magnitude read from a decimal numeral followed by non-alphanumeric text is its value. */
  lemma MagnitudeOfNumeral(m: nat, rest: string)
    requires rest == [] || DigitOf(rest[0]) == 36
    ensures ParseMagnitude(NatToDecimal(m) + rest) == Some(m)
  {
    var digits := NatToDecimal(m);
    var u := digits + rest;
    assert !(|u| >= 2 && u[0] == '0' && (u[1] == 'x' || u[1] == 'X')) by {
      if |digits| == 1 && |u| >= 2 {
        assert u[1] == rest[0];
      } else if |digits| > 1 {
        assert u[0] == digits[0];
      }
    }
    LeadingDigitsOfNumeral(digits, rest, 10);
    DecimalRoundTrip(m);
  }

  /** parseInt reads back any printed integer, whatever whitespace precedes it
      and whatever non-alphanumeric text follows it. */
  lemma ParseIntRoundTrip(pre: string, n: int, rest: string)
    requires AllWhitespace(pre)
    requires rest == [] || DigitOf(rest[0]) == 36
    ensures ParseInt(pre + IntToDecimal(n) + rest) == Some(n)
  {
    UnsignedOfPrinted(pre, n, rest);
    MagnitudeOfNumeral(if n < 0 then -n else n, rest);
  }

  /** parseInt yields NaN when, after whitespace and an optional sign, no
      decimal digit follows. */
  lemma ParseIntNoDigits(s: string)
    requires var u := Unsigned(TrimStart(s)); u == [] || !IsDigit(u[0])
    ensures ParseInt(s) == None
  {
  }
}
