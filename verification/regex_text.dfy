/**
 * Text-level helpers the glob compilers rely on: Python's `re.escape`
 * (3.7 and later), the `%d` rendering of a non-negative count and
 * `"".join`. The first two come with an inverse and a round-trip lemma;
 * `"".join` comes with the law that it distributes over concatenation of
 * lists (the split of a glob is the inverse of joining its chunks).
 */
module RegexText {

  /** The characters `re.escape` prefixes with a backslash: the regex
      metacharacters together with ASCII whitespace. */
  predicate IsSpecial(c: char) {
    || c == '(' || c == ')' || c == '[' || c == ']' || c == '{' || c == '}'
    || c == '?' || c == '*' || c == '+' || c == '-' || c == '|' || c == '^'
    || c == '$' || c == '\\' || c == '.' || c == '&' || c == '~' || c == '#'
    || c == ' ' || c == '\t' || c == '\n' || c == '\r' || c == '\U{000B}' || c == '\U{000C}'
  }

  function EscapeChar(c: char): (r: string)
    ensures IsSpecial(c) ==> r == ['\\', c]
    ensures !IsSpecial(c) ==> r == [c]
  {
    if IsSpecial(c) then ['\\', c] else [c]
  }

  /** A string is in escaped form when it is a sequence of units, each one
      either a plain character or a backslash followed by a special one:
      no regex metacharacter stands in it unescaped. */
  predicate IsEscaped(r: string)
    decreases |r|
  {
    if r == [] then true
    else if r[0] == '\\' then |r| >= 2 && IsSpecial(r[1]) && IsEscaped(r[2..])
    else !IsSpecial(r[0]) && IsEscaped(r[1..])
  }

  /** Reads an escaped string back: every backslash drops and keeps the
      character after it. */
  function Unescape(r: string): string
    decreases |r|
  {
    if r == [] then []
    else if r[0] == '\\' && |r| >= 2 then [r[1]] + Unescape(r[2..])
    else [r[0]] + Unescape(r[1..])
  }

  /** `re.escape(s)`: every special character is prefixed with a
      backslash, every other character is kept. */
  function Escape(s: string): string
    decreases |s|
  {
    if s == [] then [] else EscapeChar(s[0]) + Escape(s[1..])
  }

  /** The escaped text is in escaped form (no metacharacter stands in it
      unescaped) and reads back to the literal: escaping loses nothing. */
  lemma {:induction false} EscapeRoundTrip(s: string)
    ensures IsEscaped(Escape(s))
    ensures Unescape(Escape(s)) == s
    decreases |s|
  {
    if s != [] {
      var rest := Escape(s[1..]);
      EscapeRoundTrip(s[1..]);
      var r := Escape(s);
      if IsSpecial(s[0]) {
        assert r[2..] == rest;
      } else {
        assert r[1..] == rest;
      }
      assert s == [s[0]] + s[1..];
    }
  }

  function DigitChar(d: nat): (c: char)
    requires d < 10
    ensures '0' <= c <= '9'
    ensures c as int - '0' as int == d
  {
    ('0' as int + d) as char
  }

  predicate IsDigits(s: string) {
    forall i :: 0 <= i < |s| ==> '0' <= s[i] <= '9'
  }

  /** The value of a string of decimal digits, most significant first. */
  function DigitsValue(s: string): nat
    requires IsDigits(s)
    decreases |s|
  {
    if s == [] then 0
    else DigitsValue(s[..|s| - 1]) * 10 + (s[|s| - 1] as int - '0' as int)
  }

  /** Python's `"%d" % n` for a non-negative `n`. */
  function Decimal(n: nat): string
    decreases n
  {
    if n < 10 then [DigitChar(n)] else Decimal(n / 10) + [DigitChar(n % 10)]
  }

  /** `%d` writes decimal digits without a leading zero, and they read back
      to the number. */
  lemma {:induction false} DecimalRoundTrip(n: nat)
    ensures Decimal(n) != [] && IsDigits(Decimal(n))
    ensures Decimal(n)[0] == '0' ==> n == 0
    ensures DigitsValue(Decimal(n)) == n
    decreases n
  {
    if n >= 10 {
      DecimalRoundTrip(n / 10);
      var init := Decimal(n / 10);
      assert Decimal(n)[..|Decimal(n)| - 1] == init;
    }
  }

  /** Python's `"".join(xs)`. */
  function Join(xs: seq<string>): string
    decreases |xs|
  {
    if xs == [] then [] else xs[0] + Join(xs[1..])
  }

  /** Joining two lists one after the other joins their concatenation:
      `"".join(xs + ys) == "".join(xs) + "".join(ys)`. */
  lemma {:induction false} JoinAppend(xs: seq<string>, ys: seq<string>)
    ensures Join(xs + ys) == Join(xs) + Join(ys)
    decreases |xs|
  {
    if xs == [] {
      assert xs + ys == ys;
    } else {
      JoinAppend(xs[1..], ys);
      assert (xs + ys)[1..] == xs[1..] + ys;
    }
  }
}
