/** The alphabets of the base 32 and base 64 text forms, and how far a text in one of them reaches. */
module Armor {
  /** Base 32, and base 64 in its three variants. */
  datatype Alphabet = B32 | B64 | B64A | B64X

  function Base(a: Alphabet): nat { if a.B32? then 32 else 64 }

  function Shift(c: char, n: nat): (r: char)
    requires n < 26 && c as int < 128
    ensures r as int == c as int + n
  {
    (c as int + n) as char
  }

  /** b2a: the character of a digit. Base 32 leaves out l, o, 0 and 1. */
  function CharOf(a: Alphabet, n: nat): (r: char)
    requires n < Base(a)
    ensures DigitOf(a, r) == n
  {
    if a.B32? then
      if n < 11 then Shift('a', n) else if n < 13 then Shift('m', n - 11)
      else if n < 24 then Shift('p', n - 13) else Shift('2', n - 24)
    else if n < 26 then Shift('A', n)
    else if n < 52 then Shift('a', n - 26)
    else if n < 62 then Shift('0', n - 52)
    else if n == 62 then if a.B64X? then '@' else '+'
    else match a case B64 => '/' case B64A => '-' case _ => '_'
  }

  /** a2b: the digit a character stands for, or -1. */
  function DigitOf(a: Alphabet, c: char): (r: int)
    ensures -1 <= r < Base(a)
    ensures c == '=' || c == '\0' ==> r == -1
  {
    if a.B32? then
      if 'a' <= c <= 'k' then c as int - 'a' as int
      else if 'm' <= c <= 'n' then c as int - 'm' as int + 11
      else if 'p' <= c <= 'z' then c as int - 'p' as int + 13
      else if '2' <= c <= '9' then c as int - '2' as int + 24
      else -1
    else if 'A' <= c <= 'Z' then c as int - 'A' as int
    else if 'a' <= c <= 'z' then c as int - 'a' as int + 26
    else if '0' <= c <= '9' then c as int - '0' as int + 52
    else if c == (if a.B64X? then '@' else '+') then 62
    else if c == (match a case B64 => '/' case B64A => '-' case _ => '_') then 63
    else -1
  }

  const LETTERS32: string := "abcdefghijkmnpqrstuvwxyz23456789"
  const CAPITALS: string := "ABCDEFGHIJKLMNOPQRSTUVWXYZ"
  const SMALL: string := "abcdefghijklmnopqrstuvwxyz"
  const DECIMALS: string := "0123456789"

  /** The alphabets, written out. */
  function Letters(a: Alphabet): (r: string)
    ensures |r| == Base(a)
  {
    if a.B32? then LETTERS32
    else CAPITALS + SMALL + DECIMALS + match a case B64 => ['+', '/'] case B64A => ['+', '-'] case _ => ['@', '_']
  }

  lemma Letters32(n: nat)
    requires n < 32
    ensures |LETTERS32| == 32 && LETTERS32[n] == CharOf(B32, n)
  {
  }

  lemma LettersRow(n: nat)
    requires n < 26
    ensures |CAPITALS| == |SMALL| == 26 && |DECIMALS| == 10
    ensures CAPITALS[n] as int == 65 + n && SMALL[n] as int == 97 + n && (n < 10 ==> DECIMALS[n] as int == 48 + n)
  {
  }

  lemma LetterIs(a: Alphabet, n: nat)
    requires n < Base(a)
    ensures Letters(a)[n] == CharOf(a, n)
  {
    if a.B32? {
      Letters32(n);
    } else {
      LettersRow(if n < 26 then n else if n < 52 then n - 26 else if n < 62 then n - 52 else 0);
    }
  }

  /** The n-th character of the alphabet stands for n, and no other character does. */
  lemma LettersAre(a: Alphabet, n: nat, c: char)
    requires n < Base(a)
    ensures DigitOf(a, c) == n <==> c == Letters(a)[n]
  {
    LetterIs(a, n);
    if DigitOf(a, c) == n { DigitBack(a, c); }
  }

  /** A digit of the base. */
  predicate IsDigit(a: Alphabet, d: int) { 0 <= d < Base(a) }

  predicate AreDigits(a: Alphabet, d: seq<int>) { forall i :: 0 <= i < |d| ==> IsDigit(a, d[i]) }

  /** The characters of digits; anything else has no character, and becomes the terminator. */
  function Chars(a: Alphabet, d: seq<int>): (r: string)
    ensures |r| == |d|
  {
    if d == [] then [] else [Char(a, d[0])] + Chars(a, d[1..])
  }

  function Char(a: Alphabet, x: int): char { if IsDigit(a, x) then CharOf(a, x) else '\0' }

  function DigitsOf(a: Alphabet, s: string): (r: seq<int>)
    ensures |r| == |s|
  {
    if s == [] then [] else [DigitOf(a, s[0])] + DigitsOf(a, s[1..])
  }

  lemma {:induction false} CharsAt(a: Alphabet, d: seq<int>, i: nat)
    requires i < |d|
    ensures Chars(a, d)[i] == Char(a, d[i])
  {
    if i > 0 { CharsAt(a, d[1..], i - 1); }
  }

  lemma {:induction false} DigitsOfAt(a: Alphabet, s: string, i: nat)
    requires i < |s|
    ensures DigitsOf(a, s)[i] == DigitOf(a, s[i])
  {
    if i > 0 { DigitsOfAt(a, s[1..], i - 1); }
  }

  lemma Cons<T>(h: T, x: seq<T>, y: seq<T>)
    ensures [h] + (x + y) == [h] + x + y
  {
  }

  lemma {:induction false} CharsAppend(a: Alphabet, d: seq<int>, e: seq<int>)
    ensures Chars(a, d + e) == Chars(a, d) + Chars(a, e)
  {
    if d == [] {
      assert d + e == e;
    } else {
      CharsAppend(a, d[1..], e);
      assert (d + e)[1..] == d[1..] + e;
      Cons(Char(a, d[0]), Chars(a, d[1..]), Chars(a, e));
    }
  }

  lemma {:induction false} DigitsOfAppend(a: Alphabet, s: string, t: string)
    ensures DigitsOf(a, s + t) == DigitsOf(a, s) + DigitsOf(a, t)
  {
    if s == [] {
      assert s + t == t;
    } else {
      DigitsOfAppend(a, s[1..], t);
      assert (s + t)[1..] == s[1..] + t;
      Cons(DigitOf(a, s[0]), DigitsOf(a, s[1..]), DigitsOf(a, t));
    }
  }

  /** Characters stand for the digits they were written for. */
  lemma {:induction false} CharsBack(a: Alphabet, d: seq<int>)
    requires AreDigits(a, d)
    ensures DigitsOf(a, Chars(a, d)) == d
  {
    if d != [] {
      CharsBack(a, d[1..]);
      assert IsDigit(a, d[0]);
      var s := Chars(a, d);
      assert s[1..] == Chars(a, d[1..]);
    }
  }

  /** A character of the alphabet is the one its digit is written as. */
  lemma DigitBack(a: Alphabet, c: char)
    requires DigitOf(a, c) >= 0
    ensures CharOf(a, DigitOf(a, c)) == c
  {
  }

  /** And a text in the alphabet is what its digits are written as. */
  lemma {:induction false} DigitsWritten(a: Alphabet, s: string)
    requires AreDigits(a, DigitsOf(a, s))
    ensures Chars(a, DigitsOf(a, s)) == s
  {
    if s != [] {
      var d := DigitsOf(a, s);
      assert IsDigit(a, d[0]) && d[1..] == DigitsOf(a, s[1..]);
      DigitsWritten(a, s[1..]);
      DigitBack(a, s[0]);
    }
  }

  /** How many characters of the alphabet the text starts with. */
  function Span(a: Alphabet, s: string): (n: nat)
    ensures n <= |s|
  {
    if s == [] || DigitOf(a, s[0]) < 0 then 0 else 1 + Span(a, s[1..])
  }

  /** The text ends within the given characters, as a terminated string does. */
  predicate Ends(a: Alphabet, s: string) { Span(a, s) < |s| }

  /** Up to the span there are digits, and the next character is none. */
  lemma {:induction false} SpanAt(a: Alphabet, s: string, i: nat)
    requires i < |s| && i <= Span(a, s)
    ensures i < Span(a, s) <==> DigitOf(a, s[i]) >= 0
  {
    if i > 0 {
      SpanAt(a, s[1..], i - 1);
    }
  }

  /** A text spans the letters of the alphabet that it starts with. */
  lemma SpanIs(a: Alphabet, s: string, i: nat)
    requires i < |s| && i <= Span(a, s)
    ensures i < Span(a, s) <==> s[i] in Letters(a)
  {
    SpanAt(a, s, i);
    if s[i] in Letters(a) {
      var n :| 0 <= n < |Letters(a)| && Letters(a)[n] == s[i];
      LettersAre(a, n, s[i]);
    }
    if DigitOf(a, s[i]) >= 0 { LettersAre(a, DigitOf(a, s[i]), s[i]); }
  }

  /** Text followed by a character that is not of the alphabet spans exactly itself. */
  lemma SpanOfText(a: Alphabet, d: seq<int>, rest: string)
    requires AreDigits(a, d) && rest != [] && DigitOf(a, rest[0]) < 0
    ensures Span(a, Chars(a, d) + rest) == |d|
    ensures DigitsOf(a, (Chars(a, d) + rest)[..|d|]) == d
  {
    var s := Chars(a, d) + rest;
    assert s[..|d|] == Chars(a, d);
    CharsBack(a, d);
    SpanOfDigits(a, d, rest);
  }

  lemma {:induction false} SpanOfDigits(a: Alphabet, d: seq<int>, rest: string)
    requires AreDigits(a, d) && rest != [] && DigitOf(a, rest[0]) < 0
    ensures Span(a, Chars(a, d) + rest) == |d|
  {
    var s := Chars(a, d) + rest;
    if d == [] {
      assert s == rest;
    } else {
      assert IsDigit(a, d[0]);
      assert s[1..] == Chars(a, d[1..]) + rest;
      SpanOfDigits(a, d[1..], rest);
    }
  }

  /** The cursor moves over the characters of the alphabet and no further. */
  method TextLen(a: Alphabet, s: string) returns (p: nat)
    requires Ends(a, s)
    ensures p == Span(a, s)
  {
    p := 0;
    while DigitOf(a, s[p]) >= 0
      invariant p <= Span(a, s)
      decreases |s| - p
    {
      SpanAt(a, s, p);
      p := p + 1;
    }
    SpanAt(a, s, p);
  }
}
