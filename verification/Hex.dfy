/** Lower-case hexadecimal, as `{:02x}` writes it for entry ids and temporary file names. */
module Hex {
  import opened Basics

  function Digit(n: nat): (c: char)
    requires n < 16
    ensures ' ' < c < 128 as char && c != '"' && c != '\\'
  {
    if n < 10 then '0' + n as char else 'a' + (n - 10) as char
  }

  function Value(c: char): (r: Option<nat>)
    ensures r.Some? ==> r.value < 16
  {
    if '0' <= c <= '9' then Some((c - '0') as int)
    else if 'a' <= c <= 'f' then Some((c - 'a') as int + 10)
    else if 'A' <= c <= 'F' then Some((c - 'A') as int + 10)
    else None
  }

  function Of(b: Bytes): (s: string)
    ensures |s| == 2 * |b|
  {
    if b == [] then "" else [Digit(b[0] / 16), Digit(b[0] % 16)] + Of(b[1..])
  }

  lemma {:induction false} OfAppend(b: Bytes, x: byte)
    ensures Of(b + [x]) == Of(b) + [Digit(x / 16), Digit(x % 16)]
  {
    if b == [] {
      assert b + [x] == [x];
    } else {
      assert (b + [x])[1..] == b[1..] + [x];
      OfAppend(b[1..], x);
    }
  }

  /** Two lower-case digits for every byte, the high one first. */
  lemma {:induction false} OfIsLowerCase(b: Bytes, i: nat)
    requires i < |b|
    ensures Of(b)[2 * i] == "0123456789abcdef"[b[i] / 16] && Of(b)[2 * i + 1] == "0123456789abcdef"[b[i] % 16]
  {
    if i == 0 {
      DigitIs(b[0] / 16);
      DigitIs(b[0] % 16);
    } else {
      OfIsLowerCase(b[1..], i - 1);
      assert Of(b)[2..] == Of(b[1..]);
    }
  }

  lemma DigitIs(n: nat)
    requires n < 16
    ensures Digit(n) == "0123456789abcdef"[n]
  {
  }

  /** Digits of both cases are read, and nothing else. */
  lemma ValueIs(c: char, n: nat)
    requires n < 16
    ensures Value(c) == Some(n) <==> c == "0123456789abcdef"[n] || c == "0123456789ABCDEF"[n]
  {
    DigitIs(n);
    if n >= 10 {
      assert "0123456789ABCDEF"[n] == 'A' + (n - 10) as char;
    }
  }

  lemma ValueOfDigit(n: nat)
    requires n < 16
    ensures Value(Digit(n)) == Some(n)
  {
  }

  lemma {:induction false} OfIsHex(b: Bytes)
    ensures forall c :: c in Of(b) ==> Value(c).Some? && c < 128 as char
  {
    if b != [] {
      OfIsHex(b[1..]);
    }
  }

  /** Different byte strings are written differently. */
  lemma {:induction false} OfInjective(a: Bytes, b: Bytes)
    requires Of(a) == Of(b)
    ensures a == b
  {
    if a != [] && b != [] {
      assert Of(a)[0] == Of(b)[0] && Of(a)[1] == Of(b)[1];
      ValueOfDigit(a[0] / 16);
      ValueOfDigit(a[0] % 16);
      ValueOfDigit(b[0] / 16);
      ValueOfDigit(b[0] % 16);
      assert Of(a)[2..] == Of(a[1..]) && Of(b)[2..] == Of(b[1..]);
      OfInjective(a[1..], b[1..]);
      assert a == [a[0]] + a[1..] && b == [b[0]] + b[1..];
    }
  }
}
