/**
  * UTF-8 as Rust's `String` stores it and `str::from_utf8` checks it. A Dafny `char`
  * is a Unicode scalar value, so a `string` here is exactly the content of a `String`.
  */
module Utf8 {
  import opened Basics

  function EncodeChar(c: char): (b: Bytes)
    ensures 1 <= |b| <= 4
  {
    var n := c as int;
    if n < 0x80 then [n]
    else if n < 0x800 then [0xC0 + n / 64, 0x80 + n % 64]
    else if n < 0x10000 then [0xE0 + n / 64 / 64, 0x80 + n / 64 % 64, 0x80 + n % 64]
    else [0xF0 + n / 64 / 64 / 64, 0x80 + n / 64 / 64 % 64, 0x80 + n / 64 % 64, 0x80 + n % 64]
  }

  /** The bytes of a string; `s.len()` in the source is `|Encode(s)|`. */
  function Encode(s: string): (b: Bytes)
    ensures |s| <= |b|
  {
    if s == "" then [] else EncodeChar(s[0]) + Encode(s[1..])
  }

  predicate Tail(x: byte) {
    0x80 <= x < 0xC0
  }

  function Low(x: byte): int {
    x as int - 0x80
  }

  /** The scalar value at the front of `b` and the number of bytes it takes, if well formed. */
  function Front(b: Bytes): (r: Option<(char, nat)>)
    ensures r.Some? ==> 1 <= r.value.1 <= |b|
  {
    if |b| == 0 then None
    else if b[0] < 0x80 then Some((b[0] as char, 1))
    else if 0xC2 <= b[0] < 0xE0 && |b| >= 2 && Tail(b[1]) then
      Some((((b[0] as int - 0xC0) * 64 + Low(b[1])) as char, 2))
    else if 0xE0 <= b[0] < 0xF0 && |b| >= 3 && Tail(b[1]) && Tail(b[2]) then
      var n := (b[0] as int - 0xE0) * 4096 + Low(b[1]) * 64 + Low(b[2]);
      if n < 0x800 || 0xD800 <= n < 0xE000 then None else Some((n as char, 3))
    else if 0xF0 <= b[0] < 0xF5 && |b| >= 4 && Tail(b[1]) && Tail(b[2]) && Tail(b[3]) then
      var n := (b[0] as int - 0xF0) * 262144 + Low(b[1]) * 4096 + Low(b[2]) * 64 + Low(b[3]);
      if n < 0x10000 || 0x110000 <= n then None else Some((n as char, 4))
    else None
  }

  function Decode(b: Bytes): (r: Option<string>)
    ensures r.Some? ==> |r.value| <= |b|
  {
    if |b| == 0 then Some("")
    else
      match Front(b)
      case None => None
      case Some((c, n)) =>
        match Decode(b[n..])
        case None => None
        case Some(s) => Some([c] + s)
  }

  lemma FrontOfEncodeChar(c: char, rest: Bytes)
    ensures Front(EncodeChar(c) + rest) == Some((c, |EncodeChar(c)|))
  {
    var n, b := c as int, EncodeChar(c) + rest;
    var high := n / 64;
    assert n == high * 64 + n % 64 && high == high / 64 * 64 + high % 64;
    if n < 0x80 {
    } else if n < 0x800 {
      assert b[0] == 0xC0 + high && b[1] == 0x80 + n % 64;
    } else if n < 0x10000 {
      assert b[0] == 0xE0 + high / 64 && b[1] == 0x80 + high % 64 && b[2] == 0x80 + n % 64;
    } else {
      var top := high / 64;
      assert top == top / 64 * 64 + top % 64;
      assert b[0] == 0xF0 + top / 64 && b[1] == 0x80 + top % 64;
      assert b[2] == 0x80 + high % 64 && b[3] == 0x80 + n % 64;
    }
  }

  /** A character is written as the table in section 3 of RFC 3629 says: the length by its range, six bits in every byte but the first. */
  lemma CharIsWritten(c: char)
    ensures var b, n := EncodeChar(c), c as int;
            && (forall i :: 0 < i < |b| ==> 0x80 <= b[i] <= 0xBF)
            && if n <= 0x7F then |b| == 1 && b[0] == n
               else if n <= 0x7FF then |b| == 2 && 0xC2 <= b[0] <= 0xDF && n == (b[0] as int - 0xC0) * 64 + Low(b[1])
               else if n <= 0xFFFF then
                 |b| == 3 && 0xE0 <= b[0] <= 0xEF && n == ((b[0] as int - 0xE0) * 64 + Low(b[1])) * 64 + Low(b[2])
               else
                 |b| == 4 && 0xF0 <= b[0] <= 0xF4
                 && n == (((b[0] as int - 0xF0) * 64 + Low(b[1])) * 64 + Low(b[2])) * 64 + Low(b[3])
  {
  }

  lemma EncodeCharOfFront(b: Bytes)
    requires Front(b).Some?
    ensures EncodeChar(Front(b).value.0) == b[..Front(b).value.1]
  {
    var n := Front(b).value.1;
    if n == 2 {
      TwoBytes(b[0] as int - 0xC0, Low(b[1]));
    } else if n == 3 {
      ThreeBytes(b[0] as int - 0xE0, Low(b[1]), Low(b[2]));
    } else if n == 4 {
      FourBytes(b[0] as int - 0xF0, Low(b[1]), Low(b[2]), Low(b[3]));
    }
  }

  lemma TwoBytes(x: int, y: int)
    requires 0 <= x && 0 <= y < 64
    ensures var n := x * 64 + y; n / 64 == x && n % 64 == y
  {
  }

  lemma ThreeBytes(x: int, y: int, z: int)
    requires 0 <= x && 0 <= y < 64 && 0 <= z < 64
    ensures var n := x * 4096 + y * 64 + z; n / 64 / 64 == x && n / 64 % 64 == y && n % 64 == z
  {
    TwoBytes(x * 64 + y, z);
    TwoBytes(x, y);
    assert x * 4096 + y * 64 + z == (x * 64 + y) * 64 + z;
  }

  lemma FourBytes(w: int, x: int, y: int, z: int)
    requires 0 <= w && 0 <= x < 64 && 0 <= y < 64 && 0 <= z < 64
    ensures var n := w * 262144 + x * 4096 + y * 64 + z;
            n / 64 / 64 / 64 == w && n / 64 / 64 % 64 == x && n / 64 % 64 == y && n % 64 == z
  {
    ThreeBytes(w * 64 + x, y, z);
    TwoBytes(w, x);
    assert w * 262144 + x * 4096 + y * 64 + z == (w * 64 + x) * 4096 + y * 64 + z;
  }

  lemma FrontAgain(b: Bytes, n: nat, s: string)
    requires Front(b).Some? && n == Front(b).value.1 && EncodeChar(Front(b).value.0) == b[..n] && Encode(s) == b[n..]
    ensures Encode([Front(b).value.0] + s) == b
  {
    var t := [Front(b).value.0] + s;
    assert t[1..] == s && b == b[..n] + b[n..];
  }

  /** Only canonical bytes are accepted: no overlong forms, no surrogates, nothing cut short. */
  lemma {:induction false} EncodeOfDecode(b: Bytes)
    requires Decode(b).Some?
    ensures Encode(Decode(b).value) == b
    decreases |b|
  {
    if b != [] {
      var n := Front(b).value.1;
      EncodeCharOfFront(b);
      EncodeOfDecode(b[n..]);
      FrontAgain(b, n, Decode(b[n..]).value);
    }
  }

  /** Decoding inverts encoding. */
  lemma {:induction false} DecodeOfEncode(s: string)
    ensures Decode(Encode(s)) == Some(s)
  {
    if s != "" {
      FrontOfEncodeChar(s[0], Encode(s[1..]));
      assert [s[0]] + s[1..] == s;
      assert Encode(s)[|EncodeChar(s[0])|..] == Encode(s[1..]);
      DecodeOfEncode(s[1..]);
    }
  }

  lemma Regroup(a: Bytes, b: Bytes, c: Bytes)
    ensures a + (b + c) == a + b + c
  {}

  lemma {:induction false} EncodeOfAppend(s: string, t: string)
    ensures Encode(s + t) == Encode(s) + Encode(t)
  {
    if s == "" {
      assert s + t == t;
    } else {
      EncodeOfAppend(s[1..], t);
      assert (s + t)[1..] == s[1..] + t && (s + t)[0] == s[0];
      Regroup(EncodeChar(s[0]), Encode(s[1..]), Encode(t));
    }
  }

  /** ASCII text takes one byte a character. */
  lemma {:induction false} AsciiLength(s: string)
    requires forall c :: c in s ==> c < 128 as char
    ensures |Encode(s)| == |s|
  {
    if s != "" {
      assert s[0] in s;
      assert forall c :: c in s[1..] ==> c in s;
      AsciiLength(s[1..]);
    }
  }
}
