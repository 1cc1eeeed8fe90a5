/**
  * The standard Base64 alphabet with padding (section 4 of RFC 4648) and a strict
  * decoder: canonical padding is required and the unused trailing bits must be
  * zero (section 3.5 of RFC 4648).
  */
module Base64 {
  import opened Basics

  type sextet = x: int | 0 <= x < 64

  function Symbol(v: sextet): (c: char)
    ensures c != '='
    ensures c < 128 as char
  {
    if v < 26 then 'A' + v as char
    else if v < 52 then 'a' + (v - 26) as char
    else if v < 62 then '0' + (v - 52) as char
    else if v == 62 then '+'
    else '/'
  }

  function Value(c: char): Option<sextet> {
    if 'A' <= c <= 'Z' then Some((c - 'A') as int)
    else if 'a' <= c <= 'z' then Some((c - 'a') as int + 26)
    else if '0' <= c <= '9' then Some((c - '0') as int + 52)
    else if c == '+' then Some(62)
    else if c == '/' then Some(63)
    else None
  }

  lemma ValueOfSymbol(v: sextet)
    ensures Value(Symbol(v)) == Some(v)
  {}

  lemma SymbolOfValue(c: char)
    requires Value(c).Some?
    ensures Symbol(Value(c).value) == c
  {}

  /** The four symbols of three bytes. */
  function Group(x: byte, y: byte, z: byte): seq<sextet> {
    [x / 4, x % 4 * 16 + y / 16, y % 16 * 4 + z / 64, z % 64]
  }

  /** The three bytes of four symbols. */
  function Ungroup(v: sextet, w: sextet, x: sextet, y: sextet): Bytes {
    [v as int * 4 + w / 16, w as int % 16 * 16 + x / 4, x as int % 4 * 64 + y]
  }

  lemma UngroupOfGroup(x: byte, y: byte, z: byte)
    ensures var g := Group(x, y, z); Ungroup(g[0], g[1], g[2], g[3]) == [x, y, z]
  {}

  lemma Split(q: nat, r: nat)
    ensures r < 4 ==> (q * 4 + r) / 4 == q && (q * 4 + r) % 4 == r
    ensures r < 16 ==> (q * 16 + r) / 16 == q && (q * 16 + r) % 16 == r
    ensures r < 64 ==> (q * 64 + r) / 64 == q && (q * 64 + r) % 64 == r
  {}

  lemma GroupOfUngroup(v: sextet, w: sextet, x: sextet, y: sextet)
    ensures var b := Ungroup(v, w, x, y); Group(b[0], b[1], b[2]) == [v, w, x, y]
  {
    Split(v, w / 16);
    Split(w % 16, x / 4);
    Split(x % 4, y);
  }

  function Encode(b: Bytes): string {
    if |b| == 0 then ""
    else if |b| == 1 then
      var g := Group(b[0], 0, 0);
      [Symbol(g[0]), Symbol(g[1]), '=', '=']
    else if |b| == 2 then
      var g := Group(b[0], b[1], 0);
      [Symbol(g[0]), Symbol(g[1]), Symbol(g[2]), '=']
    else
      var g := Group(b[0], b[1], b[2]);
      [Symbol(g[0]), Symbol(g[1]), Symbol(g[2]), Symbol(g[3])] + Encode(b[3..])
  }

  function Decode(s: string): Option<Bytes> {
    if |s| == 0 then Some([])
    else if |s| < 4 || Value(s[0]).None? || Value(s[1]).None? then None
    else
      var v, w := Value(s[0]).value, Value(s[1]).value;
      if s[2] == '=' then
        if s[3] == '=' && |s| == 4 && w % 16 == 0 then Some(Ungroup(v, w, 0, 0)[..1]) else None
      else if Value(s[2]).None? then None
      else
        var x := Value(s[2]).value;
        if s[3] == '=' then
          if |s| == 4 && x % 4 == 0 then Some(Ungroup(v, w, x, 0)[..2]) else None
        else if Value(s[3]).None? then None
        else
          match Decode(s[4..])
          case None => None
          case Some(rest) => Some(Ungroup(v, w, x, Value(s[3]).value) + rest)
  }

  /** Decoding inverts encoding on every byte string. */
  lemma {:induction false} DecodeOfEncode(b: Bytes)
    ensures Decode(Encode(b)) == Some(b)
  {
    if |b| == 1 {
      DecodeOfOne(b[0]);
      assert b == [b[0]];
    } else if |b| == 2 {
      DecodeOfTwo(b[0], b[1]);
      assert b == [b[0], b[1]];
    } else if |b| > 2 {
      var g := Group(b[0], b[1], b[2]);
      GroupValues(b[0], b[1], b[2]);
      DecodeOfEncode(b[3..]);
      assert Encode(b)[4..] == Encode(b[3..]);
      assert b == [b[0], b[1], b[2]] + b[3..];
    }
  }

  lemma GroupValues(x: byte, y: byte, z: byte)
    ensures var g := Group(x, y, z);
            && Ungroup(g[0], g[1], g[2], g[3]) == [x, y, z]
            && forall i :: 0 <= i < 4 ==> Value(Symbol(g[i])) == Some(g[i])
  {
    var g := Group(x, y, z);
    UngroupOfGroup(x, y, z);
    forall i | 0 <= i < 4 ensures Value(Symbol(g[i])) == Some(g[i]) {
      ValueOfSymbol(g[i]);
    }
  }

  lemma DecodeOfOne(x: byte)
    ensures Decode(Encode([x])) == Some([x])
  {
    var g := Group(x, 0, 0);
    GroupValues(x, 0, 0);
    assert g[1] % 16 == 0 && g[2] == 0 && g[3] == 0;
    assert Encode([x]) == [Symbol(g[0]), Symbol(g[1]), '=', '='];
    assert [x, 0, 0][..1] == [x];
  }

  lemma DecodeOfTwo(x: byte, y: byte)
    ensures Decode(Encode([x, y])) == Some([x, y])
  {
    var g := Group(x, y, 0);
    GroupValues(x, y, 0);
    assert g[2] % 4 == 0 && g[3] == 0;
    assert Encode([x, y]) == [Symbol(g[0]), Symbol(g[1]), Symbol(g[2]), '='];
    assert [x, y, 0][..2] == [x, y];
  }

  /** Every accepted string is the canonical encoding of what it decodes to. */
  lemma {:induction false} EncodeOfDecode(s: string)
    requires Decode(s).Some?
    ensures Encode(Decode(s).value) == s
  {
    if |s| != 0 && s[3] == '=' {
      EncodeOfPadded(s);
    } else if |s| != 0 {
      DecodeOfGroup(s);
      EncodeOfDecode(s[4..]);
      EncodeOfGroup(s[..4], Decode(s[4..]).value);
      assert s == s[..4] + s[4..];
    }
  }

  predicate FourSymbols(s: string) {
    |s| == 4 && Value(s[0]).Some? && Value(s[1]).Some? && Value(s[2]).Some? && Value(s[3]).Some?
  }

  function OfSymbols(s: string): (r: Bytes)
    requires FourSymbols(s)
    ensures |r| == 3
  {
    Ungroup(Value(s[0]).value, Value(s[1]).value, Value(s[2]).value, Value(s[3]).value)
  }

  lemma DecodeOfGroup(s: string)
    requires s != "" && Decode(s).Some? && s[3] != '='
    ensures FourSymbols(s[..4]) && Decode(s[4..]).Some? && Decode(s).value == OfSymbols(s[..4]) + Decode(s[4..]).value
  {
    var t := s[..4];
    assert t[0] == s[0] && t[1] == s[1] && t[2] == s[2] && t[3] == s[3];
  }

  lemma EncodeOfGroup(s: string, rest: Bytes)
    requires FourSymbols(s)
    ensures Encode(OfSymbols(s) + rest) == s + Encode(rest)
  {
    var b := OfSymbols(s) + rest;
    SymbolOfValue(s[0]);
    SymbolOfValue(s[1]);
    SymbolOfValue(s[2]);
    SymbolOfValue(s[3]);
    GroupOfUngroup(Value(s[0]).value, Value(s[1]).value, Value(s[2]).value, Value(s[3]).value);
    assert b[3..] == rest;
  }

  lemma EncodeOfPadded(s: string)
    requires |s| >= 4 && s[3] == '=' && Decode(s).Some?
    ensures Encode(Decode(s).value) == s
  {
    var v, w := Value(s[0]).value, Value(s[1]).value;
    var x := if s[2] == '=' then 0 else Value(s[2]).value;
    SymbolOfValue(s[0]);
    SymbolOfValue(s[1]);
    if s[2] != '=' {
      SymbolOfValue(s[2]);
    }
    GroupOfUngroup(v, w, x, 0);
  }

  lemma GroupsOfThree(n: nat)
    requires n >= 3
    ensures (n + 2) / 3 * 4 == 4 + (n - 3 + 2) / 3 * 4
  {}

  /** The exact length of an encoding: four characters per started group of three bytes. */
  lemma {:induction false} EncodedLength(b: Bytes)
    ensures |Encode(b)| == (|b| + 2) / 3 * 4
  {
    if |b| > 2 {
      EncodedLength(b[3..]);
      assert |Encode(b)| == 4 + |Encode(b[3..])|;
      GroupsOfThree(|b|);
    }
  }

  /** Three bytes are never produced from fewer than four characters. */
  lemma DecodedLength(s: string)
    requires Decode(s).Some?
    ensures |Decode(s).value| * 4 <= |s| * 3
  {
    EncodeOfDecode(s);
    EncodedLength(Decode(s).value);
  }

  lemma SymbolsArePlain()
    ensures forall v: sextet :: Plain(Symbol(v))
  {}

  /** An encoding is printable ASCII without quotes or backslashes. */
  lemma {:induction false} EncodedIsPlain(b: Bytes)
    ensures forall c :: c in Encode(b) ==> Plain(c)
  {
    SymbolsArePlain();
    if |b| > 2 {
      EncodedIsPlain(b[3..]);
    }
  }

  // ---- Bits ----

  const CAPITALS := "ABCDEFGHIJKLMNOPQRSTUVWXYZ"
  const SMALLS := "abcdefghijklmnopqrstuvwxyz"
  const OTHERS := "0123456789+/"

  lemma CapitalAt(v: nat)
    requires v < 26
    ensures |CAPITALS| == 26 && CAPITALS[v] as int == 65 + v
  {
  }

  lemma SmallAt(v: nat)
    requires v < 26
    ensures |SMALLS| == 26 && SMALLS[v] as int == 97 + v
  {
  }

  lemma OtherAt(v: nat)
    requires v < 12
    ensures |OTHERS| == 12 && OTHERS[v] as int == if v < 10 then 48 + v else if v == 10 then 43 else 47
  {
  }

  /** The symbols are those of table 1 in section 4 of RFC 4648. */
  lemma SymbolIs(v: sextet)
    ensures |CAPITALS + SMALLS + OTHERS| == 64 && Symbol(v) == (CAPITALS + SMALLS + OTHERS)[v]
  {
    CapitalAt(if v < 26 then v else 0);
    SmallAt(if 26 <= v < 52 then v - 26 else 0);
    OtherAt(if 52 <= v then v - 52 else 0);
  }

  function Base256(x: nat, y: nat, z: nat): nat {
    (x * 256 + y) * 256 + z
  }

  function Base64(v: nat, w: nat, x: nat, y: nat): nat {
    ((v * 64 + w) * 64 + x) * 64 + y
  }

  /** The number that bytes continue in base 256. */
  function BytesNumber(acc: nat, b: Bytes): nat
    decreases |b|
  {
    if b == [] then acc else BytesNumber(acc * 256 + b[0], b[1..])
  }

  /** Padding counts as zero. */
  function Worth(c: char): nat {
    if Value(c).Some? then Value(c).value else 0
  }

  /** The number that symbols continue in base 64. */
  function TextNumber(acc: nat, s: string): nat
    decreases |s|
  {
    if s == "" then acc else TextNumber(acc * 64 + Worth(s[0]), s[1..])
  }

  lemma GroupIsNumber(x: byte, y: byte, z: byte)
    ensures var g := Group(x, y, z); Base64(g[0], g[1], g[2], g[3]) == Base256(x, y, z)
  {
    assert x as int == x / 4 * 4 + x % 4;
    assert y as int == y / 16 * 16 + y % 16;
    assert z as int == z / 64 * 64 + z % 64;
  }

  lemma BytesNumberOfThree(acc: nat, x: byte, y: byte, z: byte, rest: Bytes)
    ensures BytesNumber(acc, [x, y, z] + rest) == BytesNumber(acc * 16777216 + Base256(x, y, z), rest)
  {
    var b := [x, y, z] + rest;
    assert b[1..] == [y, z] + rest && ([y, z] + rest)[1..] == [z] + rest && ([z] + rest)[1..] == rest;
    var m := acc * 256 + x;
    assert BytesNumber(acc, b) == BytesNumber(m, [y, z] + rest);
    assert BytesNumber(m, [y, z] + rest) == BytesNumber(m * 256 + y, [z] + rest);
    assert BytesNumber(m * 256 + y, [z] + rest) == BytesNumber((m * 256 + y) * 256 + z, rest);
  }

  lemma TextNumberOfFour(acc: nat, c0: char, c1: char, c2: char, c3: char, rest: string)
    ensures TextNumber(acc, [c0, c1, c2, c3] + rest)
            == TextNumber(acc * 16777216 + Base64(Worth(c0), Worth(c1), Worth(c2), Worth(c3)), rest)
  {
    var s := [c0, c1, c2, c3] + rest;
    assert s[1..] == [c1, c2, c3] + rest && ([c1, c2, c3] + rest)[1..] == [c2, c3] + rest;
    assert ([c2, c3] + rest)[1..] == [c3] + rest && ([c3] + rest)[1..] == rest;
    var m := acc * 64 + Worth(c0);
    var n := m * 64 + Worth(c1);
    var k := n * 64 + Worth(c2);
    assert TextNumber(acc, s) == TextNumber(m, [c1, c2, c3] + rest);
    assert TextNumber(m, [c1, c2, c3] + rest) == TextNumber(n, [c2, c3] + rest);
    assert TextNumber(n, [c2, c3] + rest) == TextNumber(k, [c3] + rest);
    assert TextNumber(k, [c3] + rest) == TextNumber(k * 64 + Worth(c3), rest);
  }

  /** How many bytes are missing to a whole group. */
  function Missing(n: nat): nat {
    if n % 3 == 0 then 0 else 3 - n % 3
  }

  function Filled(b: Bytes): Bytes {
    b + seq(Missing(|b|), i => 0)
  }

  /**
    * The text is the bytes read as one number, six bits to a symbol, from high to low: the bytes,
    * filled up with zeros to groups of three, are in base 256 what the symbols are in base 64.
    */
  lemma {:induction false} TextIsTheNumber(acc: nat, b: Bytes)
    ensures TextNumber(acc, Encode(b)) == BytesNumber(acc, Filled(b))
    decreases |b|
  {
    if |b| > 2 {
      var n := acc * 16777216 + Base256(b[0], b[1], b[2]);
      EncodedGroup(acc, b);
      FilledGroup(b);
      BytesNumberOfThree(acc, b[0], b[1], b[2], Filled(b[3..]));
      TextIsTheNumber(n, b[3..]);
    } else if |b| > 0 {
      PaddedNumber(acc, b, if |b| == 2 then b[1] else 0);
    }
  }

  lemma FilledGroup(b: Bytes)
    requires |b| > 2
    ensures Filled(b) == [b[0], b[1], b[2]] + Filled(b[3..])
  {
    assert Missing(|b|) == Missing(|b[3..]|);
  }

  lemma GroupWorth(acc: nat, x: byte, y: byte, z: byte, rest: string)
    ensures var g := Group(x, y, z);
            TextNumber(acc, [Symbol(g[0]), Symbol(g[1]), Symbol(g[2]), Symbol(g[3])] + rest)
            == TextNumber(acc * 16777216 + Base256(x, y, z), rest)
  {
    var g := Group(x, y, z);
    GroupIsNumber(x, y, z);
    GroupValues(x, y, z);
    TextNumberOfFour(acc, Symbol(g[0]), Symbol(g[1]), Symbol(g[2]), Symbol(g[3]), rest);
  }

  lemma EncodedGroup(acc: nat, b: Bytes)
    requires |b| > 2
    ensures TextNumber(acc, Encode(b)) == TextNumber(acc * 16777216 + Base256(b[0], b[1], b[2]), Encode(b[3..]))
  {
    GroupWorth(acc, b[0], b[1], b[2], Encode(b[3..]));
  }

  lemma PaddedNumber(acc: nat, b: Bytes, y: byte)
    requires 1 <= |b| <= 2 && y == if |b| == 2 then b[1] else 0
    ensures TextNumber(acc, Encode(b)) == BytesNumber(acc, Filled(b))
  {
    var g, t := Group(b[0], y, 0), Encode(b);
    GroupIsNumber(b[0], y, 0);
    PaddedWorth(b, y);
    TextNumberOfFour(acc, t[0], t[1], t[2], t[3], "");
    assert [t[0], t[1], t[2], t[3]] + "" == t;
    BytesNumberOfThree(acc, b[0], y, 0, []);
    assert [b[0], y, 0] + [] == Filled(b);
  }

  lemma PaddedWorth(b: Bytes, y: byte)
    requires 1 <= |b| <= 2 && y == if |b| == 2 then b[1] else 0
    ensures |Encode(b)| == 4
    ensures forall i :: 0 <= i < 4 ==> Worth(Encode(b)[i]) == Group(b[0], y, 0)[i]
  {
    GroupValues(b[0], y, 0);
    var g := Group(b[0], y, 0);
    assert g[3] == 0 && (|b| == 1 ==> g[2] == 0);
  }

  lemma PaddingOfGroup(t: string, n: nat, m: nat)
    requires |t| == 4 + n && m <= n
    requires (forall i :: 0 <= i < 4 ==> t[i] != '=') && forall i :: 0 <= i < n ==> (t[4..][i] == '=' <==> i >= n - m)
    ensures forall i :: 0 <= i < |t| ==> (t[i] == '=' <==> i >= |t| - m)
  {
    forall i | 4 <= i < |t| ensures t[i] == '=' <==> i >= |t| - m {
      assert t[4..][i - 4] == t[i];
    }
  }

  lemma GroupFirst(b: Bytes)
    requires |b| > 2
    ensures |Encode(b)| == 4 + |Encode(b[3..])| && Encode(b)[4..] == Encode(b[3..])
    ensures forall i :: 0 <= i < 4 ==> Encode(b)[i] != '='
  {
    var g := Group(b[0], b[1], b[2]);
    var front := [Symbol(g[0]), Symbol(g[1]), Symbol(g[2]), Symbol(g[3])];
    assert Encode(b) == front + Encode(b[3..]);
  }

  lemma SameMissing(n: nat)
    requires n > 2
    ensures Missing(n - 3) == Missing(n)
  {
  }

  /** The text ends in one equals sign for each byte that is missing, and has no other. */
  lemma {:induction false} PaddingIs(b: Bytes)
    ensures |Encode(b)| >= Missing(|b|)
    ensures forall i :: 0 <= i < |Encode(b)| ==> (Encode(b)[i] == '=' <==> i >= |Encode(b)| - Missing(|b|))
    decreases |b|
  {
    if |b| > 2 {
      PaddingIs(b[3..]);
      GroupFirst(b);
      SameMissing(|b|);
      PaddingOfGroup(Encode(b), |Encode(b[3..])|, Missing(|b|));
    }
  }
}
