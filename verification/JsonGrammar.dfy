/**
  * The grammar of RFC 8259, as a relation between texts and values, and the proof that the
  * parser accepts exactly the texts it describes. `XAt(s, x, rest)` says that `x` stands at the
  * front of `s` and `rest` follows it.
  */
module JsonGrammar {
  import opened Basics
  import opened Json
  import Hex

  /** `t` is `s` after some blanks (section 2). */
  ghost predicate Skips(s: string, t: string) {
    && |t| <= |s| && t == s[|s| - |t|..]
    && forall i :: 0 <= i < |s| - |t| ==> s[i] == ' ' || s[i] == '\t' || s[i] == '\n' || s[i] == '\r'
  }

  // ---- Strings (section 7) ----

  ghost predicate FourDigits(s: string, n: nat, t: string) {
    && |s| == 4 + |t| && s[4..] == t
    && (forall i :: 0 <= i < 4 ==> Hex.Value(s[i]).Some?)
    && n == ((Hex.Value(s[0]).value * 16 + Hex.Value(s[1]).value) * 16 + Hex.Value(s[2]).value) * 16 + Hex.Value(s[3]).value
  }

  /** The characters with an escape of two characters. */
  function ShortEscape(c: char): Option<char> {
    if c == '"' || c == '\\' || c == '/' then Some(c)
    else if c == 'b' then Some(8 as char)
    else if c == 'f' then Some(12 as char)
    else if c == 'n' then Some('\n')
    else if c == 'r' then Some('\r')
    else if c == 't' then Some('\t')
    else None
  }

  predicate High(n: nat) { 0xD800 <= n < 0xDC00 }
  predicate LowHalf(n: nat) { 0xDC00 <= n < 0xE000 }

  /** Two escapes in a row, of a high and a low half. */
  ghost predicate Halves(s: string, n: nat, u: string, m: nat, t: string) {
    && |s| >= 2 && s[..2] == "\\u" && FourDigits(s[2..], n, u) && High(n)
    && |u| >= 2 && u[..2] == "\\u" && FourDigits(u[2..], m, t) && LowHalf(m)
  }

  /** A pair of escapes for a character beyond the basic plane. */
  ghost predicate PairAt(s: string, c: char, t: string) {
    exists n: nat, m: nat, u :: Halves(s, n, u, m, t) && c as int == 0x10000 + (n - 0xD800) * 0x400 + (m - 0xDC00)
  }

  ghost predicate CharAt(s: string, c: char, t: string) {
    || (c >= ' ' && c != '"' && c != '\\' && s == [c] + t)
    || (|s| >= 2 && s[0] == '\\' && ShortEscape(s[1]) == Some(c) && s[2..] == t)
    || (|s| >= 2 && s[..2] == "\\u" && FourDigits(s[2..], c as int, t))
    || (|s| >= 2 && s[..2] == "\\u" && PairAt(s, c, t))
  }

  /** A string after its opening quote. */
  ghost predicate StringAt(s: string, text: string, rest: string)
    decreases |text|
  {
    if text == "" then s == "\"" + rest
    else exists t :: CharAt(s, text[0], t) && StringAt(t, text[1..], rest)
  }

  lemma FourDigitsAre(s: string)
    ensures ParseHex4(s).Some? ==> FourDigits(s, ParseHex4(s).value, s[4..])
    ensures forall n: nat, t :: FourDigits(s, n, t) ==> ParseHex4(s) == Some(n) && t == s[4..]
  {
  }

  lemma PairIsRead(s: string, c: char, t: string)
    requires |s| >= 2 && s[..2] == "\\u" && PairAt(s, c, t)
    ensures ParseChar(s) == Some((c, t))
  {
    var n: nat, m: nat, u :| Halves(s, n, u, m, t) && c as int == 0x10000 + (n - 0xD800) * 0x400 + (m - 0xDC00);
    HalvesAreRead(s, n, u, m, t);
    assert s[0] == s[..2][0] && s[1] == s[..2][1];
  }

  lemma HalvesAreRead(s: string, n: nat, u: string, m: nat, t: string)
    requires Halves(s, n, u, m, t)
    ensures ParseUnicode(s[2..]) == Some(((0x10000 + (n - 0xD800) * 1024 + (m - 0xDC00)) as char, t))
  {
    var v := s[2..];
    FourDigitsAre(v);
    FourDigitsAre(u[2..]);
    assert u[0] == u[..2][0] && u[1] == u[..2][1];
    assert v[4..] == u;
    assert v[4] == u[0] && v[5] == u[1] && v[6..] == u[2..];
    assert v[10..] == u[2..][4..];
  }

  lemma CharIsRead(s: string, c: char, t: string)
    requires CharAt(s, c, t)
    ensures s != "" && s[0] != '"' && ParseChar(s) == Some((c, t))
  {
    if s == [c] + t {
      assert s[0] == c && s[1..] == t;
    } else {
      assert s[0] == s[..2][0] && s[1] == s[..2][1];
      if s[1] == 'u' {
        FourDigitsAre(s[2..]);
        if !FourDigits(s[2..], c as int, t) {
          PairIsRead(s, c, t);
        }
      }
    }
  }

  lemma ReadIsPair(s: string)
    requires |s| >= 2 && s[..2] == "\\u" && ParseUnicode(s[2..]).Some?
    ensures var (c, t) := ParseUnicode(s[2..]).value; FourDigits(s[2..], c as int, t) || PairAt(s, c, t)
  {
    var v := s[2..];
    var (c, t) := ParseUnicode(v).value;
    FourDigitsAre(v);
    var n := ParseHex4(v).value;
    if High(n) {
      var u := v[4..];
      assert u[..2] == "\\u" && u[2..] == v[6..];
      FourDigitsAre(u[2..]);
      assert u[2..][4..] == v[10..];
      assert Halves(s, n, u, ParseHex4(u[2..]).value, t);
    }
  }

  lemma ReadIsChar(s: string)
    requires s != "" && s[0] != '"' && ParseChar(s).Some?
    ensures CharAt(s, ParseChar(s).value.0, ParseChar(s).value.1)
  {
    if s[0] != '\\' {
      assert s == [s[0]] + s[1..];
    } else if s[1] == 'u' {
      assert s[..2] == "\\u";
      ReadIsPair(s);
    }
  }

  lemma {:induction false} StringIsRead(s: string, text: string, rest: string)
    requires StringAt(s, text, rest)
    ensures ParseString(s) == Some((text, rest))
    decreases |text|
  {
    if text == "" {
      assert s[1..] == rest;
    } else {
      var t :| CharAt(s, text[0], t) && StringAt(t, text[1..], rest);
      CharIsRead(s, text[0], t);
      StringIsRead(t, text[1..], rest);
      assert text == [text[0]] + text[1..];
    }
  }

  lemma {:induction false} ReadIsString(s: string)
    requires ParseString(s).Some?
    ensures StringAt(s, ParseString(s).value.0, ParseString(s).value.1)
    decreases |s|
  {
    var (text, rest) := ParseString(s).value;
    if s[0] == '"' {
      assert s == "\"" + s[1..];
    } else {
      var t := ParseChar(s).value.1;
      ReadIsChar(s);
      ReadIsString(t);
      assert text[1..] == ParseString(t).value.0;
    }
  }

  // ---- Numbers (section 6: natural numbers without leading zeros) ----

  ghost predicate NumberAt(s: string, n: nat, rest: string) {
    s == PrintNat(n) + rest && (n == 0 || NoDigit(rest))
  }

  lemma NumberIsRead(s: string, n: nat, rest: string)
    requires NumberAt(s, n, rest)
    ensures s != "" && Digit(s[0]) && ParseNat(s) == Some((n, rest))
  {
    if n == 0 {
      assert PrintNat(0) == "0" && s[1..] == rest;
      assert DigitsValue("0") == DigitsValue("0"[..0]) * 10 + 0;
    } else {
      NatRoundTrip(n, rest);
    }
  }

  lemma {:induction false} DigitsEnd(s: string)
    ensures NoDigit(s[|Digits(s)|..]) && forall c :: c in Digits(s) ==> Digit(c)
  {
    if s != "" && Digit(s[0]) {
      DigitsEnd(s[1..]);
      assert s[|Digits(s)|..] == s[1..][|Digits(s[1..])|..];
    }
  }

  lemma OneMoreDigit(front: string, last: char)
    requires Digit(last) && PrintNat(DigitsValue(front)) == front && DigitsValue(front) > 0
    ensures PrintNat(DigitsValue(front + [last])) == front + [last] && DigitsValue(front + [last]) > 0
  {
    var d, n, k := front + [last], DigitsValue(front), (last - '0') as int;
    assert d[..|d| - 1] == front && d[|d| - 1] == last;
    assert DigitsValue(d) == n * 10 + k;
    LastDigit(n, k);
  }

  lemma LastDigit(n: nat, k: nat)
    requires k < 10
    ensures (n * 10 + k) / 10 == n && (n * 10 + k) % 10 == k
  {
  }

  /** Digits without a leading zero are what their value is printed as. */
  lemma {:induction false} DigitsArePrinted(d: string)
    requires d != "" && (forall c :: c in d ==> Digit(c)) && (d[0] != '0' || |d| == 1)
    ensures PrintNat(DigitsValue(d)) == d && (d[0] != '0' ==> DigitsValue(d) > 0)
    decreases |d|
  {
    var front, last := d[..|d| - 1], d[|d| - 1];
    assert last in d && d == front + [last];
    if front != "" {
      assert front[0] == d[0] && forall c :: c in front ==> c in d;
      DigitsArePrinted(front);
      OneMoreDigit(front, last);
    } else {
      assert DigitsValue(front) == 0;
    }
  }

  lemma ReadIsNumber(s: string)
    requires s != "" && Digit(s[0]) && ParseNat(s).Some?
    ensures NumberAt(s, ParseNat(s).value.0, ParseNat(s).value.1)
  {
    var d := if s[0] == '0' then "0" else Digits(s);
    DigitsEnd(s);
    assert s == d + s[|d|..];
    DigitsArePrinted(d);
  }

  // ---- Values (sections 3 to 5) ----

  ghost predicate ValueAt(s: string, j: Json, rest: string)
    decreases j, 2
  {
    exists u :: Skips(s, u) && FirstIs(u, j, rest)
  }

  ghost predicate FirstIs(u: string, j: Json, rest: string)
    decreases j, 1
  {
    u != "" &&
    match j
    case Str(text) => u[0] == '"' && StringAt(u[1..], text, rest)
    case Num(n) => NumberAt(u, n, rest)
    case Arr(items) => u[0] == '[' && if items == [] then ClosesWith(u[1..], ']', rest) else ItemsAt(u[1..], items, rest)
    case Obj(members) => u[0] == '{' && if members == [] then ClosesWith(u[1..], '}', rest) else MembersAt(u[1..], members, rest)
  }

  /** A character that may have blanks before it. */
  ghost predicate ClosesWith(s: string, c: char, rest: string) {
    exists u :: Skips(s, u) && u == [c] + rest
  }

  /** One or more items with commas between them, and the closing bracket. */
  ghost predicate ItemsAt(s: string, items: seq<Json>, rest: string)
    requires items != []
    decreases items, 0
  {
    exists t ::
      && ValueAt(s, items[0], t)
      && if |items| == 1 then ClosesWith(t, ']', rest)
         else exists v :: ClosesWith(t, ',', v) && ItemsAt(v, items[1..], rest)
  }

  ghost predicate MembersAt(s: string, members: seq<Member>, rest: string)
    requires members != []
    decreases members, 0
  {
    exists t ::
      && MemberAt(s, members[0], t)
      && if |members| == 1 then ClosesWith(t, '}', rest)
         else exists v :: ClosesWith(t, ',', v) && MembersAt(v, members[1..], rest)
  }

  /** A name and a value with a colon between them. */
  ghost predicate MemberAt(s: string, m: Member, rest: string)
    decreases m, 2
  {
    exists q, t, v ::
      ClosesWith(s, '"', q) && StringAt(q, m.name, t) && ClosesWith(t, ':', v) && ValueAt(v, m.value, rest)
  }

  /** A document: a value with nothing but blanks around it. */
  ghost predicate DocumentOf(s: string, j: Json) {
    exists rest :: ValueAt(s, j, rest) && Skips(rest, "")
  }

  // ---- The parser reads exactly this ----

  lemma {:induction false} BlanksAreSkipped(s: string)
    ensures Skips(s, SkipBlanks(s)) && SkipBlanks(SkipBlanks(s)) == SkipBlanks(s)
  {
    if s != "" && Blank(s[0]) {
      BlanksAreSkipped(s[1..]);
      var t := SkipBlanks(s[1..]);
      assert forall i :: 0 < i < |s| - |t| ==> s[i] == s[1..][i - 1];
    }
  }

  lemma {:induction false} SkipsAre(s: string, u: string)
    requires Skips(s, u) && (u == "" || !Blank(u[0]))
    ensures SkipBlanks(s) == u
  {
    if |s| > |u| {
      SkipsAre(s[1..], u);
    }
  }

  lemma ClosesExactlyWhen(s: string, c: char, rest: string)
    requires !Blank(c)
    ensures ClosesWith(s, c, rest) <==> SkipBlanks(s) == [c] + rest
  {
    BlanksAreSkipped(s);
    if u :| Skips(s, u) && u == [c] + rest {
      SkipsAre(s, u);
    }
  }

  /** Blanks in front make no difference. */
  lemma SameAfterBlanks(s: string)
    ensures ParseValue(SkipBlanks(s)) == ParseValue(s)
    ensures ParseItems(SkipBlanks(s)) == ParseItems(s)
    ensures ParseMember(SkipBlanks(s)) == ParseMember(s)
    ensures ParseMembers(SkipBlanks(s)) == ParseMembers(s)
  {
    BlanksAreSkipped(s);
    assert ParseValue(SkipBlanks(s)) == ParseValue(s);
    assert ParseMember(SkipBlanks(s)) == ParseMember(s);
  }

  lemma {:induction false} ValueIsRead(s: string, j: Json, rest: string)
    requires ValueAt(s, j, rest)
    ensures ParseValue(s) == Some((j, rest))
    decreases j, 2
  {
    var u :| Skips(s, u) && FirstIs(u, j, rest);
    FirstIsNotBlank(u, j, rest);
    SkipsAre(s, u);
    SameAfterBlanks(s);
    match j {
      case Str(text) =>
        StringIsRead(u[1..], text, rest);
      case Num(n) =>
        NumberIsRead(u, n, rest);
      case Arr(items) =>
        if items != [] {
          ItemsAreRead(u[1..], items, rest);
        }
        ArrayIsRead(u, items, rest);
      case Obj(members) =>
        if members != [] {
          MembersAreRead(u[1..], members, rest);
        }
        ObjectIsRead(u, members, rest);
    }
  }

  lemma FirstIsNotBlank(u: string, j: Json, rest: string)
    requires FirstIs(u, j, rest)
    ensures u != "" && !Blank(u[0])
  {
    if j.Num? {
      NumberIsRead(u, j.n, rest);
    }
  }

  lemma ArrayIsRead(u: string, items: seq<Json>, rest: string)
    requires u != "" && u[0] == '['
    requires if items == [] then ClosesWith(u[1..], ']', rest) else ParseItems(u[1..]) == Some((items, rest))
    ensures ParseValue(u) == Some((Arr(items), rest))
  {
    var v := SkipBlanks(u[1..]);
    if items == [] {
      ClosesExactlyWhen(u[1..], ']', rest);
      assert v[1..] == rest;
    } else {
      SameAfterBlanks(u[1..]);
      BlanksAreSkipped(u[1..]);
      ItemsStart(v);
    }
  }

  lemma ItemsStart(v: string)
    requires ParseItems(v).Some? && SkipBlanks(v) == v
    ensures v != "" && v[0] != ']'
  {
  }

  lemma MembersStart(v: string)
    requires ParseMembers(v).Some? && SkipBlanks(v) == v
    ensures v != "" && v[0] == '"'
  {
  }

  lemma ObjectIsRead(u: string, members: seq<Member>, rest: string)
    requires u != "" && u[0] == '{'
    requires if members == [] then ClosesWith(u[1..], '}', rest) else ParseMembers(u[1..]) == Some((members, rest))
    ensures ParseValue(u) == Some((Obj(members), rest))
  {
    var v := SkipBlanks(u[1..]);
    if members == [] {
      ClosesExactlyWhen(u[1..], '}', rest);
      assert v[1..] == rest;
    } else {
      SameAfterBlanks(u[1..]);
      BlanksAreSkipped(u[1..]);
      MembersStart(v);
    }
  }

  lemma {:induction false} ItemsAreRead(s: string, items: seq<Json>, rest: string)
    requires items != [] && ItemsAt(s, items, rest)
    ensures ParseItems(s) == Some((items, rest))
    decreases items, 0
  {
    var t :|
      && ValueAt(s, items[0], t)
      && if |items| == 1 then ClosesWith(t, ']', rest)
         else exists v :: ClosesWith(t, ',', v) && ItemsAt(v, items[1..], rest);
    ValueIsRead(s, items[0], t);
    if |items| == 1 {
      EndItemsRead(s, items[0], t, rest);
      assert items == [items[0]];
    } else {
      var v :| ClosesWith(t, ',', v) && ItemsAt(v, items[1..], rest);
      ItemsAreRead(v, items[1..], rest);
      MoreItemsRead(s, items[0], t, v, items[1..], rest);
      assert items == [items[0]] + items[1..];
    }
  }

  lemma EndItemsRead(s: string, item: Json, t: string, rest: string)
    requires ParseValue(s) == Some((item, t)) && ClosesWith(t, ']', rest)
    ensures ParseItems(s) == Some(([item], rest))
  {
    ClosesExactlyWhen(t, ']', rest);
    assert ([']'] + rest)[1..] == rest;
  }

  lemma MoreItemsRead(s: string, item: Json, t: string, v: string, items: seq<Json>, rest: string)
    requires ParseValue(s) == Some((item, t)) && ClosesWith(t, ',', v) && ParseItems(v) == Some((items, rest))
    ensures ParseItems(s) == Some(([item] + items, rest))
  {
    ClosesExactlyWhen(t, ',', v);
    assert ([','] + v)[1..] == v;
  }

  lemma {:induction false} MembersAreRead(s: string, members: seq<Member>, rest: string)
    requires members != [] && MembersAt(s, members, rest)
    ensures ParseMembers(s) == Some((members, rest))
    decreases members, 0
  {
    var t :|
      && MemberAt(s, members[0], t)
      && if |members| == 1 then ClosesWith(t, '}', rest)
         else exists v :: ClosesWith(t, ',', v) && MembersAt(v, members[1..], rest);
    MemberIsRead(s, members[0], t);
    if |members| == 1 {
      EndMembersRead(s, members[0], t, rest);
      assert members == [members[0]];
    } else {
      var v :| ClosesWith(t, ',', v) && MembersAt(v, members[1..], rest);
      MembersAreRead(v, members[1..], rest);
      MoreMembersRead(s, members[0], t, v, members[1..], rest);
      assert members == [members[0]] + members[1..];
    }
  }

  lemma EndMembersRead(s: string, member: Member, t: string, rest: string)
    requires ParseMember(s) == Some((member, t)) && ClosesWith(t, '}', rest)
    ensures ParseMembers(s) == Some(([member], rest))
  {
    ClosesExactlyWhen(t, '}', rest);
    assert (['}'] + rest)[1..] == rest;
  }

  lemma MoreMembersRead(s: string, member: Member, t: string, v: string, members: seq<Member>, rest: string)
    requires ParseMember(s) == Some((member, t)) && ClosesWith(t, ',', v) && ParseMembers(v) == Some((members, rest))
    ensures ParseMembers(s) == Some(([member] + members, rest))
  {
    ClosesExactlyWhen(t, ',', v);
    assert ([','] + v)[1..] == v;
  }

  lemma {:induction false} MemberIsRead(s: string, m: Member, rest: string)
    requires MemberAt(s, m, rest)
    ensures ParseMember(s) == Some((m, rest))
    decreases m, 2
  {
    var q, t, v :|
      ClosesWith(s, '"', q) && StringAt(q, m.name, t) && ClosesWith(t, ':', v) && ValueAt(v, m.value, rest);
    ClosesExactlyWhen(s, '"', q);
    StringIsRead(q, m.name, t);
    ClosesExactlyWhen(t, ':', v);
    ValueIsRead(v, m.value, rest);
    assert (['"'] + q)[1..] == q && ([':'] + v)[1..] == v;
  }

  lemma {:induction false} ReadIsValue(s: string)
    requires ParseValue(s).Some?
    ensures ValueAt(s, ParseValue(s).value.0, ParseValue(s).value.1)
    decreases |s|, 0
  {
    var (j, rest) := ParseValue(s).value;
    var t := SkipBlanks(s);
    BlanksAreSkipped(s);
    if t[0] == '"' {
      ReadIsString(t[1..]);
    } else if Digit(t[0]) {
      ReadIsNumber(t);
    } else {
      var u := SkipBlanks(t[1..]);
      SameAfterBlanks(t[1..]);
      if t[0] == '[' {
        if u != "" && u[0] == ']' {
          ClosesExactlyWhen(t[1..], ']', u[1..]);
          assert u == [']'] + u[1..];
        } else {
          ReadIsItems(t[1..]);
        }
      } else {
        if u != "" && u[0] == '}' {
          ClosesExactlyWhen(t[1..], '}', u[1..]);
          assert u == ['}'] + u[1..];
        } else {
          ReadIsMembers(t[1..]);
        }
      }
    }
  }

  lemma {:induction false} ReadIsItems(s: string)
    requires ParseItems(s).Some?
    ensures ParseItems(s).value.0 != [] && ItemsAt(s, ParseItems(s).value.0, ParseItems(s).value.1)
    decreases |s|, 1
  {
    var (item, after) := ParseValue(s).value;
    var t := SkipBlanks(after);
    ItemsParts(s, item, after, t);
    ReadIsValue(s);
    OpensWith(after, t[0]);
    if t[0] == ',' {
      ReadIsItems(t[1..]);
      MoreItemsStand(s, item, after, t[1..], ParseItems(t[1..]).value.0, ParseItems(t[1..]).value.1);
    } else {
      EndItemsStand(s, item, after, t[1..]);
    }
  }

  lemma ItemsParts(s: string, item: Json, after: string, t: string)
    requires ParseItems(s).Some? && ParseValue(s) == Some((item, after)) && t == SkipBlanks(after)
    ensures t != "" && (t[0] == ',' || t[0] == ']')
    ensures t[0] == ',' ==>
              ParseItems(t[1..]).Some? && ParseItems(s).value == ([item] + ParseItems(t[1..]).value.0, ParseItems(t[1..]).value.1)
    ensures t[0] != ',' ==> ParseItems(s).value == ([item], t[1..])
  {
  }

  lemma EndItemsStand(s: string, item: Json, t: string, rest: string)
    requires ValueAt(s, item, t) && ClosesWith(t, ']', rest)
    ensures ItemsAt(s, [item], rest)
  {
  }

  lemma MoreItemsStand(s: string, item: Json, t: string, v: string, items: seq<Json>, rest: string)
    requires ValueAt(s, item, t) && ClosesWith(t, ',', v) && items != [] && ItemsAt(v, items, rest)
    ensures ItemsAt(s, [item] + items, rest)
  {
    var all := [item] + items;
    assert all[0] == item && |all| > 1 && all[1..] == items;
    assert ClosesWith(t, ',', v) && ItemsAt(v, all[1..], rest);
  }

  lemma {:induction false} ReadIsMembers(s: string)
    requires ParseMembers(s).Some?
    ensures ParseMembers(s).value.0 != [] && MembersAt(s, ParseMembers(s).value.0, ParseMembers(s).value.1)
    decreases |s|, 1
  {
    var (member, after) := ParseMember(s).value;
    var t := SkipBlanks(after);
    MembersParts(s, member, after, t);
    ReadIsMember(s);
    OpensWith(after, t[0]);
    if t[0] == ',' {
      ReadIsMembers(t[1..]);
      MoreMembersStand(s, member, after, t[1..], ParseMembers(t[1..]).value.0, ParseMembers(t[1..]).value.1);
    } else {
      EndMembersStand(s, member, after, t[1..]);
    }
  }

  lemma MembersParts(s: string, member: Member, after: string, t: string)
    requires ParseMembers(s).Some? && ParseMember(s) == Some((member, after)) && t == SkipBlanks(after)
    ensures t != "" && (t[0] == ',' || t[0] == '}')
    ensures t[0] == ',' ==>
              ParseMembers(t[1..]).Some? && ParseMembers(s).value == ([member] + ParseMembers(t[1..]).value.0, ParseMembers(t[1..]).value.1)
    ensures t[0] != ',' ==> ParseMembers(s).value == ([member], t[1..])
  {
  }

  lemma EndMembersStand(s: string, member: Member, t: string, rest: string)
    requires MemberAt(s, member, t) && ClosesWith(t, '}', rest)
    ensures MembersAt(s, [member], rest)
  {
  }

  lemma MoreMembersStand(s: string, member: Member, t: string, v: string, members: seq<Member>, rest: string)
    requires MemberAt(s, member, t) && ClosesWith(t, ',', v) && members != [] && MembersAt(v, members, rest)
    ensures MembersAt(s, [member] + members, rest)
  {
    var all := [member] + members;
    assert all[0] == member && |all| > 1 && all[1..] == members;
    assert ClosesWith(t, ',', v) && MembersAt(v, all[1..], rest);
  }

  lemma {:induction false} ReadIsMember(s: string)
    requires ParseMember(s).Some?
    ensures MemberAt(s, ParseMember(s).value.0, ParseMember(s).value.1)
    decreases |s|, 0
  {
    var t := SkipBlanks(s);
    var after := ParseString(t[1..]).value.1;
    var u := SkipBlanks(after);
    MemberParts(s, t, after, u);
    ReadIsString(t[1..]);
    ReadIsValue(u[1..]);
    OpensWith(s, '"');
    OpensWith(after, ':');
    MemberStands(s, ParseMember(s).value.0, ParseMember(s).value.1, t[1..], after, u[1..]);
  }

  lemma MemberParts(s: string, t: string, after: string, u: string)
    requires ParseMember(s).Some? && t == SkipBlanks(s) && t != "" && ParseString(t[1..]).Some?
    requires after == ParseString(t[1..]).value.1 && u == SkipBlanks(after)
    ensures t[0] == '"' && u != "" && u[0] == ':' && ParseValue(u[1..]).Some?
    ensures ParseMember(s).value == (Member(ParseString(t[1..]).value.0, ParseValue(u[1..]).value.0), ParseValue(u[1..]).value.1)
  {
  }

  lemma OpensWith(s: string, c: char)
    requires SkipBlanks(s) != "" && SkipBlanks(s)[0] == c
    ensures ClosesWith(s, c, SkipBlanks(s)[1..])
  {
    BlanksAreSkipped(s);
    assert SkipBlanks(s) == [c] + SkipBlanks(s)[1..];
  }

  lemma MemberStands(s: string, m: Member, rest: string, q: string, t: string, v: string)
    requires ClosesWith(s, '"', q) && StringAt(q, m.name, t) && ClosesWith(t, ':', v) && ValueAt(v, m.value, rest)
    ensures MemberAt(s, m, rest)
  {
  }

  /** The parser accepts exactly the documents of the grammar, with their value. */
  lemma ParsesExactlyDocuments(s: string, j: Json)
    ensures Parse(s) == Some(j) <==> DocumentOf(s, j)
  {
    if rest :| ValueAt(s, j, rest) && Skips(rest, "") {
      ValueIsRead(s, j, rest);
      SkipsAre(rest, "");
    }
    if Parse(s) == Some(j) {
      ReadIsValue(s);
      BlanksAreSkipped(ParseValue(s).value.1);
    }
  }
}
