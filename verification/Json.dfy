/**
  * The part of JSON (RFC 8259) that the two vault schemas can accept: strings, unsigned
  * integers, arrays and objects. A document that holds anything else is rejected by the
  * derived deserializers whatever the rest of it is, so the parser fails on it at once.
  * The printer is the compact one of `serde_json::to_vec`.
  */
module Json {
  import opened Basics
  import Hex

  datatype Json =
    | Str(text: string)
    | Num(n: nat)
    | Arr(items: seq<Json>)
    | Obj(members: seq<Member>)

  datatype Member = Member(name: string, value: Json)

  // ---- Characters and strings (section 7 of RFC 8259) ----

  /** How one character of a string is printed. */
  function Escape(c: char): (s: string)
    ensures s != "" && s[0] != '"'
  {
    if c == '"' then "\\\""
    else if c == '\\' then "\\\\"
    else if c == 8 as char then "\\b"
    else if c == '\t' then "\\t"
    else if c == '\n' then "\\n"
    else if c == 12 as char then "\\f"
    else if c == '\r' then "\\r"
    else if c < ' ' then "\\u00" + [Hex.Digit(c as int / 16), Hex.Digit(c as int % 16)]
    else [c]
  }

  function EscapeAll(s: string): string {
    if s == "" then "" else Escape(s[0]) + EscapeAll(s[1..])
  }

  function Quote(s: string): string {
    "\"" + EscapeAll(s) + "\""
  }

  function ParseHex4(s: string): (r: Option<nat>)
    ensures r.Some? ==> |s| >= 4 && r.value < 0x10000
  {
    if |s| < 4 then None
    else
      var a, b, c, d := Hex.Value(s[0]), Hex.Value(s[1]), Hex.Value(s[2]), Hex.Value(s[3]);
      if a.None? || b.None? || c.None? || d.None? then None
      else Some(a.value * 4096 + b.value * 256 + c.value * 16 + d.value)
  }

  /** A `\u` escape, whose four digits start `s`; a high surrogate needs a low one after it. */
  function ParseUnicode(s: string): (r: Option<(char, string)>)
    ensures r.Some? ==> |r.value.1| < |s|
  {
    match ParseHex4(s)
    case None => None
    case Some(n) =>
      if 0xD800 <= n < 0xDC00 then
        if |s| < 6 || s[4] != '\\' || s[5] != 'u' then None
        else
          match ParseHex4(s[6..])
          case None => None
          case Some(m) =>
            if 0xDC00 <= m < 0xE000
            then Some(((0x10000 + (n - 0xD800) * 1024 + (m - 0xDC00)) as char, s[10..]))
            else None
      else if 0xDC00 <= n < 0xE000 then None
      else Some((n as char, s[4..]))
  }

  /** One character of a string body, and what follows it. */
  function ParseChar(s: string): (r: Option<(char, string)>)
    ensures r.Some? ==> |r.value.1| < |s|
  {
    if s == "" || s[0] < ' ' then None
    else if s[0] != '\\' then Some((s[0], s[1..]))
    else if |s| < 2 then None
    else if s[1] == '"' || s[1] == '\\' || s[1] == '/' then Some((s[1], s[2..]))
    else if s[1] == 'b' then Some((8 as char, s[2..]))
    else if s[1] == 't' then Some(('\t', s[2..]))
    else if s[1] == 'n' then Some(('\n', s[2..]))
    else if s[1] == 'f' then Some((12 as char, s[2..]))
    else if s[1] == 'r' then Some(('\r', s[2..]))
    else if s[1] == 'u' then ParseUnicode(s[2..])
    else None
  }

  /** A string whose opening quote has been read. */
  function ParseString(s: string): (r: Option<(string, string)>)
    ensures r.Some? ==> |r.value.0| + |r.value.1| < |s|
    decreases |s|
  {
    if s == "" then None
    else if s[0] == '"' then Some(("", s[1..]))
    else
      match ParseChar(s)
      case None => None
      case Some((c, rest)) =>
        match ParseString(rest)
        case None => None
        case Some((t, end)) => Some(([c] + t, end))
  }

  /** The short escapes are exactly those of the printer of `serde_json`; other control characters take four digits, and the rest is written as it is. */
  lemma EscapesAre(c: char)
    ensures var e, n := Escape(c), c as int;
            if n == 0x22 || n == 0x5C then e == ['\\', c]
            else if n == 0x08 then e == ['\\', 'b']
            else if n == 0x09 then e == ['\\', 't']
            else if n == 0x0A then e == ['\\', 'n']
            else if n == 0x0C then e == ['\\', 'f']
            else if n == 0x0D then e == ['\\', 'r']
            else if n < 0x20 then e == ['\\', 'u', '0', '0', "01"[n / 16], "0123456789abcdef"[n % 16]]
            else e == [c]
  {
    if c < ' ' {
      Hex.DigitIs(c as int / 16);
      Hex.DigitIs(c as int % 16);
    }
  }

  lemma CharRoundTrip(c: char, rest: string)
    ensures ParseChar(Escape(c) + rest) == Some((c, rest))
  {
    var s := Escape(c) + rest;
    assert s[|Escape(c)|..] == rest;
    if |Escape(c)| == 6 {
      assert s[2..] == ['0', '0', Hex.Digit(c as int / 16), Hex.Digit(c as int % 16)] + rest;
      ControlRoundTrip(c, rest);
    }
  }

  lemma ControlRoundTrip(c: char, rest: string)
    requires c < ' '
    ensures ParseUnicode(['0', '0', Hex.Digit(c as int / 16), Hex.Digit(c as int % 16)] + rest) == Some((c, rest))
  {
    var s := ['0', '0', Hex.Digit(c as int / 16), Hex.Digit(c as int % 16)] + rest;
    assert s[4..] == rest;
    Hex.ValueOfDigit(c as int / 16);
    Hex.ValueOfDigit(c as int % 16);
  }

  lemma {:induction false} StringRoundTrip(s: string, rest: string)
    ensures ParseString(EscapeAll(s) + "\"" + rest) == Some((s, rest))
  {
    var body := EscapeAll(s) + "\"" + rest;
    if s == "" {
      assert body[1..] == rest;
    } else {
      var tail := EscapeAll(s[1..]) + "\"" + rest;
      assert body == Escape(s[0]) + tail;
      CharRoundTrip(s[0], tail);
      StringRoundTrip(s[1..], rest);
      assert [s[0]] + s[1..] == s;
    }
  }

  // ---- Numbers ----

  predicate Digit(c: char) {
    '0' <= c <= '9'
  }

  function PrintNat(n: nat): (s: string)
    ensures s != "" && Digit(s[0])
  {
    if n < 10 then ['0' + n as char] else PrintNat(n / 10) + ['0' + (n % 10) as char]
  }

  /** The digits at the front of `s`. */
  function Digits(s: string): (d: string)
    ensures |d| <= |s| && d == s[..|d|]
  {
    if s == "" || !Digit(s[0]) then "" else [s[0]] + Digits(s[1..])
  }

  function DigitsValue(d: string): nat {
    if d == "" || !Digit(d[|d| - 1]) then 0
    else DigitsValue(d[..|d| - 1]) * 10 + (d[|d| - 1] - '0') as int
  }

  /** A leading zero ends the number. */
  function ParseNat(s: string): (r: Option<(nat, string)>)
    ensures r.Some? ==> |r.value.1| < |s|
  {
    var d := if s != "" && s[0] == '0' then "0" else Digits(s);
    if d == "" then None else Some((DigitsValue(d), s[|d|..]))
  }

  predicate NoDigit(rest: string) {
    rest == "" || !Digit(rest[0])
  }

  lemma {:induction false} PrintedDigits(n: nat)
    ensures DigitsValue(PrintNat(n)) == n
    ensures n > 0 ==> PrintNat(n)[0] != '0'
    ensures forall c :: c in PrintNat(n) ==> Digit(c)
  {
    if n >= 10 {
      PrintedDigits(n / 10);
      assert PrintNat(n)[..|PrintNat(n)| - 1] == PrintNat(n / 10);
    } else {
      assert DigitsValue("") == 0;
      assert PrintNat(n)[..0] == "";
    }
  }

  lemma {:induction false} DigitsOfAppend(d: string, rest: string)
    requires forall c :: c in d ==> Digit(c)
    requires NoDigit(rest)
    ensures Digits(d + rest) == d
  {
    if d == "" {
      assert d + rest == rest;
    } else {
      assert (d + rest)[1..] == d[1..] + rest;
      DigitsOfAppend(d[1..], rest);
    }
  }

  lemma NatRoundTrip(n: nat, rest: string)
    requires NoDigit(rest)
    ensures ParseNat(PrintNat(n) + rest) == Some((n, rest))
  {
    PrintedDigits(n);
    DigitsOfAppend(PrintNat(n), rest);
    if n == 0 {
      assert PrintNat(n) == "0";
    }
    assert (PrintNat(n) + rest)[|PrintNat(n)|..] == rest;
  }

  // ---- Values ----

  function Print(j: Json): string
    decreases j, 1
  {
    match j
    case Str(text) => Quote(text)
    case Num(n) => PrintNat(n)
    case Arr(items) => "[" + PrintItems(items) + "]"
    case Obj(members) => "{" + PrintMembers(members) + "}"
  }

  function PrintItems(items: seq<Json>): string
    decreases items, 0
  {
    if items == [] then ""
    else if |items| == 1 then Print(items[0])
    else Print(items[0]) + "," + PrintItems(items[1..])
  }

  function PrintMember(m: Member): string
    decreases m, 2
  {
    Quote(m.name) + ":" + Print(m.value)
  }

  function PrintMembers(members: seq<Member>): string
    decreases members, 0
  {
    if members == [] then ""
    else if |members| == 1 then PrintMember(members[0])
    else PrintMember(members[0]) + "," + PrintMembers(members[1..])
  }

  predicate Blank(c: char) {
    c == ' ' || c == '\n' || c == '\t' || c == '\r'
  }

  function SkipBlanks(s: string): (r: string)
    ensures |r| <= |s|
    ensures r != "" ==> !Blank(r[0])
  {
    if s != "" && Blank(s[0]) then SkipBlanks(s[1..]) else s
  }

  function ParseValue(s: string): (r: Option<(Json, string)>)
    ensures r.Some? ==> |r.value.1| < |s|
    decreases |s|, 0
  {
    var t := SkipBlanks(s);
    if t == "" then None
    else if t[0] == '"' then
      match ParseString(t[1..])
      case None => None
      case Some((text, rest)) => Some((Str(text), rest))
    else if Digit(t[0]) then
      match ParseNat(t)
      case None => None
      case Some((n, rest)) => Some((Num(n), rest))
    else if t[0] == '[' then
      var u := SkipBlanks(t[1..]);
      if u != "" && u[0] == ']' then Some((Arr([]), u[1..]))
      else
        match ParseItems(u)
        case None => None
        case Some((items, rest)) => Some((Arr(items), rest))
    else if t[0] == '{' then
      var u := SkipBlanks(t[1..]);
      if u != "" && u[0] == '}' then Some((Obj([]), u[1..]))
      else
        match ParseMembers(u)
        case None => None
        case Some((members, rest)) => Some((Obj(members), rest))
    else None
  }

  /** One or more items and the closing bracket. */
  function ParseItems(s: string): (r: Option<(seq<Json>, string)>)
    ensures r.Some? ==> |r.value.1| < |s|
    decreases |s|, 1
  {
    match ParseValue(s)
    case None => None
    case Some((item, rest)) =>
      var t := SkipBlanks(rest);
      if t == "" then None
      else if t[0] == ']' then Some(([item], t[1..]))
      else if t[0] == ',' then
        match ParseItems(t[1..])
        case None => None
        case Some((items, end)) => Some(([item] + items, end))
      else None
  }

  /** One or more members and the closing brace. */
  function ParseMembers(s: string): (r: Option<(seq<Member>, string)>)
    ensures r.Some? ==> |r.value.1| < |s|
    decreases |s|, 1
  {
    match ParseMember(s)
    case None => None
    case Some((member, rest)) =>
      var t := SkipBlanks(rest);
      if t == "" then None
      else if t[0] == '}' then Some(([member], t[1..]))
      else if t[0] == ',' then
        match ParseMembers(t[1..])
        case None => None
        case Some((members, end)) => Some(([member] + members, end))
      else None
  }

  function ParseMember(s: string): (r: Option<(Member, string)>)
    ensures r.Some? ==> |r.value.1| < |s|
    decreases |s|, 0
  {
    var t := SkipBlanks(s);
    if t == "" || t[0] != '"' then None
    else
      match ParseString(t[1..])
      case None => None
      case Some((name, rest)) =>
        var u := SkipBlanks(rest);
        if u == "" || u[0] != ':' then None
        else
          match ParseValue(u[1..])
          case None => None
          case Some((value, end)) => Some((Member(name, value), end))
  }

  /** A whole document: one value, and only blanks after it. */
  function Parse(s: string): Option<Json> {
    match ParseValue(s)
    case None => None
    case Some((j, rest)) => if SkipBlanks(rest) == "" then Some(j) else None
  }

  lemma OpenString(u: string, text: string, rest: string)
    requires ParseString(u) == Some((text, rest))
    ensures ParseValue("\"" + u) == Some((Str(text), rest))
  {
    assert ("\"" + u)[1..] == u;
  }

  lemma OpenArray(u: string, items: seq<Json>, rest: string)
    requires u != "" && !Blank(u[0]) && u[0] != ']' && ParseItems(u) == Some((items, rest))
    ensures ParseValue("[" + u) == Some((Arr(items), rest))
  {
    assert ("[" + u)[1..] == u;
  }

  lemma OpenObject(u: string, members: seq<Member>, rest: string)
    requires u != "" && u[0] == '"' && ParseMembers(u) == Some((members, rest))
    ensures ParseValue("{" + u) == Some((Obj(members), rest))
  {
    assert ("{" + u)[1..] == u;
  }

  lemma OpenMember(name: string, u: string, v: string, value: Json, rest: string)
    requires ParseString(u) == Some((name, ":" + v)) && ParseValue(v) == Some((value, rest))
    ensures ParseMember("\"" + u) == Some((Member(name, value), rest))
  {
    assert ("\"" + u)[1..] == u;
    assert (":" + v)[1..] == v;
  }

  lemma LastItem(s: string, item: Json, rest: string)
    requires ParseValue(s) == Some((item, "]" + rest))
    ensures ParseItems(s) == Some(([item], rest))
  {
    assert ("]" + rest)[1..] == rest;
  }

  lemma LastMember(s: string, member: Member, rest: string)
    requires ParseMember(s) == Some((member, "}" + rest))
    ensures ParseMembers(s) == Some(([member], rest))
  {
    assert ("}" + rest)[1..] == rest;
  }

  lemma NextItem(s: string, item: Json, u: string, items: seq<Json>, rest: string)
    requires ParseValue(s) == Some((item, "," + u)) && ParseItems(u) == Some((items, rest))
    ensures ParseItems(s) == Some(([item] + items, rest))
  {
    assert ("," + u)[1..] == u;
  }

  lemma NextMember(s: string, member: Member, u: string, members: seq<Member>, rest: string)
    requires ParseMember(s) == Some((member, "," + u)) && ParseMembers(u) == Some((members, rest))
    ensures ParseMembers(s) == Some(([member] + members, rest))
  {
    assert ("," + u)[1..] == u;
  }

  lemma EmptyValue(rest: string)
    ensures ParseValue("[]" + rest) == Some((Arr([]), rest))
    ensures ParseValue("{}" + rest) == Some((Obj([]), rest))
  {
    assert ("[]" + rest)[1..] == "]" + rest && ("]" + rest)[1..] == rest;
    assert ("{}" + rest)[1..] == "}" + rest && ("}" + rest)[1..] == rest;
  }

  lemma Regroup(open: string, a: string, close: string, rest: string)
    ensures open + a + close + rest == open + (a + close + rest)
  {}

  lemma RegroupMember(name: string, value: string, rest: string)
    ensures "\"" + name + "\"" + ":" + value + rest == "\"" + (name + "\"" + (":" + (value + rest)))
  {}

  lemma RegroupItems(a: string, b: string, close: string, rest: string)
    ensures a + "," + b + close + rest == a + ("," + (b + close + rest))
  {}

  lemma RegroupEnd(a: string, close: string, rest: string)
    ensures a + close + rest == a + (close + rest)
  {}

  lemma ItemsEnd(items: seq<Json>, rest: string)
    requires |items| == 1 && ParseValue(Print(items[0]) + ("]" + rest)) == Some((items[0], "]" + rest))
    ensures PrintItems(items) == Print(items[0])
    ensures ParseItems(PrintItems(items) + "]" + rest) == Some((items, rest))
  {
    LastItem(Print(items[0]) + ("]" + rest), items[0], rest);
    RegroupEnd(Print(items[0]), "]", rest);
    assert items == [items[0]];
  }

  lemma ItemsGoOn(items: seq<Json>, tail: string, rest: string)
    requires |items| > 1 && tail == PrintItems(items[1..]) + "]" + rest
    requires ParseValue(Print(items[0]) + ("," + tail)) == Some((items[0], "," + tail))
    requires ParseItems(tail) == Some((items[1..], rest))
    ensures PrintItems(items) + "]" + rest == Print(items[0]) + ("," + tail)
    ensures ParseItems(PrintItems(items) + "]" + rest) == Some((items, rest))
  {
    RegroupItems(Print(items[0]), PrintItems(items[1..]), "]", rest);
    NextItem(Print(items[0]) + ("," + tail), items[0], tail, items[1..], rest);
    assert [items[0]] + items[1..] == items;
  }

  lemma MembersEnd(members: seq<Member>, rest: string)
    requires |members| == 1 && ParseMember(PrintMember(members[0]) + ("}" + rest)) == Some((members[0], "}" + rest))
    ensures PrintMembers(members) == PrintMember(members[0])
    ensures ParseMembers(PrintMembers(members) + "}" + rest) == Some((members, rest))
  {
    LastMember(PrintMember(members[0]) + ("}" + rest), members[0], rest);
    RegroupEnd(PrintMember(members[0]), "}", rest);
    assert members == [members[0]];
  }

  lemma MembersGoOn(members: seq<Member>, tail: string, rest: string)
    requires |members| > 1 && tail == PrintMembers(members[1..]) + "}" + rest
    requires ParseMember(PrintMember(members[0]) + ("," + tail)) == Some((members[0], "," + tail))
    requires ParseMembers(tail) == Some((members[1..], rest))
    ensures PrintMembers(members) + "}" + rest == PrintMember(members[0]) + ("," + tail)
    ensures ParseMembers(PrintMembers(members) + "}" + rest) == Some((members, rest))
  {
    RegroupItems(PrintMember(members[0]), PrintMembers(members[1..]), "}", rest);
    NextMember(PrintMember(members[0]) + ("," + tail), members[0], tail, members[1..], rest);
    assert [members[0]] + members[1..] == members;
  }

  lemma {:induction false} ValueRoundTrip(j: Json, rest: string)
    requires NoDigit(rest)
    ensures Print(j) != "" && !Blank(Print(j)[0]) && Print(j)[0] != ']'
    ensures ParseValue(Print(j) + rest) == Some((j, rest))
    decreases j, 1
  {
    var s := Print(j) + rest;
    match j {
      case Str(text) =>
        var u := EscapeAll(text) + "\"" + rest;
        StringRoundTrip(text, rest);
        OpenString(u, text, rest);
        Regroup("\"", EscapeAll(text), "\"", rest);
      case Num(n) =>
        NatRoundTrip(n, rest);
      case Arr(items) =>
        var u := PrintItems(items) + "]" + rest;
        if items == [] {
          EmptyValue(rest);
          assert s == "[]" + rest;
        } else {
          ItemsRoundTrip(items, rest);
          OpenArray(u, items, rest);
          Regroup("[", PrintItems(items), "]", rest);
        }
      case Obj(members) =>
        var u := PrintMembers(members) + "}" + rest;
        if members == [] {
          EmptyValue(rest);
          assert s == "{}" + rest;
        } else {
          MembersRoundTrip(members, rest);
          OpenObject(u, members, rest);
          Regroup("{", PrintMembers(members), "}", rest);
        }
    }
  }

  lemma {:induction false} ItemsRoundTrip(items: seq<Json>, rest: string)
    requires items != []
    ensures var s := PrintItems(items) + "]" + rest;
            !Blank(s[0]) && s[0] != ']' && ParseItems(s) == Some((items, rest))
    decreases items, 0
  {
    if |items| == 1 {
      ValueRoundTrip(items[0], "]" + rest);
      ItemsEnd(items, rest);
    } else {
      var tail := PrintItems(items[1..]) + "]" + rest;
      ValueRoundTrip(items[0], "," + tail);
      ItemsRoundTrip(items[1..], rest);
      ItemsGoOn(items, tail, rest);
    }
  }

  lemma {:induction false} MemberRoundTrip(m: Member, rest: string)
    requires NoDigit(rest)
    ensures PrintMember(m) != "" && PrintMember(m)[0] == '"'
    ensures ParseMember(PrintMember(m) + rest) == Some((m, rest))
    decreases m, 2
  {
    var v := Print(m.value) + rest;
    var u := EscapeAll(m.name) + "\"" + (":" + v);
    StringRoundTrip(m.name, ":" + v);
    ValueRoundTrip(m.value, rest);
    OpenMember(m.name, u, v, m.value, rest);
    RegroupMember(EscapeAll(m.name), Print(m.value), rest);
  }

  lemma {:induction false} MembersRoundTrip(members: seq<Member>, rest: string)
    requires members != []
    ensures var s := PrintMembers(members) + "}" + rest;
            s[0] == '"' && ParseMembers(s) == Some((members, rest))
    decreases members, 0
  {
    if |members| == 1 {
      MemberRoundTrip(members[0], "}" + rest);
      MembersEnd(members, rest);
    } else {
      var tail := PrintMembers(members[1..]) + "}" + rest;
      MemberRoundTrip(members[0], "," + tail);
      MembersRoundTrip(members[1..], rest);
      MembersGoOn(members, tail, rest);
    }
  }

  /** Parsing inverts printing. */
  lemma ParseOfPrint(j: Json)
    ensures Parse(Print(j)) == Some(j)
  {
    ValueRoundTrip(j, "");
    assert Print(j) + "" == Print(j);
  }

  // ---- Lengths ----

  lemma {:induction false} PlainIsNotEscaped(s: string)
    requires PlainText(s)
    ensures EscapeAll(s) == s
  {
    if s != "" {
      assert s[0] in s && s == [s[0]] + s[1..];
      PlainIsNotEscaped(s[1..]);
    }
  }

  lemma PlainLength(s: string)
    requires PlainText(s)
    ensures |Print(Str(s))| == |s| + 2
  {
    PlainIsNotEscaped(s);
  }

  lemma MemberLength(name: string, value: Json)
    requires PlainText(name)
    ensures |PrintMember(Member(name, value))| == |name| + 3 + |Print(value)|
  {
    PlainIsNotEscaped(name);
  }

  /** The printed length of members, counting a separator after each. */
  function MembersLength(members: seq<Member>): nat {
    if members == [] then 0 else |PrintMember(members[0])| + 1 + MembersLength(members[1..])
  }

  lemma {:induction false} PrintedMembers(members: seq<Member>)
    requires members != []
    ensures |PrintMembers(members)| + 1 == MembersLength(members)
  {
    if |members| > 1 {
      PrintedMembers(members[1..]);
    } else {
      assert members[1..] == [];
    }
  }

  /** The printed length of an object: its members and one character more than a separator for each. */
  lemma ObjectLength(members: seq<Member>)
    requires members != []
    ensures |Print(Obj(members))| == MembersLength(members) + 1
  {
    PrintedMembers(members);
  }

  /** The printed length of items, counting a separator after each. */
  function ItemsLength(items: seq<Json>): nat {
    if items == [] then 0 else |Print(items[0])| + 1 + ItemsLength(items[1..])
  }

  lemma {:induction false} PrintedItems(items: seq<Json>)
    requires items != []
    ensures |PrintItems(items)| + 1 == ItemsLength(items)
  {
    if |items| > 1 {
      PrintedItems(items[1..]);
    } else {
      assert items[1..] == [];
    }
  }

  predicate PlainText(s: string) {
    forall c :: c in s ==> Plain(c)
  }

  predicate Ascii(s: string) {
    forall c :: c in s ==> c < 128 as char
  }

  /** A value all of whose names and texts are ASCII. */
  predicate AsciiValue(j: Json)
    decreases j, 1
  {
    match j
    case Str(text) => Ascii(text)
    case Num(_) => true
    case Arr(items) => forall i :: 0 <= i < |items| ==> AsciiValue(items[i])
    case Obj(members) => forall i :: 0 <= i < |members| ==> Ascii(members[i].name) && AsciiValue(members[i].value)
  }

  lemma {:induction false} AsciiQuote(s: string)
    requires Ascii(s)
    ensures Ascii(EscapeAll(s))
  {
    if s != "" {
      assert s[0] in s && forall c :: c in s[1..] ==> c in s;
      AsciiQuote(s[1..]);
      assert Ascii(Escape(s[0]));
    }
  }

  lemma {:induction false} AsciiPrint(j: Json)
    requires AsciiValue(j)
    ensures Ascii(Print(j))
    decreases j, 1
  {
    match j {
      case Str(text) => AsciiQuote(text);
      case Num(n) => PrintedDigits(n);
      case Arr(items) => AsciiItems(items);
      case Obj(members) => AsciiMembers(members);
    }
  }

  lemma {:induction false} AsciiItems(items: seq<Json>)
    requires forall i :: 0 <= i < |items| ==> AsciiValue(items[i])
    ensures Ascii(PrintItems(items))
    decreases items, 0
  {
    if items != [] {
      AsciiPrint(items[0]);
      AsciiItems(items[1..]);
    }
  }

  lemma {:induction false} AsciiMembers(members: seq<Member>)
    requires forall i :: 0 <= i < |members| ==> Ascii(members[i].name) && AsciiValue(members[i].value)
    ensures Ascii(PrintMembers(members))
    decreases members, 0
  {
    if members != [] {
      AsciiQuote(members[0].name);
      AsciiPrint(members[0].value);
      AsciiMembers(members[1..]);
    }
  }

  // ---- Strings inside a document are no longer than the document ----

  /** A string stored anywhere in a value has at most `n` characters. */
  ghost predicate TextWithin(j: Json, n: nat)
    decreases j, 1
  {
    match j
    case Str(text) => |text| <= n
    case Num(_) => true
    case Arr(items) => forall i :: 0 <= i < |items| ==> TextWithin(items[i], n)
    case Obj(members) => forall i :: 0 <= i < |members| ==> TextWithin(members[i].value, n)
  }

  lemma {:induction false} ValueTextWithin(s: string, n: nat)
    requires |s| <= n && ParseValue(s).Some?
    ensures TextWithin(ParseValue(s).value.0, n)
    decreases |s|, 0
  {
    var t := SkipBlanks(s);
    if t[0] == '[' {
      var u := SkipBlanks(t[1..]);
      if u == "" || u[0] != ']' {
        ItemsTextWithin(u, n);
      }
    } else if t[0] == '{' {
      var u := SkipBlanks(t[1..]);
      if u == "" || u[0] != '}' {
        MembersTextWithin(u, n);
      }
    }
  }

  lemma {:induction false} ItemsTextWithin(s: string, n: nat)
    requires |s| <= n && ParseItems(s).Some?
    ensures forall j :: j in ParseItems(s).value.0 ==> TextWithin(j, n)
    decreases |s|, 1
  {
    ValueTextWithin(s, n);
    var t := SkipBlanks(ParseValue(s).value.1);
    if t[0] == ',' {
      ItemsTextWithin(t[1..], n);
    }
  }

  lemma {:induction false} MembersTextWithin(s: string, n: nat)
    requires |s| <= n && ParseMembers(s).Some?
    ensures forall m :: m in ParseMembers(s).value.0 ==> TextWithin(m.value, n)
    decreases |s|, 1
  {
    var t := SkipBlanks(s);
    var u := SkipBlanks(ParseString(t[1..]).value.1);
    ValueTextWithin(u[1..], n);
    var v := SkipBlanks(ParseMember(s).value.1);
    if v[0] == ',' {
      MembersTextWithin(v[1..], n);
    }
  }

  // ---- Structs ----

  predicate Distinct<T(==)>(s: seq<T>) {
    forall i, j :: 0 <= i < j < |s| ==> s[i] != s[j]
  }

  function Names(members: seq<Member>): (names: seq<string>)
    ensures |names| == |members|
    ensures forall i :: 0 <= i < |names| ==> names[i] == members[i].name
  {
    seq(|members|, i requires 0 <= i < |members| => members[i].name)
  }

  /** A struct as the derived serializer writes it: its fields in declaration order. */
  function Struct(names: seq<string>, values: seq<Json>): (j: Json)
    requires |names| == |values|
    ensures j.Obj? && |j.members| == |names|
    ensures forall i :: 0 <= i < |names| ==> j.members[i] == Member(names[i], values[i])
  {
    Obj(seq(|names|, i requires 0 <= i < |names| => Member(names[i], values[i])))
  }

  /**
    * The field values of a struct whose fields are `names`, as the derived deserializer
    * with `deny_unknown_fields` finds them: an object must hold every field once and
    * nothing else, in any order; an array must list the fields in order.
    */
  function Fields(j: Json, names: seq<string>): (r: Option<seq<Json>>)
    ensures r.Some? ==> |r.value| == |names|
  {
    match j
    case Arr(items) => if |items| == |names| then Some(items) else None
    case Obj(members) =>
      var keys := Names(members);
      if |members| == |names| && forall n :: n in names ==> n in keys then
        Some(seq(|names|, i requires 0 <= i < |names| => members[IndexOf(keys, names[i])].value))
      else None
    case _ => None
  }

  lemma FieldsOfStruct(names: seq<string>, values: seq<Json>)
    requires |names| == |values| && Distinct(names)
    ensures Fields(Struct(names, values), names) == Some(values)
  {
    var keys := Names(Struct(names, values).members);
    assert keys == names;
    assert forall i :: 0 <= i < |names| ==> IndexOf(keys, names[i]) == i;
    assert Fields(Struct(names, values), names).value == values;
  }

  /** Names that are all among as many keys: every key is one of them, and none comes twice. */
  lemma {:induction false} EveryKeyOnce(names: seq<string>, keys: seq<string>)
    requires |keys| == |names| && Distinct(names) && forall n :: n in names ==> n in keys
    ensures Distinct(keys)
    decreases |names|
  {
    if names != [] {
      var n := names[|names| - 1];
      var i := IndexOf(keys, n);
      var rest := keys[..i] + keys[i + 1..];
      forall m | m in names[..|names| - 1] ensures m in rest {
        KeyElsewhere(keys, i, m);
      }
      EveryKeyOnce(names[..|names| - 1], rest);
      NotAgain(names[..|names| - 1], rest, n);
      DistinctAgain(keys, i);
    }
  }

  lemma KeyElsewhere(keys: seq<string>, i: nat, m: string)
    requires i < |keys| && m in keys && m != keys[i]
    ensures m in keys[..i] + keys[i + 1..]
  {
    var j :| 0 <= j < |keys| && keys[j] == m;
    var rest := keys[..i] + keys[i + 1..];
    assert rest[if j < i then j else j - 1] == m;
  }

  /** As many keys as names leave no room for another. */
  lemma {:induction false} NotAgain(names: seq<string>, keys: seq<string>, n: string)
    requires |keys| == |names| && Distinct(names) && (forall m :: m in names ==> m in keys) && n !in names
    ensures n !in keys
    decreases |names|
  {
    if names != [] {
      var m := names[|names| - 1];
      var i := IndexOf(keys, m);
      var rest := keys[..i] + keys[i + 1..];
      forall l | l in names[..|names| - 1] ensures l in rest {
        KeyElsewhere(keys, i, l);
      }
      NotAgain(names[..|names| - 1], rest, n);
      if n in keys {
        assert m in names;
        KeyElsewhere(keys, i, n);
      }
    }
  }

  lemma DistinctAgain(keys: seq<string>, i: nat)
    requires i < |keys| && Distinct(keys[..i] + keys[i + 1..]) && keys[i] !in keys[..i] + keys[i + 1..]
    ensures Distinct(keys)
  {
    var rest := keys[..i] + keys[i + 1..];
    forall j, k | 0 <= j < k < |keys| ensures keys[j] != keys[k] {
      var j', k' := if j < i then j else j - 1, if k < i then k else k - 1;
      assert j != i ==> rest[j'] == keys[j] && keys[j] in rest;
      assert k != i ==> rest[k'] == keys[k] && keys[k] in rest;
    }
  }

  /**
    * An object has the fields `names` with these values exactly if each of them is a member and
    * there is no other member, in whatever order they come.
    */
  lemma FieldsOfObject(members: seq<Member>, names: seq<string>, values: seq<Json>)
    requires |names| == |values| && Distinct(names)
    ensures Fields(Obj(members), names) == Some(values) <==>
              |members| == |names| && forall i :: 0 <= i < |names| ==> Member(names[i], values[i]) in members
  {
    var keys := Names(members);
    if |members| == |names| && forall i :: 0 <= i < |names| ==> Member(names[i], values[i]) in members {
      MembersAreFields(members, names, values);
    }
    if Fields(Obj(members), names) == Some(values) {
      assert |members| == |names|;
      forall i | 0 <= i < |names| ensures Member(names[i], values[i]) in members {
        assert names[i] in names && values[i] == members[IndexOf(keys, names[i])].value;
      }
    }
  }

  lemma MembersAreFields(members: seq<Member>, names: seq<string>, values: seq<Json>)
    requires |names| == |values| == |members| && Distinct(names)
    requires forall i :: 0 <= i < |names| ==> Member(names[i], values[i]) in members
    ensures Fields(Obj(members), names) == Some(values)
  {
    var keys := Names(members);
    forall i | 0 <= i < |names| ensures names[i] in keys {
      var _ := MemberAt(members, names[i], values[i]);
    }
    EveryKeyOnce(names, keys);
    forall i | 0 <= i < |names| ensures Fields(Obj(members), names).value[i] == values[i] {
      var j := MemberAt(members, names[i], values[i]);
      assert keys[IndexOf(keys, names[i])] == keys[j];
    }
    assert Fields(Obj(members), names).value == values;
  }

  lemma MemberAt(members: seq<Member>, name: string, value: Json) returns (j: nat)
    requires Member(name, value) in members
    ensures j < |members| && members[j] == Member(name, value) && Names(members)[j] == name
  {
    j :| j < |members| && members[j] == Member(name, value);
  }

  lemma FieldsTextWithin(j: Json, names: seq<string>, n: nat)
    requires TextWithin(j, n) && Fields(j, names).Some?
    ensures forall v :: v in Fields(j, names).value ==> TextWithin(v, n)
  {
  }

  /** The sizes of a struct's fields: name and printed value. */
  function FieldSizes(names: seq<string>, values: seq<Json>): (sizes: seq<nat>)
    requires |names| == |values|
    ensures |sizes| == |names|
    ensures forall i :: 0 <= i < |names| ==> sizes[i] == |names[i]| + |Print(values[i])|
  {
    seq(|names|, i requires 0 <= i < |names| => |names[i]| + |Print(values[i])|)
  }

  function Sum(s: seq<nat>): nat {
    if s == [] then 0 else s[0] + Sum(s[1..])
  }

  lemma SumOfSizes(names: seq<string>, values: seq<Json>)
    requires |names| == |values| > 0
    ensures Sum(FieldSizes(names, values)) == |names[0]| + |Print(values[0])| + Sum(FieldSizes(names[1..], values[1..]))
  {
    assert FieldSizes(names, values)[1..] == FieldSizes(names[1..], values[1..]);
  }

  lemma {:induction false} MembersLengthIsSum(members: seq<Member>, names: seq<string>, values: seq<Json>)
    requires |members| == |names| == |values|
    requires forall i :: 0 <= i < |names| ==> members[i] == Member(names[i], values[i]) && PlainText(names[i])
    ensures MembersLength(members) == 4 * |names| + Sum(FieldSizes(names, values))
  {
    if members != [] {
      MemberLength(names[0], values[0]);
      MembersLengthIsSum(members[1..], names[1..], values[1..]);
      SumOfSizes(names, values);
    }
  }

  /** Every field costs its name and its value, two quotes, a colon and a separator. */
  lemma StructLength(names: seq<string>, values: seq<Json>)
    requires |names| == |values| > 0
    requires forall i :: 0 <= i < |names| ==> PlainText(names[i])
    ensures |Print(Struct(names, values))| == 1 + 4 * |names| + Sum(FieldSizes(names, values))
  {
    MembersLengthIsSum(Struct(names, values).members, names, values);
    ObjectLength(Struct(names, values).members);
  }
}
