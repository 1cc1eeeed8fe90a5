/** Password generation by rejection sampling over chunks of random bytes. */
module PasswordGenerator {
  import opened Basics
  import Utf8

  const MIN_LENGTH := 8
  const MAX_LENGTH := 128

  const UPPERCASE := "ABCDEFGHIJKLMNOPQRSTUVWXYZ"
  const LOWERCASE := "abcdefghijklmnopqrstuvwxyz"
  const DIGITS := "0123456789"
  const SYMBOLS := "!@#$%^&*()-_=+[]{};:,.<>?/"

  const CHUNK_LEN := 256

  datatype Options = Options(length: nat, uppercase: bool, lowercase: bool, digits: bool, symbols: bool) {
    predicate HasAnyClass() {
      uppercase || lowercase || digits || symbols
    }

    /** The enabled classes, one after the other. */
    function Letters(): string {
      var a := if lowercase then LOWERCASE else "";
      var b := if uppercase then a + UPPERCASE else a;
      var c := if digits then b + DIGITS else b;
      if symbols then c + SYMBOLS else c
    }
  }

  lemma ClassLengths()
    ensures |LOWERCASE| == 26 && |UPPERCASE| == 26 && |DIGITS| == 10 && |SYMBOLS| == 26
  {}

  // ---- What the options ask for ----

  predicate Lower(c: char) { 'a' <= c <= 'z' }
  predicate Upper(c: char) { 'A' <= c <= 'Z' }
  predicate Numeric(c: char) { '0' <= c <= '9' }

  /** The position of a symbol in its class. */
  function SymbolRank(c: char): int {
    if c == '!' then 0
    else if c == '@' then 1
    else if c == '#' then 2
    else if c == '$' then 3
    else if c == '%' then 4
    else if c == '^' then 5
    else if c == '&' then 6
    else if c == '*' then 7
    else if c == '(' then 8
    else if c == ')' then 9
    else if c == '-' then 10
    else if c == '_' then 11
    else if c == '=' then 12
    else if c == '+' then 13
    else if c == '[' then 14
    else if c == ']' then 15
    else if c == '{' then 16
    else if c == '}' then 17
    else if c == ';' then 18
    else if c == ':' then 19
    else if c == ',' then 20
    else if c == '.' then 21
    else if c == '<' then 22
    else if c == '>' then 23
    else if c == '?' then 24
    else if c == '/' then 25
    else -1
  }

  /** The order of all letters: lower case, upper case, digits, symbols; none for other characters. */
  function Position(c: char): int {
    if Lower(c) then (c - 'a') as int
    else if Upper(c) then 26 + (c - 'A') as int
    else if Numeric(c) then 52 + (c - '0') as int
    else if SymbolRank(c) >= 0 then 62 + SymbolRank(c)
    else -1
  }

  /** The character is of an enabled class. */
  predicate Enabled(opts: Options, c: char) {
    || (opts.lowercase && Lower(c))
    || (opts.uppercase && Upper(c))
    || (opts.digits && Numeric(c))
    || (opts.symbols && SymbolRank(c) >= 0)
  }

  /** At least one class, and a length from 8 to 128. */
  predicate Sensible(opts: Options) {
    8 <= opts.length <= 128 && (opts.uppercase || opts.lowercase || opts.digits || opts.symbols)
  }

  predicate Ascending(s: string) {
    forall i, j :: 0 <= i < j < |s| ==> Position(s[i]) < Position(s[j])
  }

  /** Exactly the letters at the positions from `from` to `to`. */
  ghost predicate Covers(s: string, from: int, to: int) {
    Ascending(s) && forall c :: c in s <==> from <= Position(c) < to
  }

  lemma LowercaseAt(i: nat)
    requires i < 26
    ensures |LOWERCASE| == 26 && Position(LOWERCASE[i]) == i
  {}

  lemma UppercaseAt(i: nat)
    requires i < 26
    ensures |UPPERCASE| == 26 && Position(UPPERCASE[i]) == 26 + i
  {}

  lemma DigitAt(i: nat)
    requires i < 10
    ensures |DIGITS| == 10 && Position(DIGITS[i]) == 52 + i
  {}

  lemma SymbolAt(i: nat)
    requires i < 26
    ensures |SYMBOLS| == 26 && Position(SYMBOLS[i]) == 62 + i
  {}

  lemma RankIsASymbol(c: char)
    ensures SymbolRank(c) < 26
    ensures SymbolRank(c) >= 0 ==> |SYMBOLS| == 26 && c == SYMBOLS[SymbolRank(c)]
  {}

  lemma PositionDecides(c: char, d: char)
    requires Position(c) == Position(d) >= 0
    ensures c == d
  {
    if !Lower(c) && !Upper(c) && !Numeric(c) {
      RankIsASymbol(c);
      PositionOfSymbol(d, Position(c) - 62);
    }
  }

  lemma PositionOfSymbol(d: char, rank: int)
    requires Position(d) == 62 + rank && 0 <= rank
    ensures |SYMBOLS| == 26 && rank < 26 && d == SYMBOLS[rank]
  {
    RankIsASymbol(d);
  }

  lemma ClassCovers(s: string, from: nat)
    requires forall i :: 0 <= i < |s| ==> Position(s[i]) == from + i
    ensures Covers(s, from, from + |s|)
  {
    forall c | from <= Position(c) < from + |s| ensures c in s {
      PositionDecides(c, s[Position(c) - from]);
    }
  }

  lemma ClassesCover()
    ensures Covers(LOWERCASE, 0, 26) && Covers(UPPERCASE, 26, 52) && Covers(DIGITS, 52, 62) && Covers(SYMBOLS, 62, 88)
  {
    ClassLengths();
    forall i: nat | i < 26 ensures Position(LOWERCASE[i]) == i && Position(UPPERCASE[i]) == 26 + i && Position(SYMBOLS[i]) == 62 + i {
      LowercaseAt(i);
      UppercaseAt(i);
      SymbolAt(i);
    }
    forall i: nat | i < 10 ensures Position(DIGITS[i]) == 52 + i {
      DigitAt(i);
    }
    ClassCovers(LOWERCASE, 0);
    ClassCovers(UPPERCASE, 26);
    ClassCovers(DIGITS, 52);
    ClassCovers(SYMBOLS, 62);
  }

  /** A class goes after letters that all come before it, or is left out. */
  lemma ClassAppended(s: string, letters: string, on: bool, from: int, to: int)
    requires Ascending(s) && (forall c :: c in s ==> Position(c) < from) && Covers(letters, from, to) && from <= to
    ensures var t := if on then s + letters else s;
            && Ascending(t) && (forall c :: c in t <==> c in s || (on && from <= Position(c) < to))
  {
    var t := s + letters;
    forall i, j | 0 <= i < j < |t| ensures Position(t[i]) < Position(t[j]) {
      assert i < |s| ==> t[i] in s;
      assert j >= |s| ==> t[j] == letters[j - |s|] && t[j] in letters;
    }
  }

  lemma PositionRanges(c: char)
    ensures Lower(c) <==> 0 <= Position(c) < 26
    ensures Upper(c) <==> 26 <= Position(c) < 52
    ensures Numeric(c) <==> 52 <= Position(c) < 62
    ensures SymbolRank(c) >= 0 <==> 62 <= Position(c) < 88
  {
    RankIsASymbol(c);
    if SymbolRank(c) >= 0 {
      RankedIsApart(c);
    }
  }

  lemma RankedIsApart(c: char)
    requires SymbolRank(c) >= 0
    ensures !Lower(c) && !Upper(c) && !Numeric(c)
  {}

  /** The alphabet has exactly the characters of the enabled classes, lower case first, then upper case, digits and symbols, each class in order. */
  lemma LettersAreThoseEnabled(opts: Options)
    ensures Ascending(opts.Letters())
    ensures forall c :: c in opts.Letters() <==> Enabled(opts, c)
  {
    var a := if opts.lowercase then LOWERCASE else "";
    var b := if opts.uppercase then a + UPPERCASE else a;
    var c := if opts.digits then b + DIGITS else b;
    ClassesCover();
    assert "" + LOWERCASE == LOWERCASE;
    ClassAppended("", LOWERCASE, opts.lowercase, 0, 26);
    ClassAppended(a, UPPERCASE, opts.uppercase, 26, 52);
    ClassAppended(b, DIGITS, opts.digits, 52, 62);
    ClassAppended(c, SYMBOLS, opts.symbols, 62, 88);
    forall x ensures x in opts.Letters() <==> Enabled(opts, x) {
      PositionRanges(x);
    }
  }

  method Alphabet(opts: Options) returns (r: Result<string>)
    ensures r == if opts.HasAnyClass() then Ok(opts.Letters()) else Err(Crypto)
    ensures r.Ok? <==> exists c :: Enabled(opts, c)
    ensures r.Ok? ==> Ascending(r.value) && forall c :: c in r.value <==> Enabled(opts, c)
  {
    var out := "";
    if opts.lowercase {
      out := LOWERCASE;
    }
    if opts.uppercase {
      out := out + UPPERCASE;
    }
    if opts.digits {
      out := out + DIGITS;
    }
    if opts.symbols {
      out := out + SYMBOLS;
    }
    ClassLengths();
    LettersAreThoseEnabled(opts);
    assert out == opts.Letters();
    if out == "" {
      return Err(Crypto);
    }
    assert out[0] in out;
    return Ok(out);
  }

  /** Bytes from this value on are rejected. */
  function Limit(alphaLen: nat): nat
    requires alphaLen > 0
  {
    var limit := 255 / alphaLen * alphaLen;
    if limit == 0 then 256 else limit
  }

  // ---- The stream specification ----

  /** The accepted bytes of a stream, in order. */
  function Accepted(s: Bytes, limit: nat): Bytes {
    if s == [] then []
    else if s[0] < limit then [s[0]] + Accepted(s[1..], limit)
    else Accepted(s[1..], limit)
  }

  /** Accepted bytes as letters of the alphabet. */
  function Pick(letters: string, accepted: Bytes): (w: string)
    requires letters != ""
    ensures |w| == |accepted|
    ensures forall i :: 0 <= i < |w| ==> w[i] == letters[accepted[i] % |letters|]
  {
    seq(|accepted|, i requires 0 <= i < |accepted| => letters[accepted[i] % |letters|])
  }

  /** The word that a stream of random bytes determines, once it holds enough accepted bytes. */
  function WordOf(opts: Options, s: Bytes): Option<string>
    requires opts.HasAnyClass()
  {
    var letters := opts.Letters();
    var accepted := Accepted(s, Limit(|letters|));
    if |accepted| < opts.length then None else Some(Pick(letters, accepted[..opts.length]))
  }

  /** The bytes of the successful draws. */
  function Flat(draws: seq<Draw>): Bytes {
    if draws == [] then []
    else (if draws[0].Some? then draws[0].value else []) + Flat(draws[1..])
  }

  lemma {:induction false} AcceptedOfAppend(s: Bytes, t: Bytes, limit: nat)
    ensures Accepted(s + t, limit) == Accepted(s, limit) + Accepted(t, limit)
  {
    if s == [] {
      assert s + t == t;
    } else {
      assert (s + t)[1..] == s[1..] + t;
      AcceptedOfAppend(s[1..], t, limit);
    }
  }

  lemma {:induction false} FlatOfAppend(a: seq<Draw>, b: seq<Draw>)
    ensures Flat(a + b) == Flat(a) + Flat(b)
  {
    if a == [] {
      assert a + b == b;
    } else {
      assert (a + b)[1..] == a[1..] + b;
      FlatOfAppend(a[1..], b);
    }
  }

  predicate Ascii(s: string) {
    forall i :: 0 <= i < |s| ==> s[i] < 128 as char
  }

  lemma ClassesAreAscii()
    ensures Ascii(LOWERCASE) && Ascii(UPPERCASE) && Ascii(DIGITS) && Ascii(SYMBOLS)
  {
    LettersBelow128();
    assert Ascii(DIGITS) && Ascii(SYMBOLS);
  }

  lemma LettersBelow128()
    ensures Ascii(LOWERCASE) && Ascii(UPPERCASE)
  {
  }

  lemma AsciiOfAppend(s: string, t: string)
    requires Ascii(s) && Ascii(t)
    ensures Ascii(s + t)
  {
  }

  lemma LettersAreAscii(opts: Options)
    ensures Ascii(opts.Letters())
  {
    ClassesAreAscii();
    var a := if opts.lowercase then LOWERCASE else "";
    var b := if opts.uppercase then a + UPPERCASE else a;
    var c := if opts.digits then b + DIGITS else b;
    AsciiOfAppend(a, UPPERCASE);
    AsciiOfAppend(b, DIGITS);
    AsciiOfAppend(c, SYMBOLS);
  }

  lemma {:induction false} AsciiBytes(s: string)
    requires Ascii(s)
    ensures |Utf8.Encode(s)| == |s| && forall i :: 0 <= i < |s| ==> Utf8.Encode(s)[i] == s[i] as int
  {
    if s != "" {
      AsciiBytes(s[1..]);
    }
  }

  // ---- The implementation ----

  datatype Generated =
    | Returned(result: Result<string>)
    | Drawing  // every draw so far is used up and more are asked for

  ghost predicate AllSome(draws: seq<Draw>) {
    forall i :: 0 <= i < |draws| ==> draws[i].Some?
  }

  /** The first `filled` bytes of the buffer are the letters of the first `filled` accepted bytes. */
  ghost predicate Written(letters: string, accepted: Bytes, out: Bytes, filled: nat) {
    && letters != ""
    && filled <= |accepted|
    && filled <= |out|
    && forall k :: 0 <= k < filled ==> out[k] as int == letters[accepted[k] % |letters|] as int
  }

  /** The inner loop: letters for the accepted bytes of one chunk, until the buffer is full. */
  method Consume(letters: string, limit: nat, chunk: Bytes, out: array<byte>, start: nat, ghost before: Bytes)
    returns (filled: nat)
    requires letters != "" && Ascii(letters)
    requires start < out.Length && |Accepted(before, limit)| == start
    requires Written(letters, Accepted(before, limit), out[..], start)
    modifies out
    ensures filled <= out.Length
    ensures Written(letters, Accepted(before + chunk, limit), out[..], filled)
    ensures filled < out.Length ==> |Accepted(before + chunk, limit)| == filled
  {
    filled := start;
    assert before + chunk[..0] == before;
    for i := 0 to |chunk|
      invariant filled < out.Length
      invariant Written(letters, Accepted(before + chunk[..i], limit), out[..], filled)
      invariant |Accepted(before + chunk[..i], limit)| == filled
    {
      var b := chunk[i];
      ghost var seen := before + chunk[..i];
      assert before + chunk[..i + 1] == seen + [b];
      AcceptedOfAppend(seen, [b], limit);
      if b < limit {
        assert Accepted([b], limit) == [b];
        out[filled] := letters[b % |letters|] as int;
        filled := filled + 1;
        if filled == out.Length {
          assert before + chunk == (seen + [b]) + chunk[i + 1..];
          AcceptedOfAppend(seen + [b], chunk[i + 1..], limit);
          return;
        }
      }
    }
    assert chunk[..|chunk|] == chunk;
  }

  /** A full buffer is the UTF-8 form of the word, so the final conversion never fails. */
  lemma FullBuffer(opts: Options, s: Bytes, out: Bytes)
    requires opts.HasAnyClass() && |out| == opts.length
    requires Written(opts.Letters(), Accepted(s, Limit(|opts.Letters()|)), out, opts.length)
    ensures WordOf(opts, s).Some? && Utf8.Decode(out) == WordOf(opts, s)
  {
    var word := WordOf(opts, s).value;
    LettersAreAscii(opts);
    AsciiBytes(word);
    assert out == Utf8.Encode(word);
    Utf8.DecodeOfEncode(word);
  }

  lemma WordIsOfEnabled(opts: Options, s: Bytes)
    requires opts.HasAnyClass() && WordOf(opts, s).Some?
    ensures var w := WordOf(opts, s).value; |w| == opts.length && forall c :: c in w ==> Enabled(opts, c)
  {
    LettersAreThoseEnabled(opts);
  }

  lemma OneMoreChunk(draws: seq<Draw>, used: nat)
    requires used < |draws| && draws[used].Some?
    ensures Flat(draws[..used + 1]) == Flat(draws[..used]) + draws[used].value
  {
    FlatOfAppend(draws[..used], [draws[used]]);
    assert draws[..used + 1] == draws[..used] + [draws[used]];
    assert Flat([draws[used]]) == draws[used].value;
  }

  lemma RestIsUnused(opts: Options, draws: seq<Draw>, used: nat)
    requires opts.HasAnyClass() && used <= |draws| && WordOf(opts, Flat(draws[..used])).Some?
    ensures WordOf(opts, Flat(draws)) == WordOf(opts, Flat(draws[..used]))
  {
    SplitFlat(draws, used);
    WordIsStable(opts, Flat(draws[..used]), Flat(draws[used..]));
  }

  lemma SplitFlat(draws: seq<Draw>, used: nat)
    requires used <= |draws|
    ensures Flat(draws) == Flat(draws[..used]) + Flat(draws[used..])
  {
    assert draws == draws[..used] + draws[used..];
    FlatOfAppend(draws[..used], draws[used..]);
  }

  /** The chunks consumed so far are all there, and each of them was needed. */
  ghost predicate AllNeeded(opts: Options, draws: seq<Draw>, used: nat)
    requires opts.HasAnyClass()
  {
    used <= |draws| && AllSome(draws[..used]) && forall j :: 0 <= j < used ==> WordOf(opts, Flat(draws[..j])).None?
  }

  lemma NextChunk(opts: Options, draws: seq<Draw>, used: nat)
    requires opts.HasAnyClass() && AllNeeded(opts, draws, used) && used < |draws| && draws[used].Some?
    requires WordOf(opts, Flat(draws[..used])).None?
    ensures AllNeeded(opts, draws, used + 1)
    ensures Flat(draws[..used + 1]) == Flat(draws[..used]) + draws[used].value
  {
    OneMoreChunk(draws, used);
    assert draws[..used + 1] == draws[..used] + [draws[used]];
  }

  /**
    * `draws` are the results of successive requests for a chunk of random bytes and `used`
    * is the number of chunks consumed. The password is the word of the consumed chunks, no
    * chunk is consumed after it is complete, and a failed request ends the run.
    */
  method Generate(opts: Options, draws: seq<Draw>) returns (r: Generated, used: nat)
    requires forall i :: 0 <= i < |draws| ==> DrawOf(draws[i], CHUNK_LEN)
    ensures !Sensible(opts) ==> r == Returned(Err(Crypto)) && used == 0
    ensures r.Returned? && r.result.Ok? ==> |r.result.value| == opts.length && forall c :: c in r.result.value ==> Enabled(opts, c)
    ensures Sensible(opts) ==>
              && used <= |draws| && AllSome(draws[..used])
              && (forall j :: 0 <= j < used ==> WordOf(opts, Flat(draws[..j])).None?)
              && match WordOf(opts, Flat(draws[..used]))
                 case Some(w) => r == Returned(Ok(w))
                 case None => if used < |draws| then draws[used].None? && r == Returned(Err(Crypto)) else r == Drawing
    ensures Sensible(opts) && AllSome(draws) ==>
              r == match WordOf(opts, Flat(draws)) case Some(w) => Returned(Ok(w)) case None => Drawing
  {
    used := 0;
    if !opts.HasAnyClass() {
      return Returned(Err(Crypto)), 0;
    }
    if opts.length < MIN_LENGTH || opts.length > MAX_LENGTH {
      return Returned(Err(Crypto)), 0;
    }
    var alphabet := Alphabet(opts);
    var letters := alphabet.value;
    ClassLengths();
    LettersAreAscii(opts);
    var limit := Limit(|letters|);
    var out := new byte[opts.length](_ => 0);
    var filled: nat := 0;
    while filled < opts.length
      invariant AllNeeded(opts, draws, used)
      invariant filled <= opts.length
      invariant Written(letters, Accepted(Flat(draws[..used]), limit), out[..], filled)
      invariant filled < opts.length ==> |Accepted(Flat(draws[..used]), limit)| == filled
      decreases |draws| - used
    {
      if used == |draws| {
        assert draws[..used] == draws;
        return Drawing, used;
      }
      if draws[used].None? {
        return Returned(Err(Crypto)), used;
      }
      NextChunk(opts, draws, used);
      filled := Consume(letters, limit, draws[used].value, out, filled, Flat(draws[..used]));
      used := used + 1;
    }
    FullBuffer(opts, Flat(draws[..used]), out[..]);
    WordIsOfEnabled(opts, Flat(draws[..used]));
    RestIsUnused(opts, draws, used);
    match Utf8.Decode(out[..]) {
      case None => return Returned(Err(Crypto)), used;
      case Some(s) => return Returned(Ok(s)), used;
    }
  }

  // ---- Termination ----

  /** More chunks never change a word, and a word never needs them. */
  lemma WordIsStable(opts: Options, s: Bytes, t: Bytes)
    requires opts.HasAnyClass() && WordOf(opts, s).Some?
    ensures WordOf(opts, s + t) == WordOf(opts, s)
  {
    var limit := Limit(|opts.Letters()|);
    AcceptedOfAppend(s, t, limit);
    assert (Accepted(s, limit) + Accepted(t, limit))[..opts.length] == Accepted(s, limit)[..opts.length];
  }

  lemma {:induction false} OneAcceptedEach(draws: seq<Draw>, limit: nat)
    requires forall i :: 0 <= i < |draws| ==> draws[i].Some? && Accepted(draws[i].value, limit) != []
    ensures |Accepted(Flat(draws), limit)| >= |draws|
  {
    if draws != [] {
      AcceptedOfAppend(draws[0].value, Flat(draws[1..]), limit);
      OneAcceptedEach(draws[1..], limit);
    }
  }

  /** If every chunk has an accepted byte, as many chunks as letters are enough. */
  lemma LengthChunksSuffice(opts: Options, draws: seq<Draw>)
    requires opts.HasAnyClass() && |draws| >= opts.length
    requires forall i :: 0 <= i < |draws| ==> draws[i].Some? && Accepted(draws[i].value, Limit(|opts.Letters()|)) != []
    ensures WordOf(opts, Flat(draws[..opts.length])).Some?
  {
    OneAcceptedEach(draws[..opts.length], Limit(|opts.Letters()|));
  }
}
