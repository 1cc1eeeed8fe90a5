/**
  * The generator is exactly uniform: for any number of random bytes, every word of the
  * requested length over the alphabet is produced by equally many byte streams.
  */
module Uniformity {
  import opened Basics
  import opened PasswordGenerator

  // ---- The alphabet has no duplicates ----

  predicate NoDuplicates(s: string) {
    forall i, j :: 0 <= i < j < |s| ==> s[i] != s[j]
  }

  /** Two enabled classes never share a letter, and no class repeats one. */
  lemma LettersAreDistinct(opts: Options)
    ensures NoDuplicates(opts.Letters())
  {
    LettersAreThoseEnabled(opts);
  }

  // ---- The word of a stream, byte by byte ----

  function Read(letters: string, limit: nat, s: Bytes, n: nat): Option<string>
    requires letters != ""
    decreases |s|
  {
    if n == 0 then Some("")
    else if s == [] then None
    else if s[0] < limit then
      match Read(letters, limit, s[1..], n - 1)
      case None => None
      case Some(w) => Some([letters[s[0] % |letters|]] + w)
    else Read(letters, limit, s[1..], n)
  }

  lemma {:induction false} ReadIsPick(letters: string, limit: nat, s: Bytes, n: nat)
    requires letters != ""
    ensures var a := Accepted(s, limit);
            Read(letters, limit, s, n) == if |a| < n then None else Some(Pick(letters, a[..n]))
    decreases |s|
  {
    var a := Accepted(s, limit);
    if n == 0 {
      assert Pick(letters, a[..0]) == "";
    } else if s != [] {
      if s[0] < limit {
        ReadIsPick(letters, limit, s[1..], n - 1);
        assert a[1..] == Accepted(s[1..], limit);
        if |a| >= n {
          assert a[..n] == [a[0]] + a[1..][..n - 1];
          assert Pick(letters, a[..n]) == [letters[a[0] % |letters|]] + Pick(letters, a[1..][..n - 1]);
        }
      } else {
        ReadIsPick(letters, limit, s[1..], n);
      }
    }
  }

  /** How many of the first `k` bytes are below the limit. */
  function Below(s: Bytes, limit: nat, k: nat): nat
    requires k <= |s|
  {
    if k == 0 then 0 else Below(s, limit, k - 1) + if s[k - 1] < limit then 1 else 0
  }

  lemma {:induction false} BelowIsLength(s: Bytes, limit: nat, k: nat)
    requires k <= |s|
    ensures |Accepted(s[..k], limit)| == Below(s, limit, k)
  {
    if k > 0 {
      BelowIsLength(s, limit, k - 1);
      assert s[..k] == s[..k - 1] + [s[k - 1]];
      AcceptedOfAppend(s[..k - 1], [s[k - 1]], limit);
    }
  }

  lemma AcceptedAt(s: Bytes, limit: nat, k: nat)
    requires k < |s| && s[k] < limit
    ensures Below(s, limit, k) < |Accepted(s, limit)| && Accepted(s, limit)[Below(s, limit, k)] == s[k]
  {
    BelowIsLength(s, limit, k);
    assert s == s[..k] + s[k..];
    AcceptedOfAppend(s[..k], s[k..], limit);
  }

  lemma {:induction false} AcceptedAfter(s: Bytes, limit: nat, k: nat, i: nat) returns (at: nat)
    requires k <= |s| && i < Below(s, limit, k)
    ensures at < k && s[at] < limit && Below(s, limit, at) == i
  {
    if i < Below(s, limit, k - 1) {
      at := AcceptedAfter(s, limit, k - 1, i);
    } else {
      at := k - 1;
    }
  }

  /** The byte after `i` others below the limit, if it is below it, gives letter `i` by its remainder. */
  ghost predicate ReadsOff(letters: string, limit: nat, s: Bytes, w: string)
    requires letters != ""
  {
    && |w| <= Below(s, limit, |s|)
    && forall k :: 0 <= k < |s| && s[k] < limit && Below(s, limit, k) < |w| ==> w[Below(s, limit, k)] == letters[s[k] % |letters|]
  }

  lemma PickReadsOff(letters: string, limit: nat, s: Bytes, n: nat)
    requires letters != "" && n <= |Accepted(s, limit)|
    ensures ReadsOff(letters, limit, s, Pick(letters, Accepted(s, limit)[..n]))
  {
    BelowIsLength(s, limit, |s|);
    assert s[..|s|] == s;
    var w := Pick(letters, Accepted(s, limit)[..n]);
    forall k | 0 <= k < |s| && s[k] < limit && Below(s, limit, k) < n ensures w[Below(s, limit, k)] == letters[s[k] % |letters|] {
      AcceptedAt(s, limit, k);
    }
  }

  lemma ReadOffIsUnique(letters: string, limit: nat, s: Bytes, w: string, w': string)
    requires letters != "" && ReadsOff(letters, limit, s, w) && ReadsOff(letters, limit, s, w') && |w| == |w'|
    ensures w == w'
  {
    forall i | 0 <= i < |w| ensures w[i] == w'[i] {
      var k := AcceptedAfter(s, limit, |s|, i);
    }
  }

  ghost predicate SameMembers(s: string, t: string) {
    forall c :: c in s <==> c in t
  }

  lemma {:induction false} MembersDecide(s: string, t: string)
    requires Ascending(s) && Ascending(t) && SameMembers(s, t)
    ensures s == t
  {
    if s != "" {
      NotEmpty(s, t);
      FirstsAgree(s, t);
      TailsMatch(s, t);
      MembersDecide(s[1..], t[1..]);
      assert s == [s[0]] + s[1..] && t == [t[0]] + t[1..];
    } else if t != "" {
      NotEmpty(t, s);
    }
  }

  lemma TailsMatch(s: string, t: string)
    requires s != "" && t != "" && s[0] == t[0] && Ascending(s) && Ascending(t) && SameMembers(s, t)
    ensures Ascending(s[1..]) && Ascending(t[1..]) && SameMembers(s[1..], t[1..])
  {
    forall c ensures c in s[1..] <==> c in t[1..] {
      TailMember(s, c);
      TailMember(t, c);
    }
  }

  lemma NotEmpty(s: string, t: string)
    requires s != "" && SameMembers(s, t)
    ensures t != ""
  {
    assert s[0] in s;
  }

  lemma FirstIsLeast(s: string, c: char)
    requires Ascending(s) && c in s
    ensures c == s[0] || Position(s[0]) < Position(c)
  {
  }

  lemma FirstsAgree(s: string, t: string)
    requires s != "" && t != "" && Ascending(s) && Ascending(t) && SameMembers(s, t)
    ensures s[0] == t[0]
  {
    assert s[0] in s && t[0] in t;
    FirstIsLeast(s, t[0]);
    FirstIsLeast(t, s[0]);
  }

  lemma TailMember(s: string, c: char)
    requires s != "" && Ascending(s)
    ensures c in s[1..] <==> c in s && c != s[0]
  {
    if c in s && c != s[0] {
      var i :| 0 <= i < |s| && s[i] == c;
      assert s[1..][i - 1] == c;
    }
    if c in s[1..] {
      var i :| 0 <= i < |s[1..]| && s[1..][i] == c;
      assert s[i + 1] == c;
    }
  }

  lemma LimitIs(n: nat, limit: nat)
    requires 0 < n <= 255 && limit % n == 0 && limit <= 255 < limit + n
    ensures Limit(n) == limit
  {
    Division(255, n);
    Division(limit, n);
    var d := limit / n - 255 / n;
    Multiple(d, n);
    assert d * n == limit / n * n - 255 / n * n;
  }

  /**
    * The word of a stream, said without the code: with the enabled characters in order as
    * alphabet, and the largest multiple of their number that is at most 255 as limit, the bytes
    * below the limit are read off one after the other, each as the letter at its remainder.
    */
  lemma WordReadsOff(opts: Options, letters: string, limit: nat, s: Bytes, w: string)
    requires opts.HasAnyClass() && Ascending(letters) && forall c :: c in letters <==> Enabled(opts, c)
    requires letters != "" && limit % |letters| == 0 && limit <= 255 < limit + |letters|
    ensures WordOf(opts, s) == Some(w) <==> |w| == opts.length && ReadsOff(letters, limit, s, w)
  {
    LettersAreThoseEnabled(opts);
    MembersDecide(letters, opts.Letters());
    ClassLengths();
    LimitIs(|letters|, limit);
    BelowIsLength(s, limit, |s|);
    assert s[..|s|] == s;
    if opts.length <= |Accepted(s, limit)| {
      PickReadsOff(letters, limit, s, opts.length);
      if |w| == opts.length && ReadsOff(letters, limit, s, w) {
        ReadOffIsUnique(letters, limit, s, w, WordOf(opts, s).value);
      }
    }
  }

  // ---- Exchanging one word for another ----

  predicate Over(letters: string, w: string) {
    forall i :: 0 <= i < |w| ==> w[i] in letters
  }

  /** A limit that whole groups of `n` bytes fill. */
  ghost predicate Whole(limit: nat, n: nat) {
    n > 0 && limit <= 256 && limit % n == 0
  }

  lemma Multiple(a: int, n: nat)
    requires n > 0
    ensures a >= 1 ==> a * n >= n
    ensures a <= -1 ==> a * n + n <= 0
  {
  }

  lemma Quotient(m: nat, k: nat, n: nat)
    requires k < n
    ensures (m * n + k) / n == m && (m * n + k) % n == k
  {
    var x := m * n + k;
    Division(x, n);
    Multiple(x / n - m, n);
    assert (x / n - m) * n == x / n * n - m * n;
  }

  lemma Stays(m: nat, q: nat, k: nat, n: nat)
    requires m * n < q * n && k < n
    ensures m * n + k < q * n
  {
    Multiple(q - m, n);
    assert (q - m) * n == q * n - m * n;
  }

  lemma Division(b: nat, n: nat)
    requires n > 0
    ensures b / n * n + b % n == b && b % n < n
  {
  }

  /** Another residue with the same quotient stays below the limit. */
  lemma SameQuotient(b: nat, k: nat, n: nat, limit: nat)
    requires Whole(limit, n) && b < limit && k < n
    ensures b / n * n + k < limit
    ensures (b / n * n + k) / n == b / n && (b / n * n + k) % n == k
    ensures b / n * n + b % n == b
  {
    Division(b, n);
    Division(limit, n);
    Stays(b / n, limit / n, k, n);
    Quotient(b / n, k, n);
  }

  /** The accepted byte that stands for the letter `c` and has the quotient of `b`. */
  function Swap(letters: string, limit: nat, b: byte, c: char): (r: byte)
    requires Whole(limit, |letters|) && b < limit && c in letters
    ensures r < limit && r / |letters| == b / |letters| && r % |letters| == IndexOf(letters, c)
  {
    SameQuotient(b, IndexOf(letters, c), |letters|, limit);
    b as int / |letters| * |letters| + IndexOf(letters, c)
  }

  /** The accepted bytes are replaced, one for each letter of `w`; the rest is kept. */
  function Rewrite(letters: string, limit: nat, s: Bytes, w: string): (r: Bytes)
    requires Whole(limit, |letters|) && Over(letters, w)
    ensures |r| == |s|
    decreases |s|
  {
    if s == [] || w == "" then s
    else if s[0] < limit then [Swap(letters, limit, s[0], w[0])] + Rewrite(letters, limit, s[1..], w[1..])
    else [s[0]] + Rewrite(letters, limit, s[1..], w)
  }

  lemma ResidueOfLetter(letters: string, limit: nat, b: byte, c: char)
    requires Whole(limit, |letters|) && NoDuplicates(letters) && b < limit && c in letters
    ensures letters[Swap(letters, limit, b, c) % |letters|] == c
    ensures Swap(letters, limit, Swap(letters, limit, b, c), letters[b % |letters|]) == b
  {
    var n, k := |letters|, b as int % |letters|;
    SameQuotient(b, k, n, limit);
    assert letters[k] in letters;
    assert IndexOf(letters, letters[k]) == k;
    SameQuotient(b, IndexOf(letters, c), n, limit);
  }

  /**
    * Rewriting a stream that gives `w` to one that gives `w'` is undone by rewriting it
    * back, so the streams of the two words are in bijection.
    */
  lemma {:induction false} RewriteIsBijective(letters: string, limit: nat, s: Bytes, w: string, w': string)
    requires Whole(limit, |letters|) && NoDuplicates(letters)
    requires |w| == |w'| && Over(letters, w) && Over(letters, w')
    requires Read(letters, limit, s, |w|) == Some(w)
    ensures Read(letters, limit, Rewrite(letters, limit, s, w'), |w|) == Some(w')
    ensures Rewrite(letters, limit, Rewrite(letters, limit, s, w'), w) == s
    decreases |s|
  {
    if w != "" {
      var r := Rewrite(letters, limit, s, w');
      if s[0] < limit {
        var tail := Read(letters, limit, s[1..], |w| - 1).value;
        assert w == [letters[s[0] % |letters|]] + tail;
        assert w[1..] == tail;
        RewriteIsBijective(letters, limit, s[1..], w[1..], w'[1..]);
        ResidueOfLetter(letters, limit, s[0], w'[0]);
        assert r[1..] == Rewrite(letters, limit, s[1..], w'[1..]);
        assert w' == [w'[0]] + w'[1..];
        assert s == [s[0]] + s[1..];
      } else {
        RewriteIsBijective(letters, limit, s[1..], w, w');
        assert r[1..] == Rewrite(letters, limit, s[1..], w');
        assert s == [s[0]] + s[1..];
      }
    }
  }

  lemma LimitIsWhole(opts: Options)
    requires opts.HasAnyClass()
    ensures Whole(Limit(|opts.Letters()|), |opts.Letters()|) && 0 < Limit(|opts.Letters()|) <= 255
  {
    ClassLengths();
    LimitOf(|opts.Letters()|);
  }

  lemma LimitOf(n: nat)
    requires 0 < n <= 255
    ensures Whole(Limit(n), n) && 0 < Limit(n) <= 255
  {
    var q := 255 / n;
    Division(255, n);
    Multiple(q, n);
    Quotient(q, 0, n);
  }

  // ---- Counting ----

  /** All byte strings of length `n`. */
  ghost function Streams(n: nat): set<Bytes> {
    if n == 0 then {[]} else set b: byte, s | 0 <= b < 256 && s in Streams(n - 1) :: [b] + s
  }

  lemma {:induction false} StreamsAreAll(n: nat, s: Bytes)
    ensures s in Streams(n) <==> |s| == n
  {
    if n > 0 {
      if |s| == n {
        StreamsAreAll(n - 1, s[1..]);
        assert s == [s[0]] + s[1..];
      } else if s in Streams(n) {
        StreamsAreAll(n - 1, s[1..]);
      }
    }
  }

  /** The streams of `n` bytes on which the generator has returned `w`. */
  ghost function Producing(opts: Options, n: nat, w: string): set<Bytes>
    requires opts.HasAnyClass()
  {
    set s | s in Streams(n) && WordOf(opts, s) == Some(w)
  }

  lemma {:induction false} InjectionBound(a: set<Bytes>, b: set<Bytes>, f: Bytes -> Bytes)
    requires forall x :: x in a ==> f(x) in b
    requires forall x, y :: x in a && y in a && f(x) == f(y) ==> x == y
    ensures |a| <= |b|
    decreases a
  {
    if a != {} {
      var x :| x in a;
      InjectionBound(a - {x}, b - {f(x)}, f);
    }
  }

  lemma AtMostAsMany(opts: Options, n: nat, w: string, w': string)
    requires opts.HasAnyClass()
    requires |w| == opts.length == |w'| && Over(opts.Letters(), w) && Over(opts.Letters(), w')
    ensures |Producing(opts, n, w)| <= |Producing(opts, n, w')|
  {
    var letters, limit := opts.Letters(), Limit(|opts.Letters()|);
    LimitIsWhole(opts);
    LettersAreDistinct(opts);
    var f := (s: Bytes) => Rewrite(letters, limit, s, w');
    forall s | s in Producing(opts, n, w)
      ensures f(s) in Producing(opts, n, w') && Rewrite(letters, limit, f(s), w) == s
    {
      StreamsAreAll(n, s);
      StreamsAreAll(n, f(s));
      ReadIsPick(letters, limit, s, opts.length);
      ReadIsPick(letters, limit, f(s), opts.length);
      RewriteIsBijective(letters, limit, s, w, w');
    }
    InjectionBound(Producing(opts, n, w), Producing(opts, n, w'), f);
  }

  /** For any number of random bytes, any two words of the requested length are equally likely. */
  lemma GeneratorIsUniform(opts: Options, n: nat, w: string, w': string)
    requires opts.HasAnyClass()
    requires |w| == opts.length == |w'| && Over(opts.Letters(), w) && Over(opts.Letters(), w')
    ensures |Producing(opts, n, w)| == |Producing(opts, n, w')|
  {
    AtMostAsMany(opts, n, w, w');
    AtMostAsMany(opts, n, w', w);
  }
}
