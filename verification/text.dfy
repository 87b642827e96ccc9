/** The pieces of Go's `strings`, `strconv` and `fmt` packages the library
    relies on, written out so that their behaviour is part of the model:
    whitespace trimming, counting and splitting on a separator character,
    and unsigned decimal rendering and reading. Strings are sequences of
    Unicode scalar values. */
module Text {

  /** Go's `unicode.IsSpace`: the Latin-1 spaces plus the White_Space
      characters above U+00FF. */
  predicate IsSpace(c: char) {
    var n := c as int;
    n == 0x09 || n == 0x0A || n == 0x0B || n == 0x0C || n == 0x0D || n == 0x20 ||
    n == 0x85 || n == 0xA0 || n == 0x1680 || (0x2000 <= n <= 0x200A) ||
    n == 0x2028 || n == 0x2029 || n == 0x202F || n == 0x205F || n == 0x3000
  }

  predicate AllSpace(s: string) {
    forall i :: 0 <= i < |s| ==> IsSpace(s[i])
  }

  /** True when `s` has nothing for `TrimSpace` to remove. */
  predicate Trimmed(s: string) {
    s == [] || (!IsSpace(s[0]) && !IsSpace(s[|s| - 1]))
  }

  /** Drops the leading white space: the result is the suffix of `s` that
      starts at its first non-space character. */
  function TrimLeft(s: string): (r: string)
    ensures |r| <= |s| && r == s[|s| - |r|..]
    ensures AllSpace(s[..|s| - |r|])
    ensures r == [] || !IsSpace(r[0])
    decreases |s|
  {
    if s != [] && IsSpace(s[0]) then
      var r := TrimLeft(s[1..]);
      assert s[..|s| - |r|] == [s[0]] + s[1..][..|s| - 1 - |r|];
      r
    else s
  }

  /** Drops the trailing white space: the result is the prefix of `s` that
      ends at its last non-space character. */
  function TrimRight(s: string): (r: string)
    ensures |r| <= |s| && r == s[..|r|]
    ensures AllSpace(s[|r|..])
    ensures r == [] || !IsSpace(r[|r| - 1])
    decreases |s|
  {
    if s != [] && IsSpace(s[|s| - 1]) then
      var r := TrimRight(s[..|s| - 1]);
      assert s[|r|..] == s[..|s| - 1][|r|..] + [s[|s| - 1]];
      r
    else s
  }

  /** Go's `strings.TrimSpace`. */
  function TrimSpace(s: string): (r: string)
  {
    TrimRight(TrimLeft(s))
  }

  /** `TrimSpace` leaves nothing to trim. */
  lemma TrimSpaceTrimmed(s: string)
    ensures Trimmed(TrimSpace(s))
  {
    TrimRightKeepsStart(TrimLeft(s));
  }

  /** `TrimSpace` leaves text that is already trimmed unchanged. */
  lemma TrimSpaceOfTrimmed(s: string)
    requires Trimmed(s)
    ensures TrimSpace(s) == s
  {
  }

  /** `TrimSpace` removes white space at both ends and nothing else: its
      result is a slice of `s` with only white space around it. */
  lemma TrimSpaceSpec(s: string)
    ensures exists i :: (0 <= i <= |s| - |TrimSpace(s)| &&
                         TrimSpace(s) == s[i..i + |TrimSpace(s)|] &&
                         AllSpace(s[..i]) && AllSpace(s[i + |TrimSpace(s)|..]))
  {
    var l := TrimLeft(s);
    var r := TrimRight(l);
    var i := |s| - |l|;
    TrimRightOfSuffix(s, l, i);
    assert r == TrimSpace(s);
    assert 0 <= i <= |s| - |TrimSpace(s)| &&
           TrimSpace(s) == s[i..i + |TrimSpace(s)|] &&
           AllSpace(s[..i]) && AllSpace(s[i + |TrimSpace(s)|..]);
  }

  /** A slice holds no character its sequence does not hold. */
  lemma SliceKeepsOut(s: string, i: nat, j: nat, c: char)
    requires i <= j <= |s| && c !in s
    ensures c !in s[i..j]
  {
    assert forall k :: i <= k < j ==> s[i..j][k - i] == s[k];
  }

  /** Trimming adds no character: what is not in `s` is not in the result. */
  lemma TrimSpaceKeepsOut(s: string, c: char)
    requires c !in s
    ensures c !in TrimSpace(s)
  {
    var l := TrimLeft(s);
    SliceKeepsOut(s, |s| - |l|, |s|, c);
    SliceKeepsOut(l, 0, |TrimRight(l)|, c);
  }

  /** Trimming the right end of the suffix `l` of `s` that starts at `i`
      leaves a slice of `s` followed, in `s`, by white space only. */
  lemma TrimRightOfSuffix(s: string, l: string, i: nat)
    requires i <= |s| && l == s[i..]
    ensures TrimRight(l) == s[i..i + |TrimRight(l)|]
    ensures AllSpace(s[i + |TrimRight(l)|..])
  {
    var r := TrimRight(l);
    assert s[i + |r|..] == l[|r|..];
  }

  /** Trimming the right end keeps a non-space first character. */
  lemma TrimRightKeepsStart(l: string)
    requires l == [] || !IsSpace(l[0])
    ensures TrimRight(l) == [] || !IsSpace(TrimRight(l)[0])
    ensures l != [] ==> TrimRight(l) != []
  {
    if l != [] {
      var r := TrimRight(l);
      assert |r| == |l| || IsSpace(l[|r|..][0]);
    }
  }

  /** Leading white space makes no difference to `TrimLeft`. */
  lemma {:induction false} TrimLeftSpaces(a: string, t: string)
    requires AllSpace(a)
    ensures TrimLeft(a + t) == TrimLeft(t)
    decreases |a|
  {
    if a == [] {
      assert a + t == t;
    } else {
      assert (a + t)[0] == a[0];
      assert (a + t)[1..] == a[1..] + t;
      TrimLeftSpaces(a[1..], t);
    }
  }

  /** Trailing white space makes no difference to `TrimRight`. */
  lemma {:induction false} TrimRightSpaces(t: string, b: string)
    requires AllSpace(b)
    ensures TrimRight(t + b) == TrimRight(t)
    decreases |b|
  {
    if b == [] {
      assert t + b == t;
    } else {
      var s := t + b;
      assert s[|s| - 1] == b[|b| - 1];
      assert s[..|s| - 1] == t + b[..|b| - 1];
      TrimRightSpaces(t, b[..|b| - 1]);
    }
  }

  /** Text with nothing to trim, padded with white space on either side,
      trims to itself. */
  lemma TrimSpaceOfPadded(a: string, m: string, b: string)
    requires AllSpace(a) && AllSpace(b) && Trimmed(m)
    ensures TrimSpace(a + m + b) == m
  {
    assert a + m + b == a + (m + b);
    TrimLeftSpaces(a, m + b);
    if m == [] {
      assert m + b == b + [];
      TrimLeftSpaces(b, []);
    } else {
      assert (m + b)[0] == m[0];
      TrimRightSpaces(m, b);
    }
  }

  /** Padding with white space does not change what `TrimSpace` yields. */
  lemma TrimSpacePadded(a: string, s: string, b: string)
    requires AllSpace(a) && AllSpace(b)
    ensures TrimSpace(a + s + b) == TrimSpace(s)
  {
    TrimSpaceSpec(s);
    var m := TrimSpace(s);
    var i :| 0 <= i <= |s| - |m| && m == s[i..i + |m|] && AllSpace(s[..i]) && AllSpace(s[i + |m|..]);
    TrimSpaceTrimmed(s);
    TrimSpaceOfPaddedSlice(a, s, b, i, m);
  }

  /** A trimmed slice of `s` with only white space around it is what
      `s`, padded further with white space, trims to. */
  lemma TrimSpaceOfPaddedSlice(a: string, s: string, b: string, i: nat, m: string)
    requires i + |m| <= |s| && m == s[i..i + |m|] && Trimmed(m)
    requires AllSpace(a) && AllSpace(s[..i]) && AllSpace(s[i + |m|..]) && AllSpace(b)
    ensures TrimSpace(a + s + b) == m
  {
    SplitAround(a, s, b, i, m);
    AllSpaceAppend(a, s[..i]);
    AllSpaceAppend(s[i + |m|..], b);
    TrimSpaceOfPadded(a + s[..i], m, s[i + |m|..] + b);
  }

  lemma AllSpaceAppend(x: string, y: string)
    requires AllSpace(x) && AllSpace(y)
    ensures AllSpace(x + y)
  {
  }

  /** Cutting `s` around the slice `m` that starts at `i`. */
  lemma SplitAround(a: string, s: string, b: string, i: nat, m: string)
    requires i + |m| <= |s| && m == s[i..i + |m|]
    ensures a + s + b == (a + s[..i]) + m + (s[i + |m|..] + b)
  {
    assert s == s[..i] + m + s[i + |m|..];
  }

  /** `TrimSpace` is idempotent. */
  lemma TrimSpaceIdempotent(s: string)
    ensures TrimSpace(TrimSpace(s)) == TrimSpace(s)
  {
    TrimSpaceTrimmed(s);
    TrimSpaceOfTrimmed(TrimSpace(s));
  }

  /** Go's `strings.Count` for a one-character separator: the number of
      occurrences of `c` in `s`. */
  function Count(s: string, c: char): (n: nat)
    ensures n <= |s|
    decreases |s|
  {
    if s == [] then 0 else (if s[0] == c then 1 else 0) + Count(s[1..], c)
  }

  /** `Count` is the multiplicity of `c` in `s`, so it is 0 exactly when
      `c` does not occur. */
  lemma {:induction false} CountSpec(s: string, c: char)
    ensures Count(s, c) == multiset(s)[c]
    ensures Count(s, c) == 0 <==> c !in s
    decreases |s|
  {
    if s != [] {
      CountSpec(s[1..], c);
      assert s == [s[0]] + s[1..];
    }
  }

  /** Counting over a concatenation adds the counts. */
  lemma CountAppend(p: string, q: string, c: char)
    ensures Count(p + q, c) == Count(p, c) + Count(q, c)
  {
    CountSpec(p + q, c);
    CountSpec(p, c);
    CountSpec(q, c);
  }

  /** The index of the first `c` in `s`, or `|s|` when there is none
      (`strings.Index`, with "not found" mapped to the length). */
  function IndexOf(s: string, c: char): (i: nat)
    ensures i <= |s|
    ensures c !in s[..i]
    ensures i < |s| ==> s[i] == c
    decreases |s|
  {
    if s == [] then 0
    else if s[0] == c then 0
    else
      assert s[..1 + IndexOf(s[1..], c)] == [s[0]] + s[1..][..IndexOf(s[1..], c)];
      1 + IndexOf(s[1..], c)
  }

  /** Glues `parts` together with `sep` between neighbours (`strings.Join`). */
  function Join(parts: seq<string>, sep: char): string
    decreases |parts|
  {
    if parts == [] then []
    else if |parts| == 1 then parts[0]
    else parts[0] + [sep] + Join(parts[1..], sep)
  }

  /** Four parts joined: the three separators written out. */
  lemma JoinFour(t0: string, t1: string, t2: string, t3: string, sep: char)
    ensures Join([t0, t1, t2, t3], sep) == t0 + [sep] + t1 + [sep] + t2 + [sep] + t3
  {
    var t := [t0, t1, t2, t3];
    assert t[1..] == [t1, t2, t3] && t[1..][1..] == [t2, t3] && t[1..][1..][1..] == [t3];
    assert Join([t2, t3], sep) == t2 + [sep] + t3;
    assert Join([t1, t2, t3], sep) == t1 + [sep] + (t2 + [sep] + t3);
  }

  /** Go's `strings.Split` for a one-character separator: the pieces
      between the occurrences of `sep`. */
  function Split(s: string, sep: char): (parts: seq<string>)
    ensures parts != []
    decreases |s|
  {
    var i := IndexOf(s, sep);
    if i == |s| then [s] else [s[..i]] + Split(s[i + 1..], sep)
  }

  /** `Split` yields one more piece than there are separators, none of the
      pieces contains the separator, and joining them gives `s` back. */
  lemma {:induction false} SplitSpec(s: string, sep: char)
    ensures |Split(s, sep)| == Count(s, sep) + 1
    ensures forall k :: 0 <= k < |Split(s, sep)| ==> sep !in Split(s, sep)[k]
    ensures Join(Split(s, sep), sep) == s
    decreases |s|
  {
    var i := IndexOf(s, sep);
    if i == |s| {
      assert s[..i] == s;
      CountSpec(s, sep);
    } else {
      var rest := s[i + 1..];
      SplitSpec(rest, sep);
      assert s == s[..i] + [sep] + rest;
      CountAppend(s[..i] + [sep], rest, sep);
      CountAppend(s[..i], [sep], sep);
      CountSpec(s[..i], sep);
      var parts := Split(s, sep);
      assert parts == [s[..i]] + Split(rest, sep);
      assert parts[1..] == Split(rest, sep);
    }
  }

  /** Splitting what `Join` built gives back the pieces, as long as no piece
      contains the separator. */
  lemma {:induction false} SplitJoin(parts: seq<string>, sep: char)
    requires parts != []
    requires forall k :: 0 <= k < |parts| ==> sep !in parts[k]
    ensures Split(Join(parts, sep), sep) == parts
    decreases |parts|
  {
    if |parts| == 1 {
      SplitNone(parts[0], sep);
    } else {
      SplitJoin(parts[1..], sep);
      SplitFirst(parts[0], sep, Join(parts[1..], sep));
      assert parts == [parts[0]] + parts[1..];
    }
  }

  /** Text without the separator splits into itself alone. */
  lemma SplitNone(s: string, sep: char)
    requires sep !in s
    ensures Split(s, sep) == [s]
  {
    assert IndexOf(s, sep) == |s|;
    assert s[..|s|] == s;
  }

  /** The first piece of `p + [sep] + q` is `p` when `p` has no separator. */
  lemma SplitFirst(p: string, sep: char, q: string)
    requires sep !in p
    ensures Split(p + [sep] + q, sep) == [p] + Split(q, sep)
  {
    var s := p + [sep] + q;
    IndexOfAfter(p, sep, q);
    assert s[..|p|] == p;
    assert s[|p| + 1..] == q;
  }

  /** In `p + [c] + q` with no `c` in `p`, the first `c` is the one after `p`. */
  lemma {:induction false} IndexOfAfter(p: string, c: char, q: string)
    requires c !in p
    ensures IndexOf(p + [c] + q, c) == |p|
    decreases |p|
  {
    if p != [] {
      assert (p + [c] + q)[1..] == p[1..] + [c] + q;
      IndexOfAfter(p[1..], c, q);
    }
  }

  // ---------------------------------------------------------------------
  // Decimal digits: `fmt` "%d" / `strconv.Itoa` and `strconv.Atoi`.

  predicate IsDigit(c: char) {
    '0' <= c <= '9'
  }

  predicate AllDigits(s: string) {
    forall i :: 0 <= i < |s| ==> IsDigit(s[i])
  }

  /** A non-empty digit string without a superfluous leading zero: the
      form `%d` produces. */
  predicate Canonical(s: string) {
    s != [] && AllDigits(s) && (|s| > 1 ==> s[0] != '0')
  }

  function DigitChar(d: nat): (c: char)
    requires d < 10
    ensures IsDigit(c)
  {
    ('0' as int + d) as char
  }

  function DigitValue(c: char): (d: nat)
    requires IsDigit(c)
    ensures d < 10 && DigitChar(d) == c
  {
    c as int - '0' as int
  }

  /** The unsigned decimal rendering of `n`. */
  function DecimalText(n: nat): (s: string)
    decreases n
  {
    if n < 10 then [DigitChar(n)] else DecimalText(n / 10) + [DigitChar(n % 10)]
  }

  /** The value of a string of decimal digits. */
  function DecimalValue(s: string): (n: nat)
    requires AllDigits(s)
    decreases |s|
  {
    if s == [] then 0 else DecimalValue(s[..|s| - 1]) * 10 + DigitValue(s[|s| - 1])
  }

  /** What `%d` renders is canonical and reads back as the same number. */
  lemma {:induction false} DecimalRoundTrip(n: nat)
    ensures Canonical(DecimalText(n))
    ensures DecimalValue(DecimalText(n)) == n
    ensures n < 10 ==> |DecimalText(n)| == 1
    ensures 10 <= n < 100 ==> |DecimalText(n)| == 2
    ensures 100 <= n < 1000 ==> |DecimalText(n)| == 3
    decreases n
  {
    if n >= 10 {
      DecimalRoundTrip(n / 10);
      var s := DecimalText(n);
      assert s[..|s| - 1] == DecimalText(n / 10);
      if |DecimalText(n / 10)| > 1 {
        assert s[0] == DecimalText(n / 10)[0];
      } else {
        assert s[0] == DigitChar(n / 10);
      }
    }
  }

  /** A canonical digit string is exactly the rendering of its value. */
  lemma {:induction false} CanonicalRoundTrip(s: string)
    requires Canonical(s)
    ensures DecimalText(DecimalValue(s)) == s
    decreases |s|
  {
    if |s| == 1 {
      assert DecimalValue(s) == DigitValue(s[0]);
    } else {
      var init := s[..|s| - 1];
      assert init[0] == s[0];
      CanonicalRoundTrip(init);
      CanonicalPositive(init);
      var n := DecimalValue(s);
      assert n / 10 == DecimalValue(init) && n % 10 == DigitValue(s[|s| - 1]);
      assert s == init + [s[|s| - 1]];
    }
  }

  /** A digit string whose first digit is not zero has a positive value. */
  lemma {:induction false} CanonicalPositive(s: string)
    requires AllDigits(s) && s != [] && s[0] != '0'
    ensures DecimalValue(s) >= 1
    decreases |s|
  {
    if |s| > 1 {
      var init := s[..|s| - 1];
      assert init[0] == s[0];
      CanonicalPositive(init);
    }
  }

  /** `%d` on a Go `int`, which may be negative. */
  function IntText(i: int): (s: string)
  {
    if i < 0 then "-" + DecimalText(-i) else DecimalText(i)
  }
}
