/** The JavaScript string primitives the site's logic is written with:
    `trim`, `toLowerCase`, `includes`, `startsWith`, `substring(0, n)`,
    `split` on one character, and the decimal rendering of integers.
    Strings are sequences of `char`. */
module Text {

  /** JavaScript's `\s` class, which is also the set `String.prototype.trim`
      removes: the white-space characters (tab, vertical tab, form feed,
      space, no-break space, byte-order mark and the Unicode space
      separators) and the line terminators (LF, CR, LS, PS). */
  predicate IsSpace(c: char) {
    var n := c as int;
    || n == 0x09 || n == 0x0A || n == 0x0B || n == 0x0C || n == 0x0D
    || n == 0x20 || n == 0xA0 || n == 0x1680
    || (0x2000 <= n <= 0x200A)
    || n == 0x2028 || n == 0x2029 || n == 0x202F || n == 0x205F
    || n == 0x3000 || n == 0xFEFF
  }

  /** The string is empty or made only of white space: `!s.trim()` holds. */
  predicate IsBlank(s: string) {
    forall i :: 0 <= i < |s| ==> IsSpace(s[i])
  }

  /** `s.trimStart()`: drops the leading white space. */
  function TrimStart(s: string): (r: string)
    ensures |r| <= |s| && r == s[|s| - |r|..]
    ensures forall i :: 0 <= i < |s| - |r| ==> IsSpace(s[i])
    ensures r == [] || !IsSpace(r[0])
  {
    if |s| > 0 && IsSpace(s[0]) then TrimStart(s[1..]) else s
  }

  /** `s.trimEnd()`: drops the trailing white space. */
  function TrimEnd(s: string): (r: string)
    ensures |r| <= |s| && r == s[..|r|]
    ensures forall i :: |r| <= i < |s| ==> IsSpace(s[i])
    ensures r == [] || !IsSpace(r[|r| - 1])
  {
    if |s| > 0 && IsSpace(s[|s| - 1]) then TrimEnd(s[..|s| - 1]) else s
  }

  /** `r` is the slice of `s` starting at `lo`, and everything of `s` outside it is white space. */
  predicate SpacePaddedSlice(s: string, r: string, lo: int) {
    && 0 <= lo <= |s| - |r|
    && r == s[lo..lo + |r|]
    && (forall i :: 0 <= i < lo ==> IsSpace(s[i]))
    && (forall i :: lo + |r| <= i < |s| ==> IsSpace(s[i]))
  }

  /** `s.trim()`: the slice of `s` left after dropping white space at both ends. */
  function Trim(s: string): (r: string)
    ensures exists lo :: SpacePaddedSlice(s, r, lo)
    ensures r == [] || (!IsSpace(r[0]) && !IsSpace(r[|r| - 1]))
    ensures r == [] <==> IsBlank(s)
  {
    var t := TrimStart(s);
    var r := TrimEnd(t);
    TrimBothEnds(s, t, r);
    r
  }

  /** Dropping leading white space from `s`, giving `t`, and then trailing
      white space from `t`, giving `r`, leaves a padded slice of `s` that is
      empty exactly when `s` is blank. */
  lemma TrimBothEnds(s: string, t: string, r: string)
    requires |t| <= |s| && t == s[|s| - |t|..] && (forall i :: 0 <= i < |s| - |t| ==> IsSpace(s[i]))
    requires t == [] || !IsSpace(t[0])
    requires |r| <= |t| && r == t[..|r|] && (forall i :: |r| <= i < |t| ==> IsSpace(t[i]))
    requires r == [] || !IsSpace(r[|r| - 1])
    ensures SpacePaddedSlice(s, r, |s| - |t|)
    ensures r == [] || (!IsSpace(r[0]) && !IsSpace(r[|r| - 1]))
    ensures r == [] <==> IsBlank(s)
  {
    var lo := |s| - |t|;
    assert forall i :: lo + |r| <= i < |s| ==> s[i] == t[i - lo];
    if r != [] {
      assert r[0] == t[0] == s[lo];
    }
  }

  /** A string whose first and last characters are not white space is its own trim. */
  lemma TrimOfClean(s: string)
    requires s == [] || (!IsSpace(s[0]) && !IsSpace(s[|s| - 1]))
    ensures Trim(s) == s
  {
    if s != [] {
      assert TrimStart(s) == s;
      assert TrimEnd(s) == s;
    }
  }

  /** Trimming twice is trimming once. */
  lemma TrimIdempotent(s: string)
    ensures Trim(Trim(s)) == Trim(s)
  {
    TrimOfClean(Trim(s));
  }

  /** `toLowerCase` on one character, for the ASCII letters. */
  function LowerChar(c: char): (r: char)
    ensures 'A' <= c <= 'Z' ==> r as int == c as int + 32
    ensures !('A' <= c <= 'Z') ==> r == c
  {
    if 'A' <= c <= 'Z' then (c as int + 32) as char else c
  }

  /** `s.toLowerCase()`: lower-cases every ASCII capital, keeping length and positions. */
  function Lower(s: string): (r: string)
    ensures |r| == |s|
    ensures forall i :: 0 <= i < |s| ==> r[i] == LowerChar(s[i])
  {
    seq(|s|, i requires 0 <= i < |s| => LowerChar(s[i]))
  }

  /** Lower-casing a character does not change whether it is white space. */
  lemma LowerCharSpace(c: char)
    ensures IsSpace(LowerChar(c)) <==> IsSpace(c)
    ensures LowerChar(LowerChar(c)) == LowerChar(c)
  {
  }

  /** Lower-casing is idempotent, and it neither creates nor removes
      white space, so it does not change whether a string is blank. */
  lemma LowerFacts(s: string)
    ensures Lower(Lower(s)) == Lower(s)
    ensures IsBlank(Lower(s)) <==> IsBlank(s)
    ensures forall i :: 0 <= i < |s| ==> (IsSpace(Lower(s)[i]) <==> IsSpace(s[i]))
  {
    forall i | 0 <= i < |s|
      ensures IsSpace(Lower(s)[i]) <==> IsSpace(s[i])
      ensures Lower(Lower(s))[i] == Lower(s)[i]
    {
      LowerCharSpace(s[i]);
    }
  }

  /** `t` occurs in `s` starting at index `i`. */
  predicate OccursAt(s: string, t: string, i: int) {
    0 <= i && i + |t| <= |s| && s[i..i + |t|] == t
  }

  /** `s.includes(t)`. The empty string occurs in every string. */
  predicate Contains(s: string, t: string) {
    exists i :: 0 <= i <= |s| - |t| && OccursAt(s, t, i)
  }

  /** The empty string occurs in every string. */
  lemma ContainsEmpty(s: string)
    ensures Contains(s, "")
  {
    assert OccursAt(s, "", 0);
  }

  /** Every character of a contained string is a character of the container. */
  lemma ContainsChars(s: string, t: string)
    requires Contains(s, t)
    ensures forall c :: c in t ==> c in s
  {
    var i :| 0 <= i <= |s| - |t| && OccursAt(s, t, i);
    assert forall k :: 0 <= k < |t| ==> t[k] == s[i + k];
  }

  /** A string with a character the container lacks is not contained in it. */
  lemma NotContainedByChar(s: string, t: string, c: char)
    requires c in t && c !in s
    ensures !Contains(s, t)
  {
    if Contains(s, t) {
      ContainsChars(s, t);
    }
  }

  /** `s.startsWith(p)`. */
  predicate StartsWith(s: string, p: string) {
    |p| <= |s| && s[..|p|] == p
  }

  /** `s.substring(0, n)` for `n >= 0`: the first `n` characters, or all of `s` when it is shorter. */
  function Prefix(s: string, n: nat): (r: string)
    ensures |r| == if |s| <= n then |s| else n
    ensures r == s[..|r|]
  {
    if n <= |s| then s[..n] else s
  }

  // ------------------------------------------------------------ UTF-16 lengths

  /** The UTF-16 code units JavaScript stores for a character: two (a
      surrogate pair) outside the Basic Multilingual Plane, one inside it. */
  function CodeUnits(c: char): nat {
    if c as int >= 0x10000 then 2 else 1
  }

  /** Every character of `s` lies in the Basic Multilingual Plane. */
  predicate InBmp(s: string) {
    forall i :: 0 <= i < |s| ==> CodeUnits(s[i]) == 1
  }

  /** `s.length`: the number of UTF-16 code units of `s`. */
  function JsLength(s: string): nat {
    if s == [] then 0 else CodeUnits(s[0]) + JsLength(s[1..])
  }

  /** A string is at least as long in code units as in characters and at
      most twice as long; the two lengths agree exactly for text of the
      Basic Multilingual Plane. */
  lemma {:induction false} JsLengthBounds(s: string)
    ensures |s| <= JsLength(s) <= 2 * |s|
    ensures JsLength(s) == |s| <==> InBmp(s)
  {
    if s != [] {
      JsLengthBounds(s[1..]);
      assert forall i :: 1 <= i < |s| ==> s[i] == s[1..][i - 1];
    }
  }

  /** Code units add up over concatenation. */
  lemma {:induction false} JsLengthAppend(a: string, b: string)
    ensures JsLength(a + b) == JsLength(a) + JsLength(b)
  {
    if a != [] {
      assert (a + b)[1..] == a[1..] + b;
      assert (a + b)[0] == a[0];
      JsLengthAppend(a[1..], b);
    } else {
      assert a + b == b;
    }
  }

  /** A cut followed by "..." is three units longer than the cut. */
  lemma EllipsisUnits(cut: string)
    ensures JsLength(cut + "...") == JsLength(cut) + 3
  {
    JsLengthAppend(cut, "...");
    assert "..."[1..] == "..";
    assert ".."[1..] == ".";
    assert "."[1..] == [];
  }

  /** What a lone high surrogate is shown as: U+FFFD, the replacement
      character. Like the surrogate, it is one code unit. */
  const LoneSurrogate: char := 0xFFFD as char

  /** `r` is the start of `s`: its first `|r|` characters, except that the
      last may stand for the high half of `s`'s character at that place. */
  predicate CutOf(s: string, r: string) {
    && |r| <= |s|
    && (|| r == s[..|r|]
        || (|r| >= 1 && r[..|r| - 1] == s[..|r| - 1] && r[|r| - 1] == LoneSurrogate && CodeUnits(s[|r| - 1]) == 2))
  }

  /** `s.substring(0, n)` for `n >= 0`, counted in code units: the
      characters that fit in `n` units, and, when the cut falls inside a
      surrogate pair, the lone high surrogate JavaScript keeps. The result
      is exactly `n` units long, or all of `s` when `s` is not longer. */
  function JsPrefix(s: string, n: nat): (r: string)
    ensures JsLength(r) == if JsLength(s) <= n then JsLength(s) else n
    ensures JsLength(s) <= n ==> r == s
    ensures CutOf(s, r)
    decreases |s|
  {
    if s == [] || n == 0 then []
    else if CodeUnits(s[0]) <= n then
      var rest := JsPrefix(s[1..], n - CodeUnits(s[0]));
      assert [s[0]] + s[1..] == s;
      CutStep(s, rest);
      [s[0]] + rest
    else
      assert JsLength(s) >= 2;
      [LoneSurrogate]
  }

  /** A cut of the tail, after the first character, is a cut of the whole. */
  lemma CutStep(s: string, rest: string)
    requires s != [] && CutOf(s[1..], rest)
    ensures CutOf(s, [s[0]] + rest)
  {
    var r := [s[0]] + rest;
    if rest == s[1..][..|rest|] {
      assert r == s[..|r|];
    } else {
      assert r[..|r| - 1] == [s[0]] + rest[..|rest| - 1];
      assert s[..|r| - 1] == [s[0]] + s[1..][..|rest| - 1];
      assert s[|r| - 1] == s[1..][|rest| - 1];
    }
  }

  /** Cutting a text that starts with `r` at `r`'s own length gives `r`
      back, so a cut followed by more text cuts the same way again. */
  lemma {:induction false} JsPrefixOfPrefix(r: string, t: string)
    ensures JsPrefix(r + t, JsLength(r)) == r
  {
    if r != [] {
      assert (r + t)[1..] == r[1..] + t;
      assert (r + t)[0] == r[0];
      JsPrefixOfPrefix(r[1..], t);
      assert [r[0]] + r[1..] == r;
    }
  }

  /** The rest of a Basic Multilingual Plane text after its first character is one too. */
  lemma BmpTail(s: string)
    requires s != [] && InBmp(s)
    ensures CodeUnits(s[0]) == 1 && InBmp(s[1..])
  {
    assert forall i :: 0 <= i < |s[1..]| ==> s[1..][i] == s[i + 1];
  }

  /** On text of the Basic Multilingual Plane, code units are characters:
      the length is the number of characters and the cut is the plain
      first `n` characters. */
  lemma {:induction false} BmpCut(s: string, n: nat)
    requires InBmp(s)
    ensures JsLength(s) == |s|
    ensures JsPrefix(s, n) == Prefix(s, n)
  {
    if s != [] {
      BmpTail(s);
      var m := if n == 0 then 0 else n - 1;
      BmpCut(s[1..], m);
      if n != 0 {
        assert JsPrefix(s, n) == [s[0]] + JsPrefix(s[1..], m);
        if m <= |s[1..]| {
          assert [s[0]] + s[1..][..m] == s[..n];
        } else {
          assert [s[0]] + s[1..] == s;
        }
      }
    }
  }

  /** The number of occurrences of `c` in `s`. */
  function CountChar(s: string, c: char): nat
  {
    if s == [] then 0 else (if s[0] == c then 1 else 0) + CountChar(s[1..], c)
  }

  /** `s.split(c)` for a one-character separator: the pieces between separators,
      including the empty ones, so one more piece than separators. */
  function Split(s: string, c: char): (r: seq<string>)
    ensures |r| == CountChar(s, c) + 1
    ensures forall k :: 0 <= k < |r| ==> c !in r[k]
  {
    if s == [] then [""]
    else
      var rest := Split(s[1..], c);
      if s[0] == c then [""] + rest
      else [[s[0]] + rest[0]] + rest[1..]
  }

  /** `parts.join(c)`. */
  function Join(parts: seq<string>, c: char): string
    requires |parts| >= 1
  {
    if |parts| == 1 then parts[0] else parts[0] + [c] + Join(parts[1..], c)
  }

  /** Splitting on `c` and joining the pieces back with `c` restores the string. */
  lemma {:induction false} JoinSplit(s: string, c: char)
    ensures Join(Split(s, c), c) == s
  {
    if s != [] {
      var rest := Split(s[1..], c);
      JoinSplit(s[1..], c);
      if s[0] == c {
        assert Split(s, c)[1..] == rest;
        assert s == [c] + s[1..];
      } else if |rest| == 1 {
        assert Join(Split(s, c), c) == [s[0]] + rest[0];
        assert s == [s[0]] + s[1..];
      } else {
        assert Split(s, c)[1..] == rest[1..];
        assert Join(Split(s, c), c) == [s[0]] + rest[0] + [c] + Join(rest[1..], c);
        assert s == [s[0]] + s[1..];
      }
    }
  }

  predicate IsDigit(c: char) {
    '0' as int <= c as int <= '9' as int
  }

  function DigitChar(d: nat): (c: char)
    requires d < 10
    ensures IsDigit(c) && c as int - '0' as int == d
  {
    ('0' as int + d) as char
  }

  /** The decimal digits of `n`, without leading zeros, as `String(n)` renders a natural number. */
  function NatToDecimal(n: nat): (r: string)
    ensures 1 <= |r|
    ensures forall i :: 0 <= i < |r| ==> IsDigit(r[i])
    ensures r[0] == '0' ==> n == 0
  {
    if n < 10 then [DigitChar(n)] else NatToDecimal(n / 10) + [DigitChar(n % 10)]
  }

  /** `String(n)` for an integer `n`: a minus sign before the digits of a negative number. */
  function IntToDecimal(n: int): string
  {
    if n < 0 then "-" + NatToDecimal(-n) else NatToDecimal(n)
  }

  /** The value of a string of decimal digits. */
  function ParseDigits(s: string): nat
    requires forall i :: 0 <= i < |s| ==> IsDigit(s[i])
  {
    if s == [] then 0
    else
      assert IsDigit(s[|s| - 1]);
      ParseDigits(s[..|s| - 1]) * 10 + (s[|s| - 1] as int - '0' as int)
  }

  /** The value of an optionally signed decimal numeral. */
  function ParseInteger(s: string): int
    requires |s| >= 1
    requires forall i :: (if s[0] == '-' then 1 else 0) <= i < |s| ==> IsDigit(s[i])
  {
    if s[0] == '-' then 0 - ParseDigits(s[1..]) else ParseDigits(s)
  }

  /** Reading back the digits of a natural number gives the number. */
  lemma {:induction false} ParseNatToDecimal(n: nat)
    ensures ParseDigits(NatToDecimal(n)) == n
  {
    if n >= 10 {
      ParseNatToDecimal(n / 10);
      var r := NatToDecimal(n);
      assert r[..|r| - 1] == NatToDecimal(n / 10);
    }
  }

  /** The decimal rendering of an integer is a numeral that reads back as the same integer. */
  lemma IntToDecimalRoundTrip(n: int)
    ensures |IntToDecimal(n)| >= 1
    ensures forall i :: (if IntToDecimal(n)[0] == '-' then 1 else 0) <= i < |IntToDecimal(n)| ==> IsDigit(IntToDecimal(n)[i])
    ensures ParseInteger(IntToDecimal(n)) == n
  {
    if n < 0 {
      ParseNatToDecimal(-n);
      NegativeNumeral(NatToDecimal(-n));
    } else {
      ParseNatToDecimal(n);
    }
  }

  /** A minus sign before a string of digits is a numeral for the negated value. */
  lemma NegativeNumeral(d: string)
    requires forall i :: 0 <= i < |d| ==> IsDigit(d[i])
    ensures var r := "-" + d;
      && r[0] == '-' && (forall i :: 1 <= i < |r| ==> IsDigit(r[i]))
      && ParseInteger(r) == 0 - ParseDigits(d)
  {
    var r := "-" + d;
    assert r[1..] == d;
    assert forall i :: 1 <= i < |r| ==> r[i] == d[i - 1];
  }
}
