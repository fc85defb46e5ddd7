/**
 * String primitives of the Python runtime that the pipeline leans on:
 * `str.isspace`, `strip`/`lstrip`/`rstrip`, `startswith`, `in` on strings,
 * `split`/`join`, ASCII `lower`, lexicographic `<` and decimal formatting.
 * Strings are sequences of code points.
 */
module Text {

  /** Python's `str.isspace()` for one code point. */
  predicate IsSpace(c: char) {
    var n := c as int;
    (9 <= n <= 13) || (28 <= n <= 32) || n == 0x85 || n == 0xA0 || n == 0x1680 ||
    (0x2000 <= n <= 0x200A) || n == 0x2028 || n == 0x2029 || n == 0x202F ||
    n == 0x205F || n == 0x3000
  }

  /** Digits and capital letters are not whitespace; the blank is. */
  lemma NotSpace(c: char)
    ensures (IsDigit(c) || 'A' <= c <= 'Z') ==> !IsSpace(c)
    ensures c == ' ' ==> IsSpace(c)
  {
  }

  /** The code points at which Python's `str.splitlines()` breaks a line. */
  predicate IsLineBreak(c: char) {
    var n := c as int;
    (10 <= n <= 13) || (28 <= n <= 30) || n == 0x85 || n == 0x2028 || n == 0x2029
  }

  lemma LineBreakIsSpace(c: char)
    ensures IsLineBreak(c) ==> IsSpace(c)
  {
  }

  predicate IsDigit(c: char) { '0' <= c <= '9' }

  predicate AllDigits(s: string) { forall i :: 0 <= i < |s| ==> IsDigit(s[i]) }

  predicate StartsWith(s: string, prefix: string) {
    |prefix| <= |s| && s[..|prefix|] == prefix
  }

  predicate EndsWith(s: string, suffix: string) {
    |suffix| <= |s| && s[|s| - |suffix|..] == suffix
  }

  /** `sub` occurs in `s` starting at index `i`. */
  predicate OccursAt(s: string, sub: string, i: int) {
    0 <= i && i + |sub| <= |s| && s[i..i + |sub|] == sub
  }

  /** Python's `sub in s` on strings. */
  predicate Contains(s: string, sub: string) {
    exists i :: 0 <= i <= |s| - |sub| && OccursAt(s, sub, i)
  }

  lemma ContainsPrefix(s: string, sub: string)
    requires StartsWith(s, sub)
    ensures Contains(s, sub)
  {
    assert OccursAt(s, sub, 0);
  }

  /** An occurrence survives adding text on either side. */
  lemma ContainsConcat(a: string, s: string, b: string, sub: string)
    requires Contains(s, sub)
    ensures Contains(a + s + b, sub)
  {
    var i :| 0 <= i <= |s| - |sub| && OccursAt(s, sub, i);
    assert (a + s + b)[|a| + i..|a| + i + |sub|] == s[i..i + |sub|];
    assert OccursAt(a + s + b, sub, |a| + i);
  }

  /** An occurrence of `a + b` is an occurrence of `a` followed by one of `b`. */
  lemma OccursConcat(t: string, a: string, b: string, i: int)
    requires OccursAt(t, a + b, i)
    ensures OccursAt(t, a, i) && OccursAt(t, b, i + |a|)
  {
    assert t[i..i + |a|] == t[i..i + |a + b|][..|a|];
    assert t[i + |a|..i + |a| + |b|] == t[i..i + |a + b|][|a|..];
  }

  /** Length of the run of whitespace starting at `i` (what a greedy `\s*` or `\s+` consumes). */
  function SpaceRun(t: string, i: nat): (r: nat)
    ensures i + r <= |t| || r == 0
    decreases |t| - i
  {
    if i < |t| && IsSpace(t[i]) then 1 + SpaceRun(t, i + 1) else 0
  }

  /** The run is whitespace throughout and stops before a non-space or the end. */
  lemma {:induction false} SpaceRunMaximal(t: string, i: nat)
    ensures forall q :: i <= q < i + SpaceRun(t, i) ==> IsSpace(t[q])
    ensures i + SpaceRun(t, i) < |t| ==> !IsSpace(t[i + SpaceRun(t, i)])
    decreases |t| - i
  {
    if i < |t| && IsSpace(t[i]) {
      SpaceRunMaximal(t, i + 1);
    }
  }

  /** `s.lstrip()`: drops leading whitespace. */
  function LStrip(s: string): string
    decreases |s|
  {
    if |s| > 0 && IsSpace(s[0]) then LStrip(s[1..]) else s
  }

  /** What `lstrip()` removes is a whitespace prefix, and what it keeps starts with none. */
  lemma {:induction false} LStripShape(s: string)
    ensures |LStrip(s)| <= |s| && LStrip(s) == s[|s| - |LStrip(s)|..]
    ensures LStrip(s) == [] || !IsSpace(LStrip(s)[0])
    ensures forall i :: 0 <= i < |s| - |LStrip(s)| ==> IsSpace(s[i])
    decreases |s|
  {
    if |s| > 0 && IsSpace(s[0]) {
      LStripShape(s[1..]);
    }
  }

  /** `s.rstrip()`: drops trailing whitespace. */
  function RStrip(s: string): string
    decreases |s|
  {
    if |s| > 0 && IsSpace(s[|s| - 1]) then RStrip(s[..|s| - 1]) else s
  }

  /** What `rstrip()` removes is a whitespace suffix, and what it keeps ends in none. */
  lemma {:induction false} RStripShape(s: string)
    ensures |RStrip(s)| <= |s| && RStrip(s) == s[..|RStrip(s)|]
    ensures RStrip(s) == [] || !IsSpace(RStrip(s)[|RStrip(s)| - 1])
    ensures forall i :: |RStrip(s)| <= i < |s| ==> IsSpace(s[i])
    decreases |s|
  {
    if |s| > 0 && IsSpace(s[|s| - 1]) {
      RStripShape(s[..|s| - 1]);
    }
  }

  /** `s.strip()`. */
  function Strip(s: string): string {
    RStrip(LStrip(s))
  }

  /** `s.lstrip(c)` for a single character `c`. */
  function LStripChar(s: string, c: char): (r: string)
    ensures |r| <= |s| && r == s[|s| - |r|..]
    ensures r == [] || r[0] != c
    ensures forall i :: 0 <= i < |s| - |r| ==> s[i] == c
  {
    if |s| > 0 && s[0] == c then LStripChar(s[1..], c) else s
  }

  /** `s.rstrip(c)` for a single character `c`. */
  function RStripChar(s: string, c: char): (r: string)
    ensures |r| <= |s| && r == s[..|r|]
    ensures r == [] || r[|r| - 1] != c
    ensures forall i :: |r| <= i < |s| ==> s[i] == c
  {
    if |s| > 0 && s[|s| - 1] == c then RStripChar(s[..|s| - 1], c) else s
  }

  /** A string that `strip()` leaves unchanged. */
  predicate IsStripped(s: string) {
    s == [] || (!IsSpace(s[0]) && !IsSpace(s[|s| - 1]))
  }

  lemma {:induction false} LStripIdentity(s: string)
    requires s == [] || !IsSpace(s[0])
    ensures LStrip(s) == s
  {
  }

  lemma {:induction false} RStripIdentity(s: string)
    requires s == [] || !IsSpace(s[|s| - 1])
    ensures RStrip(s) == s
  {
  }

  /** `strip()` is the identity on stripped strings. */
  lemma StripIdentity(s: string)
    requires IsStripped(s)
    ensures Strip(s) == s
  {
    LStripIdentity(s);
    RStripIdentity(s);
  }

  /** `strip()` yields stripped text that sits inside its input. */
  lemma StripIsStripped(s: string)
    ensures IsStripped(Strip(s))
    ensures Contains(s, Strip(s))
  {
    var l := LStrip(s);
    var r := RStrip(l);
    LStripShape(s);
    RStripShape(l);
    var i := |s| - |l|;
    assert Strip(s) == r;
    forall k | 0 <= k < |r| ensures r[k] == s[i + k] {
      assert r[k] == l[k];
    }
    assert s[i..i + |r|] == r;
    assert OccursAt(s, r, i);
    if r != [] {
      assert r[0] == l[0];
    }
  }

  /** Every character of `s` is whitespace. */
  predicate AllSpace(s: string) {
    forall i :: 0 <= i < |s| ==> IsSpace(s[i])
  }

  /** `s` is the text `r` at position `i` with only whitespace around it. */
  predicate Trims(s: string, r: string, i: int) {
    0 <= i && i + |r| <= |s| && AllSpace(s[..i]) && s[i..i + |r|] == r && AllSpace(s[i + |r|..])
  }

  /** `strip()` removes whitespace on both sides and nothing else. */
  lemma StripShape(s: string)
    ensures IsStripped(Strip(s))
    ensures exists i :: Trims(s, Strip(s), i)
  {
    var l := LStrip(s);
    LStripPart(s);
    RStripPart(l);
    StripIsStripped(s);
    TrimsJoin(s, |s| - |l|, l, RStrip(l));
  }

  /** `lstrip()` keeps a suffix after whitespace. */
  lemma LStripPart(s: string)
    ensures |LStrip(s)| <= |s|
    ensures AllSpace(s[..|s| - |LStrip(s)|]) && s[|s| - |LStrip(s)|..] == LStrip(s)
  {
    LStripShape(s);
  }

  /** `rstrip()` keeps a prefix before whitespace. */
  lemma RStripPart(l: string)
    ensures |RStrip(l)| <= |l|
    ensures AllSpace(l[|RStrip(l)|..]) && l[..|RStrip(l)|] == RStrip(l)
  {
    RStripShape(l);
  }

  /** Whitespace, then `r`, then whitespace. */
  lemma TrimsJoin(s: string, i: nat, l: string, r: string)
    requires i <= |s| && s[i..] == l && AllSpace(s[..i])
    requires |r| <= |l| && l[..|r|] == r && AllSpace(l[|r|..])
    ensures Trims(s, r, i)
  {
    assert s[i..i + |r|] == l[..|r|];
    assert s[i + |r|..] == l[|r|..];
  }

  /** Strip of a left addition that ends in non-whitespace. */
  lemma {:induction false} RStripAppend(a: string, b: string)
    requires a != [] && !IsSpace(a[|a| - 1])
    ensures RStrip(a + b) == a + RStrip(b)
    decreases |b|
  {
    if |b| > 0 && IsSpace(b[|b| - 1]) {
      assert (a + b)[..|a + b| - 1] == a + b[..|b| - 1];
      RStripAppend(a, b[..|b| - 1]);
    } else if |b| == 0 {
      assert a + b == a;
      RStripIdentity(a);
    }
  }

  /** `rstrip()` of a concatenation: the right part decides where stripping stops. */
  lemma {:induction false} RStripTail(a: string, z: string)
    ensures RStrip(a + z) == if RStrip(z) == [] then RStrip(a) else a + RStrip(z)
    decreases |z|
  {
    if |z| == 0 {
      assert a + z == a;
    } else if IsSpace(z[|z| - 1]) {
      assert (a + z)[..|a + z| - 1] == a + z[..|z| - 1];
      RStripTail(a, z[..|z| - 1]);
    } else {
      assert (a + z)[|a + z| - 1] == z[|z| - 1];
    }
  }

  /** Whitespace in front is ignored by `lstrip()`. */
  lemma {:induction false} LStripAppend(a: string, b: string)
    requires forall i :: 0 <= i < |a| ==> IsSpace(a[i])
    ensures LStrip(a + b) == LStrip(b)
    decreases |a|
  {
    if |a| > 0 {
      assert (a + b)[1..] == a[1..] + b;
      LStripAppend(a[1..], b);
    } else {
      assert a + b == b;
    }
  }

  /** `lstrip()` stops at the first non-whitespace character. */
  lemma {:induction false} LStripConcat(a: string, b: string)
    requires LStrip(a) != []
    ensures LStrip(a + b) == LStrip(a) + b
    decreases |a|
  {
    if IsSpace(a[0]) {
      assert (a + b)[1..] == a[1..] + b;
      LStripConcat(a[1..], b);
    } else {
      assert (a + b)[0] == a[0];
    }
  }

  /** ASCII `lower()` of one character. */
  function LowerChar(c: char): char {
    if 'A' <= c <= 'Z' then (c as int + 32) as char else c
  }

  /** `s.lower()`, restricted to the ASCII letters. */
  function Lower(s: string): (r: string)
    ensures |r| == |s|
  {
    seq(|s|, i requires 0 <= i < |s| => LowerChar(s[i]))
  }

  /** `s.split(c)` for a one-character separator. */
  function Split(s: string, c: char): (r: seq<string>)
    ensures |r| >= 1
    ensures forall i :: 0 <= i < |r| ==> c !in r[i]
    decreases |s|
  {
    if |s| == 0 then [""]
    else
      var rest := Split(s[1..], c);
      if s[0] == c then [""] + rest else [[s[0]] + rest[0]] + rest[1..]
  }

  /** `sep.join(parts)`. */
  function Join(sep: string, parts: seq<string>): string
    decreases |parts|
  {
    if |parts| == 0 then ""
    else if |parts| == 1 then parts[0]
    else parts[0] + sep + Join(sep, parts[1..])
  }

  /** Joining the pieces of a split with the separator rebuilds the string. */
  lemma {:induction false} JoinSplit(s: string, c: char)
    ensures Join([c], Split(s, c)) == s
    decreases |s|
  {
    if |s| > 0 {
      var rest := Split(s[1..], c);
      JoinSplit(s[1..], c);
      if s[0] == c {
        assert Split(s, c) == [""] + rest;
        assert Join([c], Split(s, c)) == "" + [c] + Join([c], rest);
        assert [s[0]] + s[1..] == s;
      } else {
        var parts := [[s[0]] + rest[0]] + rest[1..];
        assert Split(s, c) == parts;
        if |rest| == 1 {
          assert Join([c], parts) == [s[0]] + rest[0];
        } else {
          assert parts[1..] == rest[1..];
          assert Join([c], rest) == rest[0] + [c] + Join([c], rest[1..]);
          assert Join([c], parts) == [s[0]] + rest[0] + [c] + Join([c], rest[1..]);
        }
        assert [s[0]] + s[1..] == s;
      }
    }
  }

  /** The text after the last `c`, i.e. `s.split(c)[-1]`. */
  function LastPiece(s: string, c: char): (r: string)
    ensures c !in r && EndsWith(s, r)
    ensures c !in s ==> r == s
  {
    var parts := Split(s, c);
    LastPieceIsSuffix(s, c);
    parts[|parts| - 1]
  }

  /** Splitting at the first separator. */
  lemma {:induction false} SplitFirst(a: string, c: char, b: string)
    requires c !in a
    ensures Split(a + [c] + b, c) == [a] + Split(b, c)
    decreases |a|
  {
    if a == [] {
      assert a + [c] + b == [c] + b;
      assert ([c] + b)[1..] == b;
    } else {
      assert (a + [c] + b)[1..] == a[1..] + [c] + b;
      SplitFirst(a[1..], c, b);
      assert [a[0]] + a[1..] == a;
    }
  }

  lemma {:induction false} LastPieceIsSuffix(s: string, c: char)
    ensures EndsWith(s, Split(s, c)[|Split(s, c)| - 1])
    ensures c !in s ==> Split(s, c) == [s]
    decreases |s|
  {
    if |s| > 0 {
      LastPieceIsSuffix(s[1..], c);
      var rest := Split(s[1..], c);
      if s[0] == c {
      } else if |rest| == 1 {
        JoinSplit(s[1..], c);
        assert rest[0] == s[1..];
        assert Split(s, c) == [[s[0]] + rest[0]];
        assert [s[0]] + s[1..] == s;
      }
    }
  }

  /** Regrouping a concatenation whose right part is itself a concatenation. */
  lemma Regroup2(a: string, b: string, c: string)
    ensures a + (b + c) == a + b + c
  {
  }

  lemma Regroup3(a: string, b: string, c: string, d: string)
    ensures a + (b + c + d) == a + b + c + d
  {
  }

  lemma Regroup4(a: string, b: string, c: string, d: string, e: string)
    ensures a + (b + c + d + e) == a + b + c + d + e
  {
  }

  /** A concatenation starts with its left part and ends with its right part. */
  lemma ConcatEnds(x: string, y: string)
    ensures StartsWith(x + y, x) && EndsWith(x + y, y)
  {
    assert (x + y)[..|x|] == x;
    assert (x + y)[|x + y| - |y|..] == y;
  }

  /** Slicing after appending one element. */
  lemma SnocTake<T>(s: seq<T>, x: T)
    ensures (s + [x])[..|s|] == s
  {
  }

  lemma SnocDrop<T>(s: seq<T>, x: T, i: nat)
    requires i <= |s|
    ensures (s + [x])[i..] == s[i..] + [x]
  {
  }

  lemma TakeNext<T>(s: seq<T>, i: nat)
    requires i < |s|
    ensures s[..i + 1] == s[..i] + [s[i]]
  {
  }

  lemma TakeAll<T>(s: seq<T>)
    ensures s[..|s|] == s
  {
  }

  /** Python's `a < b` on strings: lexicographic by code point. */
  predicate LexLess(a: string, b: string)
    decreases |a|
  {
    if |a| == 0 then |b| > 0
    else if |b| == 0 then false
    else if a[0] == b[0] then LexLess(a[1..], b[1..])
    else a[0] < b[0]
  }

  lemma {:induction false} LexLessIrreflexive(a: string)
    ensures !LexLess(a, a)
    decreases |a|
  {
    if |a| > 0 { LexLessIrreflexive(a[1..]); }
  }

  lemma {:induction false} LexLessTransitive(a: string, b: string, c: string)
    requires LexLess(a, b) && LexLess(b, c)
    ensures LexLess(a, c)
    decreases |a|
  {
    if |a| > 0 && |b| > 0 && |c| > 0 && a[0] == b[0] && b[0] == c[0] {
      LexLessTransitive(a[1..], b[1..], c[1..]);
    }
  }

  lemma {:induction false} LexLessTotal(a: string, b: string)
    ensures a == b || LexLess(a, b) || LexLess(b, a)
    decreases |a|
  {
    if |a| > 0 && |b| > 0 && a[0] == b[0] {
      LexLessTotal(a[1..], b[1..]);
      if a[1..] == b[1..] {
        assert a == [a[0]] + a[1..] && b == [b[0]] + b[1..];
      }
    }
  }

  function DigitChar(d: nat): char
    requires d < 10
  {
    ('0' as int + d) as char
  }

  /** A string of digits holds no other character. */
  lemma DigitsExclude(s: string, c: char)
    requires AllDigits(s) && !IsDigit(c)
    ensures c !in s
  {
  }

  /** `str(n)` for a natural number. */
  function NatToString(n: nat): (r: string)
    ensures |r| >= 1 && AllDigits(r)
    ensures r[0] == '0' ==> n == 0
  {
    if n < 10 then [DigitChar(n)] else NatToString(n / 10) + [DigitChar(n % 10)]
  }

  /** `str(n)` denotes `n`. */
  lemma {:induction false} NatToStringValue(n: nat)
    ensures DigitsValue(NatToString(n)) == n
    decreases n
  {
    var t := NatToString(n);
    if n < 10 {
      assert t[..0] == [];
    } else {
      assert t[..|t| - 1] == NatToString(n / 10);
      NatToStringValue(n / 10);
      assert DigitsValue(t) == (n / 10) * 10 + n % 10;
    }
  }

  /** `f"{n:02d}"` for `n < 100`. */
  function Pad2(n: nat): (r: string)
    requires n < 100
    ensures |r| == 2 && AllDigits(r)
  {
    [DigitChar(n / 10), DigitChar(n % 10)]
  }

  /** `f"{n:04d}"` for `n < 10000`. */
  function Pad4(n: nat): (r: string)
    requires n < 10000
    ensures |r| == 4 && AllDigits(r)
  {
    [DigitChar(n / 1000), DigitChar(n / 100 % 10), DigitChar(n / 10 % 10), DigitChar(n % 10)]
  }

  function DigitValue(c: char): nat
    requires IsDigit(c)
  {
    c as int - '0' as int
  }

  /** `int(s)` for a string of ASCII digits. */
  function DigitsValue(s: string): nat
    requires AllDigits(s)
    decreases |s|
  {
    if |s| == 0 then 0 else DigitsValue(s[..|s| - 1]) * 10 + DigitValue(s[|s| - 1])
  }

  lemma Pad2Value(n: nat)
    requires n < 100
    ensures DigitsValue(Pad2(n)) == n
  {
    var s := Pad2(n);
    assert s[..1][..0] == [];
    assert s[..1] == [DigitChar(n / 10)];
    assert DigitsValue(s[..1]) == n / 10;
    assert DigitsValue(s) == (n / 10) * 10 + n % 10;
  }

  lemma Pad4Value(n: nat)
    requires n < 10000
    ensures DigitsValue(Pad4(n)) == n
  {
    var s := Pad4(n);
    var a, b, c, d := n / 1000, n / 100 % 10, n / 10 % 10, n % 10;
    assert s[..3][..2][..1][..0] == [];
    assert s[..3][..2][..1] == [DigitChar(a)];
    assert s[..3][..2] == [DigitChar(a), DigitChar(b)];
    assert s[..3] == [DigitChar(a), DigitChar(b), DigitChar(c)];
    assert DigitsValue(s[..3][..2][..1]) == a;
    assert DigitsValue(s[..3][..2]) == a * 10 + b;
    assert DigitsValue(s[..3]) == (a * 10 + b) * 10 + c;
    assert DigitsValue(s) == ((a * 10 + b) * 10 + c) * 10 + d;
    FourDigits(n);
  }

  /** The decimal digits of a number below 10000 rebuild it. */
  lemma FourDigits(n: nat)
    requires n < 10000
    ensures ((n / 1000 * 10 + n / 100 % 10) * 10 + n / 10 % 10) * 10 + n % 10 == n
  {
    assert n / 1000 * 10 + n / 100 % 10 == n / 100;
    assert (n / 100) * 10 + n / 10 % 10 == n / 10;
  }

  /** A two-digit string is the padded form of its value. */
  lemma Pad2OfDigits(s: string)
    requires |s| == 2 && AllDigits(s)
    ensures DigitsValue(s) < 100 && Pad2(DigitsValue(s)) == s
  {
    assert s[..1][..0] == [];
    var a, b := DigitValue(s[0]), DigitValue(s[1]);
    assert DigitsValue(s[..1]) == a;
    assert DigitsValue(s) == a * 10 + b;
    assert DigitChar(a) == s[0] && DigitChar(b) == s[1];
  }

  lemma DigitsOfFour(a: nat, b: nat, c: nat, d: nat)
    requires a < 10 && b < 10 && c < 10 && d < 10
    ensures var n := a * 1000 + b * 100 + c * 10 + d;
      n / 1000 == a && n / 100 % 10 == b && n / 10 % 10 == c && n % 10 == d
  {
    var n := a * 1000 + b * 100 + c * 10 + d;
    assert n / 10 == a * 100 + b * 10 + c;
    assert n / 100 == a * 10 + b;
  }

  /** A four-digit string is the padded form of its value. */
  lemma Pad4OfDigits(s: string)
    requires |s| == 4 && AllDigits(s)
    ensures DigitsValue(s) < 10000 && Pad4(DigitsValue(s)) == s
  {
    assert s[..3][..2][..1][..0] == [];
    assert s[..3][..2][..1] == s[..1] && s[..3][..2] == s[..2];
    var a, b, c, d := DigitValue(s[0]), DigitValue(s[1]), DigitValue(s[2]), DigitValue(s[3]);
    assert DigitsValue(s[..1]) == a;
    assert DigitsValue(s[..2]) == a * 10 + b;
    assert DigitsValue(s[..3]) == (a * 10 + b) * 10 + c;
    var n := DigitsValue(s);
    assert n == a * 1000 + b * 100 + c * 10 + d;
    DigitsOfFour(a, b, c, d);
    assert DigitChar(a) == s[0] && DigitChar(b) == s[1] && DigitChar(c) == s[2] && DigitChar(d) == s[3];
  }
}
