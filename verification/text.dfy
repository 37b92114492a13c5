/**
 * The string operations of QString that the application core relies on:
 * case-sensitive substring search (contains), the ordering QMap uses for its
 * keys (operator<), and decimal rendering of a count (QString::number).
 */
module Text {

  /** sub occurs in s starting at index i. */
  ghost predicate OccursAt(s: string, sub: string, i: int)
  {
    0 <= i && i + |sub| <= |s| && s[i..i + |sub|] == sub
  }

  /** QString::contains: sub occurs somewhere in s (the empty string occurs in every string). */
  predicate Contains(s: string, sub: string)
    decreases |s|
  {
    if |sub| <= |s| then s[..|sub|] == sub || Contains(s[1..], sub) else false
  }

  /** Contains agrees with the definition by an occurrence position, in both directions. */
  lemma {:induction false} ContainsIff(s: string, sub: string)
    ensures Contains(s, sub) <==> exists i :: OccursAt(s, sub, i)
    decreases |s|
  {
    if |sub| <= |s| {
      if s[..|sub|] == sub {
        assert OccursAt(s, sub, 0);
      } else {
        ContainsIff(s[1..], sub);
        if Contains(s[1..], sub) {
          var i :| OccursAt(s[1..], sub, i);
          assert s[1..][i..i + |sub|] == s[i + 1..i + 1 + |sub|];
          assert OccursAt(s, sub, i + 1);
        } else {
          forall i | OccursAt(s, sub, i) ensures i == 0 || OccursAt(s[1..], sub, i - 1) {
            if i > 0 {
              assert s[1..][i - 1..i - 1 + |sub|] == s[i..i + |sub|];
            }
          }
          assert !OccursAt(s, sub, 0);
        }
      }
    }
  }

  /**
   * Where a character falls in UTF-16 code-unit order: characters below U+D800
   * keep their place, characters above U+FFFF (whose lead surrogates lie in
   * 0xD800-0xDBFF) come next, and U+E000-U+FFFF come last.
   */
  function Utf16Rank(c: char): int
  {
    var v := c as int;
    if v < 0xD800 then v else if v < 0x1_0000 then v + 0x10_0000 else v - 0x1_0000 + 0xD800
  }

  /** QString operator<: lexicographic order on the UTF-16 code units of the strings, a proper prefix first. */
  predicate LexLess(a: string, b: string)
  {
    if |a| == 0 then |b| > 0
    else if |b| == 0 then false
    else Utf16Rank(a[0]) < Utf16Rank(b[0]) || (a[0] == b[0] && LexLess(a[1..], b[1..]))
  }

  lemma {:induction false} LexLessIrreflexive(a: string)
    ensures !LexLess(a, a)
  {
    if |a| > 0 { LexLessIrreflexive(a[1..]); }
  }

  lemma {:induction false} LexLessTransitive(a: string, b: string, c: string)
    requires LexLess(a, b) && LexLess(b, c)
    ensures LexLess(a, c)
  {
    if |a| > 0 && |b| > 0 && |c| > 0 && a[0] == b[0] == c[0] {
      LexLessTransitive(a[1..], b[1..], c[1..]);
    }
  }

  /** Any two different strings are ordered one way or the other. */
  lemma {:induction false} LexLessTotal(a: string, b: string)
    requires a != b
    ensures LexLess(a, b) || LexLess(b, a)
  {
    if |a| > 0 && |b| > 0 && a[0] == b[0] {
      assert a == [a[0]] + a[1..] && b == [b[0]] + b[1..];
      LexLessTotal(a[1..], b[1..]);
    }
  }

  /** Every finite non-empty set of strings has a least element. */
  lemma {:induction false} LeastExists(keys: set<string>)
    requires keys != {}
    ensures exists m :: m in keys && forall k :: k in keys && k != m ==> LexLess(m, k)
    decreases |keys|
  {
    var x :| x in keys;
    var rest := keys - {x};
    if rest == {} {
      assert keys == {x};
    } else {
      LeastExists(rest);
      var m :| m in rest && forall k :: k in rest && k != m ==> LexLess(m, k);
      LexLessTotal(m, x);
      if LexLess(m, x) {
        assert forall k :: k in keys && k != m ==> LexLess(m, k);
      } else {
        forall k | k in keys && k != x ensures LexLess(x, k) {
          if k != m { LexLessTransitive(x, m, k); }
        }
      }
    }
  }

  /** The UTF-16 code units QString stores for one character. */
  function Utf16Units(c: char): seq<int>
  {
    var v := c as int;
    if v < 0x1_0000 then [v] else [0xD800 + (v - 0x1_0000) / 0x400, 0xDC00 + (v - 0x1_0000) % 0x400]
  }

  /** The UTF-16 encoding of a string. */
  function Utf16(s: string): seq<int>
  {
    if s == [] then [] else Utf16Units(s[0]) + Utf16(s[1..])
  }

  /** Lexicographic order on code-unit sequences, a proper prefix first. */
  predicate UnitsLess(a: seq<int>, b: seq<int>)
  {
    if |a| == 0 then |b| > 0
    else if |b| == 0 then false
    else a[0] < b[0] || (a[0] == b[0] && UnitsLess(a[1..], b[1..]))
  }

  lemma {:induction false} UnitsLessCommonPrefix(p: seq<int>, x: seq<int>, y: seq<int>)
    ensures UnitsLess(p + x, p + y) == UnitsLess(x, y)
  {
    if p != [] {
      assert (p + x)[1..] == p[1..] + x && (p + y)[1..] == p[1..] + y;
      UnitsLessCommonPrefix(p[1..], x, y);
    } else {
      assert p + x == x && p + y == y;
    }
  }

  /** When two unit sequences differ in their first or second unit, what follows them does not matter. */
  lemma UnitsLessDecided(u: seq<int>, v: seq<int>, x: seq<int>, y: seq<int>)
    requires |u| > 0 && |v| > 0
    requires u[0] != v[0] || (|u| > 1 && |v| > 1 && u[1] != v[1])
    ensures UnitsLess(u + x, v + y) == UnitsLess(u, v)
  {
    if u[0] == v[0] {
      assert (u + x)[1..] == u[1..] + x && (v + y)[1..] == v[1..] + y;
    }
  }

  /** Two different characters compare by their UTF-16 units as they do by Utf16Rank, whatever follows them. */
  lemma CharUnitsOrder(c: char, d: char, x: seq<int>, y: seq<int>)
    requires c != d
    ensures UnitsLess(Utf16Units(c) + x, Utf16Units(d) + y) <==> Utf16Rank(c) < Utf16Rank(d)
  {
    var v, w := c as int, d as int;
    assert v != w;
    if v >= 0x1_0000 && w >= 0x1_0000 {
      var q1, r1 := (v - 0x1_0000) / 0x400, (v - 0x1_0000) % 0x400;
      var q2, r2 := (w - 0x1_0000) / 0x400, (w - 0x1_0000) % 0x400;
      assert v - 0x1_0000 == 0x400 * q1 + r1 && 0 <= r1 < 0x400;
      assert w - 0x1_0000 == 0x400 * q2 + r2 && 0 <= r2 < 0x400;
      assert q1 == q2 ==> r1 != r2;
      assert q1 < q2 ==> v < w;
      assert q2 < q1 ==> w < v;
    } else if v >= 0x1_0000 {
      assert 0 <= (v - 0x1_0000) / 0x400 < 0x400;
    } else if w >= 0x1_0000 {
      assert 0 <= (w - 0x1_0000) / 0x400 < 0x400;
    }
    UnitsLessDecided(Utf16Units(c), Utf16Units(d), x, y);
  }

  /** LexLess is exactly the lexicographic order of the UTF-16 encodings, the order QString compares in. */
  lemma {:induction false} LexLessIsUtf16Order(a: string, b: string)
    ensures LexLess(a, b) <==> UnitsLess(Utf16(a), Utf16(b))
  {
    if a != [] && b != [] {
      if a[0] == b[0] {
        LexLessIsUtf16Order(a[1..], b[1..]);
        UnitsLessCommonPrefix(Utf16Units(a[0]), Utf16(a[1..]), Utf16(b[1..]));
      } else {
        CharUnitsOrder(a[0], b[0], Utf16(a[1..]), Utf16(b[1..]));
      }
    }
  }

  /** A character above U+FFFF sorts before U+FFFF, because its lead surrogate is below 0xE000. */
  lemma SupplementaryBeforeHighBmp()
    ensures LexLess("\U{10000}", "\U{FFFF}") && !LexLess("\U{FFFF}", "\U{10000}")
  {
  }

  function DigitChar(d: nat): (c: char)
    requires d < 10
    ensures '0' <= c <= '9' && c as int - '0' as int == d
  {
    (d + '0' as int) as char
  }

  predicate AllDigits(s: string)
  {
    forall i :: 0 <= i < |s| ==> '0' <= s[i] <= '9'
  }

  /** QString::number on a non-negative count: its decimal digits, most significant first. */
  function DecimalString(n: nat): (s: string)
    ensures |s| > 0 && AllDigits(s)
  {
    if n < 10 then [DigitChar(n)] else DecimalString(n / 10) + [DigitChar(n % 10)]
  }

  /** The number a string of decimal digits denotes. */
  function DecimalValue(s: string): nat
    requires AllDigits(s)
  {
    if s == [] then 0 else DecimalValue(s[..|s| - 1]) * 10 + (s[|s| - 1] as int - '0' as int)
  }

  /** Reading back a rendered count gives the count. */
  lemma {:induction false} DecimalRoundTrip(n: nat)
    ensures DecimalValue(DecimalString(n)) == n
  {
    var s := DecimalString(n);
    if n >= 10 {
      DecimalRoundTrip(n / 10);
      assert s[..|s| - 1] == DecimalString(n / 10);
    }
  }

  /** Length of the run of decimal digits that starts s. */
  function DigitRun(s: string): (n: nat)
    ensures n <= |s|
  {
    if s == [] || !('0' <= s[0] <= '9') then 0 else 1 + DigitRun(s[1..])
  }

  lemma {:induction false} DigitRunAppend(a: string, u: string)
    requires AllDigits(a) && |u| > 0 && !('0' <= u[0] <= '9')
    ensures DigitRun(a + u) == |a|
  {
    if a == [] {
      assert a + u == u;
    } else {
      assert (a + u)[1..] == a[1..] + u;
      DigitRunAppend(a[1..], u);
    }
  }

  /** A rendered count can be told apart from what follows it, provided that starts with a non-digit. */
  lemma DigitsPrefixUnique(a: string, b: string, u: string, v: string)
    requires AllDigits(a) && AllDigits(b)
    requires |u| > 0 && !('0' <= u[0] <= '9') && |v| > 0 && !('0' <= v[0] <= '9')
    requires a + u == b + v
    ensures a == b && u == v
  {
    DigitRunAppend(a, u);
    DigitRunAppend(b, v);
    assert a == (a + u)[..|a|] && b == (b + v)[..|b|];
    assert u == (a + u)[|a|..] && v == (b + v)[|b|..];
  }
}
