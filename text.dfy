/**
 * Strings as the invoice script uses them: Python's ordering of `str`
 * values, decimal digits (`int` rendering and fixed-width `strftime`
 * fields), and the newline-joined table cells of the line-item table.
 */
module Text {
  import opened Wrappers

  // ---------------------------------------------------------------------
  // Python's `<` on str: code point by code point, a proper prefix first.
  // ---------------------------------------------------------------------

  predicate Less(a: string, b: string)
  {
    if a == [] then b != []
    else if b == [] then false
    else if a[0] != b[0] then a[0] < b[0]
    else Less(a[1..], b[1..])
  }

  predicate LessEq(a: string, b: string)
  {
    a == b || Less(a, b)
  }

  lemma {:induction false} LessIrreflexive(a: string)
    ensures !Less(a, a)
  {
    if a != [] {
      LessIrreflexive(a[1..]);
    }
  }

  lemma {:induction false} LessAsymmetric(a: string, b: string)
    requires Less(a, b)
    ensures !Less(b, a)
  {
    if a != [] && b != [] && a[0] == b[0] {
      LessAsymmetric(a[1..], b[1..]);
    }
  }

  lemma {:induction false} LessTransitive(a: string, b: string, c: string)
    requires Less(a, b) && Less(b, c)
    ensures Less(a, c)
  {
    if a != [] && a[0] == b[0] && b[0] == c[0] {
      LessTransitive(a[1..], b[1..], c[1..]);
    }
  }

  lemma {:induction false} LessTotal(a: string, b: string)
    ensures a == b || Less(a, b) || Less(b, a)
  {
    if a != [] && b != [] && a[0] == b[0] {
      LessTotal(a[1..], b[1..]);
      if a[1..] == b[1..] {
        assert a == [a[0]] + a[1..] && b == [b[0]] + b[1..];
      }
    }
  }

  /** Strings of one length compare on their first difference. */
  lemma {:induction false} LessAppend(a: string, b: string, a': string, b': string)
    requires |a| == |a'|
    ensures Less(a + b, a' + b') <==> Less(a, a') || (a == a' && Less(b, b'))
    decreases |a|
  {
    if a == [] {
      assert a + b == b && a' + b' == b';
    } else {
      assert (a + b)[1..] == a[1..] + b && (a' + b')[1..] == a'[1..] + b';
      LessAppend(a[1..], b, a'[1..], b');
      if a[0] == a'[0] && a[1..] == a'[1..] {
        assert a == [a[0]] + a[1..] && a' == [a'[0]] + a'[1..];
      }
    }
  }

  /** A common prefix does not decide the order. */
  lemma LessCommonPrefix(p: string, a: string, b: string)
    ensures Less(p + a, p + b) <==> Less(a, b)
  {
    LessAppend(p, a, p, b);
    LessIrreflexive(p);
  }

  /** `a` is a proper prefix of `b`. */
  predicate ProperPrefix(a: string, b: string)
  {
    |a| < |b| && a == b[..|a|]
  }

  /** `a` and `b` agree before position `i`, where `a` has the smaller character. */
  predicate SmallerAt(a: string, b: string, i: int)
  {
    0 <= i < |a| && i < |b| && a[..i] == b[..i] && a[i] < b[i]
  }

  /** The textbook lexicographic order on code points. */
  ghost predicate Lexicographic(a: string, b: string)
  {
    ProperPrefix(a, b) || exists i :: SmallerAt(a, b, i)
  }

  /** When the first characters differ, they alone decide the lexicographic order. */
  lemma LexicographicHead(a: string, b: string)
    requires a != [] && b != [] && a[0] != b[0]
    ensures Lexicographic(a, b) <==> a[0] < b[0]
  {
    if a[0] < b[0] {
      assert a[..0] == b[..0];
      assert SmallerAt(a, b, 0);
    }
  }

  /** When the first characters agree, the lexicographic order is that of the rests. */
  lemma LexicographicTail(a: string, b: string)
    requires a != [] && b != [] && a[0] == b[0]
    ensures Lexicographic(a, b) <==> Lexicographic(a[1..], b[1..])
  {
    var a', b' := a[1..], b[1..];
    assert ProperPrefix(a, b) <==> ProperPrefix(a', b') by {
      if |a| < |b| {
        assert b[..|a|] == [b[0]] + b'[..|a'|];
        assert a == [a[0]] + a';
      }
    }
    if i :| SmallerAt(a, b, i) {
      assert i > 0;
      assert a'[..i - 1] == a[..i][1..] && b'[..i - 1] == b[..i][1..];
      assert SmallerAt(a', b', i - 1);
    }
    if j :| SmallerAt(a', b', j) {
      assert a[..j + 1] == [a[0]] + a'[..j] && b[..j + 1] == [b[0]] + b'[..j];
      assert SmallerAt(a, b, j + 1);
    }
  }

  /**
   * The order is the lexicographic order on code points: `a` is a proper
   * prefix of `b`, or the two agree up to a position where `a` has the
   * smaller character.
   */
  lemma {:induction false} LessIsLexicographic(a: string, b: string)
    ensures Less(a, b) <==> Lexicographic(a, b)
    decreases |a|
  {
    if a == [] {
      if b != [] {
        assert ProperPrefix(a, b);
      }
    } else if b == [] {
    } else if a[0] != b[0] {
      LexicographicHead(a, b);
    } else {
      LessIsLexicographic(a[1..], b[1..]);
      LexicographicTail(a, b);
    }
  }

  /** `m` is the greatest element of `s` in Python's string order. */
  predicate IsMax(m: string, s: set<string>)
  {
    m in s && forall k :: k in s ==> LessEq(k, m)
  }

  lemma {:induction false} MaxExists(s: set<string>)
    requires s != {}
    ensures exists m :: IsMax(m, s)
    decreases |s|
  {
    var x :| x in s;
    if s == {x} {
      assert IsMax(x, s);
    } else {
      MaxExists(s - {x});
      var m :| IsMax(m, s - {x});
      LessTotal(x, m);
      if Less(m, x) {
        forall k | k in s ensures LessEq(k, x) {
          if k != x && k != m {
            assert k in s - {x};
            LessTransitive(k, m, x);
          }
        }
        assert IsMax(x, s);
      } else {
        assert IsMax(m, s);
      }
    }
  }

  lemma MaxUnique(m1: string, m2: string, s: set<string>)
    requires IsMax(m1, s) && IsMax(m2, s)
    ensures m1 == m2
  {
    if m1 != m2 {
      assert Less(m1, m2) && Less(m2, m1);
      LessAsymmetric(m1, m2);
    }
  }

  /** The last element of `sorted(s)`: the greatest string of a non-empty set. */
  function MaxOf(s: set<string>): (m: string)
    requires s != {}
    ensures IsMax(m, s)
  {
    MaxExists(s);
    var m :| IsMax(m, s);
    assert forall m' :: IsMax(m', s) ==> m' == m by {
      forall m' | IsMax(m', s) ensures m' == m { MaxUnique(m', m, s); }
    }
    m
  }

  // ---------------------------------------------------------------------
  // Decimal digits.
  // ---------------------------------------------------------------------

  predicate IsDigit(c: char)
  {
    '0' <= c <= '9'
  }

  predicate AllDigits(s: string)
  {
    forall i :: 0 <= i < |s| ==> IsDigit(s[i])
  }

  function DigitChar(d: nat): (c: char)
    requires d < 10
    ensures IsDigit(c)
  {
    ('0' as int + d) as char
  }

  function DigitValue(c: char): (d: nat)
    requires IsDigit(c)
    ensures d < 10 && DigitChar(d) == c
  {
    c as int - '0' as int
  }

  function Pow10(w: nat): (p: nat)
    ensures p >= 1
  {
    if w == 0 then 1 else 10 * Pow10(w - 1)
  }

  /** The value of a string of decimal digits, most significant first. */
  function ParseDigits(s: string): nat
    requires AllDigits(s)
  {
    if s == [] then 0 else 10 * ParseDigits(s[..|s| - 1]) + DigitValue(s[|s| - 1])
  }

  /** `str(n)` for a natural number: the shortest decimal rendering. */
  function Decimal(n: nat): (s: string)
    ensures |s| >= 1 && AllDigits(s)
  {
    if n < 10 then [DigitChar(n)] else Decimal(n / 10) + [DigitChar(n % 10)]
  }

  /** The `w` lowest decimal digits of `n`, zero-padded: `%0wd` when `n` fits. */
  function Fixed(n: nat, w: nat): (s: string)
    ensures |s| == w && AllDigits(s)
  {
    if w == 0 then [] else Fixed(n / 10, w - 1) + [DigitChar(n % 10)]
  }

  lemma {:induction false} ParseDecimal(n: nat)
    ensures ParseDigits(Decimal(n)) == n
  {
    var s := Decimal(n);
    if n >= 10 {
      ParseDecimal(n / 10);
      assert s[..|s| - 1] == Decimal(n / 10);
    }
  }

  /** A rendering has a leading zero only when the number is zero. */
  lemma {:induction false} DecimalLeadingDigit(n: nat)
    ensures Decimal(n)[0] == '0' <==> n == 0
  {
    if n >= 10 {
      DecimalLeadingDigit(n / 10);
    }
  }

  /** A number of at least two digits renders in at least two characters. */
  lemma {:induction false} DecimalLength(n: nat)
    ensures |Decimal(n)| >= 2 <==> n >= 10
    ensures |Decimal(n)| >= 3 <==> n >= 100
  {
    if n >= 10 {
      DecimalLength(n / 10);
    }
  }

  lemma {:induction false} ParseFixed(n: nat, w: nat)
    requires n < Pow10(w)
    ensures ParseDigits(Fixed(n, w)) == n
  {
    if w > 0 {
      var s := Fixed(n, w);
      assert s[..|s| - 1] == Fixed(n / 10, w - 1);
      assert s[|s| - 1] == DigitChar(n % 10);
      assert DigitValue(s[|s| - 1]) == n % 10;
      assert n / 10 < Pow10(w - 1) by {
        assert Pow10(w) == 10 * Pow10(w - 1);
      }
      ParseFixed(n / 10, w - 1);
      assert ParseDigits(s) == 10 * (n / 10) + n % 10;
    }
  }

  lemma {:induction false} FixedParse(s: string)
    requires AllDigits(s)
    ensures Fixed(ParseDigits(s), |s|) == s
  {
    if s != [] {
      var init := s[..|s| - 1];
      var n := ParseDigits(s);
      assert n / 10 == ParseDigits(init) && n % 10 == DigitValue(s[|s| - 1]);
      FixedParse(init);
      assert s == init + [s[|s| - 1]];
    }
  }

  lemma {:induction false} ParseDigitsBound(s: string)
    requires AllDigits(s)
    ensures ParseDigits(s) < Pow10(|s|)
  {
    if s != [] {
      ParseDigitsBound(s[..|s| - 1]);
    }
  }

  // ---------------------------------------------------------------------
  // Newline-joined cells.
  // ---------------------------------------------------------------------

  /** `sep.join(parts)` for a one-character separator. */
  function Join(parts: seq<string>, sep: char): string
  {
    if parts == [] then []
    else if |parts| == 1 then parts[0]
    else Join(parts[..|parts| - 1], sep) + [sep] + parts[|parts| - 1]
  }

  /** `s.count(c)`. */
  function Count(s: string, c: char): nat
  {
    if s == [] then 0 else Count(s[..|s| - 1], c) + (if s[|s| - 1] == c then 1 else 0)
  }

  lemma {:induction false} CountAppend(a: string, b: string, c: char)
    ensures Count(a + b, c) == Count(a, c) + Count(b, c)
  {
    if b != [] {
      var b' := b[..|b| - 1];
      assert (a + b)[..|a + b| - 1] == a + b';
      CountAppend(a, b', c);
    } else {
      assert a + b == a;
    }
  }

  lemma {:induction false} CountAbsent(s: string, c: char)
    requires forall i :: 0 <= i < |s| ==> s[i] != c
    ensures Count(s, c) == 0
  {
    if s != [] {
      CountAbsent(s[..|s| - 1], c);
    }
  }

  /**
   * Joining k >= 1 parts that do not contain the separator yields exactly
   * k - 1 separators, so the joined cell has k lines.
   */
  lemma {:induction false} CountJoin(parts: seq<string>, sep: char)
    requires forall j, i :: 0 <= j < |parts| && 0 <= i < |parts[j]| ==> parts[j][i] != sep
    ensures Count(Join(parts, sep), sep) == if parts == [] then 0 else |parts| - 1
  {
    if |parts| == 1 {
      CountAbsent(parts[0], sep);
    } else if |parts| > 1 {
      var init := parts[..|parts| - 1];
      var last := parts[|parts| - 1];
      CountJoin(init, sep);
      CountAppend(Join(init, sep) + [sep], last, sep);
      CountAppend(Join(init, sep), [sep], sep);
      assert Count([sep], sep) == 1 by {
        assert [sep][..0] == [];
      }
      CountAbsent(last, sep);
    }
  }

  // ---------------------------------------------------------------------
  // Sequence helpers.
  // ---------------------------------------------------------------------

  /** `s` ends with `t`. */
  predicate EndsWith<T(==)>(s: seq<T>, t: seq<T>)
  {
    |t| <= |s| && s[|s| - |t|..] == t
  }

  /** Regrouping a concatenation of four pieces. */
  lemma ConcatRegroup<T>(a: seq<T>, b: seq<T>, c: seq<T>, d: seq<T>)
    ensures a + b + c + d == a + (b + (c + d))
  {
  }

  /** Regrouping a concatenation of five pieces around the second. */
  lemma ConcatRegroupTail<T>(a: seq<T>, b: seq<T>, c: seq<T>, d: seq<T>, e: seq<T>)
    ensures a + b + c + d + e == a + (b + (c + d + e))
  {
  }

  /** The two halves of a concatenation are recovered by slicing at the join. */
  lemma ConcatSplit<T>(a: seq<T>, b: seq<T>)
    ensures (a + b)[..|a|] == a && (a + b)[|a|..] == b
  {
  }

  /** A prefix of `s` followed by a prefix of what remains is a prefix of `s`. */
  lemma PrefixThenPrefix<T>(a: seq<T>, b: seq<T>, s: seq<T>)
    requires a <= s && b <= s[|a|..]
    ensures a + b <= s
  {
    assert s[..|a| + |b|] == s[..|a|] + s[|a|..][..|b|];
  }

  /** Regrouping the middle five of eight concatenated pieces. */
  lemma ConcatGroupMiddle<T>(p: seq<T>, a: seq<T>, s1: seq<T>, b: seq<T>, s2: seq<T>, c: seq<T>, s3: seq<T>, f: seq<T>)
    ensures p + a + s1 + b + s2 + c + s3 + f == p + (a + s1 + b + s2 + c) + s3 + f
  {
  }

  /** Splitting seven concatenated pieces after the fourth. */
  lemma ConcatSplitAfterFour<T>(a: seq<T>, b: seq<T>, c: seq<T>, d: seq<T>, e: seq<T>, f: seq<T>, g: seq<T>)
    ensures a + b + c + d + e + f + g == (a + b + c + d) + (e + f + g)
  {
  }

  /** Being a prefix is transitive. */
  lemma PrefixTransitive<T>(a: seq<T>, b: seq<T>, c: seq<T>)
    requires a <= b && b <= c
    ensures a <= c
  {
    assert c[..|a|] == c[..|b|][..|a|];
  }

  /** A sequence ends with whatever was appended last. */
  lemma EndsWithAppend<T>(a: seq<T>, b: seq<T>)
    ensures EndsWith(a + b, b)
  {
    assert (a + b)[|a|..] == b;
  }
}
