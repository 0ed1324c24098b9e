/** The string operations the crawler borrows from Python's `str`, over code points:
    `split`, `join`, `<`, `lower`, `str(int)`, `int(str)` and `zfill`. */
module Text {

  // ---------------------------------------------------------------------------
  // split and join on a one-character separator
  // ---------------------------------------------------------------------------

  /** Python's `s.split(sep)`: the pieces between the occurrences of `sep`, in order.
      There is always at least one piece; the empty string gives `[""]`. */
  function Split(s: string, sep: char): (r: seq<string>)
    ensures |r| >= 1
    ensures forall i :: 0 <= i < |r| ==> sep !in r[i]
    ensures Join(r, sep) == s
  {
    if |s| == 0 then [""]
    else
      var rest := Split(s[1..], sep);
      if s[0] == sep then
        [""] + rest
      else
        JoinPrepend(s[0], rest, sep);
        [[s[0]] + rest[0]] + rest[1..]
  }

  /** Python's `sep.join(pieces)`. */
  function Join(pieces: seq<string>, sep: char): string
  {
    if |pieces| == 0 then ""
    else if |pieces| == 1 then pieces[0]
    else pieces[0] + [sep] + Join(pieces[1..], sep)
  }

  lemma JoinPrepend(ch: char, pieces: seq<string>, sep: char)
    requires |pieces| >= 1
    ensures Join([[ch] + pieces[0]] + pieces[1..], sep) == [ch] + Join(pieces, sep)
  {
    var q := [[ch] + pieces[0]] + pieces[1..];
    assert q[1..] == pieces[1..];
  }

  /** Joining the last piece on separately. */
  lemma {:induction false} JoinSnoc(pieces: seq<string>, sep: char)
    requires |pieces| >= 2
    ensures Join(pieces, sep) == Join(pieces[..|pieces| - 1], sep) + [sep] + pieces[|pieces| - 1]
  {
    var n := |pieces|;
    if n > 2 {
      JoinSnoc(pieces[1..], sep);
      assert pieces[1..][..n - 2] == pieces[..n - 1][1..];
    }
  }

  /** A piece of a join is part of the joined text. */
  lemma {:induction false} JoinHasPiece(pieces: seq<string>, sep: char, i: nat)
    requires i < |pieces|
    ensures forall c :: c in pieces[i] ==> c in Join(pieces, sep)
  {
    if i > 0 {
      JoinHasPiece(pieces[1..], sep, i - 1);
    }
  }

  lemma {:induction false} SplitWithoutSep(p: string, sep: char)
    requires sep !in p
    ensures Split(p, sep) == [p]
  {
    if |p| > 0 {
      SplitWithoutSep(p[1..], sep);
      assert [p[0]] + p[1..] == p;
    }
  }

  lemma {:induction false} SplitAfterPiece(p: string, t: string, sep: char)
    requires sep !in p
    ensures Split(p + [sep] + t, sep) == [p] + Split(t, sep)
  {
    if |p| == 0 {
      assert (p + [sep] + t)[1..] == t;
    } else {
      SplitAfterPiece(p[1..], t, sep);
      assert (p + [sep] + t)[1..] == p[1..] + [sep] + t;
      assert [p[0]] + p[1..] == p;
    }
  }

  /** Splitting undoes joining when no piece holds the separator. */
  lemma {:induction false} SplitOfJoin(pieces: seq<string>, sep: char)
    requires |pieces| >= 1
    requires forall i :: 0 <= i < |pieces| ==> sep !in pieces[i]
    ensures Split(Join(pieces, sep), sep) == pieces
  {
    if |pieces| == 1 {
      SplitWithoutSep(pieces[0], sep);
    } else {
      SplitOfJoin(pieces[1..], sep);
      SplitAfterPiece(pieces[0], Join(pieces[1..], sep), sep);
      assert pieces == [pieces[0]] + pieces[1..];
    }
  }

  // ---------------------------------------------------------------------------
  // the text after the last occurrence of a character
  // ---------------------------------------------------------------------------

  /** Python's `s.rfind(c)`: the index of the last `c` in `s`, or -1. */
  function LastIndexOf(s: string, c: char): (r: int)
    ensures -1 <= r < |s|
    ensures r >= 0 ==> s[r] == c
    ensures forall j :: r < j < |s| ==> s[j] != c
  {
    if |s| == 0 then -1
    else if s[|s| - 1] == c then |s| - 1
    else LastIndexOf(s[..|s| - 1], c)
  }

  /** Everything after the last `c`; all of `s` when `c` does not occur. */
  function AfterLast(s: string, c: char): string
  {
    s[LastIndexOf(s, c) + 1..]
  }

  /** The last `c` of `a + [c] + b` is the one in the middle when `b` holds none. */
  lemma LastIndexOfAround(a: string, b: string, c: char)
    requires c !in b
    ensures LastIndexOf(a + [c] + b, c) == |a|
  {
    var s := a + [c] + b;
    assert s[|a|] == c;
  }

  /** A string splits in at most one way around a last separator. */
  lemma SplitAtLastUnique(a: string, b: string, a': string, b': string, c: char)
    requires a + [c] + b == a' + [c] + b'
    requires c !in b && c !in b'
    ensures a == a' && b == b'
  {
    LastIndexOfAround(a, b, c);
    LastIndexOfAround(a', b', c);
    var s := a + [c] + b;
    assert a == s[..|a|] && b == s[|a| + 1..];
    assert a' == s[..|a'|] && b' == s[|a'| + 1..];
  }

  /** The last piece of `split(c)` is the text after the last `c`. */
  lemma LastPieceIsAfterLast(s: string, c: char)
    ensures Split(s, c)[|Split(s, c)| - 1] == AfterLast(s, c)
  {
    var r := Split(s, c);
    var n := |r|;
    if n == 1 {
      assert s == r[0];
    } else {
      JoinSnoc(r, c);
      var a := Join(r[..n - 1], c);
      var b := r[n - 1];
      assert s == a + [c] + b;
      LastIndexOfAround(a, b, c);
      assert AfterLast(s, c) == (a + [c] + b)[|a| + 1..];
    }
  }

  // ---------------------------------------------------------------------------
  // ordering and case
  // ---------------------------------------------------------------------------

  /** Python's `a < b` on `str`: lexicographic on code points, a proper prefix first. */
  predicate Less(a: string, b: string)
  {
    if |a| == 0 then |b| > 0
    else if |b| == 0 then false
    else if a[0] != b[0] then a[0] < b[0]
    else Less(a[1..], b[1..])
  }

  lemma {:induction false} LessIrreflexive(a: string)
    ensures !Less(a, a)
  {
    if |a| > 0 {
      LessIrreflexive(a[1..]);
    }
  }

  lemma {:induction false} LessTransitive(a: string, b: string, c: string)
    requires Less(a, b) && Less(b, c)
    ensures Less(a, c)
  {
    if |a| > 0 && a[0] == b[0] && b[0] == c[0] {
      LessTransitive(a[1..], b[1..], c[1..]);
    }
  }

  lemma {:induction false} LessTotal(a: string, b: string)
    requires a != b
    ensures Less(a, b) || Less(b, a)
  {
    if |a| > 0 && |b| > 0 && a[0] == b[0] {
      assert a == [a[0]] + a[1..] && b == [b[0]] + b[1..];
      LessTotal(a[1..], b[1..]);
    }
  }

  lemma LessAsymmetric(a: string, b: string)
    requires Less(a, b)
    ensures !Less(b, a)
  {
    if Less(b, a) {
      LessTransitive(a, b, a);
      LessIrreflexive(a);
    }
  }

  /** Python's `c.lower()` on the ASCII letters; every other character is kept. */
  function LowerChar(ch: char): char
  {
    if 'A' <= ch <= 'Z' then (ch as int + 32) as char else ch
  }

  /** Python's `s.lower()`, restricted to ASCII letters. */
  function Lower(s: string): string
  {
    seq(|s|, i requires 0 <= i < |s| => LowerChar(s[i]))
  }

  // ---------------------------------------------------------------------------
  // decimal digits
  // ---------------------------------------------------------------------------

  predicate IsDigit(ch: char)
  {
    '0' <= ch <= '9'
  }

  predicate AllDigits(s: string)
  {
    forall i :: 0 <= i < |s| ==> IsDigit(s[i])
  }

  function DigitChar(d: nat): char
    requires d < 10
  {
    ('0' as int + d) as char
  }

  /** Python's `str(n)` for a non-negative integer. */
  function NatToString(n: nat): (s: string)
    ensures |s| >= 1 && AllDigits(s)
  {
    if n < 10 then [DigitChar(n)] else NatToString(n / 10) + [DigitChar(n % 10)]
  }

  /** Python's `int(s)` on a string of decimal digits; leading zeros are allowed. */
  function DigitsValue(s: string): nat
    requires AllDigits(s)
  {
    if |s| == 0 then 0
    else DigitsValue(s[..|s| - 1]) * 10 + (s[|s| - 1] as int - '0' as int)
  }

  /** `int(str(n)) == n`. */
  lemma {:induction false} NatToStringRoundTrip(n: nat)
    ensures DigitsValue(NatToString(n)) == n
  {
    if n >= 10 {
      NatToStringRoundTrip(n / 10);
      var s := NatToString(n);
      assert s[..|s| - 1] == NatToString(n / 10);
    }
  }

  function Zeros(n: nat): (z: string)
    ensures |z| == n && AllDigits(z)
  {
    seq(n, _ => '0')
  }

  /** Python's `s.zfill(width)` for a string without a sign: left-padded with `'0'`. */
  function ZFill(s: string, width: nat): string
  {
    if |s| >= width then s else Zeros(width - |s|) + s
  }

  /** Leading zeros do not change the value of a digit string. */
  lemma {:induction false} LeadingZerosValue(n: nat, s: string)
    requires AllDigits(s)
    ensures DigitsValue(Zeros(n) + s) == DigitsValue(s)
  {
    var t := Zeros(n) + s;
    if |s| == 0 {
      assert t == Zeros(n);
      if n > 0 {
        assert t[..|t| - 1] == Zeros(n - 1);
        LeadingZerosValue(n - 1, s);
        assert Zeros(n - 1) + s == Zeros(n - 1);
      }
    } else {
      assert t[..|t| - 1] == Zeros(n) + s[..|s| - 1];
      LeadingZerosValue(n, s[..|s| - 1]);
    }
  }
}
