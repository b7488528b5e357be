/** The pieces of Rust's `str` API that the version parser relies on:
    `split` on one character, `starts_with`/`ends_with`, `trim`, and the
    decimal text of unsigned integers (`Display` with `{}`/`{:0N}` and
    `FromStr`). */
module Text {
  import opened Primitives

  predicate StartsWith(s: string, prefix: string) {
    |prefix| <= |s| && s[..|prefix|] == prefix
  }

  predicate EndsWith(s: string, suffix: string) {
    |suffix| <= |s| && s[|s| - |suffix|..] == suffix
  }

  // ---------------------------------------------------------------------
  // Splitting on one character
  // ---------------------------------------------------------------------

  /** Glues pieces back together with `sep` between neighbours. */
  function Join(pieces: seq<string>, sep: char): string
    requires |pieces| >= 1
    decreases |pieces|
  {
    if |pieces| == 1 then pieces[0] else pieces[0] + [sep] + Join(pieces[1..], sep)
  }

  /** A join of several pieces is the first piece, a separator, and the join of the rest. */
  lemma JoinCons(first: string, rest: seq<string>, sep: char)
    requires |rest| >= 1
    ensures Join([first] + rest, sep) == first + [sep] + Join(rest, sep)
  {
    assert ([first] + rest)[1..] == rest;
  }

  /** Three pieces join as the first, a separator, the second, a separator, the third. */
  lemma JoinThree(a: string, b: string, c: string, sep: char)
    ensures Join([a, b, c], sep) == a + [sep] + b + [sep] + c
  {
    JoinCons(b, [c], sep);
    assert [b] + [c] == [b, c];
    JoinCons(a, [b, c], sep);
    assert [a] + [b, c] == [a, b, c];
  }

  /** A character no piece holds is not in their join by another separator. */
  lemma {:induction false} JoinAvoids(pieces: seq<string>, sep: char, c: char)
    requires |pieces| >= 1 && c != sep
    requires forall i :: 0 <= i < |pieces| ==> c !in pieces[i]
    ensures c !in Join(pieces, sep)
    decreases |pieces|
  {
    if |pieces| > 1 {
      JoinAvoids(pieces[1..], sep, c);
    }
  }

  /** A join begins with the first piece's first character. */
  lemma JoinFirst(pieces: seq<string>, sep: char)
    requires |pieces| >= 1 && |pieces[0]| >= 1
    ensures var j := Join(pieces, sep); |j| >= 1 && j[0] == pieces[0][0]
  {
  }

  /** A join ends with the last piece's last character. */
  lemma {:induction false} JoinLast(pieces: seq<string>, sep: char)
    requires |pieces| >= 1 && |pieces[|pieces| - 1]| >= 1
    ensures var j := Join(pieces, sep); var last := pieces[|pieces| - 1];
      |j| >= 1 && j[|j| - 1] == last[|last| - 1]
    decreases |pieces|
  {
    if |pieces| > 1 {
      JoinLast(pieces[1..], sep);
    }
  }

  /** `s.split(sep)`: every maximal run between separators, empty runs included,
      so there is always at least one piece. */
  function Split(s: string, sep: char): (pieces: seq<string>)
    ensures |pieces| >= 1
    decreases |s|
  {
    if |s| == 0 then [""]
    else
      var rest := Split(s[1..], sep);
      if s[0] == sep then [""] + rest
      else [[s[0]] + rest[0]] + rest[1..]
  }

  /** There is more than one piece exactly when the separator occurs, and
      no piece holds the separator. */
  lemma {:induction false} SplitPieces(s: string, sep: char)
    ensures |Split(s, sep)| == 1 <==> sep !in s
    ensures forall i :: 0 <= i < |Split(s, sep)| ==> sep !in Split(s, sep)[i]
    decreases |s|
  {
    if |s| > 0 {
      var rest := Split(s[1..], sep);
      var p := Split(s, sep);
      SplitPieces(s[1..], sep);
      assert s == [s[0]] + s[1..];
      if s[0] == sep {
        assert p == [""] + rest;
        forall i | 0 <= i < |p|
          ensures sep !in p[i]
        {
          if i > 0 {
            assert p[i] == rest[i - 1];
          }
        }
      } else {
        assert p == [[s[0]] + rest[0]] + rest[1..];
        assert sep in s <==> sep in s[1..];
        forall i | 0 <= i < |p|
          ensures sep !in p[i]
        {
          if i > 0 {
            assert p[i] == rest[i];
          } else {
            assert p[0] == [s[0]] + rest[0];
          }
        }
      }
    }
  }

  /** Concatenation regroups freely. */
  lemma ConcatAssoc(a: string, b: string, c: string)
    ensures a + b + c == a + (b + c)
  {
  }

  /** Only the text after the last separator makes up the last piece. */
  lemma {:induction false} SplitLastPiece(a: string, sep: char, b: string)
    ensures var p := Split(a + [sep] + b, sep); var q := Split(b, sep); p[|p| - 1] == q[|q| - 1]
    decreases |a|
  {
    var s := a + [sep] + b;
    var p := Split(s, sep);
    if |a| == 0 {
      assert s[0] == sep && s[1..] == b;
      assert p == [""] + Split(b, sep);
    } else {
      assert s[1..] == a[1..] + [sep] + b;
      var rest := Split(s[1..], sep);
      assert rest[|rest| - 1] == Split(b, sep)[|Split(b, sep)| - 1] by {
        SplitLastPiece(a[1..], sep, b);
      }
      assert sep in s[1..] by {
        assert s[1..][|a| - 1] == sep;
      }
      SplitDropFirstLast(s, sep);
    }
  }

  /** When the separator occurs after the first character, dropping that
      character leaves the last piece alone. */
  lemma SplitDropFirstLast(s: string, sep: char)
    requires |s| > 0 && sep in s[1..]
    ensures var p := Split(s, sep); var rest := Split(s[1..], sep); p[|p| - 1] == rest[|rest| - 1]
  {
    var p := Split(s, sep);
    var rest := Split(s[1..], sep);
    if s[0] == sep {
      assert p == [""] + rest;
    } else {
      assert |rest| >= 2 by {
        SplitPieces(s[1..], sep);
      }
      assert p == [[s[0]] + rest[0]] + rest[1..];
    }
  }

  /** Joining the pieces of a split restores the text. */
  lemma {:induction false} JoinSplit(s: string, sep: char)
    ensures Join(Split(s, sep), sep) == s
    decreases |s|
  {
    if |s| > 0 {
      var rest := Split(s[1..], sep);
      var p := Split(s, sep);
      assert Join(rest, sep) == s[1..] by {
        JoinSplit(s[1..], sep);
      }
      if s[0] != sep {
        assert p == [[s[0]] + rest[0]] + rest[1..];
        if |rest| == 1 {
          assert p == [[s[0]] + rest[0]];
          assert Join(p, sep) == [s[0]] + Join(rest, sep);
        } else {
          assert p[1..] == rest[1..];
          assert Join(rest, sep) == rest[0] + [sep] + Join(rest[1..], sep);
          assert Join(p, sep) == ([s[0]] + rest[0]) + [sep] + Join(rest[1..], sep);
          assert Join(p, sep) == [s[0]] + Join(rest, sep);
        }
      } else {
        assert p == [""] + rest;
        assert p[1..] == rest;
        assert Join(p, sep) == [sep] + Join(rest, sep);
      }
      assert [s[0]] + s[1..] == s;
    }
  }

  /** A text without the separator is a single piece. */
  lemma {:induction false} SplitWithoutSep(a: string, sep: char)
    requires sep !in a
    ensures Split(a, sep) == [a]
    decreases |a|
  {
    if |a| > 0 {
      SplitWithoutSep(a[1..], sep);
      assert a == [a[0]] + a[1..];
    }
  }

  /** The first separator ends the first piece. */
  lemma {:induction false} SplitAtFirstSep(a: string, sep: char, b: string)
    requires sep !in a
    ensures Split(a + [sep] + b, sep) == [a] + Split(b, sep)
    decreases |a|
  {
    var s := a + [sep] + b;
    if |a| == 0 {
      assert s[1..] == b;
    } else {
      assert s[0] == a[0] != sep;
      assert s[1..] == a[1..] + [sep] + b;
      var rest := Split(s[1..], sep);
      assert rest == [a[1..]] + Split(b, sep) by {
        SplitAtFirstSep(a[1..], sep, b);
      }
      assert Split(s, sep) == [[a[0]] + rest[0]] + rest[1..];
      assert [a[0]] + a[1..] == a;
      assert rest[1..] == Split(b, sep);
    }
  }

  /** Splitting the join of separator-free pieces gives the pieces back. */
  lemma {:induction false} SplitJoin(pieces: seq<string>, sep: char)
    requires |pieces| >= 1
    requires forall i :: 0 <= i < |pieces| ==> sep !in pieces[i]
    ensures Split(Join(pieces, sep), sep) == pieces
    decreases |pieces|
  {
    if |pieces| == 1 {
      SplitWithoutSep(pieces[0], sep);
    } else {
      SplitJoin(pieces[1..], sep);
      SplitAtFirstSep(pieces[0], sep, Join(pieces[1..], sep));
      assert pieces == [pieces[0]] + pieces[1..];
    }
  }

  // ---------------------------------------------------------------------
  // Trimming
  // ---------------------------------------------------------------------

  /** The Unicode `White_Space` property, which `str::trim` strips. */
  predicate IsWhitespace(c: char) {
    || '\t' <= c <= '\r'
    || c == ' '
    || c == '\U{85}'
    || c == '\U{A0}'
    || c == '\U{1680}'
    || '\U{2000}' <= c <= '\U{200A}'
    || c == '\U{2028}'
    || c == '\U{2029}'
    || c == '\U{202F}'
    || c == '\U{205F}'
    || c == '\U{3000}'
  }

  /** `s.trim_start()`: the longest suffix of `s` that does not begin with whitespace. */
  function TrimStart(s: string): (r: string)
    ensures |r| <= |s| && r == s[|s| - |r|..]
    ensures forall i :: 0 <= i < |s| - |r| ==> IsWhitespace(s[i])
    ensures |r| > 0 ==> !IsWhitespace(r[0])
    decreases |s|
  {
    if |s| > 0 && IsWhitespace(s[0]) then TrimStart(s[1..]) else s
  }

  /** `s.trim_end()`: the longest prefix of `s` that does not end with whitespace. */
  function TrimEnd(s: string): (r: string)
    ensures |r| <= |s| && r == s[..|r|]
    ensures forall i :: |r| <= i < |s| ==> IsWhitespace(s[i])
    ensures |r| > 0 ==> !IsWhitespace(r[|r| - 1])
    decreases |s|
  {
    if |s| > 0 && IsWhitespace(s[|s| - 1]) then TrimEnd(s[..|s| - 1]) else s
  }

  /** `r` is the slice of `s` starting at `k`, with only White_Space before
      and after it. */
  predicate Framed(s: string, k: nat, r: string) {
    && k + |r| <= |s|
    && (forall i :: 0 <= i < |r| ==> r[i] == s[k + i])
    && (forall i :: 0 <= i < k ==> IsWhitespace(s[i]))
    && (forall i :: k + |r| <= i < |s| ==> IsWhitespace(s[i]))
  }

  /** `s.trim()`. */
  function Trim(s: string): (r: string)
    ensures |r| > 0 ==> !IsWhitespace(r[0]) && !IsWhitespace(r[|r| - 1])
  {
    TrimEnd(TrimStart(s))
  }

  /** End-trimming the suffix `t` of `s` that starts at `k` leaves a slice of `s`. */
  lemma TrimEndSlice(s: string, k: nat, t: string)
    requires k <= |s| && t == s[k..]
    ensures k + |TrimEnd(t)| <= |s| && TrimEnd(t) == s[k..k + |TrimEnd(t)|]
  {
  }

  /** Only White_Space follows the end-trimmed suffix `t` of `s`. */
  lemma TrimEndTrailing(s: string, k: nat, t: string)
    requires k <= |s| && t == s[k..]
    ensures forall i :: k + |TrimEnd(t)| <= i < |s| ==> IsWhitespace(s[i])
  {
    var r := TrimEnd(t);
    forall i | k + |r| <= i < |s|
      ensures IsWhitespace(s[i])
    {
      assert IsWhitespace(t[i - k]);
      assert s[i] == t[i - k];
    }
  }

  /** End-trimming the suffix of `s` that starts at `k`, after a run of
      White_Space, frames the result in `s`. */
  lemma TrimEndFramed(s: string, k: nat)
    requires k <= |s|
    requires forall i :: 0 <= i < k ==> IsWhitespace(s[i])
    ensures Framed(s, k, TrimEnd(s[k..]))
  {
    TrimEndSlice(s, k, s[k..]);
    TrimEndTrailing(s, k, s[k..]);
  }

  /** The trimmed text is the slice of `s` left once the leading and
      trailing White_Space is removed. */
  lemma TrimFramed(s: string)
    ensures Framed(s, |s| - |TrimStart(s)|, Trim(s))
  {
    TrimEndFramed(s, |s| - |TrimStart(s)|);
  }

  /** Trimming a text made only of White_Space leaves nothing. */
  lemma TrimBlank(s: string)
    requires forall i :: 0 <= i < |s| ==> IsWhitespace(s[i])
    ensures Trim(s) == ""
  {
  }

  /** Trimming a text that neither starts nor ends with whitespace changes nothing. */
  lemma TrimUnpadded(s: string)
    requires |s| > 0 ==> !IsWhitespace(s[0]) && !IsWhitespace(s[|s| - 1])
    ensures Trim(s) == s
  {
  }

  // ---------------------------------------------------------------------
  // Decimal digits
  // ---------------------------------------------------------------------

  predicate IsDigit(c: char) {
    '0' <= c <= '9'
  }

  predicate AllDigits(s: string) {
    forall i :: 0 <= i < |s| ==> IsDigit(s[i])
  }

  function DigitChar(d: nat): (c: char)
    requires d < 10
    ensures IsDigit(c)
  {
    ('0' as int + d) as char
  }

  /** The number a string of decimal digits denotes (leading zeros allowed). */
  function Value(s: string): nat
    requires AllDigits(s)
    decreases |s|
  {
    if |s| == 0 then 0 else 10 * Value(s[..|s| - 1]) + (s[|s| - 1] as int - '0' as int)
  }

  function Pow10(k: nat): (p: nat)
    ensures p >= 1
  {
    if k == 0 then 1 else 10 * Pow10(k - 1)
  }

  /** `format!("{}", n)`: the shortest decimal text of `n`. */
  function Decimal(n: nat): (s: string)
    ensures |s| >= 1 && AllDigits(s)
    ensures Value(s) == n
    ensures |s| > 1 ==> s[0] != '0'
    decreases n
  {
    if n < 10 then [DigitChar(n)]
    else
      var s := Decimal(n / 10) + [DigitChar(n % 10)];
      assert s[..|s| - 1] == Decimal(n / 10);
      s
  }

  /** The text of `n` has at most `k` digits exactly when `n < 10^k`. */
  lemma {:induction false} DecimalWidth(n: nat, k: nat)
    requires k >= 1
    ensures |Decimal(n)| <= k <==> n < Pow10(k)
    decreases n
  {
    if n >= 10 {
      if k == 1 {
        assert Pow10(1) == 10;
      } else {
        DecimalWidth(n / 10, k - 1);
      }
    } else {
      PowAtLeast10(k);
    }
  }

  lemma {:induction false} PowAtLeast10(k: nat)
    requires k >= 1
    ensures Pow10(k) >= 10
    decreases k
  {
    if k > 1 {
      PowAtLeast10(k - 1);
    }
  }

  function Zeros(k: nat): (z: string)
    ensures |z| == k && AllDigits(z)
    decreases k
  {
    if k == 0 then "" else "0" + Zeros(k - 1)
  }

  /** `format!("{:0w}", n)`: the decimal text of `n` left-padded with zeros
      to at least `width` characters. */
  function PadDecimal(n: nat, width: nat): (s: string)
    ensures AllDigits(s)
    ensures |s| == if |Decimal(n)| < width then width else |Decimal(n)|
  {
    var d := Decimal(n);
    if |d| < width then Zeros(width - |d|) + d else d
  }

  /** Leading zeros do not change the number a digit string denotes. */
  lemma {:induction false} ValueIgnoresLeadingZeros(k: nat, s: string)
    requires AllDigits(s)
    ensures Value(Zeros(k) + s) == Value(s)
    decreases |s|
  {
    var t := Zeros(k) + s;
    if |s| == 0 {
      assert t == Zeros(k);
      ZerosValue(k);
    } else {
      assert t[..|t| - 1] == Zeros(k) + s[..|s| - 1];
      ValueIgnoresLeadingZeros(k, s[..|s| - 1]);
    }
  }

  lemma {:induction false} ZerosValue(k: nat)
    ensures Value(Zeros(k)) == 0
    decreases k
  {
    if k > 0 {
      var z := Zeros(k);
      assert z[..|z| - 1] == Zeros(k - 1) by {
        ZerosShift(k);
      }
      ZerosValue(k - 1);
    }
  }

  lemma ZerosShift(k: nat)
    requires k > 0
    ensures Zeros(k)[..k - 1] == Zeros(k - 1)
  {
    assert forall i :: 0 <= i < k ==> Zeros(k)[i] == '0' by {
      ZerosAllZero(k);
    }
    ZerosAllZero(k - 1);
  }

  lemma {:induction false} ZerosAllZero(k: nat)
    ensures forall i :: 0 <= i < k ==> Zeros(k)[i] == '0'
    decreases k
  {
    if k > 0 {
      ZerosAllZero(k - 1);
    }
  }

  lemma PadDecimalValue(n: nat, width: nat)
    ensures Value(PadDecimal(n, width)) == n
  {
    var d := Decimal(n);
    if |d| < width {
      assert PadDecimal(n, width) == Zeros(width - |d|) + d;
      ValueIgnoresLeadingZeros(width - |d|, d);
    } else {
      assert PadDecimal(n, width) == d;
    }
  }

  /** `<uN as FromStr>::from_str` for an unsigned type whose values are below
      `bound`: an optional `+`, then at least one ASCII digit and nothing else;
      a value of `bound` or more is an overflow error. */
  function ParseUnsigned(s: string, bound: nat): (r: Option<nat>)
    ensures r.Some? ==> r.value < bound
    ensures r.Some? ==> |s| >= 1 && forall i :: 0 <= i < |s| ==> IsDigit(s[i]) || (i == 0 && s[i] == '+')
    ensures r.Some? ==> var d := if |s| > 0 && s[0] == '+' then s[1..] else s;
      |d| >= 1 && AllDigits(d) && r.value == Value(d)
    ensures |s| >= 1 && AllDigits(s) && Value(s) < bound ==> r == Some(Value(s))
    ensures |s| >= 2 && s[0] == '+' && AllDigits(s[1..]) && Value(s[1..]) < bound ==> r == Some(Value(s[1..]))
  {
    var digits := if |s| > 0 && s[0] == '+' then s[1..] else s;
    if |digits| > 0 && AllDigits(digits) && Value(digits) < bound then Some(Value(digits)) else None
  }

  /** The shortest decimal text parses back to its number, whenever it fits. */
  lemma ParseDecimal(n: nat, bound: nat)
    requires n < bound
    ensures ParseUnsigned(Decimal(n), bound) == Some(n)
  {
  }

  /** A character that is not a digit does not occur in a digit string. */
  lemma NotInDigits(c: char, s: string)
    requires AllDigits(s) && !IsDigit(c)
    ensures c !in s
  {
  }

  /** A zero-padded decimal text parses back to its number, whenever it fits. */
  lemma ParsePadDecimal(n: nat, width: nat, bound: nat)
    requires n < bound
    ensures ParseUnsigned(PadDecimal(n, width), bound) == Some(n)
  {
    PadDecimalValue(n, width);
  }

  /** A digit string whose value does not fit is rejected, as Rust's overflow error. */
  lemma ParseOverflow(s: string, bound: nat)
    requires AllDigits(s) && Value(s) >= bound
    ensures ParseUnsigned(s, bound) == None
  {
  }
}
