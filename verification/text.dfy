/** The pieces of Python string handling the scripts use: `str(int)`, `int(str)`,
    `str.replace` and `str.split`, over `string` (a sequence of Unicode scalar values). */
module Text {
  import opened Wrappers
  import Seqs

  predicate IsDigit(c: char) {
    '0' <= c <= '9'
  }

  predicate AllDigits(s: string) {
    forall i :: 0 <= i < |s| ==> IsDigit(s[i])
  }

  /** A decimal numeral as `str` writes it: digits only, no leading zero except for "0". */
  predicate Canonical(s: string) {
    |s| > 0 && AllDigits(s) && (s[0] == '0' ==> |s| == 1)
  }

  function DigitChar(d: nat): (c: char)
    requires d < 10
    ensures IsDigit(c)
  {
    (48 + d) as char
  }

  function DigitValue(c: char): (d: nat)
    requires IsDigit(c)
    ensures d < 10
  {
    (c as int) - 48
  }

  /** `str(n)` for a non-negative integer. */
  function NatToString(n: nat): (s: string)
    ensures Canonical(s)
  {
    if n < 10 then [DigitChar(n)] else NatToString(n / 10) + [DigitChar(n % 10)]
  }

  /** `str(i)`: a minus sign before the digits of a negative number. */
  function IntToString(i: int): (s: string)
    ensures |s| > 0
    ensures AllDigits(s[1..])
    ensures s[0] == '-' <==> i < 0
  {
    if i < 0 then "-" + NatToString(-i) else NatToString(i)
  }

  /** The value of a string of decimal digits. */
  function DigitsValue(s: string): nat
    requires AllDigits(s)
  {
    if |s| == 0 then 0 else DigitsValue(s[..|s| - 1]) * 10 + DigitValue(s[|s| - 1])
  }

  /** `int(s)` for an optional minus sign followed by decimal digits; `None` where Python
      raises `ValueError`. */
  function ParseInt(s: string): Option<int>
  {
    if |s| > 1 && s[0] == '-' && AllDigits(s[1..]) then Some(0 - DigitsValue(s[1..]))
    else if |s| > 0 && AllDigits(s) then Some(DigitsValue(s))
    else None
  }

  lemma {:induction false} DigitsOfNat(n: nat)
    ensures DigitsValue(NatToString(n)) == n
  {
    if n >= 10 {
      DigitsOfNat(n / 10);
      var s := NatToString(n);
      assert s[..|s| - 1] == NatToString(n / 10);
    }
  }

  lemma {:induction false} ZeroValueMeansZeros(s: string)
    requires AllDigits(s)
    requires DigitsValue(s) == 0
    ensures forall i :: 0 <= i < |s| ==> s[i] == '0'
  {
    if |s| > 0 {
      ZeroValueMeansZeros(s[..|s| - 1]);
      assert forall i :: 0 <= i < |s| - 1 ==> s[i] == s[..|s| - 1][i];
    }
  }

  /** A canonical numeral is exactly what `str` prints for its value. */
  lemma {:induction false} NatOfDigits(s: string)
    requires Canonical(s)
    ensures NatToString(DigitsValue(s)) == s
  {
    var v := DigitsValue(s);
    if |s| == 1 {
      assert s[..|s| - 1] == [];
      assert DigitsValue(s[..|s| - 1]) == 0;
      assert v == DigitValue(s[0]);
      assert NatToString(v) == [DigitChar(v)];
    } else {
      var p := s[..|s| - 1];
      assert p[0] == s[0];
      NatOfDigits(p);
      if DigitsValue(p) == 0 {
        ZeroValueMeansZeros(p);
        assert false;
      }
      assert v / 10 == DigitsValue(p) && v % 10 == DigitValue(s[|s| - 1]);
      assert s == p + [s[|s| - 1]];
    }
  }

  /** Printing an integer and parsing it back gives the integer. */
  lemma ParseIntToString(i: int)
    ensures ParseInt(IntToString(i)) == Some(i)
  {
    var s := IntToString(i);
    if i < 0 {
      DigitsOfNat(-i);
      assert s[1..] == NatToString(-i);
    } else {
      DigitsOfNat(i);
    }
  }

  /** Different integers print differently. */
  lemma IntToStringInjective(i: int, j: int)
    requires IntToString(i) == IntToString(j)
    ensures i == j
  {
    ParseIntToString(i);
    ParseIntToString(j);
  }

  /** `pat` occurs in `s` starting at index `i`. */
  predicate MatchAt(s: string, i: nat, pat: string) {
    i + |pat| <= |s| && s[i..i + |pat|] == pat
  }

  /** `s.replace(pat, rep)`: every non-overlapping occurrence of `pat`, scanning from the left. */
  function ReplaceAll(s: string, pat: string, rep: string): string
    requires |pat| > 0
    decreases |s|
  {
    if |s| < |pat| then s
    else if s[..|pat|] == pat then rep + ReplaceAll(s[|pat|..], pat, rep)
    else [s[0]] + ReplaceAll(s[1..], pat, rep)
  }

  /** A string without the first character of the pattern is left alone. */
  lemma {:induction false} ReplaceAllAbsent(s: string, pat: string, rep: string)
    requires |pat| > 0
    requires pat[0] !in s
    ensures ReplaceAll(s, pat, rep) == s
  {
    if |s| >= |pat| {
      assert s[..|pat|][0] == s[0];
      ReplaceAllAbsent(s[1..], pat, rep);
      assert s == [s[0]] + s[1..];
    }
  }

  /** A string in which the pattern occurs nowhere is left alone. */
  lemma ReplaceAllNoMatch(s: string, pat: string, rep: string)
    requires |pat| > 0
    requires forall i :: 0 <= i < |s| ==> !MatchAt(s, i, pat)
    ensures ReplaceAll(s, pat, rep) == s
  {
    assert s + "" == s;
    ReplaceAllSkip(s, "", pat, rep);
  }

  /** A prefix in which no occurrence starts passes through unchanged. */
  lemma {:induction false} ReplaceAllSkip(a: string, b: string, pat: string, rep: string)
    requires |pat| > 0
    requires forall i :: 0 <= i < |a| ==> !MatchAt(a + b, i, pat)
    ensures ReplaceAll(a + b, pat, rep) == a + ReplaceAll(b, pat, rep)
  {
    if |a| == 0 {
      assert a + b == b;
    } else if |a + b| < |pat| {
    } else {
      assert !MatchAt(a + b, 0, pat);
      var t := (a + b)[1..];
      assert t == a[1..] + b;
      forall i | 0 <= i < |a[1..]|
        ensures !MatchAt(t, i, pat)
      {
        assert !MatchAt(a + b, i + 1, pat);
        if i + |pat| <= |t| {
          assert t[i..i + |pat|] == (a + b)[i + 1..i + 1 + |pat|];
        }
      }
      ReplaceAllSkip(a[1..], b, pat, rep);
      assert a == [a[0]] + a[1..];
    }
  }

  /** The concatenation of `f(c)` over the characters `c` of `s`. */
  function Expand(s: string, f: char -> string): string
  {
    if |s| == 0 then "" else f(s[0]) + Expand(s[1..], f)
  }

  /** No occurrence of `pat` can start inside the chunk `ch`, whatever follows it. */
  predicate Inert(ch: string, pat: string)
    requires |pat| > 0
  {
    forall i :: 0 <= i < |ch| ==>
      ch[i] != pat[0] || (i == 0 && |pat| <= |ch| && ch[..|pat|] != pat)
  }

  /** Replacing in one chunk: the chunk is the pattern and becomes the replacement, or
      the chunk is inert and stays. */
  predicate Rewrites(ch: string, out: string, pat: string, rep: string)
    requires |pat| > 0
  {
    (ch == pat && out == rep) || (out == ch && Inert(ch, pat))
  }

  /** Replacing in an expansion acts chunk by chunk when each chunk rewrites alone. */
  lemma {:induction false} ReplaceAllExpand(s: string, f: char -> string, g: char -> string,
                                            pat: string, rep: string)
    requires |pat| > 0
    requires forall c :: Rewrites(f(c), g(c), pat, rep)
    ensures ReplaceAll(Expand(s, f), pat, rep) == Expand(s, g)
  {
    if |s| > 0 {
      var ch, rest := f(s[0]), Expand(s[1..], f);
      ReplaceAllExpand(s[1..], f, g, pat, rep);
      assert Rewrites(ch, g(s[0]), pat, rep);
      assert Expand(s, f) == ch + rest;
      if ch == pat {
        assert ch[0] == pat[0] && ch[..|pat|] == pat;
        assert !Inert(ch, pat);
        assert (ch + rest)[..|pat|] == pat;
        assert (ch + rest)[|pat|..] == rest;
        assert ReplaceAll(ch + rest, pat, rep) == rep + ReplaceAll(rest, pat, rep);
      } else {
        forall i | 0 <= i < |ch|
          ensures !MatchAt(ch + rest, i, pat)
        {
          if i + |pat| <= |ch + rest| {
            assert (ch + rest)[i..i + |pat|][0] == ch[i];
            if i == 0 && |pat| <= |ch| {
              assert (ch + rest)[..|pat|] == ch[..|pat|];
            }
          }
        }
        ReplaceAllSkip(ch, rest, pat, rep);
      }
    }
  }

  function Singleton(c: char): string {
    [c]
  }

  lemma {:induction false} ExpandSingleton(s: string)
    ensures Expand(s, Singleton) == s
  {
    if |s| > 0 {
      ExpandSingleton(s[1..]);
      assert s == [s[0]] + s[1..];
    }
  }

  /** A character that no chunk contains is absent from the expansion. */
  lemma {:induction false} ExpandAvoids(s: string, f: char -> string, x: char)
    requires forall c :: x !in f(c)
    ensures x !in Expand(s, f)
  {
    if |s| > 0 {
      ExpandAvoids(s[1..], f, x);
    }
  }

  /** `s.split(d)`: the pieces between occurrences of `d`; a single piece, `s` itself,
      exactly when `d` does not occur. */
  function Split(s: string, d: char): (pieces: seq<string>)
    ensures |pieces| > 0
    ensures d !in s ==> pieces == [s]
    ensures d in s ==> |pieces| > 1
  {
    if |s| == 0 then [""]
    else
      var rest := Split(s[1..], d);
      assert s == [s[0]] + s[1..];
      if s[0] == d then [""] + rest else [[s[0]] + rest[0]] + rest[1..]
  }

  /** `s.split(d)[-1]`. */
  function LastPiece(s: string, d: char): string {
    var pieces := Split(s, d);
    pieces[|pieces| - 1]
  }

  /** One step of the split: the first character joins the last piece only when no `d`
      occurs at all. */
  lemma LastPieceStep(s: string, d: char)
    requires |s| > 0
    ensures s[0] != d && d !in s[1..] ==> LastPiece(s, d) == s
    ensures s[0] == d || d in s[1..] ==> LastPiece(s, d) == LastPiece(s[1..], d)
  {
    assert s == [s[0]] + s[1..];
  }

  /** The last piece is the text after the last `d`: a suffix of `s` without `d`, which is
      either all of `s` or preceded by a `d`. */
  lemma {:induction false} LastPieceSpec(s: string, d: char)
    ensures |LastPiece(s, d)| <= |s|
    ensures s[|s| - |LastPiece(s, d)|..] == LastPiece(s, d)
    ensures d !in LastPiece(s, d)
    ensures |LastPiece(s, d)| == |s| || s[|s| - |LastPiece(s, d)| - 1] == d
  {
    if |s| > 0 {
      var s' := s[1..];
      LastPieceStep(s, d);
      if s[0] != d && d !in s' {
        assert s == [s[0]] + s';
      } else {
        LastPieceSpec(s', d);
        var t := LastPiece(s', d);
        assert s'[|s'| - |t|..] == s[|s| - |t|..];
        if |t| < |s'| {
          assert s'[|s'| - |t| - 1] == s[|s| - |t| - 1];
        } else {
          assert s[|s| - |t| - 1] == s[0];
        }
      }
    }
  }

  /** The last piece of a string that ends with `d` and then `t`, where `t` has no `d`,
      is `t`. */
  lemma LastPieceAfter(p: string, t: string, d: char)
    requires d !in t
    ensures LastPiece(p + [d] + t, d) == t
  {
    var s := p + [d] + t;
    LastPieceSpec(s, d);
    var u := LastPiece(s, d);
    assert forall i :: |s| - |u| <= i < |s| ==> s[i] != d by {
      forall i | |s| - |u| <= i < |s| ensures s[i] != d {
        assert s[i] == u[i - (|s| - |u|)];
      }
    }
    assert forall i :: |s| - |t| <= i < |s| ==> s[i] != d by {
      forall i | |s| - |t| <= i < |s| ensures s[i] != d {
        assert s[i] == t[i - (|s| - |t|)];
      }
    }
    assert s[|s| - |t| - 1] == d;
    assert |u| == |t|;
    assert s[|s| - |t|..] == t;
  }

  /** The characters of `s` other than `x`, in order. */
  function Without(s: string, x: char): (r: string)
    ensures forall c :: c in r <==> c in s && c != x
  {
    if |s| == 0 then "" else (if s[0] == x then "" else [s[0]]) + Without(s[1..], x)
  }

  /** Replacing a one-character pattern by nothing deletes that character. */
  lemma {:induction false} ReplaceAllDelete(s: string, x: char)
    ensures ReplaceAll(s, [x], "") == Without(s, x)
  {
    if |s| > 0 {
      ReplaceAllDelete(s[1..], x);
      assert s[..1] == [s[0]];
      assert s[1..] == s[|[x]|..];
    }
  }

  /** Deleting a character that does not occur changes nothing. */
  lemma {:induction false} WithoutAbsent(s: string, x: char)
    requires x !in s
    ensures Without(s, x) == s
  {
    if |s| > 0 {
      WithoutAbsent(s[1..], x);
      assert s == [s[0]] + s[1..];
    }
  }

  /** The pieces joined with nothing between them (`"".join(parts)`). */
  function Concat(parts: seq<string>): string {
    if |parts| == 0 then "" else parts[0] + Concat(parts[1..])
  }

  lemma {:induction false} ConcatAppend(a: seq<string>, b: seq<string>)
    ensures Concat(a + b) == Concat(a) + Concat(b)
  {
    if |a| == 0 {
      assert a + b == b;
    } else {
      assert (a + b)[1..] == a[1..] + b;
      ConcatAppend(a[1..], b);
    }
  }

  /** Piece `k` of a concatenation sits between the pieces before it and those after it. */
  lemma ConcatAt(parts: seq<string>, k: nat)
    requires k < |parts|
    ensures Concat(parts) == Concat(parts[..k]) + parts[k] + Concat(parts[k + 1..])
  {
    assert parts == parts[..k] + parts[k..];
    ConcatAppend(parts[..k], parts[k..]);
    assert parts[k..][1..] == parts[k + 1..];
  }

  /** The texts of a prefix grow by the text of the next element. */
  lemma ConcatMapSnoc<E>(f: E -> string, s: seq<E>, k: nat)
    requires k < |s|
    ensures Concat(Seqs.Map(f, s[..k + 1])) == Concat(Seqs.Map(f, s[..k])) + f(s[k])
  {
    Seqs.MapSnoc(f, s, k);
    ConcatAppend(Seqs.Map(f, s[..k]), [f(s[k])]);
    assert Concat([f(s[k])]) == f(s[k]) + Concat([]);
  }

  /** A loop that appends the text of each element in turn, as both page generators do with
      their cards. */
  method ConcatMap<E>(f: E -> string, s: seq<E>) returns (r: string)
    ensures r == Concat(Seqs.Map(f, s))
  {
    r := "";
    var k := 0;
    while k < |s|
      invariant 0 <= k <= |s|
      invariant r == Concat(Seqs.Map(f, s[..k]))
    {
      ConcatMapSnoc(f, s, k);
      r := r + f(s[k]);
      k := k + 1;
    }
    assert s[..k] == s;
  }

  /** The text of element `k` sits between the texts of the elements before it and those
      after it. */
  lemma ConcatMapAt<E>(f: E -> string, s: seq<E>, k: nat)
    requires k < |s|
    ensures Concat(Seqs.Map(f, s)) == Concat(Seqs.Map(f, s[..k])) + f(s[k]) + Concat(Seqs.Map(f, s[k + 1..]))
  {
    var texts := Seqs.Map(f, s);
    ConcatAt(texts, k);
    Seqs.MapSlice(f, s, 0, k);
    Seqs.MapSlice(f, s, k + 1, |s|);
    assert texts[..k] == texts[0..k] && s[..k] == s[0..k];
    assert texts[k + 1..] == texts[k + 1..|texts|] && s[k + 1..] == s[k + 1..|s|];
  }

  /** Two texts framed by the same head and foot are equal exactly when the texts are. */
  lemma FrameCancel(head: string, a: string, b: string, foot: string)
    ensures head + a + foot == head + b + foot <==> a == b
  {
    if head + a + foot == head + b + foot {
      assert |a| == |b|;
      assert a == (head + a + foot)[|head|..|head| + |a|];
      assert b == (head + b + foot)[|head|..|head| + |b|];
    }
  }
}
