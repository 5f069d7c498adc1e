/** String helpers with the meaning Python 2 gives them: joining, splitting,
    left-to-right replacement, decimal and hexadecimal rendering. */
module Strings {
  import opened Wrappers

  /** `sep.join(parts)` */
  function Join(parts: seq<string>, sep: string): string
  {
    if |parts| == 0 then ""
    else if |parts| == 1 then parts[0]
    else parts[0] + sep + Join(parts[1..], sep)
  }

  /** Concatenation is associative; stated once so proofs can cite it. */
  lemma ConcatAssoc(a: string, b: string, c: string)
    ensures a + (b + c) == (a + b) + c
  {
  }

  /** `s.split(sep)` for a one-character separator: the pieces between separators,
      so a string with k separators gives k + 1 pieces, empty ones included. */
  function Split(s: string, sep: char): (r: seq<string>)
    ensures |r| >= 1
  {
    if s == [] then [""]
    else if s[0] == sep then [""] + Split(s[1..], sep)
    else
      var rest := Split(s[1..], sep);
      [[s[0]] + rest[0]] + rest[1..]
  }

  /** Splitting loses nothing: joining the pieces back gives the original string. */
  lemma {:induction false} JoinSplit(s: string, sep: char)
    ensures Join(Split(s, sep), [sep]) == s
  {
    if s != [] {
      var r := Split(s[1..], sep);
      JoinSplit(s[1..], sep);
      assert s == [s[0]] + s[1..];
      if s[0] == sep {
        var pieces := [""] + r;
        assert Split(s, sep) == pieces;
        assert pieces[1..] == r;
        assert Join(pieces, [sep]) == "" + [sep] + Join(r, [sep]);
      } else {
        var pieces := [[s[0]] + r[0]] + r[1..];
        assert Split(s, sep) == pieces;
        if |r| == 1 {
          assert Join(pieces, [sep]) == [s[0]] + Join(r, [sep]);
        } else {
          assert pieces[1..] == r[1..];
          var tail := Join(r[1..], [sep]);
          assert Join(pieces, [sep]) == [s[0]] + r[0] + [sep] + tail;
          assert Join(r, [sep]) == r[0] + [sep] + tail;
        }
      }
    }
  }

  /** No piece of a split holds the separator. */
  lemma {:induction false} SplitPiecesLackSep(s: string, sep: char)
    ensures forall i :: 0 <= i < |Split(s, sep)| ==> sep !in Split(s, sep)[i]
  {
    if s != [] {
      var r := Split(s[1..], sep);
      SplitPiecesLackSep(s[1..], sep);
      forall i | 0 <= i < |Split(s, sep)|
        ensures sep !in Split(s, sep)[i]
      {
        if i > 0 {
          assert Split(s, sep)[i] == r[if s[0] == sep then i - 1 else i];
        } else if s[0] != sep {
          assert Split(s, sep)[0] == [s[0]] + r[0];
        }
      }
    }
  }

  lemma {:induction false} SplitPrefix(a: string, sep: char, t: string)
    requires sep !in a
    ensures Split(a + t, sep) == [a + Split(t, sep)[0]] + Split(t, sep)[1..]
  {
    if a != [] {
      SplitPrefix(a[1..], sep, t);
      var r := Split(t, sep);
      var rest := Split(a[1..] + t, sep);
      assert rest[0] == a[1..] + r[0] && rest[1..] == r[1..];
      assert (a + t)[0] == a[0] && a[0] != sep;
      assert (a + t)[1..] == a[1..] + t;
      assert Split(a + t, sep) == [[a[0]] + rest[0]] + rest[1..];
      ConcatAssoc([a[0]], a[1..], r[0]);
      assert [a[0]] + a[1..] == a;
    } else {
      var r := Split(t, sep);
      assert a + t == t && a + r[0] == r[0];
      assert r == [r[0]] + r[1..];
    }
  }

  /** Joining pieces that hold no separator and splitting again gives the pieces back. */
  lemma {:induction false} SplitJoin(parts: seq<string>, sep: char)
    requires |parts| >= 1
    requires forall i :: 0 <= i < |parts| ==> sep !in parts[i]
    ensures Split(Join(parts, [sep]), sep) == parts
  {
    if |parts| == 1 {
      SplitPrefix(parts[0], sep, "");
      assert parts[0] + "" == parts[0];
    } else {
      var tail := Join(parts[1..], [sep]);
      SplitJoin(parts[1..], sep);
      SplitPrefix(parts[0], sep, [sep] + tail);
      assert Join(parts, [sep]) == parts[0] + ([sep] + tail);
      assert ([sep] + tail)[0] == sep;
      assert ([sep] + tail)[1..] == tail;
      assert Split([sep] + tail, sep) == [""] + parts[1..];
      assert parts[0] + "" == parts[0];
      assert parts == [parts[0]] + parts[1..];
    }
  }

  /** `s.startswith(pat)`, compared character by character. */
  predicate StartsWith(s: string, pat: string)
    ensures StartsWith(s, pat) ==> |pat| <= |s|
  {
    pat == [] || (s != [] && s[0] == pat[0] && StartsWith(s[1..], pat[1..]))
  }

  /** `s.replace(pat, rep)`: occurrences of `pat` are found from the left and never overlap. */
  function Replace(s: string, pat: string, rep: string): string
    requires |pat| > 0
    decreases |s|
  {
    if StartsWith(s, pat) then rep + Replace(s[|pat|..], pat, rep)
    else if s == [] then []
    else [s[0]] + Replace(s[1..], pat, rep)
  }

  /** One step of replacing a one-character pattern, stated on characters. */
  lemma ReplaceCharStep(s: string, pat: string, rep: string)
    requires |pat| == 1 && s != []
    ensures s[0] == pat[0] ==> Replace(s, pat, rep) == rep + Replace(s[1..], pat, rep)
    ensures s[0] != pat[0] ==> Replace(s, pat, rep) == [s[0]] + Replace(s[1..], pat, rep)
  {
    assert StartsWith(s, pat) <==> s[0] == pat[0] by {
      assert pat[1..] == [];
    }
  }

  /** Replacing a one-character pattern is the same piecewise. */
  lemma {:induction false} ReplaceCharConcat(x: string, y: string, pat: string, rep: string)
    requires |pat| == 1
    ensures Replace(x + y, pat, rep) == Replace(x, pat, rep) + Replace(y, pat, rep)
  {
    if x == [] {
      assert x + y == y;
    } else {
      var s, t := x + y, x[1..];
      ReplaceCharStep(s, pat, rep);
      ReplaceCharStep(x, pat, rep);
      assert s[0] == x[0] && s[1..] == t + y;
      ReplaceCharConcat(t, y, pat, rep);
      ConcatAssoc(if x[0] == pat[0] then rep else [x[0]], Replace(t, pat, rep), Replace(y, pat, rep));
    }
  }

  /** One step of replacing a two-character pattern, stated on characters. */
  lemma ReplacePairStep(s: string, pat: string, rep: string)
    requires |pat| == 2 && s != []
    ensures |s| >= 2 && s[0] == pat[0] && s[1] == pat[1] ==> Replace(s, pat, rep) == rep + Replace(s[2..], pat, rep)
    ensures !(|s| >= 2 && s[0] == pat[0] && s[1] == pat[1]) ==> Replace(s, pat, rep) == [s[0]] + Replace(s[1..], pat, rep)
  {
    assert StartsWith(s, pat) <==> |s| >= 2 && s[0] == pat[0] && s[1] == pat[1] by {
      var p, t := pat[1..], s[1..];
      assert |p| == 1 && p[0] == pat[1] && p[1..] == [];
      assert StartsWith(t, p) <==> t != [] && t[0] == p[0];
      assert t != [] ==> t[0] == s[1];
    }
  }

  /** The base case of `ReplacePairConcat`: a single character that cannot start an
      occurrence with what follows it. */
  lemma ReplacePairConcatOne(x: string, y: string, pat: string, rep: string)
    requires |pat| == 2 && |x| == 1
    requires !(|y| > 0 && x[0] == pat[0] && y[0] == pat[1])
    ensures Replace(x + y, pat, rep) == x + Replace(y, pat, rep)
    ensures Replace(x, pat, rep) == x
  {
    var s := x + y;
    ReplacePairStep(s, pat, rep);
    ReplacePairStep(x, pat, rep);
    assert s[1..] == y;
    assert Replace(x[1..], pat, rep) == [];
  }

  /** Replacing a two-character pattern is the same piecewise unless an occurrence
      straddles the cut. */
  lemma {:induction false} ReplacePairConcat(x: string, y: string, pat: string, rep: string)
    requires |pat| == 2
    requires !(|x| > 0 && |y| > 0 && x[|x| - 1] == pat[0] && y[0] == pat[1])
    ensures Replace(x + y, pat, rep) == Replace(x, pat, rep) + Replace(y, pat, rep)
    decreases |x|, 1
  {
    if x == [] {
      assert x + y == y;
    } else if |x| == 1 {
      ReplacePairConcatOne(x, y, pat, rep);
    } else if x[0] == pat[0] && x[1] == pat[1] {
      ReplacePairConcatMatch(x, y, pat, rep);
    } else {
      ReplacePairConcatSkip(x, y, pat, rep);
    }
  }

  /** One step of replacing a two-character pattern in a concatenation whose left part
      holds at least two characters. */
  lemma ReplacePairStepConcat(x: string, y: string, pat: string, rep: string)
    requires |pat| == 2 && |x| >= 2
    ensures x[0] == pat[0] && x[1] == pat[1] ==> Replace(x + y, pat, rep) == rep + Replace(x[2..] + y, pat, rep)
    ensures !(x[0] == pat[0] && x[1] == pat[1]) ==> Replace(x + y, pat, rep) == [x[0]] + Replace(x[1..] + y, pat, rep)
  {
    var s := x + y;
    ReplacePairStep(s, pat, rep);
    assert s[0] == x[0] && s[1] == x[1];
    assert s[2..] == x[2..] + y;
    assert s[1..] == x[1..] + y;
  }

  /** The step of `ReplacePairConcat` where the text starts with the pattern. */
  lemma {:induction false} ReplacePairConcatMatch(x: string, y: string, pat: string, rep: string)
    requires |pat| == 2 && |x| >= 2 && x[0] == pat[0] && x[1] == pat[1]
    requires !(|y| > 0 && x[|x| - 1] == pat[0] && y[0] == pat[1])
    ensures Replace(x + y, pat, rep) == Replace(x, pat, rep) + Replace(y, pat, rep)
    decreases |x|, 0
  {
    var t := x[2..];
    ReplacePairStepConcat(x, y, pat, rep);
    ReplacePairStep(x, pat, rep);
    assert t != [] ==> t[|t| - 1] == x[|x| - 1];
    ReplacePairConcat(t, y, pat, rep);
    ConcatAssoc(rep, Replace(t, pat, rep), Replace(y, pat, rep));
  }

  /** The step of `ReplacePairConcat` where the text does not start with the pattern. */
  lemma {:induction false} ReplacePairConcatSkip(x: string, y: string, pat: string, rep: string)
    requires |pat| == 2 && |x| >= 2 && !(x[0] == pat[0] && x[1] == pat[1])
    requires !(|y| > 0 && x[|x| - 1] == pat[0] && y[0] == pat[1])
    ensures Replace(x + y, pat, rep) == Replace(x, pat, rep) + Replace(y, pat, rep)
    decreases |x|, 0
  {
    var t := x[1..];
    ReplacePairStepConcat(x, y, pat, rep);
    ReplacePairStep(x, pat, rep);
    assert t[|t| - 1] == x[|x| - 1];
    ReplacePairConcat(t, y, pat, rep);
    ConcatAssoc([x[0]], Replace(t, pat, rep), Replace(y, pat, rep));
  }

  /** Deleting every occurrence of a one-character pattern leaves none behind and keeps
      every other character. */
  lemma {:induction false} RemoveCharLeavesNone(s: string, c: char)
    ensures c !in Replace(s, [c], "")
    ensures |Replace(s, [c], "")| == |s| - multiset(s)[c]
  {
    if s != [] {
      RemoveCharLeavesNone(s[1..], c);
      ReplaceCharStep(s, [c], "");
      assert s == [s[0]] + s[1..];
    }
  }

  /** A text starts with a pattern exactly when the pattern's characters open it. */
  lemma {:induction false} StartsWithChars(s: string, pat: string)
    ensures StartsWith(s, pat) <==> |pat| <= |s| && forall i :: 0 <= i < |pat| ==> s[i] == pat[i]
  {
    if pat != [] && s != [] {
      StartsWithChars(s[1..], pat[1..]);
      if |pat| <= |s| && forall i :: 0 <= i < |pat| ==> s[i] == pat[i] {
        assert forall i :: 0 <= i < |pat[1..]| ==> s[1..][i] == s[i + 1] && pat[1..][i] == pat[i + 1];
      }
      if StartsWith(s, pat) {
        forall i | 0 <= i < |pat|
          ensures s[i] == pat[i]
        {
          if i > 0 {
            assert s[1..][i - 1] == pat[1..][i - 1];
          }
        }
      }
    }
  }

  /** A replacement whose pattern ends in a character the text lacks changes nothing. */
  lemma {:induction false} ReplaceAbsent(s: string, pat: string, rep: string)
    requires |pat| > 0 && pat[|pat| - 1] !in s
    ensures Replace(s, pat, rep) == s
  {
    if s != [] {
      assert !StartsWith(s, pat) by {
        StartsWithChars(s, pat);
        if |pat| <= |s| {
          assert s[|pat| - 1] in s;
        }
      }
      ReplaceAbsent(s[1..], pat, rep);
      assert s == [s[0]] + s[1..];
    }
  }

  predicate IsAscii(s: string) {
    forall i :: 0 <= i < |s| ==> s[i] as int < 0x80
  }

  predicate IsDigit(c: char) {
    '0' <= c <= '9'
  }

  predicate AllDigits(s: string) {
    forall i :: 0 <= i < |s| ==> IsDigit(s[i])
  }

  function DigitChar(d: nat): (c: char)
    requires d < 10
    ensures IsDigit(c)
  {
    ('0' as int + d) as char
  }

  function DigitValue(c: char): nat
    requires IsDigit(c)
  {
    c as int - '0' as int
  }

  /** `str(n)` for a non-negative integer: its decimal digits, no leading zero. */
  function NatToDecimal(n: nat): (r: string)
    ensures |r| > 0 && AllDigits(r)
    ensures |r| > 1 ==> r[0] != '0'
    decreases n
  {
    if n < 10 then [DigitChar(n)] else NatToDecimal(n / 10) + [DigitChar(n % 10)]
  }

  /** `int(s)` for a string of decimal digits. */
  function DecimalValue(s: string): nat
    requires AllDigits(s)
  {
    if s == [] then 0 else DecimalValue(s[..|s| - 1]) * 10 + DigitValue(s[|s| - 1])
  }

  /** Decimal rendering is read back exactly by `int()`. */
  lemma {:induction false} DecimalRoundTrip(n: nat)
    ensures DecimalValue(NatToDecimal(n)) == n
  {
    if n >= 10 {
      DecimalRoundTrip(n / 10);
      var r := NatToDecimal(n);
      assert r[..|r| - 1] == NatToDecimal(n / 10);
    }
  }

  /** `str(i)` for any integer: a minus sign before the digits of a negative number. */
  function IntToDecimal(i: int): string
  {
    if i < 0 then "-" + NatToDecimal(-i) else NatToDecimal(i)
  }

  /** `int(s)` for an optionally signed decimal numeral. */
  function ParseInt(s: string): Option<int>
  {
    if |s| > 1 && s[0] == '-' && AllDigits(s[1..]) then Some(-(DecimalValue(s[1..]) as int))
    else if |s| > 0 && AllDigits(s) then Some(DecimalValue(s))
    else None
  }

  /** The decimal text of an integer reads back as that integer, sign included. */
  lemma IntToDecimalRoundTrip(i: int)
    ensures ParseInt(IntToDecimal(i)) == Some(i)
  {
    if i < 0 {
      DecimalRoundTrip(-i);
      assert IntToDecimal(i)[1..] == NatToDecimal(-i);
    } else {
      DecimalRoundTrip(i);
      assert IntToDecimal(i)[0] != '-';
    }
  }

  function HexChar(d: nat): char
    requires d < 16
  {
    if d < 10 then ('0' as int + d) as char else ('a' as int + d - 10) as char
  }

  /** `'%0Nx' % n` for a value below 16^N: exactly `width` lower-case hex digits. */
  function HexDigits(n: nat, width: nat): (r: string)
    ensures |r| == width && IsAscii(r)
  {
    if width == 0 then "" else HexDigits(n / 16, width - 1) + [HexChar(n % 16)]
  }
}
