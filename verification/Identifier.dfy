/**
 The identifier normaliser of app/util/strToIdentifier.js: an arbitrary label
 becomes a snake-case identifier. ASCII letters are kept and lower-cased, every
 run of separators becomes one '_', everything else is dropped, and a single
 '_' is then trimmed from each end.
 */
module Identifier {
  import opened CharClass

  /** Every character is a lower-case ASCII letter or '_', and no two '_' are adjacent. */
  ghost predicate IsCollapsed(t: string) {
    && (forall i :: 0 <= i < |t| ==> IsLower(t[i]) || t[i] == '_')
    // Neighbours are named by two indices so that each conjunct has its own
    // sequence-index trigger; a single index with `t[i - 1]` loops the matcher.
    && (forall i, j :: 0 <= i < j < |t| && j == i + 1 ==> t[i] != '_' || t[j] != '_')
  }

  /** The shape of every result: collapsed, and no '_' at either end. */
  ghost predicate IsIdentifier(t: string) {
    && IsCollapsed(t)
    && (|t| > 0 ==> t[0] != '_' && t[|t| - 1] != '_')
  }

  /** The ASCII letters of `s`, in order, each lower-cased. */
  function LowerLetters(s: string): (r: string)
    ensures |r| <= |s|
    decreases |s|
  {
    if |s| == 0 then ""
    else
      var c := s[|s| - 1];
      LowerLetters(s[..|s| - 1]) + (if IsAsciiLetter(c) then [ToLower(c)] else "")
  }

  lemma LowerLettersSnoc(t: string, c: char)
    ensures LowerLetters(t + [c]) == LowerLetters(t) + (if IsAsciiLetter(c) then [ToLower(c)] else "")
  {
    assert (t + [c])[..|t|] == t;
  }

  lemma {:induction false} LowerLettersAppend(a: string, b: string)
    ensures LowerLetters(a + b) == LowerLetters(a) + LowerLetters(b)
    decreases |b|
  {
    if |b| == 0 {
      assert a + b == a;
    } else {
      var b' := b[..|b| - 1];
      assert a + b == (a + b') + [b[|b| - 1]];
      LowerLettersAppend(a, b');
      LowerLettersSnoc(a + b', b[|b| - 1]);
      LowerLettersSnoc(b', b[|b| - 1]);
      assert b == b' + [b[|b| - 1]];
    }
  }

  /**
   One iteration of the loop (lines 4-8): a letter is appended lower-cased; a
   separator appends '_' unless `result` already ends with '_' (an empty
   `result` has no last character, so it never does); anything else is dropped.
   */
  function Step(acc: string, c: char): (r: string)
    ensures acc <= r && |r| <= |acc| + 1
    ensures |r| == |acc| + 1 <==> IsAsciiLetter(c) || (IsSeparator(c) && (|acc| == 0 || acc[|acc| - 1] != '_'))
    ensures IsAsciiLetter(c) ==> r == acc + [ToLower(c)]
    ensures !IsAsciiLetter(c) && r != acc ==> r == acc + "_"
  {
    if IsAsciiLetter(c) then acc + [ToLower(c)]
    else if IsSeparator(c) && (|acc| == 0 || acc[|acc| - 1] != '_') then acc + "_"
    else acc
  }

  lemma StepLetters(acc: string, c: char)
    ensures LowerLetters(Step(acc, c)) == LowerLetters(acc) + LowerLetters([c])
  {
    assert [c] == "" + [c];
    LowerLettersSnoc("", c);
    if IsAsciiLetter(c) {
      LowerLettersSnoc(acc, ToLower(c));
    } else if IsSeparator(c) && (|acc| == 0 || acc[|acc| - 1] != '_') {
      LowerLettersSnoc(acc, '_');
    }
  }

  /**
   The value of `result` once the loop of lines 3-9 has run over all of `s`.
   Each input character appends at most one character.
   */
  function Scan(s: string): (r: string)
    ensures |r| <= |s|
    decreases |s|
  {
    if |s| == 0 then "" else Step(Scan(s[..|s| - 1]), s[|s| - 1])
  }

  /** The loop never leaves two adjacent '_' and appends only lower-case letters and '_'. */
  lemma {:induction false} ScanCollapsed(s: string)
    ensures IsCollapsed(Scan(s))
    decreases |s|
  {
    if |s| > 0 {
      var acc := Scan(s[..|s| - 1]);
      ScanCollapsed(s[..|s| - 1]);
      StepCollapsed(acc, s[|s| - 1]);
    }
  }

  lemma StepCollapsed(acc: string, c: char)
    requires IsCollapsed(acc)
    ensures IsCollapsed(Step(acc, c))
  {
    var r := Step(acc, c);
    if r != acc {
      var x := r[|acc|];
      assert r == acc + [x];
      forall i, j | 0 <= i < j < |r| && j == i + 1
        ensures r[i] != '_' || r[j] != '_'
      {
        if j < |acc| {
          assert r[i] == acc[i] && r[j] == acc[j];
        }
      }
    }
  }

  /** The loop keeps every ASCII letter of its input, lower-cased and in order, and adds none. */
  lemma {:induction false} ScanKeepsLetters(s: string)
    ensures LowerLetters(Scan(s)) == LowerLetters(s)
    decreases |s|
  {
    if |s| > 0 {
      var p := s[..|s| - 1];
      var c := s[|s| - 1];
      ScanKeepsLetters(p);
      StepLetters(Scan(p), c);
      LowerLettersSnoc(p, c);
      LowerLettersSnoc("", c);
      assert [c] == "" + [c];
    }
  }

  /** Lines 10-12: one trailing '_' is removed. */
  function DropTrailingSeparator(t: string): (r: string)
    ensures r <= t && |t| - 1 <= |r|
    ensures |r| < |t| <==> |t| > 0 && t[|t| - 1] == '_'
  {
    if |t| > 0 && t[|t| - 1] == '_' then t[..|t| - 1] else t
  }

  /** Lines 13-14: one leading '_' is removed. */
  function DropLeadingSeparator(t: string): (r: string)
    ensures |t| - 1 <= |r| <= |t|
    ensures r == t[|t| - |r|..]
    ensures |r| < |t| <==> |t| > 0 && t[0] == '_'
  {
    if |t| > 0 && t[0] == '_' then t[1..] else t
  }

  /** Removing a trailing '_' keeps the string collapsed and its letters, and leaves no '_' at its end. */
  lemma DropTrailingKeepsShape(t: string)
    requires IsCollapsed(t)
    ensures IsCollapsed(DropTrailingSeparator(t))
    ensures LowerLetters(DropTrailingSeparator(t)) == LowerLetters(t)
    ensures |DropTrailingSeparator(t)| > 0 ==> DropTrailingSeparator(t)[|DropTrailingSeparator(t)| - 1] != '_'
  {
    var u := DropTrailingSeparator(t);
    if u != t {
      assert t == u + "_";
      LowerLettersSnoc(u, '_');
      if |u| > 0 {
        assert t[|u| - 1] == u[|u| - 1];
      }
    }
  }

  lemma LettersAfterLeadingSeparator(u: string)
    requires |u| > 0 && u[0] == '_'
    ensures LowerLetters(u[1..]) == LowerLetters(u)
  {
    assert u == "_" + u[1..];
    LowerLettersAppend("_", u[1..]);
    assert LowerLetters("_") == "" by {
      assert "_"[..0] == "";
    }
  }

  /** Removing a leading '_' from a collapsed string that does not end in '_' yields an identifier with the same letters. */
  lemma DropLeadingKeepsShape(u: string)
    requires IsCollapsed(u)
    requires |u| > 0 ==> u[|u| - 1] != '_'
    ensures IsIdentifier(DropLeadingSeparator(u))
    ensures LowerLetters(DropLeadingSeparator(u)) == LowerLetters(u)
  {
    if |u| > 0 && u[0] == '_' {
      assert DropLeadingSeparator(u) == u[1..];
      LettersAfterLeadingSeparator(u);
      SuffixIsIdentifier(u);
    } else {
      assert DropLeadingSeparator(u) == u;
    }
  }

  lemma SuffixIsIdentifier(u: string)
    requires IsCollapsed(u) && |u| > 0 && u[0] == '_' && u[|u| - 1] != '_'
    ensures IsIdentifier(u[1..])
  {
    CollapsedSuffix(u, 1);
    var v := u[1..];
    if |v| > 0 {
      assert u[0] == '_' && v[0] == u[1];
      assert v[|v| - 1] == u[|u| - 1];
    }
  }

  lemma CollapsedSuffix(t: string, k: nat)
    requires IsCollapsed(t) && k <= |t|
    ensures IsCollapsed(t[k..])
  {
    var v := t[k..];
    forall i, j | 0 <= i < j < |v| && j == i + 1
      ensures v[i] != '_' || v[j] != '_'
    {
      assert v[i] == t[k + i] && v[j] == t[k + j];
    }
  }

  /** Trimming one '_' from each end of a collapsed string leaves an identifier with the same letters. */
  lemma TrimmedIsIdentifier(t: string)
    requires IsCollapsed(t)
    ensures IsIdentifier(DropLeadingSeparator(DropTrailingSeparator(t)))
    ensures LowerLetters(DropLeadingSeparator(DropTrailingSeparator(t))) == LowerLetters(t)
  {
    DropTrailingKeepsShape(t);
    DropLeadingKeepsShape(DropTrailingSeparator(t));
  }

  /**
   The exported function (lines 1-18): the loop, then the trailing trim, then
   the leading trim. The result is an identifier holding exactly the input's
   letters, lower-cased and in order, and is no longer than the input.
   */
  function StrToIdentifier(s: string): (r: string)
    ensures IsIdentifier(r)
    ensures LowerLetters(r) == LowerLetters(s)
    ensures |r| <= |s|
  {
    ScanCollapsed(s);
    ScanKeepsLetters(s);
    TrimmedIsIdentifier(Scan(s));
    DropLeadingSeparator(DropTrailingSeparator(Scan(s)))
  }

  /** The same computation written as the source's loop over a mutable `result`. */
  method StrToIdentifierLoop(str: string) returns (result: string)
    ensures result == StrToIdentifier(str)
  {
    result := "";
    var i := 0;
    while i < |str|
      invariant 0 <= i <= |str|
      invariant result == Scan(str[..i])
    {
      var c := str[i];
      if IsAsciiLetter(c) {
        result := result + [ToLower(c)];
      } else if IsSeparator(c) && (|result| == 0 || result[|result| - 1] != '_') {
        result := result + "_";
      }
      assert str[..i + 1][..i] == str[..i];
      i := i + 1;
    }
    assert str[..i] == str;
    if |result| > 0 && result[|result| - 1] == '_' {
      result := result[..|result| - 1];
    }
    if |result| > 0 && result[0] == '_' {
      result := result[1..];
    }
  }
}
