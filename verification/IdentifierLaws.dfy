/**
 Laws of the identifier normaliser that relate several calls: which input
 changes leave the result alone, when the result is empty, and idempotence.
 */
module IdentifierLaws {
  import opened CharClass
  import opened Identifier

  /** The loop is a left fold: inputs that reach the same `result` stay in step whatever follows. */
  lemma {:induction false} ScanCongruence(a: string, a': string, b: string)
    requires Scan(a) == Scan(a')
    ensures Scan(a + b) == Scan(a' + b)
    decreases |b|
  {
    if |b| == 0 {
      assert a + b == a && a' + b == a';
    } else {
      var p := b[..|b| - 1];
      var c := b[|b| - 1];
      assert b == p + [c];
      ScanCongruence(a, a', p);
      ScanAppendLast(a, p, c);
      ScanAppendLast(a', p, c);
    }
  }

  lemma ScanAppendLast(a: string, p: string, c: char)
    ensures Scan(a + (p + [c])) == Step(Scan(a + p), c)
  {
    assert a + (p + [c]) == (a + p) + [c];
    ScanSnoc(a + p, c);
  }

  /** Equal `result`s after the loop give equal final results. */
  lemma SameScanSameIdentifier(a: string, a': string, b: string)
    requires Scan(a) == Scan(a')
    ensures StrToIdentifier(a + b) == StrToIdentifier(a' + b)
  {
    ScanCongruence(a, a', b);
  }

  lemma ScanSnoc(a: string, c: char)
    ensures Scan(a + [c]) == Step(Scan(a), c)
  {
    assert (a + [c])[..|a|] == a;
  }

  /**
   A character that is neither an ASCII letter nor a separator (a digit,
   punctuation, anything outside ASCII) contributes nothing: deleting it
   anywhere leaves the result unchanged.
   */
  lemma OtherCharacterIgnored(a: string, c: char, b: string)
    requires !IsAsciiLetter(c) && !IsSeparator(c)
    ensures StrToIdentifier(a + [c] + b) == StrToIdentifier(a + b)
  {
    ScanSnoc(a, c);
    SameScanSameIdentifier(a + [c], a, b);
  }

  /** A second separator directly after a first one adds nothing: a run of separators counts once. */
  lemma SeparatorRunCollapses(a: string, c: char, d: char, b: string)
    requires IsSeparator(c) && IsSeparator(d)
    ensures StrToIdentifier(a + [c, d] + b) == StrToIdentifier(a + [c] + b)
  {
    ScanSnoc(a, c);
    ScanSnoc(a + [c], d);
    assert a + [c, d] == (a + [c]) + [d];
    SameScanSameIdentifier(a + [c, d], a + [c], b);
  }

  /** The three separators '_', ' ' and '-' are interchangeable. */
  lemma SeparatorsInterchangeable(a: string, c: char, d: char, b: string)
    requires IsSeparator(c) && IsSeparator(d)
    ensures StrToIdentifier(a + [c] + b) == StrToIdentifier(a + [d] + b)
  {
    ScanSnoc(a, c);
    ScanSnoc(a, d);
    SameScanSameIdentifier(a + [c], a + [d], b);
  }

  /** Letter case never matters: replacing a letter by its lower-case form leaves the result unchanged. */
  lemma CaseInsensitive(a: string, c: char, b: string)
    requires IsAsciiLetter(c)
    ensures StrToIdentifier(a + [c] + b) == StrToIdentifier(a + [ToLower(c)] + b)
  {
    ScanSnoc(a, c);
    ScanSnoc(a, ToLower(c));
    SameScanSameIdentifier(a + [c], a + [ToLower(c)], b);
  }

  /**
   The result is empty exactly when the input has no ASCII letters: the empty
   string, a string of separators only, or of digits and punctuation. It
   follows from the contract of `StrToIdentifier`: a non-empty identifier
   starts with a letter, and the result keeps exactly the input's letters.
   */
  lemma EmptyIffNoLetters(s: string)
    ensures StrToIdentifier(s) == "" <==> LowerLetters(s) == ""
  {
  }

  /** On a collapsed string that does not start with '_', the loop copies its input. */
  lemma {:induction false} ScanCopiesCollapsed(t: string)
    requires IsCollapsed(t)
    requires |t| > 0 ==> t[0] != '_'
    ensures Scan(t) == t
    decreases |t|
  {
    if |t| > 0 {
      var p := t[..|t| - 1];
      var c := t[|t| - 1];
      assert IsCollapsed(p);
      ScanCopiesCollapsed(p);
      ScanSnoc(p, c);
      assert p + [c] == t;
      if c == '_' {
        assert |t| >= 2;
        assert t[|t| - 2] != '_';
        assert p[|p| - 1] == t[|t| - 2];
      }
    }
  }

  /** Every identifier is left unchanged. */
  lemma IdentifierFixedPoint(t: string)
    requires IsIdentifier(t)
    ensures StrToIdentifier(t) == t
  {
    ScanCopiesCollapsed(t);
  }

  /** Normalising twice is the same as normalising once. */
  lemma Idempotent(s: string)
    ensures StrToIdentifier(StrToIdentifier(s)) == StrToIdentifier(s)
  {
    IdentifierFixedPoint(StrToIdentifier(s));
  }

  /** The fixed points are exactly the identifiers. */
  lemma FixedPointIffIdentifier(t: string)
    ensures StrToIdentifier(t) == t <==> IsIdentifier(t)
  {
    if IsIdentifier(t) {
      IdentifierFixedPoint(t);
    }
  }
}
