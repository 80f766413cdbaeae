/**
 An independent, declarative description of the identifier normaliser: cut
 the input at every separator, keep only the lower-cased ASCII letters of each
 piece, throw away the pieces left empty, and join what remains with '_'.
 The main theorem is that the loop-and-trim computation of
 app/util/strToIdentifier.js produces exactly this.
 */
module WordSpec {
  import opened CharClass
  import opened Identifier
  import opened IdentifierLaws

  ghost predicate AllLower(w: string) {
    forall j :: 0 <= j < |w| ==> IsLower(w[j])
  }

  /** A word of the output: a non-empty run of lower-case ASCII letters. */
  ghost predicate IsWord(w: string) {
    |w| > 0 && AllLower(w)
  }

  ghost predicate AllPiecesLower(ws: seq<string>) {
    forall i :: 0 <= i < |ws| ==> AllLower(ws[i])
  }

  ghost predicate AllWords(ws: seq<string>) {
    forall i :: 0 <= i < |ws| ==> IsWord(ws[i])
  }

  /**
   The pieces of `s` between separator characters, each reduced to its
   lower-cased ASCII letters, in order. There is always at least one piece.
   */
  function Segments(s: string): (r: seq<string>)
    ensures |r| >= 1
    decreases |s|
  {
    if |s| == 0 then [""]
    else
      var sp := Segments(s[..|s| - 1]);
      var c := s[|s| - 1];
      if IsSeparator(c) then sp + [""]
      else if IsAsciiLetter(c) then sp[..|sp| - 1] + [sp[|sp| - 1] + [ToLower(c)]]
      else sp
  }

  /** The non-empty strings of `ws`, in order. */
  function NonEmpty(ws: seq<string>): (r: seq<string>)
    ensures |r| <= |ws|
    decreases |ws|
  {
    if |ws| == 0 then []
    else NonEmpty(ws[..|ws| - 1]) + (if ws[|ws| - 1] == "" then [] else [ws[|ws| - 1]])
  }

  /** The words of `s`: its separator-delimited pieces that hold at least one letter. */
  function Words(s: string): seq<string> {
    NonEmpty(Segments(s))
  }

  /** `ws` joined with '_' between neighbours. */
  function Join(ws: seq<string>): string
    decreases |ws|
  {
    if |ws| == 0 then ""
    else if |ws| == 1 then ws[0]
    else Join(ws[..|ws| - 1]) + "_" + ws[|ws| - 1]
  }

  /** Every piece of `s` consists of lower-case letters. */
  lemma {:induction false} SegmentsAreLower(s: string)
    ensures AllPiecesLower(Segments(s))
    decreases |s|
  {
    if |s| > 0 {
      var sp := Segments(s[..|s| - 1]);
      var c := s[|s| - 1];
      SegmentsAreLower(s[..|s| - 1]);
      if IsAsciiLetter(c) && !IsSeparator(c) {
        var r := sp[..|sp| - 1] + [sp[|sp| - 1] + [ToLower(c)]];
        forall i | 0 <= i < |r|
          ensures AllLower(r[i])
        {
          if i < |sp| - 1 {
            assert r[i] == sp[i];
          } else {
            assert r[i] == sp[|sp| - 1] + [ToLower(c)];
          }
        }
      }
    }
  }

  lemma NonEmptySnoc(ws: seq<string>, x: string)
    ensures NonEmpty(ws + [x]) == NonEmpty(ws) + (if x == "" then [] else [x])
  {
    assert (ws + [x])[..|ws|] == ws;
  }

  /** Filtering lower-case pieces leaves words only. */
  lemma {:induction false} NonEmptyAreWords(ws: seq<string>)
    requires AllPiecesLower(ws)
    ensures AllWords(NonEmpty(ws))
    decreases |ws|
  {
    if |ws| > 0 {
      NonEmptyAreWords(ws[..|ws| - 1]);
    }
  }

  /** The words of any input are non-empty runs of lower-case letters. */
  lemma WordsAreWords(s: string)
    ensures AllWords(Words(s))
  {
    SegmentsAreLower(s);
    NonEmptyAreWords(Segments(s));
  }

  lemma {:induction false} NonEmptyNil(ws: seq<string>)
    requires NonEmpty(ws) == []
    ensures forall i :: 0 <= i < |ws| ==> ws[i] == ""
    decreases |ws|
  {
    if |ws| > 0 {
      NonEmptyNil(ws[..|ws| - 1]);
    }
  }

  lemma {:induction false} NonEmptyKeepsWords(ws: seq<string>)
    requires forall i :: 0 <= i < |ws| ==> ws[i] != ""
    ensures NonEmpty(ws) == ws
    decreases |ws|
  {
    if |ws| > 0 {
      NonEmptyKeepsWords(ws[..|ws| - 1]);
      assert ws[..|ws| - 1] + [ws[|ws| - 1]] == ws;
    }
  }

  lemma JoinSnoc(ws: seq<string>, x: string)
    requires |ws| > 0
    ensures Join(ws + [x]) == Join(ws) + "_" + x
  {
    assert (ws + [x])[..|ws|] == ws;
  }

  /** Appending a letter to the last word appends it to the joined string. */
  lemma JoinExtendLast(ws: seq<string>, l: char)
    requires |ws| > 0
    ensures Join(ws[..|ws| - 1] + [ws[|ws| - 1] + [l]]) == Join(ws) + [l]
  {
    var k := |ws| - 1;
    var v := ws[..k] + [ws[k] + [l]];
    if k > 0 {
      assert v[..k] == ws[..k];
    }
  }

  /** The joined string ends with the last word's last letter. */
  lemma JoinEndsOnLast(ws: seq<string>)
    requires |ws| > 0 && ws[|ws| - 1] != ""
    ensures |Join(ws)| > 0
    ensures Join(ws)[|Join(ws)| - 1] == ws[|ws| - 1][|ws[|ws| - 1]| - 1]
  {
    if |ws| > 1 {
      assert Join(ws) == Join(ws[..|ws| - 1]) + "_" + ws[|ws| - 1];
    }
  }

  /** The joined string starts with the first word's first letter. */
  lemma {:induction false} JoinStartsOnFirst(ws: seq<string>)
    requires |ws| > 0 && ws[0] != ""
    ensures |Join(ws)| > 0
    ensures Join(ws)[0] == ws[0][0]
    decreases |ws|
  {
    if |ws| > 1 {
      var init := ws[..|ws| - 1];
      JoinStartsOnFirst(init);
      assert Join(ws) == Join(init) + "_" + ws[|ws| - 1];
    }
  }

  lemma CollapsedGlue(x: string, w: string)
    requires IsIdentifier(x) && |x| > 0
    requires IsWord(w)
    ensures IsIdentifier(x + "_" + w)
  {
    var y := x + "_" + w;
    forall i | 0 <= i < |y|
      ensures IsLower(y[i]) || y[i] == '_'
    {
      if i > |x| {
        assert y[i] == w[i - |x| - 1];
      }
    }
    forall i, j | 0 <= i < j < |y| && j == i + 1
      ensures y[i] != '_' || y[j] != '_'
    {
      if j < |x| {
        assert y[i] == x[i] && y[j] == x[j];
      } else if j == |x| {
        assert y[i] == x[|x| - 1];
      } else {
        assert y[j] == w[j - |x| - 1];
      }
    }
    assert y[0] == x[0];
    assert y[|y| - 1] == w[|w| - 1];
  }

  /** Words joined with '_' form an identifier, non-empty as soon as there is one word. */
  lemma {:induction false} JoinIsIdentifier(ws: seq<string>)
    requires AllWords(ws)
    ensures IsIdentifier(Join(ws))
    ensures |ws| > 0 ==> |Join(ws)| > 0
    decreases |ws|
  {
    if |ws| > 1 {
      JoinIsIdentifier(ws[..|ws| - 1]);
      CollapsedGlue(Join(ws[..|ws| - 1]), ws[|ws| - 1]);
    }
  }

  /** One '_' when the first piece has no letters, none otherwise. */
  function Lead(sp: seq<string>): string
    requires |sp| >= 1
  {
    if sp[0] == "" then "_" else ""
  }

  /** One '_' when the last piece has no letters, none otherwise. */
  function Trail(sp: seq<string>): string
    requires |sp| >= 1
  {
    if sp[|sp| - 1] == "" then "_" else ""
  }

  /**
   The `result` of the loop before trimming: the joined words, with one '_'
   in front when a separator comes before the first letter and one '_' behind
   when a separator comes after the last letter; a lone '_' when there are
   separators but no letters.
   */
  function Framed(sp: seq<string>): string
    requires |sp| >= 1
  {
    var w := NonEmpty(sp);
    if |w| == 0 then (if |sp| > 1 then "_" else "")
    else Lead(sp) + Join(w) + Trail(sp)
  }

  /** Framing after a new, empty last piece. */
  lemma FramedAppendEmpty(sp: seq<string>)
    requires |sp| >= 1
    ensures |NonEmpty(sp)| == 0 ==> Framed(sp + [""]) == "_"
    ensures |NonEmpty(sp)| > 0 ==> Framed(sp + [""]) == Lead(sp) + Join(NonEmpty(sp)) + "_"
  {
    NonEmptySnoc(sp, "");
    assert NonEmpty(sp + [""]) == NonEmpty(sp);
    assert Lead(sp + [""]) == Lead(sp);
    assert Trail(sp + [""]) == "_";
  }

  /** A separator opens a new, empty piece. */
  lemma FramedSeparator(sp: seq<string>, c: char)
    requires |sp| >= 1 && AllLower(sp[|sp| - 1])
    requires IsSeparator(c)
    ensures Step(Framed(sp), c) == Framed(sp + [""])
  {
    if |NonEmpty(sp)| == 0 {
      SeparatorWithoutWords(sp, c);
    } else if sp[|sp| - 1] != "" {
      SeparatorAfterLetter(sp, c);
    } else {
      SeparatorAfterSeparator(sp, c);
    }
  }

  /** Before any letter, the loop's `result` is at most one '_'. */
  lemma SeparatorWithoutWords(sp: seq<string>, c: char)
    requires |sp| >= 1 && |NonEmpty(sp)| == 0
    requires IsSeparator(c)
    ensures Step(Framed(sp), c) == Framed(sp + [""])
  {
    FramedAppendEmpty(sp);
    var acc := Framed(sp);
    assert acc == "" || acc == "_";
  }

  /** After a separator, a further separator adds nothing. */
  lemma SeparatorAfterSeparator(sp: seq<string>, c: char)
    requires |sp| >= 1 && |NonEmpty(sp)| > 0 && sp[|sp| - 1] == ""
    requires IsSeparator(c)
    ensures Step(Framed(sp), c) == Framed(sp + [""])
  {
    FramedAppendEmpty(sp);
    var acc := Framed(sp);
    assert acc == Lead(sp) + Join(NonEmpty(sp)) + "_";
    assert acc[|acc| - 1] == '_';
  }

  /** After a letter, a separator appends '_'. */
  lemma SeparatorAfterLetter(sp: seq<string>, c: char)
    requires |sp| >= 1 && AllLower(sp[|sp| - 1]) && sp[|sp| - 1] != ""
    requires IsSeparator(c)
    ensures Step(Framed(sp), c) == Framed(sp + [""])
  {
    FramedAppendEmpty(sp);
    var last := sp[|sp| - 1];
    FramedEndsOnLetter(sp);
    assert IsLower(last[|last| - 1]);
    StepSeparatorAfterLetter(Framed(sp), c);
  }

  // Only unfolds one branch of `Step`; a separate lemma keeps the caller's proof small and seed-stable.
  lemma StepSeparatorAfterLetter(acc: string, c: char)
    requires |acc| > 0 && IsLower(acc[|acc| - 1])
    requires IsSeparator(c)
    ensures Step(acc, c) == acc + "_"
  {
  }

  /** When the last piece holds letters, the framed string ends with its last letter. */
  lemma FramedEndsOnLetter(sp: seq<string>)
    requires |sp| >= 1 && sp[|sp| - 1] != ""
    ensures |NonEmpty(sp)| > 0
    ensures Framed(sp) == Lead(sp) + Join(NonEmpty(sp))
    ensures |Framed(sp)| > 0
    ensures Framed(sp)[|Framed(sp)| - 1] == sp[|sp| - 1][|sp[|sp| - 1]| - 1]
  {
    NonEmptyEndsOnLast(sp);
    var w := NonEmpty(sp);
    JoinEndsOnLast(w);
    FramedWithWords(sp);
    assert Trail(sp) == "";
    LastOfConcat(Lead(sp), Join(w));
  }

  /** A last piece that holds letters is the last word. */
  lemma NonEmptyEndsOnLast(sp: seq<string>)
    requires |sp| >= 1 && sp[|sp| - 1] != ""
    ensures |NonEmpty(sp)| > 0 && NonEmpty(sp)[|NonEmpty(sp)| - 1] == sp[|sp| - 1]
  {
    assert sp == sp[..|sp| - 1] + [sp[|sp| - 1]];
    NonEmptySnoc(sp[..|sp| - 1], sp[|sp| - 1]);
  }

  // Only unfolds `Framed` when there are words; kept separate so callers do not unfold it themselves.
  lemma FramedWithWords(sp: seq<string>)
    requires |sp| >= 1 && |NonEmpty(sp)| > 0
    ensures Framed(sp) == Lead(sp) + Join(NonEmpty(sp)) + Trail(sp)
  {
  }

  // Sequence facts the solver otherwise finds only on some seeds: dropping an appended "",
  // and the last character of a concatenation.
  lemma LastOfConcat(a: string, b: string)
    requires |b| > 0
    ensures (a + b) + "" == a + b
    ensures (a + b)[|a + b| - 1] == b[|b| - 1]
  {
  }

  /** A letter opens a new word when the last piece is still empty. */
  lemma FramedLetterStartsWord(sp: seq<string>, l: char)
    requires |sp| >= 1 && sp[|sp| - 1] == ""
    ensures Framed(sp) + [l] == Framed(sp[..|sp| - 1] + [[l]])
  {
    var w := NonEmpty(sp);
    var n := |sp|;
    var init := sp[..n - 1];
    var sp' := init + [[l]];
    assert sp == init + [""];
    NonEmptySnoc(init, "");
    NonEmptySnoc(init, [l]);
    assert NonEmpty(sp') == w + [[l]];
    assert Trail(sp') == "";
    if n > 1 {
      assert Lead(sp') == Lead(sp);
    }
    if |w| == 0 {
      NonEmptyNil(sp);
      assert Join([[l]]) == [l];
    } else {
      assert n > 1;
      JoinSnoc(w, [l]);
      assert Framed(sp) == Lead(sp) + Join(w) + "_";
    }
  }

  /** A letter extends the current word when the last piece already holds letters. */
  lemma FramedLetterExtendsWord(sp: seq<string>, l: char)
    requires |sp| >= 1 && sp[|sp| - 1] != ""
    ensures Framed(sp) + [l] == Framed(sp[..|sp| - 1] + [sp[|sp| - 1] + [l]])
  {
    var n := |sp|;
    var last := sp[n - 1];
    var init := sp[..n - 1];
    var sp' := init + [last + [l]];
    var w := NonEmpty(sp);
    var w' := NonEmpty(sp');
    assert sp == init + [last];
    NonEmptySnoc(init, last);
    NonEmptySnoc(init, last + [l]);
    assert w == NonEmpty(init) + [last];
    assert w' == NonEmpty(init) + [last + [l]];
    assert w' == w[..|w| - 1] + [w[|w| - 1] + [l]];
    JoinExtendLast(w, l);
    assert Lead(sp') == Lead(sp);
    assert Trail(sp') == "" && Trail(sp) == "";
  }

  /** Before trimming, the loop's `result` is the framed words of the input. */
  lemma {:induction false} ScanIsFramed(s: string)
    ensures Scan(s) == Framed(Segments(s))
    decreases |s|
  {
    if |s| > 0 {
      var p := s[..|s| - 1];
      var c := s[|s| - 1];
      assert s == p + [c];
      ScanIsFramed(p);
      FramedStep(p, c);
    }
  }

  /** One iteration of the loop keeps `result` equal to the framed words read so far. */
  lemma FramedStep(p: string, c: char)
    requires Scan(p) == Framed(Segments(p))
    ensures Scan(p + [c]) == Framed(Segments(p + [c]))
  {
    ScanSnoc(p, c);
    if IsSeparator(c) {
      FramedStepSeparator(p, c);
    } else if IsAsciiLetter(c) {
      FramedStepLetter(p, c);
    } else {
      assert (p + [c])[..|p|] == p;
      assert Segments(p + [c]) == Segments(p);
    }
  }

  lemma FramedStepSeparator(p: string, c: char)
    requires IsSeparator(c)
    ensures Segments(p + [c]) == Segments(p) + [""]
    ensures Step(Framed(Segments(p)), c) == Framed(Segments(p + [c]))
  {
    assert (p + [c])[..|p|] == p;
    SegmentsAreLower(p);
    FramedSeparator(Segments(p), c);
  }

  lemma FramedStepLetter(p: string, c: char)
    requires IsAsciiLetter(c)
    ensures Framed(Segments(p)) + [ToLower(c)] == Framed(Segments(p + [c]))
  {
    assert (p + [c])[..|p|] == p;
    var sp := Segments(p);
    var l := ToLower(c);
    assert Segments(p + [c]) == sp[..|sp| - 1] + [sp[|sp| - 1] + [l]];
    if sp[|sp| - 1] == "" {
      assert sp[|sp| - 1] + [l] == [l];
      FramedLetterStartsWord(sp, l);
    } else {
      FramedLetterExtendsWord(sp, l);
    }
  }

  /**
   The main theorem: the normaliser's result is the input's words joined
   with '_'.
   */
  lemma JoinWords(s: string)
    ensures StrToIdentifier(s) == Join(Words(s))
  {
    ScanIsFramed(s);
    var sp := Segments(s);
    var w := Words(s);
    var raw := Scan(s);
    if |w| > 0 {
      WordsAreWords(s);
      assert IsWord(w[0]) && IsWord(w[|w| - 1]);
      JoinStartsOnFirst(w);
      JoinEndsOnLast(w);
      var J := Join(w);
      assert J[0] != '_' && J[|J| - 1] != '_';
      assert raw == Lead(sp) + J + Trail(sp);
      var u := DropTrailingSeparator(raw);
      assert u == Lead(sp) + J by {
        if Trail(sp) == "" {
          assert raw[|raw| - 1] == J[|J| - 1];
        } else {
          assert raw[..|raw| - 1] == Lead(sp) + J;
        }
      }
      if Lead(sp) == "" {
        assert u[0] == J[0];
      } else {
        assert u[1..] == J;
      }
    }
  }

  /** Appending letters only extends the last piece. */
  lemma {:induction false} SegmentsAppendLetters(y: string, x: string)
    requires AllLower(x)
    ensures Segments(y + x)
      == Segments(y)[..|Segments(y)| - 1] + [Segments(y)[|Segments(y)| - 1] + x]
    decreases |x|
  {
    var sy := Segments(y);
    if |x| == 0 {
      assert y + x == y;
      assert sy[|sy| - 1] + x == sy[|sy| - 1];
      assert sy[..|sy| - 1] + [sy[|sy| - 1]] == sy;
    } else {
      var x' := x[..|x| - 1];
      var l := x[|x| - 1];
      assert x == x' + [l];
      assert IsLower(l);
      SegmentsAppendLetters(y, x');
      SegmentsSnocLetter(y + x', l);
      assert y + x == (y + x') + [l];
      var sp := Segments(y + x');
      assert sp[..|sp| - 1] == sy[..|sy| - 1];
      assert sp[|sp| - 1] == sy[|sy| - 1] + x';
      assert sy[|sy| - 1] + x' + [l] == sy[|sy| - 1] + x;
    }
  }

  lemma SegmentsSnocLetter(p: string, l: char)
    requires IsLower(l)
    ensures Segments(p + [l])
      == Segments(p)[..|Segments(p)| - 1] + [Segments(p)[|Segments(p)| - 1] + [l]]
  {
    assert (p + [l])[..|p|] == p;
  }

  lemma SegmentsAppendSeparator(y: string)
    ensures Segments(y + "_") == Segments(y) + [""]
  {
    assert (y + "_")[..|y|] == y;
  }

  /** Cutting joined pieces at '_' gives the pieces back. */
  lemma {:induction false} SegmentsOfJoin(ws: seq<string>)
    requires |ws| >= 1
    requires AllPiecesLower(ws)
    ensures Segments(Join(ws)) == ws
    decreases |ws|
  {
    if |ws| == 1 {
      SegmentsAppendLetters("", ws[0]);
      assert "" + ws[0] == ws[0];
    } else {
      var init := ws[..|ws| - 1];
      var x := ws[|ws| - 1];
      assert Join(ws) == (Join(init) + "_") + x;
      SegmentsOfJoin(init);
      SegmentsAppendSeparator(Join(init));
      var sy := Segments(Join(init) + "_");
      assert sy == init + [""];
      SegmentsAppendLetters(Join(init) + "_", x);
      assert sy[..|sy| - 1] == init;
      assert sy[|sy| - 1] + x == x;
      assert init + [x] == ws;
    }
  }

  /** Round trip: the words of words joined with '_' are those words. */
  lemma WordsOfJoin(ws: seq<string>)
    requires AllWords(ws)
    ensures Words(Join(ws)) == ws
  {
    if |ws| > 0 {
      SegmentsOfJoin(ws);
      NonEmptyKeepsWords(ws);
    }
  }

  /** Normalising keeps the words: the result has exactly the words of the input. */
  lemma ResultHasInputWords(s: string)
    ensures Words(StrToIdentifier(s)) == Words(s)
  {
    JoinWords(s);
    WordsAreWords(s);
    WordsOfJoin(Words(s));
  }

  /** The other direction of the round trip: joining the words of an identifier gives it back. */
  lemma JoinOfWords(t: string)
    requires IsIdentifier(t)
    ensures Join(Words(t)) == t
  {
    JoinWords(t);
    IdentifierFixedPoint(t);
  }
}
