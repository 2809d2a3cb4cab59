/** Java's `String.split("\\s+")` (limit 0): the text between the matches of
    `\s+`, leading empty piece kept, trailing empty pieces removed, and the
    whole string when nothing matches. */
module JavaSplit {
  import opened JavaString

  /** The longest prefix of `s` without a `\s` character. */
  function Word(s: JString): (w: JString)
    ensures w <= s && NoSpace(w)
    ensures |w| < |s| ==> IsSpace(s[|w|])
  {
    if s == [] || IsSpace(s[0]) then [] else [s[0]] + Word(s[1..])
  }

  /** `s` after the longest prefix made only of `\s` characters. */
  function SkipSpace(s: JString): (r: JString)
    ensures |r| <= |s| && r == s[|s| - |r|..]
    ensures AllSpace(s[..|s| - |r|])
    ensures r != [] ==> !IsSpace(r[0])
  {
    if s != [] && IsSpace(s[0]) then SkipSpace(s[1..]) else s
  }

  /** The pieces between consecutive maximal runs of `\s`, in order, with an
      empty first piece when `s` starts with `\s` and an empty last piece when
      it ends with `\s`: what the matcher loop of `split` collects. */
  function Pieces(s: JString): (p: seq<JString>)
    ensures |p| >= 1
    decreases |s|
  {
    var w := Word(s);
    if |w| == |s| then [w] else [w] + Pieces(SkipSpace(s[|w|..]))
  }

  /** The maximal runs of `\s` in `s` (the matches of `\s+`), in order. */
  function Separators(s: JString): seq<JString>
    decreases |s|
  {
    var w := Word(s);
    if |w| == |s| then []
    else
      var t := s[|w|..];
      var r := SkipSpace(t);
      [t[..|t| - |r|]] + Separators(r)
  }

  /** `ws[0] + seps[0] + ws[1] + ... + ws[|ws| - 1]`. */
  function Weave(ws: seq<JString>, seps: seq<JString>): JString
    requires |ws| == |seps| + 1
  {
    if seps == [] then ws[0] else ws[0] + seps[0] + Weave(ws[1..], seps[1..])
  }

  /** Every word is `\s`-free and only the first and last may be empty. */
  ghost predicate WordsOk(ws: seq<JString>) {
    && (forall i :: 0 <= i < |ws| ==> NoSpace(ws[i]))
    && (forall i :: 0 < i < |ws| - 1 ==> ws[i] != [])
  }

  /** Every separator is a non-empty run of `\s`. */
  ghost predicate SepsOk(seps: seq<JString>) {
    forall i :: 0 <= i < |seps| ==> seps[i] != [] && AllSpace(seps[i])
  }

  /** `ws` are the maximal `\s`-free stretches of `s` and `seps` the maximal
      `\s` runs between them. */
  ghost predicate IsSplitting(s: JString, ws: seq<JString>, seps: seq<JString>) {
    |ws| == |seps| + 1 && WordsOk(ws) && SepsOk(seps) && s == Weave(ws, seps)
  }

  lemma {:induction false} WordsCons(w: JString, ws: seq<JString>)
    requires NoSpace(w) && WordsOk(ws) && |ws| >= 1
    requires |ws| >= 2 ==> ws[0] != []
    ensures WordsOk([w] + ws)
  {
    assert forall i :: 0 < i <= |ws| ==> ([w] + ws)[i] == ws[i - 1];
  }

  lemma {:induction false} WordsTail(ws: seq<JString>)
    requires WordsOk(ws) && |ws| >= 1
    ensures WordsOk(ws[1..])
    ensures |ws| >= 3 ==> ws[1] != []
  {
    assert forall i :: 0 <= i < |ws| - 1 ==> ws[1..][i] == ws[i + 1];
  }

  lemma {:induction false} SepsCons(sep: JString, seps: seq<JString>)
    requires sep != [] && AllSpace(sep) && SepsOk(seps)
    ensures SepsOk([sep] + seps)
  {
    assert forall i :: 0 < i <= |seps| ==> ([sep] + seps)[i] == seps[i - 1];
  }

  lemma {:induction false} SepsTail(seps: seq<JString>)
    requires SepsOk(seps) && seps != []
    ensures SepsOk(seps[1..])
  {
    assert forall i :: 0 <= i < |seps| - 1 ==> seps[1..][i] == seps[i + 1];
  }

  lemma {:induction false} WeaveCons(w: JString, sep: JString, ws: seq<JString>, seps: seq<JString>)
    requires |ws| == |seps| + 1
    ensures Weave([w] + ws, [sep] + seps) == w + sep + Weave(ws, seps)
  {
    assert ([w] + ws)[1..] == ws;
    assert ([sep] + seps)[1..] == seps;
  }

  lemma {:induction false} WordOfSpaceFree(s: JString)
    requires NoSpace(s)
    ensures Word(s) == s
  {
  }

  lemma {:induction false} WordBeforeSpace(a: JString, b: JString)
    requires NoSpace(a) && b != [] && IsSpace(b[0])
    ensures Word(a + b) == a
  {
    if a != [] {
      assert (a + b)[1..] == a[1..] + b;
      WordBeforeSpace(a[1..], b);
    }
  }

  lemma {:induction false} SkipSpaceRun(a: JString, r: JString)
    requires AllSpace(a) && (r == [] || !IsSpace(r[0]))
    ensures SkipSpace(a + r) == r
  {
    if a != [] {
      assert (a + r)[1..] == a[1..] + r;
      SkipSpaceRun(a[1..], r);
    }
  }

  lemma {:induction false} SplittingOne(w: JString)
    requires NoSpace(w)
    ensures IsSplitting(w, [w], [])
  {
  }

  lemma {:induction false} SplittingCons(w: JString, run: JString, r: JString, ws: seq<JString>, seps: seq<JString>)
    requires IsSplitting(r, ws, seps)
    requires NoSpace(w) && run != [] && AllSpace(run)
    requires |ws| >= 2 ==> ws[0] != []
    ensures IsSplitting(w + run + r, [w] + ws, [run] + seps)
  {
    SepsCons(run, seps);
    WordsCons(w, ws);
    WeaveCons(w, run, ws, seps);
  }

  /** Pieces and Separators split `s` into maximal words and separators. */
  lemma {:induction false} PiecesSplit(s: JString)
    ensures IsSplitting(s, Pieces(s), Separators(s))
    decreases |s|
  {
    var w := Word(s);
    if |w| == |s| {
      assert w == s;
      SplittingOne(s);
    } else {
      var t := s[|w|..];
      var r := SkipSpace(t);
      var run := t[..|t| - |r|];
      PiecesStep(s, w, t, r, run);
      RunRest(t, r, run);
      Regroup(s, w, t, run, r);
      PiecesSplit(r);
      PiecesHead(r);
      SplittingCons(w, run, r, Pieces(r), Separators(r));
    }
  }

  /** One step of `Pieces` and `Separators`: the first word, then the run
      after it, then the pieces of the rest. */
  lemma {:induction false} PiecesStep(s: JString, w: JString, t: JString, r: JString, run: JString)
    requires w == Word(s) && |w| < |s|
    requires t == s[|w|..] && r == SkipSpace(t) && run == t[..|t| - |r|]
    ensures Pieces(s) == [w] + Pieces(r)
    ensures Separators(s) == [run] + Separators(r)
  {
  }

  /** Cutting a text after a prefix and the rest into two gives three parts. */
  lemma {:induction false} Regroup(s: JString, w: JString, t: JString, run: JString, r: JString)
    requires w <= s && t == s[|w|..] && t == run + r
    ensures s == w + run + r
  {
    assert s == w + t;
  }

  /** Text that starts with `\s` is a non-empty run of `\s`, then the rest. */
  lemma {:induction false} RunRest(t: JString, r: JString, run: JString)
    requires t != [] && IsSpace(t[0])
    requires r == SkipSpace(t) && run == t[..|t| - |r|]
    ensures t == run + r && run != [] && AllSpace(run)
    ensures r == [] || !IsSpace(r[0])
  {
    assert t == run + r;
  }

  /** Text that does not start with `\s` and splits in two or more has a
      non-empty first piece. */
  lemma {:induction false} PiecesHead(r: JString)
    requires r == [] || !IsSpace(r[0])
    ensures |Pieces(r)| >= 2 ==> Pieces(r)[0] != []
  {
    if |Pieces(r)| >= 2 {
      assert r != [] && Pieces(r)[0] == Word(r);
    }
  }

  lemma {:induction false} PiecesCons(w: JString, sep: JString, rest: JString)
    requires NoSpace(w) && sep != [] && AllSpace(sep)
    requires rest == [] || !IsSpace(rest[0])
    ensures Pieces(w + sep + rest) == [w] + Pieces(rest)
    ensures Separators(w + sep + rest) == [sep] + Separators(rest)
  {
    ConsParts(w, sep, rest);
  }

  /** How `Pieces` and `Separators` take `w + sep + rest` apart: the word,
      then the run, then the rest. */
  lemma {:induction false} ConsParts(w: JString, sep: JString, rest: JString)
    requires NoSpace(w) && sep != [] && AllSpace(sep)
    requires rest == [] || !IsSpace(rest[0])
    ensures Word(w + sep + rest) == w
    ensures (w + sep + rest)[|w|..] == sep + rest
    ensures SkipSpace(sep + rest) == rest
    ensures (sep + rest)[..|sep + rest| - |rest|] == sep
  {
    var s := w + sep + rest;
    assert s == w + (sep + rest);
    WordBeforeSpace(w, sep + rest);
    SkipSpaceRun(sep, rest);
  }

  /** A splitting into maximal words is unique: it is the one Pieces and
      Separators compute. */
  lemma {:induction false} SplittingUnique(s: JString, ws: seq<JString>, seps: seq<JString>)
    requires IsSplitting(s, ws, seps)
    ensures ws == Pieces(s) && seps == Separators(s)
    decreases |seps|
  {
    if seps == [] {
      WordOfSpaceFree(s);
    } else {
      var ws', seps' := ws[1..], seps[1..];
      var rest := Weave(ws', seps');
      assert s == ws[0] + seps[0] + rest;
      WordsTail(ws);
      SepsTail(seps);
      RestStartsWord(ws', seps');
      PiecesCons(ws[0], seps[0], rest);
      SplittingUnique(rest, ws', seps');
      assert ws == [ws[0]] + ws';
      assert seps == [seps[0]] + seps';
    }
  }

  /** A weave whose first word is `\s`-free, and non-empty when more
      follows, does not start with `\s`. */
  lemma {:induction false} RestStartsWord(ws: seq<JString>, seps: seq<JString>)
    requires |ws| == |seps| + 1 && WordsOk(ws)
    requires |ws| >= 2 ==> ws[0] != []
    ensures Weave(ws, seps) == [] || !IsSpace(Weave(ws, seps)[0])
  {
    assert NoSpace(ws[0]);
    if seps != [] {
      var rest := Weave(ws[1..], seps[1..]);
      assert Weave(ws, seps) == ws[0] + (seps[0] + rest);
      assert Weave(ws, seps)[0] == ws[0][0];
    }
  }

  // ----- split itself -----

  /** The list with its trailing empty strings removed. */
  function DropTrailingEmpty(p: seq<JString>): (r: seq<JString>)
    ensures r <= p
    ensures r != [] ==> r[|r| - 1] != []
    ensures forall i :: |r| <= i < |p| ==> p[i] == []
  {
    if p != [] && p[|p| - 1] == [] then DropTrailingEmpty(p[..|p| - 1]) else p
  }

  /** Java `s.split("\\s+")`: `[s]` when `\s+` never matches, otherwise the
      pieces between the matches with the trailing empty ones removed. The
      strings returned are `\s`-free and none is empty except possibly the
      first, which is empty only for empty text or text starting with `\s`. */
  function Split(s: JString): (r: seq<JString>)
    ensures forall i :: 0 <= i < |r| ==> NoSpace(r[i])
    ensures forall i :: 0 < i < |r| ==> r[i] != []
    ensures r != [] && r[0] == [] ==> s == [] || IsSpace(s[0])
  {
    if NoSpace(s) then [s]
    else
      PiecesSplit(s);
      DropTrailingWords(Pieces(s));
      FirstPiece(s);
      DropTrailingEmpty(Pieces(s))
  }

  /** The strings of `p` joined with nothing between them. */
  function Concat(p: seq<JString>): JString {
    if p == [] then [] else p[0] + Concat(p[1..])
  }

  /** `s` with every `\s` character removed. */
  function Squeeze(s: JString): JString {
    if s == [] then [] else (if IsSpace(s[0]) then [] else [s[0]]) + Squeeze(s[1..])
  }

  lemma {:induction false} SqueezeAppend(a: JString, b: JString)
    ensures Squeeze(a + b) == Squeeze(a) + Squeeze(b)
  {
    if a != [] {
      assert (a + b)[0] == a[0];
      assert (a + b)[1..] == a[1..] + b;
      SqueezeAppend(a[1..], b);
      var h: JString := if IsSpace(a[0]) then [] else [a[0]];
      calc {
        Squeeze(a + b);
        h + Squeeze(a[1..] + b);
        h + (Squeeze(a[1..]) + Squeeze(b));
        (h + Squeeze(a[1..])) + Squeeze(b);
      }
    } else {
      assert a + b == b;
    }
  }

  lemma {:induction false} SqueezeEmpty(s: JString)
    ensures Squeeze(s) == [] <==> AllSpace(s)
    ensures NoSpace(s) ==> Squeeze(s) == s
  {
    if s != [] {
      SqueezeEmpty(s[1..]);
      assert AllSpace(s) <==> IsSpace(s[0]) && AllSpace(s[1..]);
    }
  }

  lemma {:induction false} ConcatAppend(a: seq<JString>, b: seq<JString>)
    ensures Concat(a + b) == Concat(a) + Concat(b)
  {
    if a != [] {
      assert (a + b)[0] == a[0];
      assert (a + b)[1..] == a[1..] + b;
      ConcatAppend(a[1..], b);
      calc {
        Concat(a + b);
        a[0] + Concat(a[1..] + b);
        a[0] + (Concat(a[1..]) + Concat(b));
        (a[0] + Concat(a[1..])) + Concat(b);
      }
    } else {
      assert a + b == b;
    }
  }

  lemma {:induction false} ConcatEmpty(p: seq<JString>)
    requires Concat(p) == []
    ensures forall i :: 0 <= i < |p| ==> p[i] == []
  {
    if p != [] {
      ConcatEmpty(p[1..]);
      assert forall i :: 0 < i < |p| ==> p[i] == p[1..][i - 1];
    }
  }

  /** Removing trailing empty strings loses no character. */
  lemma {:induction false} ConcatDropTrailingEmpty(p: seq<JString>)
    ensures Concat(DropTrailingEmpty(p)) == Concat(p)
  {
    if p != [] && p[|p| - 1] == [] {
      var q := p[..|p| - 1];
      ConcatDropTrailingEmpty(q);
      assert p == q + [[]];
      ConcatAppend(q, [[]]);
      assert Concat([[]]) == [];
    }
  }

  /** The words of a splitting hold exactly the non-`\s` characters of the text. */
  lemma {:induction false} ConcatSplitting(s: JString, ws: seq<JString>, seps: seq<JString>)
    requires IsSplitting(s, ws, seps)
    ensures Concat(ws) == Squeeze(s)
    decreases |seps|
  {
    if seps == [] {
      SqueezeEmpty(s);
      assert Concat(ws) == ws[0] + Concat([]);
    } else {
      var rest := Weave(ws[1..], seps[1..]);
      WordsTail(ws);
      SepsTail(seps);
      ConcatSplitting(rest, ws[1..], seps[1..]);
      SqueezeAppend(ws[0] + seps[0], rest);
      SqueezeAppend(ws[0], seps[0]);
      SqueezeEmpty(ws[0]);
      SqueezeEmpty(seps[0]);
    }
  }

  lemma {:induction false} DropTrailingWords(p: seq<JString>)
    requires WordsOk(p)
    ensures forall i :: 0 <= i < |DropTrailingEmpty(p)| ==> NoSpace(DropTrailingEmpty(p)[i])
    ensures forall i :: 0 < i < |DropTrailingEmpty(p)| ==> DropTrailingEmpty(p)[i] != []
  {
    var r := DropTrailingEmpty(p);
    assert forall i :: 0 <= i < |r| ==> r[i] == p[i];
  }

  lemma {:induction false} FirstPiece(s: JString)
    ensures Pieces(s)[0] == Word(s)
    ensures Word(s) == [] ==> s == [] || IsSpace(s[0])
  {
  }

  /** The strings `split("\\s+")` returns hold every non-`\s` character
      of the text, in order, and nothing else. */
  lemma {:induction false} SplitWords(s: JString)
    ensures Concat(Split(s)) == Squeeze(s)
  {
    if NoSpace(s) {
      SqueezeEmpty(s);
      assert Concat([s]) == s + Concat([]);
    } else {
      var p := Pieces(s);
      PiecesSplit(s);
      ConcatSplitting(s, p, Separators(s));
      ConcatDropTrailingEmpty(p);
    }
  }

  lemma {:induction false} SplitOfAllSpace(s: JString)
    requires s != [] && AllSpace(s)
    ensures Split(s) == []
  {
    SplitWords(s);
    SqueezeEmpty(s);
    ConcatEmpty(Split(s));
  }

  /** Java's edge cases: the empty text gives one empty string, text made only
      of `\s` gives nothing, and text that starts with `\s` but has a word
      gives an empty first string before that word. */
  lemma {:induction false} SplitEdgeCases(s: JString)
    ensures s == [] ==> Split(s) == [[]]
    ensures s != [] && AllSpace(s) ==> Split(s) == []
    ensures s != [] && IsSpace(s[0]) && !AllSpace(s) ==> |Split(s)| >= 2 && Split(s)[0] == []
  {
    if s != [] && AllSpace(s) {
      SplitOfAllSpace(s);
    }
    if s != [] && IsSpace(s[0]) && !AllSpace(s) {
      SplitLeadingSpace(s);
    }
  }

  lemma {:induction false} SplitLeadingSpace(s: JString)
    requires s != [] && IsSpace(s[0]) && !AllSpace(s)
    ensures |Split(s)| >= 2 && Split(s)[0] == []
  {
    var p := Pieces(s);
    var r := Split(s);
    assert !NoSpace(s);
    assert r == DropTrailingEmpty(p);
    FirstPiece(s);
    SplitWords(s);
    SqueezeEmpty(s);
    assert Concat(r) != [];
    assert r[0] == p[0];
  }

  lemma {:induction false} WeaveSnoc(ws: seq<JString>, seps: seq<JString>, sep: JString, w: JString)
    requires |ws| == |seps| + 1
    ensures Weave(ws + [w], seps + [sep]) == Weave(ws, seps) + sep + w
    decreases |seps|
  {
    if seps == [] {
      assert (ws + [w])[1..] == [w];
    } else {
      assert (ws + [w])[1..] == ws[1..] + [w];
      assert (seps + [sep])[1..] == seps[1..] + [sep];
      WeaveSnoc(ws[1..], seps[1..], sep, w);
    }
  }

  lemma {:induction false} PiecesAfterWord(s: JString, t: JString, ws: seq<JString>, seps: seq<JString>)
    requires IsSplitting(s, ws, seps) && ws[|ws| - 1] != []
    requires t != [] && AllSpace(t)
    ensures Pieces(s + t) == ws + [[]]
  {
    WeaveSnoc(ws, seps, t, []);
    assert s + t == Weave(ws + [[]], seps + [t]);
    assert WordsOk(ws + [[]]) by {
      assert forall i :: 0 <= i < |ws| ==> (ws + [[]])[i] == ws[i];
    }
    assert SepsOk(seps + [t]) by {
      assert forall i :: 0 <= i < |seps| ==> (seps + [t])[i] == seps[i];
    }
    SplittingUnique(s + t, ws + [[]], seps + [t]);
  }

  lemma {:induction false} PiecesAfterSpace(s: JString, t: JString, ws: seq<JString>, seps: seq<JString>)
    requires IsSplitting(s, ws, seps) && |ws| >= 2 && ws[|ws| - 1] == []
    requires t != [] && AllSpace(t)
    ensures Pieces(s + t) == ws
  {
    var k := |seps| - 1;
    var seps2 := seps[..k] + [seps[k] + t];
    WeaveLast(ws, seps);
    WeaveLast(ws, seps2);
    assert seps2[..k] == seps[..k];
    var front := Weave(ws[..k + 1], seps[..k]);
    assert s + t == front + (seps[k] + t) + [];
    SepsLonger(seps, t);
    SplittingUnique(s + t, ws, seps2);
  }

  /** The last separator and word of a weave come last. */
  lemma {:induction false} WeaveLast(ws: seq<JString>, seps: seq<JString>)
    requires |ws| == |seps| + 1 && seps != []
    ensures Weave(ws, seps) == Weave(ws[..|seps|], seps[..|seps| - 1]) + seps[|seps| - 1] + ws[|seps|]
  {
    var k := |seps| - 1;
    var ws', w, seps', sep := ws[..k + 1], ws[k + 1], seps[..k], seps[k];
    assert ws == ws' + [w];
    assert seps == seps' + [sep];
    WeaveSnoc(ws', seps', sep, w);
  }

  /** Lengthening the last separator by more `\s` keeps the separators valid. */
  lemma {:induction false} SepsLonger(seps: seq<JString>, t: JString)
    requires SepsOk(seps) && seps != [] && AllSpace(t)
    ensures SepsOk(seps[..|seps| - 1] + [seps[|seps| - 1] + t])
  {
    var k := |seps| - 1;
    var seps2 := seps[..k] + [seps[k] + t];
    assert forall i :: 0 <= i < k ==> seps2[i] == seps[i];
    assert AllSpace(seps[k] + t);
  }

  /** `\s` added after a non-empty text adds no string to what split returns. */
  lemma {:induction false} SplitIgnoresTrailingSpace(s: JString, t: JString)
    requires s != [] && t != [] && AllSpace(t)
    ensures Split(s + t) == Split(s)
  {
    var ws, seps := Pieces(s), Separators(s);
    PiecesSplit(s);
    assert !NoSpace(s + t) by {
      assert IsSpace((s + t)[|s|]);
    }
    if NoSpace(s) {
      WordOfSpaceFree(s);
    }
    if ws[|ws| - 1] != [] {
      PiecesAfterWord(s, t, ws, seps);
      assert (ws + [[]])[..|ws|] == ws;
    } else {
      assert |ws| >= 2;
      PiecesAfterSpace(s, t, ws, seps);
    }
  }
}
