/** Letter case does not matter to the decision scanner: which phrases trigger where, and which
    clauses are emitted from which positions, is the same however a text is cased. */
module Casing {
  import opened Wrappers
  import opened Clauses
  import opened Decisions

  /** Equal, or the two cases of one ASCII letter. */
  predicate SameLetter(a: char, b: char) {
    a == b || ('A' <= a <= 'Z' && b as int == a as int + 32) || ('A' <= b <= 'Z' && a as int == b as int + 32)
  }

  predicate SameLetters(s: string, t: string) {
    |s| == |t| && forall k | 0 <= k < |s| :: SameLetter(s[k], t[k])
  }

  // ---------- triggers ----------

  lemma LowersAlikeIff(a: char, b: char)
    ensures Lower(a) == Lower(b) <==> SameLetter(a, b)
  {
  }

  lemma PhrasesAreLower(phrase: string)
    requires phrase in DECISION_PHRASES
    ensures phrase != "" && forall k | 0 <= k < |phrase| :: !('A' <= phrase[k] <= 'Z')
  {
  }

  /** What a trigger is: the phrase in any casing, not right after a letter, a digit or an
      underscore, with a clause after it. */
  lemma TriggersMeaning(text: string, phrase: string, i: nat)
    requires phrase in DECISION_PHRASES
    ensures Triggers(text, phrase, i) <==>
            && i + |phrase| <= |text|
            && (forall k | 0 <= k < |phrase| ::
                  var c := text[i + k]; c == phrase[k] || ('A' <= c <= 'Z' && phrase[k] as int == c as int + 32))
            && (i > 0 ==> var c := text[i - 1]; !('a' <= c <= 'z' || 'A' <= c <= 'Z' || '0' <= c <= '9' || c == '_'))
            && TakeClause(text[i + |phrase|..]) != ""
  {
    PhrasesAreLower(phrase);
    assert |ToAsciiLowercase(text)| == |text|;
    if i + |phrase| <= |text| {
      BoundedInAnyCasing(text, i);
      OccursInAnyCasing(text, phrase, i);
      PieceAlike(text, phrase, i);
      hide TakeClause, ToAsciiLowercase, SameLetters, OccursAt, LeftBounded;
      assert HitAt(text, phrase, i).clause == TakeClause(text[i + |phrase|..]);
    } else {
      assert !OccursAt(ToAsciiLowercase(text), phrase, i);
    }
  }

  lemma PieceAlike(text: string, phrase: string, i: nat)
    requires i + |phrase| <= |text| && forall k | 0 <= k < |phrase| :: !('A' <= phrase[k] <= 'Z')
    ensures SameLetters(text[i..i + |phrase|], phrase) <==>
            forall k | 0 <= k < |phrase| ::
              var c := text[i + k]; c == phrase[k] || ('A' <= c <= 'Z' && phrase[k] as int == c as int + 32)
  {
    var piece := text[i..i + |phrase|];
    assert forall k | 0 <= k < |phrase| :: piece[k] == text[i + k];
  }

  lemma BoundedInAnyCasing(text: string, i: nat)
    requires i <= |text|
    ensures LeftBounded(ToAsciiLowercase(text), i) <==>
            (i > 0 ==> var c := text[i - 1]; !('a' <= c <= 'z' || 'A' <= c <= 'Z' || '0' <= c <= '9' || c == '_'))
  {
  }

  lemma OccursInAnyCasing(text: string, phrase: string, i: nat)
    requires i + |phrase| <= |text| && forall k | 0 <= k < |phrase| :: !('A' <= phrase[k] <= 'Z')
    ensures OccursAt(ToAsciiLowercase(text), phrase, i) <==> SameLetters(text[i..i + |phrase|], phrase)
  {
    var lower := ToAsciiLowercase(text);
    var piece := text[i..i + |phrase|];
    if OccursAt(lower, phrase, i) {
      forall k | 0 <= k < |phrase| ensures SameLetter(piece[k], phrase[k]) {
        assert phrase[k] == lower[i..i + |phrase|][k] == Lower(text[i + k]);
      }
    }
    if SameLetters(piece, phrase) {
      forall k | 0 <= k < |phrase| ensures lower[i..i + |phrase|][k] == phrase[k] {
        assert SameLetter(piece[k], phrase[k]) && piece[k] == text[i + k];
      }
      assert lower[i..i + |phrase|] == phrase;
    }
  }

  /** So a phrase in any casing is collected. */
  lemma AnyCasingIsCollected(text: string, phrase: string, i: nat, hits: seq<Hit>)
    requires HitsOf(text, DECISION_PHRASES, hits) && phrase in DECISION_PHRASES && i + |phrase| <= |text|
    requires SameLetters(text[i..i + |phrase|], phrase) && (i > 0 ==> !IsWordChar(text[i - 1]))
    requires TakeClause(text[i + |phrase|..]) != ""
    ensures Hit(i, i + |phrase|, TakeClause(text[i + |phrase|..])) in hits
  {
    hide TakeClause, Triggers;
    PhrasesAreLower(phrase);
    PieceAlike(text, phrase, i);
    TriggersMeaning(text, phrase, i);
    var h := Hit(i, i + |phrase|, TakeClause(text[i + |phrase|..]));
    assert h == HitAt(text, phrase, i);
    assert HitOf(text, DECISION_PHRASES, h);
  }

  /** The scan sees "Let's" as it sees "let's". */
  lemma CapitalTriggers()
    ensures Triggers("Let's go with X", "let's go with", 0)
    ensures HitAt("Let's go with X", "let's go with", 0).clause == "X"
  {
    var text, phrase := "Let's go with X", "let's go with";
    hide TakeClause, Triggers;
    ClauseOfCapital(text);
    LettersOfCapital(text, phrase);
    assert phrase == DECISION_PHRASES[3];
    TriggersMeaning(text, phrase, 0);
  }

  lemma LettersOfCapital(text: string, phrase: string)
    requires text == "Let's go with X" && phrase == "let's go with"
    ensures forall k | 0 <= k < |phrase| ::
              var c := text[k]; c == phrase[k] || ('A' <= c <= 'Z' && phrase[k] as int == c as int + 32)
  {
  }

  lemma ClauseOfCapital(text: string)
    requires text == "Let's go with X"
    ensures TakeClause(text[13..]) == "X"
  {
    SomeBlanks();
    hide AllSpace, TakeClause;
    ClauseAfterSpace(" ", "X");
    assert text[13..] == " " + "X";
  }

  // ---------- clauses ----------

  lemma SliceAlike(s: string, t: string, i: nat, j: nat)
    requires SameLetters(s, t) && i <= j <= |s|
    ensures SameLetters(s[i..j], t[i..j])
  {
  }

  lemma {:induction false} SentencesAlike(s: string, t: string)
    requires SameLetters(s, t)
    ensures |UpToTerminator(s)| == |UpToTerminator(t)|
  {
    if s != "" && !IsTerminator(s[0]) {
      assert SameLetter(s[0], t[0]);
      SliceAlike(s, t, 1, |s|);
      assert s[1..] == s[1..|s|] && t[1..] == t[1..|t|];
      SentencesAlike(s[1..], t[1..]);
    } else if s != "" {
      assert SameLetter(s[0], t[0]);
    }
  }

  lemma SpacesAlike(s: string, t: string)
    requires SameLetters(s, t)
    ensures SpaceLength(s) == SpaceLength(t) && SpaceAtEnd(s) == SpaceAtEnd(t)
  {
    var n := |s|;
    if n >= 1 { assert SameLetter(s[0], t[0]) && SameLetter(s[n - 1], t[n - 1]); }
    if n >= 2 { assert SameLetter(s[1], t[1]) && SameLetter(s[n - 2], t[n - 2]); }
    if n >= 3 { assert SameLetter(s[2], t[2]) && SameLetter(s[n - 3], t[n - 3]); }
  }

  lemma {:induction false} TrimStartsAlike(s: string, t: string)
    requires SameLetters(s, t)
    ensures SameLetters(TrimStart(s), TrimStart(t))
    decreases |s|
  {
    hide SpaceLength, SameLetters, TrimStart;
    SpacesAlike(s, t);
    TrimStartStep(s);
    TrimStartStep(t);
    var n := SpaceLength(s);
    assert |s| == |t| by { SameLength(s, t); }
    if n > 0 {
      SliceAlike(s, t, n, |s|);
      assert s[n..] == s[n..|s|] && t[n..] == t[n..|t|];
      TrimStartsAlike(s[n..], t[n..]);
    }
  }

  lemma SameLength(s: string, t: string)
    requires SameLetters(s, t)
    ensures |s| == |t|
  {
  }

  lemma {:induction false} TrimEndsAlike(s: string, t: string)
    requires SameLetters(s, t)
    ensures SameLetters(TrimEnd(s), TrimEnd(t))
    decreases |s|
  {
    hide SpaceAtEnd, SpaceLength, SameLetters, TrimEnd;
    SpacesAlike(s, t);
    TrimEndStep(s);
    TrimEndStep(t);
    var n := SpaceAtEnd(s);
    assert |s| == |t| by { SameLength(s, t); }
    if n > 0 {
      SliceAlike(s, t, 0, |s| - n);
      assert s[..|s| - n] == s[0..|s| - n] && t[..|t| - n] == t[0..|t| - n];
      TrimEndsAlike(s[..|s| - n], t[..|t| - n]);
    }
  }

  lemma {:induction false} TrimCommasAlike(s: string, t: string)
    requires SameLetters(s, t)
    ensures SameLetters(TrimCommas(s), TrimCommas(t))
  {
    if s != "" {
      assert SameLetter(s[|s| - 1], t[|t| - 1]);
      if s[|s| - 1] == ',' {
        SliceAlike(s, t, 0, |s| - 1);
        assert s[..|s| - 1] == s[0..|s| - 1] && t[..|t| - 1] == t[0..|t| - 1];
        TrimCommasAlike(s[..|s| - 1], t[..|t| - 1]);
      }
    }
  }

  /** Clauses of texts that differ in case only differ in case only. */
  lemma ClausesAlike(s: string, t: string)
    requires SameLetters(s, t)
    ensures SameLetters(TakeClause(s), TakeClause(t))
  {
    hide SameLetters, UpToTerminator, TrimStart, TrimEnd, TrimCommas;
    SentencesAlike(s, t);
    SameLength(s, t);
    var n := |UpToTerminator(s)|;
    SliceAlike(s, t, 0, n);
    assert UpToTerminator(s) == s[0..n] && UpToTerminator(t) == t[0..n];
    var a, b := UpToTerminator(s), UpToTerminator(t);
    TrimStartsAlike(a, b);
    TrimEndsAlike(TrimStart(a), TrimStart(b));
    TrimCommasAlike(Trim(a), Trim(b));
    TrimStartsAlike(TrimCommas(Trim(a)), TrimCommas(Trim(b)));
    TrimEndsAlike(TrimStart(TrimCommas(Trim(a))), TrimStart(TrimCommas(Trim(b))));
  }

  // ---------- hits and emission ----------

  /** The same place, and clauses that differ in case only. */
  predicate Alike(g: Hit, h: Hit) {
    g.start == h.start && g.clauseStart == h.clauseStart && SameLetters(g.clause, h.clause)
  }

  /** Triggers stand at the same positions, and the hits there are alike. */
  lemma TriggersAlike(s: string, t: string, phrase: string, i: nat)
    requires SameLetters(s, t) && phrase in DECISION_PHRASES
    ensures Triggers(s, phrase, i) <==> Triggers(t, phrase, i)
    ensures Alike(HitAt(s, phrase, i), HitAt(t, phrase, i))
  {
    hide TakeClause;
    SameLowerCase(s, t);
    SameLength(s, t);
    var n := i + |phrase|;
    if n <= |s| {
      SliceAlike(s, t, n, |s|);
      assert s[n..] == s[n..|s|] && t[n..] == t[n..|t|];
      ClausesAlike(s[n..], t[n..]);
    } else {
      ClausesAlike("", "");
    }
  }

  lemma SameLowerCase(s: string, t: string)
    requires SameLetters(s, t)
    ensures ToAsciiLowercase(s) == ToAsciiLowercase(t)
  {
    forall k | 0 <= k < |s| ensures Lower(s[k]) == Lower(t[k]) {
      assert SameLetter(s[k], t[k]);
    }
  }

  /** Each hit of one list has a hit like it in the other. */
  ghost predicate Covered(gs: seq<Hit>, hs: seq<Hit>) {
    forall g | g in gs :: exists h | h in hs :: Alike(g, h)
  }

  lemma HitsCovered(s: string, t: string, gs: seq<Hit>, hs: seq<Hit>)
    requires SameLetters(s, t) && HitsOf(s, DECISION_PHRASES, gs) && HitsOf(t, DECISION_PHRASES, hs)
    ensures Covered(gs, hs)
  {
    hide Triggers, HitAt, SameLetters, Alike;
    forall g | g in gs ensures exists h | h in hs :: Alike(g, h) {
      assert HitOf(s, DECISION_PHRASES, g);
      var p :| p in DECISION_PHRASES && Triggers(s, p, g.start) && g == HitAt(s, p, g.start);
      TriggersAlike(s, t, p, g.start);
      StartOfHit(t, p, g.start);
      assert HitOf(t, DECISION_PHRASES, HitAt(t, p, g.start));
    }
  }

  /** One hit to a place. */
  ghost predicate OneEach(hs: seq<Hit>) {
    forall g, h | g in hs && h in hs && g.start == h.start :: g == h
  }

  lemma HitsAreOneEach(text: string, hits: seq<Hit>)
    requires HitsOf(text, DECISION_PHRASES, hits)
    ensures OneEach(hits)
  {
    hide Triggers, HitAt;
    forall x, y | x in hits && y in hits && x.start == y.start ensures x == y {
      assert HitOf(text, DECISION_PHRASES, x) && HitOf(text, DECISION_PHRASES, y);
      var p :| p in DECISION_PHRASES && Triggers(text, p, x.start) && x == HitAt(text, p, x.start);
      var q :| q in DECISION_PHRASES && Triggers(text, q, y.start) && y == HitAt(text, q, y.start);
      LaterEndsLater(text, p, x.start, q, y.start);
      LaterEndsLater(text, q, y.start, p, x.start);
      SameEndSameHit(text, p, q, x.start);
    }
  }

  lemma SameEndSameHit(text: string, p: string, q: string, i: nat)
    requires HitAt(text, p, i).clauseStart == HitAt(text, q, i).clauseStart
    ensures HitAt(text, p, i) == HitAt(text, q, i)
  {
    hide TakeClause;
  }

  /** An earlier emitted hit reaches past where the clause of `h` starts. */
  ghost predicate Blocked(out: seq<Hit>, h: Hit) {
    exists e | e in out :: e.start < h.start && h.clauseStart < e.Mark()
  }

  /** Emission, told without the order of events: exactly the unblocked hits. */
  lemma EmittedIff(sorted: seq<Hit>, out: seq<Hit>, h: Hit)
    requires Emits(sorted, out) && OneEach(sorted) && NonEmpty(sorted) && h in sorted
    ensures h in out <==> !Blocked(out, h)
  {
    forall e | e in out && h in out && e.start < h.start ensures e.Mark() <= h.clauseStart {
      EmittedApart(out, e, h);
    }
    if h !in out {
      assert Absorbed(out, h);
      var e :| e in out && e.start <= h.start && h.clauseStart < e.Mark();
      assert e in sorted;
    }
  }

  lemma EmittedApart(out: seq<Hit>, e: Hit, h: Hit)
    requires Spaced(out) && e in out && h in out && e.start < h.start
    ensures e.Mark() <= h.clauseStart
  {
    var i, j :| 0 <= i < |out| && 0 <= j < |out| && out[i] == e && out[j] == h;
    assert i != j;
    assert j < i ==> out[j].start <= out[i].start;
  }

  /** Up to any place, the same hits are emitted. */
  lemma {:induction false} EmittedAlike(gs: seq<Hit>, out: seq<Hit>, hs: seq<Hit>, out': seq<Hit>,
                                        n: nat, g: Hit, h: Hit)
    requires Emits(gs, out) && OneEach(gs) && NonEmpty(gs) && Emits(hs, out') && OneEach(hs) && NonEmpty(hs)
    requires Covered(gs, hs) && Covered(hs, gs) && g in gs && h in hs && Alike(g, h) && g.start < n
    ensures g in out <==> h in out'
    decreases n
  {
    EmittedIff(gs, out, g);
    EmittedIff(hs, out', h);
    if Blocked(out, g) {
      BlockedAlike(gs, out, hs, out', n, g, h);
    }
    if Blocked(out', h) {
      AlikeBack(g, h);
      BlockedAlike(hs, out', gs, out, n, h, g);
    }
  }

  lemma AlikeBack(g: Hit, h: Hit)
    requires Alike(g, h)
    ensures Alike(h, g) && g.Mark() == h.Mark()
  {
    forall k | 0 <= k < |g.clause| ensures SameLetter(h.clause[k], g.clause[k]) {
      assert SameLetter(g.clause[k], h.clause[k]);
    }
  }

  lemma {:induction false} BlockedAlike(gs: seq<Hit>, out: seq<Hit>, hs: seq<Hit>, out': seq<Hit>,
                                        n: nat, g: Hit, h: Hit)
    requires Emits(gs, out) && OneEach(gs) && NonEmpty(gs) && Emits(hs, out') && OneEach(hs) && NonEmpty(hs)
    requires Covered(gs, hs) && Covered(hs, gs) && g in gs && h in hs && Alike(g, h) && g.start < n
    ensures Blocked(out, g) ==> Blocked(out', h)
    decreases n, 0
  {
    if e :| e in out && e.start < g.start && g.clauseStart < e.Mark() {
      EmittedIsHit(gs, out, e);
      hide Emits, OneEach, NonEmpty, SameLetters;
      var f :| f in hs && Alike(e, f);
      EmittedAlike(gs, out, hs, out', n - 1, e, f);
      AlikeBack(e, f);
      assert f in out';
    }
  }

  lemma EmittedIsHit(sorted: seq<Hit>, out: seq<Hit>, e: Hit)
    requires Emits(sorted, out) && e in out
    ensures e in sorted
  {
  }

  ghost predicate Increasing(hs: seq<Hit>) {
    forall i, j | 0 <= i < j < |hs| :: hs[i].start < hs[j].start
  }

  lemma EmittedIncrease(sorted: seq<Hit>, out: seq<Hit>)
    requires Emits(sorted, out) && OneEach(sorted) && NonEmpty(sorted)
    ensures Increasing(out)
  {
    forall i, j | 0 <= i < j < |out| ensures out[i].start < out[j].start {
      assert out[i] in out && out[j] in out;
    }
  }

  ghost predicate AlikeLists(gs: seq<Hit>, hs: seq<Hit>) {
    |gs| == |hs| && forall k | 0 <= k < |gs| :: Alike(gs[k], hs[k])
  }

  /** Lists by place that cover each other pair up. */
  lemma {:induction false} PairUp(gs: seq<Hit>, hs: seq<Hit>)
    requires Increasing(gs) && Increasing(hs) && Covered(gs, hs) && Covered(hs, gs)
    ensures AlikeLists(gs, hs)
    decreases |gs|
  {
    if gs == [] {
      if hs != [] { NothingCovers(hs); }
    } else if hs == [] {
      NothingCovers(gs);
    } else {
      var m, n := |gs| - 1, |hs| - 1;
      LastsPair(gs, hs);
      FrontsCovered(gs, hs);
      LastsPair(hs, gs);
      FrontsCovered(hs, gs);
      PairUp(gs[..m], hs[..n]);
      forall k | 0 <= k < |gs| ensures Alike(gs[k], hs[k]) {
        if k < m {
          assert Alike(gs[..m][k], hs[..n][k]);
        }
      }
    }
  }

  lemma NothingCovers(hs: seq<Hit>)
    requires hs != []
    ensures !Covered(hs, [])
  {
    assert hs[0] in hs;
  }

  lemma Counterpart(g: Hit, gs: seq<Hit>, hs: seq<Hit>) returns (h: Hit)
    requires Covered(gs, hs) && g in gs
    ensures h in hs && Alike(g, h) && g.start == h.start
  {
    h :| h in hs && Alike(g, h);
  }

  lemma LastIsLargest(hs: seq<Hit>, h: Hit)
    requires Increasing(hs) && h in hs
    ensures var last := hs[|hs| - 1]; h == last || h.start < last.start
  {
    var j :| 0 <= j < |hs| && hs[j] == h;
  }

  lemma LastsPair(gs: seq<Hit>, hs: seq<Hit>)
    requires gs != [] && hs != [] && Increasing(gs) && Increasing(hs) && Covered(gs, hs) && Covered(hs, gs)
    ensures Alike(gs[|gs| - 1], hs[|hs| - 1])
  {
    hide Covered, Increasing, Alike;
    var g, h := gs[|gs| - 1], hs[|hs| - 1];
    assert g in gs && h in hs;
    var f := Counterpart(g, gs, hs);
    var e := Counterpart(h, hs, gs);
    LastIsLargest(hs, f);
    LastIsLargest(gs, e);
  }

  lemma FrontsCovered(gs: seq<Hit>, hs: seq<Hit>)
    requires gs != [] && hs != [] && Increasing(gs) && Covered(gs, hs) && Alike(gs[|gs| - 1], hs[|hs| - 1])
    ensures Covered(gs[..|gs| - 1], hs[..|hs| - 1]) && Increasing(gs[..|gs| - 1])
  {
    var m, n := |gs| - 1, |hs| - 1;
    assert gs[m].start == hs[n].start;
    hide Alike;
    forall g | g in gs[..m] ensures exists h | h in hs[..n] :: Alike(g, h) {
      var i :| 0 <= i < m && gs[..m][i] == g;
      assert gs[i] == g && g in gs && g.start < gs[m].start;
      var h := Counterpart(g, gs, hs);
      var j :| 0 <= j < |hs| && hs[j] == h;
      assert hs[..n][j] == h;
    }
  }

  /** On texts that differ in case only, whatever the scan collects and emits on one, it emits
      as many clauses from the same places on the other, differing in case only. On one text,
      in particular, what it emits is determined. */
  lemma CaseDoesNotMatter(s: string, t: string, gs: seq<Hit>, out: seq<Hit>, hs: seq<Hit>, out': seq<Hit>)
    requires SameLetters(s, t)
    requires HitsOf(s, DECISION_PHRASES, gs) && Emits(SortByStart(gs), out)
    requires HitsOf(t, DECISION_PHRASES, hs) && Emits(SortByStart(hs), out')
    ensures AlikeLists(out, out')
  {
    hide HitsOf, Emits, SortByStart, OneEach, NonEmpty, Covered, Increasing;
    AlikeTexts(s, t);
    HitsCovered(s, t, gs, hs);
    HitsCovered(t, s, hs, gs);
    HitsAreOneEach(s, gs);
    HitsAreOneEach(t, hs);
    HitsHaveClauses(s, gs);
    HitsHaveClauses(t, hs);
    SortedAlike(gs, hs);
    SortedAlike(hs, gs);
    var ss, ts := SortByStart(gs), SortByStart(hs);
    EmittedIncrease(ss, out);
    EmittedIncrease(ts, out');
    EmittedCovered(ss, out, ts, out');
    EmittedCovered(ts, out', ss, out);
    PairUp(out, out');
  }

  lemma AlikeTexts(s: string, t: string)
    requires SameLetters(s, t)
    ensures SameLetters(t, s)
  {
    forall k | 0 <= k < |t| ensures SameLetter(t[k], s[k]) {
      assert SameLetter(s[k], t[k]);
    }
  }

  lemma SortedAlike(gs: seq<Hit>, hs: seq<Hit>)
    requires Covered(gs, hs) && OneEach(gs) && NonEmpty(gs)
    ensures Covered(SortByStart(gs), SortByStart(hs)) && OneEach(SortByStart(gs)) && NonEmpty(SortByStart(gs))
  {
    hide SortByStart, Alike;
    SortSorts(gs);
    SortSorts(hs);
    forall g | g in SortByStart(gs) ensures exists h | h in SortByStart(hs) :: Alike(g, h) {
      var h :| h in hs && Alike(g, h);
      assert h in SortByStart(hs);
    }
  }

  lemma EmittedCovered(gs: seq<Hit>, out: seq<Hit>, hs: seq<Hit>, out': seq<Hit>)
    requires Emits(gs, out) && OneEach(gs) && NonEmpty(gs) && Emits(hs, out') && OneEach(hs) && NonEmpty(hs)
    requires Covered(gs, hs) && Covered(hs, gs)
    ensures Covered(out, out')
  {
    forall g | g in out ensures exists h | h in out' :: Alike(g, h) {
      EmittedIsHit(gs, out, g);
      var h :| h in hs && Alike(g, h);
      EmittedAlike(gs, out, hs, out', g.start + 1, g, h);
    }
  }
}
