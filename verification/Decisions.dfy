/** The rule tier's decision scanner. Text is taken as its bytes, one character each, so
    positions are byte offsets. */
module Decisions {
  import opened Wrappers
  import opened Clauses

  const DECISION_PHRASES: seq<string> := [
    "we decided", "we've decided", "decided to", "let's go with", "lets go with", "let's use", "lets use",
    "we'll use", "agreed to", "agreed on", "settled on", "going with", "opted for", "chose to"
  ]

  /** One trigger: where it starts, where its clause starts, and the trimmed clause. */
  datatype Hit = Hit(start: nat, clauseStart: nat, clause: string) {
    /** Up to where later clauses count as overlapping. */
    function Mark(): nat {
      clauseStart + |clause|
    }
  }

  // ---------- hits ----------

  function Lower(c: char): char {
    if 'A' <= c <= 'Z' then (c - 'A') + 'a' else c
  }

  function ToAsciiLowercase(s: string): string {
    seq(|s|, i requires 0 <= i < |s| => Lower(s[i]))
  }

  predicate OccursAt(s: string, phrase: string, i: nat) {
    i + |phrase| <= |s| && s[i..i + |phrase|] == phrase
  }

  predicate IsWordChar(c: char) {
    'a' <= c <= 'z' || 'A' <= c <= 'Z' || '0' <= c <= '9' || c == '_'
  }

  predicate LeftBounded(s: string, i: nat)
    requires i <= |s|
  {
    i > 0 ==> !IsWordChar(s[i - 1])
  }

  function From(text: string, i: nat): string {
    if i <= |text| then text[i..] else ""
  }

  function HitAt(text: string, phrase: string, i: nat): Hit {
    var clauseStart := i + |phrase|;
    Hit(i, clauseStart, TakeClause(From(text, clauseStart)))
  }

  /** The phrase stands at `i`, at the start of a word, with something after it. */
  predicate Triggers(text: string, phrase: string, i: nat) {
    && OccursAt(ToAsciiLowercase(text), phrase, i)
    && LeftBounded(ToAsciiLowercase(text), i)
    && HitAt(text, phrase, i).clause != ""
  }

  /** No two occurrences of the phrase can overlap. */
  ghost predicate Unbordered(phrase: string) {
    forall d | 0 < d < |phrase| :: phrase[d..] != phrase[..|phrase| - d]
  }

  lemma OccurrencesApart(s: string, phrase: string, i: nat, j: nat)
    requires Unbordered(phrase) && OccursAt(s, phrase, i) && OccursAt(s, phrase, j) && i < j
    ensures i + |phrase| <= j
  {
    if j < i + |phrase| {
      OverlapBorders(s, phrase, i, j);
    }
  }

  lemma OverlapBorders(s: string, phrase: string, i: nat, j: nat)
    requires OccursAt(s, phrase, i) && OccursAt(s, phrase, j) && i < j < i + |phrase|
    ensures phrase[j - i..] == phrase[..|phrase| - (j - i)]
  {
    assert phrase[j - i..] == s[j..i + |phrase|] == phrase[..|phrase| - (j - i)];
  }

  /** A first character that occurs once rules out overlaps. */
  lemma FirstIsUnique(phrase: string)
    requires forall k | 0 < k < |phrase| :: phrase[k] != phrase[0]
    ensures Unbordered(phrase)
  {
    forall d | 0 < d < |phrase| ensures phrase[d..] != phrase[..|phrase| - d] {
      assert phrase[d..][0] == phrase[d] && phrase[..|phrase| - d][0] == phrase[0];
    }
  }

  /** And so does a last character that occurs once. */
  lemma LastIsUnique(phrase: string)
    requires forall k | 0 <= k < |phrase| - 1 :: phrase[k] != phrase[|phrase| - 1]
    ensures Unbordered(phrase)
  {
    forall d | 0 < d < |phrase| ensures phrase[d..] != phrase[..|phrase| - d] {
      var k := |phrase| - d - 1;
      assert phrase[d..][k] == phrase[|phrase| - 1] && phrase[..|phrase| - d][k] == phrase[k];
    }
  }

  /** All fourteen phrases are looked for. */
  lemma PhrasesAreListed()
    ensures |DECISION_PHRASES| == 14
    ensures forall phrase | phrase in {"we decided", "we've decided", "decided to", "let's go with", "lets go with",
                                       "let's use", "lets use", "we'll use", "agreed to", "agreed on", "settled on",
                                       "going with", "opted for", "chose to"} :: phrase in DECISION_PHRASES
  {
    forall k | 0 <= k < 14 ensures DECISION_PHRASES[k] in DECISION_PHRASES {}
  }

  /** None of the decision phrases overlaps itself. */
  lemma PhrasesAreUnbordered()
    ensures forall phrase | phrase in DECISION_PHRASES :: phrase != "" && Unbordered(phrase)
  {
    hide Unbordered;
    FirstIsUnique("we decided");
    FirstIsUnique("we've decided");
    LastIsUnique("decided to");
    FirstIsUnique("let's go with");
    FirstIsUnique("lets go with");
    FirstIsUnique("let's use");
    FirstIsUnique("lets use");
    FirstIsUnique("we'll use");
    FirstIsUnique("agreed to");
    FirstIsUnique("agreed on");
    LastIsUnique("settled on");
    LastIsUnique("going with");
    LastIsUnique("opted for");
    FirstIsUnique("chose to");
  }

  /** `str::find`: the first occurrence at or after `from`. */
  function FindFrom(s: string, phrase: string, from: nat): (found: Option<nat>)
    requires from <= |s|
    ensures found.Some? ==> from <= found.value && OccursAt(s, phrase, found.value)
    ensures found.Some? ==> forall i | from <= i < found.value :: !OccursAt(s, phrase, i)
    ensures found.None? ==> forall i | from <= i <= |s| :: !OccursAt(s, phrase, i)
    decreases |s| - from
  {
    if OccursAt(s, phrase, from) then Some(from)
    else if from == |s| then None
    else FindFrom(s, phrase, from + 1)
  }

  /** The hits below `limit` are exactly the triggers there, in order. */
  ghost predicate HitsBelow(text: string, phrase: string, hits: seq<Hit>, limit: nat) {
    && (forall h | h in hits :: h.start < limit && Triggers(text, phrase, h.start) && h == HitAt(text, phrase, h.start))
    && (forall i: nat | i < limit && Triggers(text, phrase, i) :: HitAt(text, phrase, i) in hits)
    && (forall i, j | 0 <= i < j < |hits| :: hits[i].start < hits[j].start)
  }

  method PhraseHits(text: string, lower: string, phrase: string) returns (hits: seq<Hit>)
    requires lower == ToAsciiLowercase(text) && phrase != "" && Unbordered(phrase)
    ensures HitsBelow(text, phrase, hits, |text| + 1)
  {
    hide FindFrom, Unbordered, HitsBelow, TakeClause;
    hits := [];
    var searchFrom: nat := 0;
    var next := FindFrom(lower, phrase, searchFrom);
    NoHitsYet(text, phrase);
    while next.Some?
      invariant searchFrom <= |lower| && next == FindFrom(lower, phrase, searchFrom)
      invariant HitsBelow(text, phrase, hits, searchFrom)
      decreases |lower| - searchFrom
    {
      var abs := next.value;
      SkipTo(text, phrase, hits, searchFrom, abs);
      SkipPast(text, phrase, hits, abs);
      if abs > 0 && IsWordChar(lower[abs - 1]) {
        searchFrom := abs + |phrase|;
      } else {
        var clauseStart := abs + |phrase|;
        var clause := TakeClause(text[clauseStart..]);
        if clause != "" {
          hits := hits + [Hit(abs, clauseStart, clause)];
        }
        searchFrom := clauseStart;
      }
      next := FindFrom(lower, phrase, searchFrom);
    }
    SkipTo(text, phrase, hits, searchFrom, |text| + 1);
  }

  lemma NoHitsYet(text: string, phrase: string)
    ensures HitsBelow(text, phrase, [], 0)
  {
  }

  /** Nothing triggers where the phrase does not occur. */
  lemma SkipTo(text: string, phrase: string, hits: seq<Hit>, from: nat, to: nat)
    requires HitsBelow(text, phrase, hits, from) && from <= to
    requires forall i | from <= i < to :: !OccursAt(ToAsciiLowercase(text), phrase, i)
    ensures HitsBelow(text, phrase, hits, to)
  {
    hide HitAt, OccursAt, ToAsciiLowercase;
    assert forall i: nat | from <= i < to :: !Triggers(text, phrase, i);
    hide Triggers;
  }

  /** Past one occurrence nothing else triggers until it ends. */
  lemma SkipPast(text: string, phrase: string, hits: seq<Hit>, abs: nat)
    requires HitsBelow(text, phrase, hits, abs) && phrase != "" && Unbordered(phrase)
    requires OccursAt(ToAsciiLowercase(text), phrase, abs)
    ensures var now := if Triggers(text, phrase, abs) then hits + [HitAt(text, phrase, abs)] else hits;
            HitsBelow(text, phrase, now, abs + |phrase|)
  {
    hide Triggers, HitAt, OccursAt, Unbordered, ToAsciiLowercase;
    StartOfHit(text, phrase, abs);
    forall i: nat | abs < i < abs + |phrase| ensures !Triggers(text, phrase, i) {
      NoneInside(text, phrase, abs, i);
    }
  }

  lemma NoneInside(text: string, phrase: string, abs: nat, i: nat)
    requires Unbordered(phrase) && OccursAt(ToAsciiLowercase(text), phrase, abs) && abs < i < abs + |phrase|
    ensures !Triggers(text, phrase, i)
  {
    hide Unbordered, ToAsciiLowercase, HitAt;
    if Triggers(text, phrase, i) {
      OccurrencesApart(ToAsciiLowercase(text), phrase, abs, i);
    }
  }

  lemma StartOfHit(text: string, phrase: string, i: nat)
    ensures HitAt(text, phrase, i).start == i
    ensures Triggers(text, phrase, i) ==> i <= |text|
  {
  }

  // ---------- emission ----------

  function InsertByStart(hits: seq<Hit>, h: Hit): seq<Hit> {
    if hits == [] then [h]
    else if hits[0].start <= h.start then [hits[0]] + InsertByStart(hits[1..], h)
    else [h] + hits
  }

  /** The stable sort by trigger start. */
  function SortByStart(hits: seq<Hit>): seq<Hit> {
    if hits == [] then [] else InsertByStart(SortByStart(hits[..|hits| - 1]), hits[|hits| - 1])
  }

  ghost predicate ByStart(hits: seq<Hit>) {
    forall i, j | 0 <= i < j < |hits| :: hits[i].start <= hits[j].start
  }

  lemma ByStartCons(h: Hit, hits: seq<Hit>)
    requires ByStart(hits) && forall x | x in hits :: h.start <= x.start
    ensures ByStart([h] + hits)
  {
    assert forall i | 0 <= i < |hits| :: hits[i] in hits;
  }

  lemma ByStartTail(hits: seq<Hit>)
    requires ByStart(hits) && hits != []
    ensures ByStart(hits[1..]) && forall x | x in hits :: hits[0].start <= x.start
  {
  }

  lemma NothingByStart()
    ensures ByStart([])
  {
  }

  lemma {:induction false} InsertSorts(hits: seq<Hit>, h: Hit)
    requires ByStart(hits)
    ensures ByStart(InsertByStart(hits, h)) && multiset(InsertByStart(hits, h)) == multiset(hits) + multiset{h}
    ensures forall x :: x in InsertByStart(hits, h) <==> x in hits || x == h
  {
    hide ByStart;
    if hits == [] {
      NothingByStart();
      ByStartCons(h, []);
      assert [h] + [] == [h];
    } else {
      ByStartTail(hits);
      assert hits == [hits[0]] + hits[1..];
      if hits[0].start <= h.start {
        InsertSorts(hits[1..], h);
        ByStartCons(hits[0], InsertByStart(hits[1..], h));
      } else {
        ByStartCons(h, hits);
      }
    }
  }

  lemma {:induction false} SortSorts(hits: seq<Hit>)
    ensures ByStart(SortByStart(hits)) && multiset(SortByStart(hits)) == multiset(hits)
    ensures forall x :: x in SortByStart(hits) <==> x in hits
  {
    hide ByStart;
    if hits == [] {
      NothingByStart();
    } else {
      var front, last := hits[..|hits| - 1], hits[|hits| - 1];
      SortSorts(front);
      InsertSorts(SortByStart(front), last);
      assert hits == front + [last];
    }
  }

  /** `h` was passed over because of an earlier emitted hit that reaches past its clause start. */
  predicate Absorbed(out: seq<Hit>, h: Hit) {
    exists e | e in out :: e.start <= h.start && h.clauseStart < e.Mark()
  }

  /** Starts never decrease, and each clause starts at or past every earlier mark. */
  ghost predicate Spaced(out: seq<Hit>) {
    forall i, j | 0 <= i < j < |out| :: out[i].start <= out[j].start && out[j].clauseStart >= out[i].Mark()
  }

  /** What emission must do with hits in order of start. */
  ghost predicate Emits(sorted: seq<Hit>, out: seq<Hit>) {
    && (forall e | e in out :: e in sorted)
    && Spaced(out)
    && (forall h | h in sorted :: h in out || Absorbed(out, h))
  }

  /** `h` is a hit of one of the phrases. */
  ghost predicate HitOf(text: string, phrases: seq<string>, h: Hit) {
    exists phrase | phrase in phrases :: Triggers(text, phrase, h.start) && h == HitAt(text, phrase, h.start)
  }

  ghost predicate HitsOf(text: string, phrases: seq<string>, hits: seq<Hit>) {
    forall h :: h in hits <==> HitOf(text, phrases, h)
  }

  lemma NoPhrases(text: string)
    ensures HitsOf(text, [], [])
  {
  }

  lemma OnePhraseMore(text: string, phrases: seq<string>, hits: seq<Hit>, phrase: string, found: seq<Hit>)
    requires HitsOf(text, phrases, hits) && HitsBelow(text, phrase, found, |text| + 1)
    ensures HitsOf(text, phrases + [phrase], hits + found)
  {
    hide Triggers, HitAt;
    forall h ensures h in hits + found <==> HitOf(text, phrases + [phrase], h) {
      assert phrase in phrases + [phrase];
      StartOfHit(text, phrase, h.start);
      if h in hits {
        var p :| p in phrases && Triggers(text, p, h.start) && h == HitAt(text, p, h.start);
        assert p in phrases + [phrase];
      }
    }
  }

  /** The scan: every phrase in turn. */
  method CollectHits(text: string, phrases: seq<string>) returns (hits: seq<Hit>)
    requires forall phrase | phrase in phrases :: phrase != "" && Unbordered(phrase)
    ensures HitsOf(text, phrases, hits)
  {
    hide Triggers, HitAt, Unbordered, HitsBelow, HitsOf, ToAsciiLowercase;
    var lower := ToAsciiLowercase(text);
    hits := [];
    NoPhrases(text);
    for k := 0 to |phrases|
      invariant HitsOf(text, phrases[..k], hits)
    {
      assert phrases[k] in phrases;
      var found := PhraseHits(text, lower, phrases[k]);
      OnePhraseMore(text, phrases[..k], hits, phrases[k], found);
      assert phrases[..k + 1] == phrases[..k] + [phrases[k]];
      hits := hits + found;
    }
    assert phrases[..|phrases|] == phrases;
  }

  lemma EmitNothing()
    ensures Emits([], [])
  {
  }

  lemma EmitNext(sorted: seq<Hit>, out: seq<Hit>, k: nat)
    requires ByStart(sorted) && k < |sorted| && Emits(sorted[..k], out)
    ensures var h, mark := sorted[k], if out == [] then 0 else out[|out| - 1].Mark();
            Emits(sorted[..k + 1], if h.clauseStart >= mark then out + [h] else out)
  {
    hide Emits;
    var h := sorted[k];
    assert sorted[..k + 1] == sorted[..k] + [h];
    if out != [] && h.clauseStart < out[|out| - 1].Mark() {
      PassOver(sorted[..k], out, h);
    } else {
      EmitOne(sorted[..k], out, h);
    }
  }

  lemma PassOver(seen: seq<Hit>, out: seq<Hit>, h: Hit)
    requires Emits(seen, out) && (forall g | g in seen :: g.start <= h.start)
    requires out != [] && h.clauseStart < out[|out| - 1].Mark()
    ensures Emits(seen + [h], out)
  {
    assert out[|out| - 1] in out;
    assert Absorbed(out, h);
  }

  lemma EmitOne(seen: seq<Hit>, out: seq<Hit>, h: Hit)
    requires Emits(seen, out) && (forall g | g in seen :: g.start <= h.start)
    requires out != [] ==> h.clauseStart >= out[|out| - 1].Mark()
    ensures Emits(seen + [h], out + [h])
  {
    SpacedStill(out, h);
    hide Absorbed, Spaced;
    forall g | g in seen + [h] ensures g in out + [h] || Absorbed(out + [h], g) {
      if g != h && g !in out {
        StillAbsorbed(out, h, g);
      }
    }
  }

  lemma SpacedStill(out: seq<Hit>, h: Hit)
    requires Spaced(out) && (forall g | g in out :: g.start <= h.start)
    requires out != [] ==> h.clauseStart >= out[|out| - 1].Mark()
    ensures Spaced(out + [h])
  {
    forall i | 0 <= i < |out| ensures out[i].start <= h.start && h.clauseStart >= out[i].Mark() {
      assert out[i] in out;
    }
  }

  lemma StillAbsorbed(out: seq<Hit>, h: Hit, g: Hit)
    requires Absorbed(out, g)
    ensures Absorbed(out + [h], g)
  {
    var e :| e in out && e.start <= g.start && g.clauseStart < e.Mark();
    assert e in out + [h];
  }

  /** The emission: each hit whose clause starts at or past the last mark. */
  method EmitHits(sorted: seq<Hit>) returns (out: seq<Hit>)
    requires ByStart(sorted)
    ensures Emits(sorted, out)
  {
    hide Emits, ByStart;
    out := [];
    var coveredUntil: nat := 0;
    EmitNothing();
    for k := 0 to |sorted|
      invariant Emits(sorted[..k], out)
      invariant coveredUntil == if out == [] then 0 else out[|out| - 1].Mark()
    {
      EmitNext(sorted, out, k);
      var h := sorted[k];
      if h.clauseStart >= coveredUntil {
        coveredUntil := h.clauseStart + |h.clause|;
        out := out + [h];
      }
    }
    assert sorted[..|sorted|] == sorted;
  }

  /** Scan for every phrase, sort by where each trigger starts, emit. */
  method ExtractDecisions(text: string) returns (hits: seq<Hit>, out: seq<Hit>)
    ensures HitsOf(text, DECISION_PHRASES, hits)
    ensures ByStart(SortByStart(hits)) && Emits(SortByStart(hits), out)
    ensures forall i, j | 0 <= i < j < |out| :: out[i].clauseStart < out[j].clauseStart
  {
    hide HitsOf, Emits, Unbordered;
    PhrasesAreUnbordered();
    hits := CollectHits(text, DECISION_PHRASES);
    SortSorts(hits);
    out := EmitHits(SortByStart(hits));
    ClauseStartsIncrease(text, DECISION_PHRASES, hits, out);
  }

  /** No clause is empty, so the emitted clauses start further and further on. */
  lemma ClauseStartsIncrease(text: string, phrases: seq<string>, hits: seq<Hit>, out: seq<Hit>)
    requires HitsOf(text, phrases, hits) && Emits(SortByStart(hits), out)
    ensures forall i, j | 0 <= i < j < |out| :: out[i].clauseStart < out[j].clauseStart
  {
    hide TakeClause, OccursAt, LeftBounded, ToAsciiLowercase, Absorbed, SortByStart;
    SortSorts(hits);
    forall i, j | 0 <= i < j < |out| ensures out[i].clauseStart < out[j].clauseStart {
      assert out[i] in out;
      assert HitOf(text, phrases, out[i]);
    }
  }

  // ---------- the span of a clause ----------

  /** Where the text of an emitted clause really ends. */
  function SpanEnd(text: string, h: Hit): nat {
    h.clauseStart + Leading(From(text, h.clauseStart)) + |h.clause|
  }

  /** The mark counts from where the trigger ends, not from where the clause begins: it is the
      end of the clause's span exactly when no white space stands between them. */
  lemma MarkIsSpanEndIff(text: string, phrase: string, i: nat)
    ensures Triggers(text, phrase, i) ==>
            var h := HitAt(text, phrase, i);
            && h.clauseStart <= h.Mark() <= SpanEnd(text, h) <= |text|
            && text[SpanEnd(text, h) - |h.clause|..SpanEnd(text, h)] == h.clause
            && (h.Mark() == SpanEnd(text, h) <==> SpaceLength(text[h.clauseStart..]) == 0)
  {
    hide TakeClause, Leading, SpaceLength, LeftBounded;
    if Triggers(text, phrase, i) {
      var h := HitAt(text, phrase, i);
      assert h.clauseStart <= |text| && h.clause == TakeClause(text[h.clauseStart..]) && h.clause != "";
      SpanIn(text, h.clauseStart);
    }
  }

  lemma SpanIn(text: string, at: nat)
    requires at <= |text|
    ensures TakeClause(text[at..]) != "" ==>
            var clause, k := TakeClause(text[at..]), Leading(text[at..]);
            && at + k + |clause| <= |text| && text[at + k..at + k + |clause|] == clause
            && (k == 0 <==> SpaceLength(text[at..]) == 0)
  {
    hide TakeClause, Leading, SpaceLength;
    var rest := text[at..];
    var clause, k := TakeClause(rest), Leading(rest);
    ClauseSpan(rest);
    if clause != "" {
      assert text[at + k..at + k + |clause|] == rest[k..k + |clause|];
    }
  }

  // ---------- when emitted clauses overlap ----------

  /** A clause begins inside the span of an earlier one. */
  ghost predicate Overlaps(text: string, out: seq<Hit>) {
    exists i, j | 0 <= i < j < |out| :: out[j].clauseStart < SpanEnd(text, out[i])
  }

  /** `h` begins past the mark of `e` but still inside its span. */
  predicate InGap(text: string, e: Hit, h: Hit) {
    e.Mark() <= h.clauseStart < SpanEnd(text, e)
  }

  /** Later triggers have later clauses: no trigger lies inside another. */
  ghost predicate Aligned(hits: seq<Hit>) {
    forall x, y | x in hits && y in hits && x.start <= y.start :: x.clauseStart <= y.clauseStart
  }

  ghost predicate NonEmpty(hits: seq<Hit>) {
    forall h | h in hits :: h.clause != ""
  }

  lemma GapEmits(text: string, sorted: seq<Hit>, out: seq<Hit>, e: Hit, h: Hit)
    requires Aligned(sorted) && NonEmpty(sorted) && Emits(sorted, out)
    requires e in out && h in sorted && InGap(text, e, h)
    ensures Overlaps(text, out)
  {
    hide SpanEnd, Spaced, Overlaps;
    var i :| 0 <= i < |out| && out[i] == e;
    if h in out {
      var j :| 0 <= j < |out| && out[j] == h;
      OverlapAt(text, out, i, j);
    } else {
      assert Absorbed(out, h);
      var f :| f in out && f.start <= h.start && h.clauseStart < f.Mark();
      assert f in sorted;
      var j :| 0 <= j < |out| && out[j] == f;
      OverlapAt(text, out, i, j);
    }
  }

  lemma OverlapAt(text: string, out: seq<Hit>, i: nat, j: nat)
    requires Spaced(out) && i < |out| && j < |out|
    requires out[j].clauseStart < SpanEnd(text, out[i]) && out[i].Mark() < out[j].Mark()
    ensures Overlaps(text, out)
  {
    hide SpanEnd;
    LaterMarkIsLater(out, i, j);
  }

  lemma LaterMarkIsLater(out: seq<Hit>, i: nat, j: nat)
    requires Spaced(out) && i < |out| && j < |out| && out[i].Mark() < out[j].Mark()
    ensures i < j
  {
  }

  /** For every text, emitted clauses overlap exactly when some hit begins in the gap between
      the mark and the span's end of an emitted one. */
  lemma EmissionOverlapsIff(text: string, hits: seq<Hit>, out: seq<Hit>)
    requires HitsOf(text, DECISION_PHRASES, hits) && Emits(SortByStart(hits), out)
    ensures Overlaps(text, out) <==> exists e, h | e in out && h in hits :: InGap(text, e, h)
  {
    hide HitsOf, SpanEnd, SortByStart, Aligned, NonEmpty, Absorbed;
    SortSorts(hits);
    HitsAreAligned(text, hits);
    HitsHaveClauses(text, hits);
    AlignedAlike(hits, SortByStart(hits));
    if Overlaps(text, out) {
      var i, j :| 0 <= i < j < |out| && out[j].clauseStart < SpanEnd(text, out[i]);
      assert out[i] in out && out[j] in out;
      assert InGap(text, out[i], out[j]);
    }
    if e, h :| e in out && h in hits && InGap(text, e, h) {
      GapEmits(text, SortByStart(hits), out, e, h);
    }
  }

  lemma AlignedAlike(hits: seq<Hit>, sorted: seq<Hit>)
    requires Aligned(hits) && NonEmpty(hits) && forall x :: x in sorted <==> x in hits
    ensures Aligned(sorted) && NonEmpty(sorted)
  {
  }

  lemma HitsHaveClauses(text: string, hits: seq<Hit>)
    requires HitsOf(text, DECISION_PHRASES, hits)
    ensures NonEmpty(hits)
  {
    hide OccursAt, LeftBounded, TakeClause, ToAsciiLowercase;
    forall h | h in hits ensures h.clause != "" {
      assert HitOf(text, DECISION_PHRASES, h);
    }
  }

  lemma HitsAreAligned(text: string, hits: seq<Hit>)
    requires HitsOf(text, DECISION_PHRASES, hits)
    ensures Aligned(hits)
  {
    hide Triggers, HitAt;
    forall x, y | x in hits && y in hits && x.start <= y.start ensures x.clauseStart <= y.clauseStart {
      assert HitOf(text, DECISION_PHRASES, x) && HitOf(text, DECISION_PHRASES, y);
      var p :| p in DECISION_PHRASES && Triggers(text, p, x.start) && x == HitAt(text, p, x.start);
      var q :| q in DECISION_PHRASES && Triggers(text, q, y.start) && y == HitAt(text, q, y.start);
      LaterEndsLater(text, p, x.start, q, y.start);
    }
  }

  lemma LaterEndsLater(text: string, p: string, i: nat, q: string, j: nat)
    requires p in DECISION_PHRASES && q in DECISION_PHRASES && i <= j
    ensures Triggers(text, p, i) && Triggers(text, q, j) ==>
            HitAt(text, p, i).clauseStart <= HitAt(text, q, j).clauseStart
  {
    hide ToAsciiLowercase, TakeClause;
    if Triggers(text, p, i) && Triggers(text, q, j) {
      NoPhraseInsideAnother(ToAsciiLowercase(text), p, i, q, j);
    }
  }

  /** A phrase at the start of a word never ends before another that began no later. */
  lemma NoPhraseInsideAnother(s: string, p: string, i: nat, q: string, j: nat)
    requires p in DECISION_PHRASES && q in DECISION_PHRASES && i <= j
    requires OccursAt(s, p, i) && OccursAt(s, q, j) && LeftBounded(s, j)
    ensures i + |p| <= j + |q|
  {
    PhraseLengths(p);
    PhraseLengths(q);
    if j + |q| < i + |p| {
      InsideOccurrence(s, p, i, q, j);
      if i == j {
        PhraseByLetters(p);
        PhraseByLetters(q);
      } else {
        WordsInside(p, j - i);
        FirstTwoLetters(q);
      }
    }
  }

  lemma InsideOccurrence(s: string, p: string, i: nat, q: string, j: nat)
    requires OccursAt(s, p, i) && OccursAt(s, q, j) && LeftBounded(s, j)
    requires i <= j && j + |q| <= i + |p|
    ensures forall k | 0 <= k < |q| :: q[k] == p[j - i + k]
    ensures i < j ==> !IsWordChar(p[j - i - 1])
  {
    forall k | 0 <= k < |q| ensures q[k] == p[j - i + k] {
      assert q[k] == s[j..j + |q|][k] == s[j + k];
      assert p[j - i + k] == s[i..i + |p|][j - i + k] == s[j + k];
    }
    if i < j {
      assert p[j - i - 1] == s[i..i + |p|][j - i - 1] == s[j - 1];
    }
  }

  lemma PhraseLengths(p: string)
    requires p in DECISION_PHRASES
    ensures 8 <= |p| <= 13
  {
  }

  /** Three letters tell the phrases apart. */
  function PhraseBy(a: char, b: char, c: char): string {
    if a == 'w' then (if b == 'd' then "we decided" else if b == 'v' then "we've decided" else "we'll use")
    else if a == 'l' then
      (if b == 's' then (if c == 'e' then "lets use" else "lets go with")
       else if c == 's' then "let's use" else "let's go with")
    else if a == 'a' then (if c == 't' then "agreed to" else "agreed on")
    else if a == 'd' then "decided to"
    else if a == 's' then "settled on"
    else if a == 'g' then "going with"
    else if a == 'o' then "opted for"
    else "chose to"
  }

  lemma PhraseByLetters(p: string)
    requires p in DECISION_PHRASES
    ensures |p| >= 8 && p == PhraseBy(p[0], p[3], p[7])
  {
  }

  /** Where a word starts early inside a phrase, no phrase starts. */
  lemma WordsInside(p: string, d: nat)
    requires p in DECISION_PHRASES && 0 < d && d + 8 < |p| && !IsWordChar(p[d - 1])
    ensures p[d] == 'v' || (p[d] == 's' && p[d + 1] == ' ')
  {
  }

  lemma FirstTwoLetters(q: string)
    requires q in DECISION_PHRASES
    ensures |q| >= 2 && q[0] != 'v' && (q[0] == 's' ==> q[1] == 'e')
  {
  }

  /** So a clause that begins inside the last emitted clause's span can be emitted all the same:
      on this text the scan emits two clauses, and the second is the last word of the first. */
  lemma OverlapCanBeEmitted()
    ensures var text, a, b := "opted for  chose to b", Hit(0, 9, "chose to b"), Hit(11, 19, "b");
            && (forall hits, out | HitsOf(text, DECISION_PHRASES, hits) && Emits(SortByStart(hits), out) ::
                  out == [a, b])
            && a.clauseStart <= b.clauseStart < SpanEnd(text, a)
  {
    var text, a, b := "opted for  chose to b", Hit(0, 9, "chose to b"), Hit(11, 19, "b");
    hide HitsOf, Emits, TakeClause, Leading;
    ClausesOfTheExample(text);
    forall hits, out | HitsOf(text, DECISION_PHRASES, hits) && Emits(SortByStart(hits), out) ensures out == [a, b] {
      HitsOfTheExample(text, hits);
      SortSorts(hits);
      BothEmitted(SortByStart(hits), out, a, b);
    }
  }

  lemma HitsOfTheExample(text: string, hits: seq<Hit>)
    requires text == "opted for  chose to b" && HitsOf(text, DECISION_PHRASES, hits)
    ensures forall h :: h in hits <==> h == Hit(0, 9, "chose to b") || h == Hit(11, 19, "b")
  {
    hide Triggers, HitAt;
    FirstTrigger(text);
    SecondTrigger(text);
    forall h ensures h in hits <==> h == Hit(0, 9, "chose to b") || h == Hit(11, 19, "b") {
      if h in hits {
        var phrase :|
          phrase in DECISION_PHRASES && Triggers(text, phrase, h.start) && h == HitAt(text, phrase, h.start);
        OnlyTwoTriggers(text, phrase, h.start);
      }
      ListsBoth(text, h);
    }
  }

  lemma ListsBoth(text: string, h: Hit)
    requires text == "opted for  chose to b"
    ensures h == Hit(0, 9, "chose to b") || h == Hit(11, 19, "b") ==> HitOf(text, DECISION_PHRASES, h)
  {
    hide Triggers, HitAt;
    FirstTrigger(text);
    SecondTrigger(text);
    assert DECISION_PHRASES[12] == "opted for" && DECISION_PHRASES[13] == "chose to";
  }

  /** Only two phrases begin with a letter that begins a word of the example. */
  lemma OnlyTwoTriggers(text: string, phrase: string, i: nat)
    requires text == "opted for  chose to b" && phrase in DECISION_PHRASES
    ensures Triggers(text, phrase, i) ==> (phrase == "opted for" && i == 0) || (phrase == "chose to" && i == 11)
  {
    hide Triggers, LeftBounded, ToAsciiLowercase;
    if Triggers(text, phrase, i) {
      FirstLetters(phrase);
      ExampleIsLower(text);
      StartsAWord(text, phrase, i);
      ExampleWords(text, i);
    }
  }

  lemma StartsAWord(text: string, phrase: string, i: nat)
    requires phrase != "" && ToAsciiLowercase(text) == text
    ensures Triggers(text, phrase, i) ==> i < |text| && text[i] == phrase[0] && LeftBounded(text, i)
  {
    hide ToAsciiLowercase, HitAt;
    if Triggers(text, phrase, i) {
      assert text[i] == text[i..i + |phrase|][0];
    }
  }

  lemma FirstLetters(phrase: string)
    requires phrase in DECISION_PHRASES
    ensures phrase != "" && (phrase[0] == 'o' ==> phrase == "opted for") && (phrase[0] == 'c' ==> phrase == "chose to")
    ensures phrase[0] != 'f' && phrase[0] != 't' && phrase[0] != 'b' && phrase[0] != ' '
  {
  }

  lemma ExampleWords(text: string, i: nat)
    requires text == "opted for  chose to b" && i < |text| && LeftBounded(text, i)
    ensures i == 0 || i == 11 || text[i] == 'f' || text[i] == 't' || text[i] == 'b' || text[i] == ' '
    ensures text[0] == 'o' && text[11] == 'c'
  {
  }

  /** Of two spaced hits both are emitted, in order. */
  lemma BothEmitted(sorted: seq<Hit>, out: seq<Hit>, a: Hit, b: Hit)
    requires Emits(sorted, out) && forall h :: h in sorted <==> h == a || h == b
    requires a.start < b.start && a.clauseStart < a.Mark() <= b.clauseStart < b.Mark()
    ensures out == [a, b]
  {
    assert a in out && b in out;
    forall k | 0 <= k < |out| ensures out[k] == a || out[k] == b {
      assert out[k] in out;
    }
    if |out| > 2 {
      ThirdDiffers(out, a, b);
    }
  }

  lemma ThirdDiffers(out: seq<Hit>, a: Hit, b: Hit)
    requires |out| > 2 && Spaced(out) && forall k | 0 <= k < |out| :: out[k].clauseStart < out[k].Mark()
    ensures exists k | 0 <= k < |out| :: out[k] != a && out[k] != b
  {
    assert out[0].clauseStart < out[1].clauseStart < out[2].clauseStart;
  }

  lemma ExampleIsLower(text: string)
    requires text == "opted for  chose to b"
    ensures ToAsciiLowercase(text) == text
  {
    assert forall k | 0 <= k < |text| :: Lower(text[k]) == text[k];
  }

  lemma ExampleOccurrences(text: string)
    requires text == "opted for  chose to b"
    ensures OccursAt(text, "opted for", 0) && OccursAt(text, "chose to", 11) && LeftBounded(text, 11)
  {
    assert text[0..9] == "opted for";
    assert text[11..19] == "chose to";
  }

  lemma FirstTrigger(text: string)
    requires text == "opted for  chose to b"
    ensures Triggers(text, "opted for", 0) && HitAt(text, "opted for", 0) == Hit(0, 9, "chose to b")
  {
    hide ToAsciiLowercase, TakeClause, Leading, OccursAt;
    ClausesOfTheExample(text);
    ExampleIsLower(text);
    ExampleOccurrences(text);
  }

  lemma SecondTrigger(text: string)
    requires text == "opted for  chose to b"
    ensures Triggers(text, "chose to", 11) && HitAt(text, "chose to", 11) == Hit(11, 19, "b")
  {
    hide ToAsciiLowercase, TakeClause, Leading, OccursAt, LeftBounded;
    ClausesOfTheExample(text);
    ExampleIsLower(text);
    ExampleOccurrences(text);
  }

  lemma ClausesOfTheExample(text: string)
    requires text == "opted for  chose to b"
    ensures TakeClause(text[9..]) == "chose to b" && Leading(text[9..]) == 2 && TakeClause(text[19..]) == "b"
  {
    hide TakeClause, Leading, AllSpace;
    SomeBlanks();
    ClauseAfterSpace("  ", "chose to b");
    ClauseAfterSpace(" ", "b");
    assert text[9..] == "  " + "chose to b";
    assert text[19..] == " " + "b";
  }

  lemma SomeBlanks()
    ensures AllSpace(" ") && AllSpace("  ")
  {
    assert " "[1..] == "" && "  "[1..] == " ";
  }
}
