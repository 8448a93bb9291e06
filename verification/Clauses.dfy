/** The clause after a decision phrase: the rest of its sentence, trimmed. Text is UTF-8, one
    byte to a character; white space is whatever Unicode gives the White_Space property. */
module Clauses {

  predicate IsTerminator(c: char) {
    c == '.' || c == '!' || c == '?' || c == '\n'
  }

  /** `str::find` of a terminator: all that comes before the first one. */
  function UpToTerminator(s: string): (r: string)
    ensures r <= s && forall c | c in r :: c != '.' && c != '!' && c != '?' && c != '\n'
    ensures |r| < |s| ==> var c := s[|r|]; c == '.' || c == '!' || c == '?' || c == '\n'
  {
    if s == "" || IsTerminator(s[0]) then "" else [s[0]] + UpToTerminator(s[1..])
  }

  // ---------- white space ----------

  /** U+0009 to U+000D and U+0020. */
  predicate IsSpace1(a: char) {
    a == ' ' || 9 <= a as int <= 13
  }

  /** U+0085 and U+00A0. */
  predicate IsSpace2(a: char, b: char) {
    a as int == 0xC2 && (b as int == 0x85 || b as int == 0xA0)
  }

  /** U+1680, U+2000 to U+200A, U+2028, U+2029, U+202F, U+205F and U+3000. */
  predicate IsSpace3(a: char, b: char, c: char) {
    || (a as int == 0xE1 && b as int == 0x9A && c as int == 0x80)
    || (a as int == 0xE2 && b as int == 0x80
        && (0x80 <= c as int <= 0x8A || c as int == 0xA8 || c as int == 0xA9 || c as int == 0xAF))
    || (a as int == 0xE2 && b as int == 0x81 && c as int == 0x9F)
    || (a as int == 0xE3 && b as int == 0x80 && c as int == 0x80)
  }

  /** How many bytes the white space opening `s` takes, or 0. */
  function SpaceLength(s: string): (n: nat)
    ensures n <= |s| && n <= 3
  {
    if |s| >= 1 && IsSpace1(s[0]) then 1
    else if |s| >= 2 && IsSpace2(s[0], s[1]) then 2
    else if |s| >= 3 && IsSpace3(s[0], s[1], s[2]) then 3
    else 0
  }

  /** How many bytes the white space closing `s` takes, or 0. */
  function SpaceAtEnd(s: string): (n: nat)
    ensures n <= |s| && n <= 3
  {
    var n := |s|;
    if n >= 1 && IsSpace1(s[n - 1]) then 1
    else if n >= 2 && IsSpace2(s[n - 2], s[n - 1]) then 2
    else if n >= 3 && IsSpace3(s[n - 3], s[n - 2], s[n - 1]) then 3
    else 0
  }

  /** White space from end to end. */
  predicate AllSpace(s: string)
    decreases |s|
  {
    s == "" || (SpaceLength(s) > 0 && AllSpace(s[SpaceLength(s)..]))
  }

  /** What follows an opening white space does not change it ... */
  lemma SpaceStays(s: string, rest: string)
    requires SpaceLength(s) > 0
    ensures SpaceLength(s + rest) == SpaceLength(s)
  {
  }

  /** ... nor does what precedes a closing one. */
  lemma SpaceAtEndStays(s: string, rest: string)
    requires SpaceAtEnd(rest) > 0
    ensures SpaceAtEnd(s + rest) == SpaceAtEnd(rest)
  {
  }

  /** A closing white space, by itself, is an opening one. */
  lemma ClosingIsSpace(s: string)
    requires SpaceAtEnd(s) > 0
    ensures SpaceLength(s[|s| - SpaceAtEnd(s)..]) == SpaceAtEnd(s)
  {
  }

  lemma OpeningIsSpace(s: string)
    requires SpaceLength(s) > 0
    ensures SpaceAtEnd(s[..SpaceLength(s)]) == SpaceLength(s)
  {
  }

  lemma {:induction false} AllSpaceAppend(a: string, b: string)
    requires AllSpace(a) && AllSpace(b)
    ensures AllSpace(a + b)
    decreases |a|
  {
    hide SpaceLength;
    if a == "" {
      assert a + b == b;
    } else {
      var n := SpaceLength(a);
      SpaceStays(a, b);
      AllSpaceAppend(a[n..], b);
      assert (a + b)[n..] == a[n..] + b;
    }
  }

  lemma OneSpace(s: string)
    requires s != "" && SpaceLength(s) == |s|
    ensures AllSpace(s)
  {
    assert s[|s|..] == "";
  }

  /** White space can be taken apart from its end as well. */
  lemma {:induction false} AllSpaceFromEnd(s: string)
    requires AllSpace(s) && s != ""
    ensures SpaceAtEnd(s) > 0 && AllSpace(s[..|s| - SpaceAtEnd(s)])
    decreases |s|
  {
    hide SpaceLength, SpaceAtEnd;
    var n := SpaceLength(s);
    var first, rest := s[..n], s[n..];
    assert s == first + rest;
    OpeningIsSpace(s);
    if rest == "" {
      assert s == first;
      assert s[..0] == "";
    } else {
      AllSpaceFromEnd(rest);
      SpaceAtEndStays(first, rest);
      var k := SpaceAtEnd(rest);
      assert s[..|s| - k] == first + rest[..|rest| - k];
      FirstIsSpace(s);
      AllSpaceAppend(first, rest[..|rest| - k]);
    }
  }

  lemma FirstIsSpace(s: string)
    requires SpaceLength(s) > 0
    ensures AllSpace(s[..SpaceLength(s)])
  {
    var first := s[..SpaceLength(s)];
    assert SpaceLength(first) == |first|;
    OneSpace(first);
  }

  lemma LastIsSpace(s: string)
    requires SpaceAtEnd(s) > 0
    ensures AllSpace(s[|s| - SpaceAtEnd(s)..])
  {
    ClosingIsSpace(s);
    OneSpace(s[|s| - SpaceAtEnd(s)..]);
  }

  /** The bytes of a code point. */
  function Utf8(c: nat): string
    requires c < 0x110000
  {
    if c < 0x80 then [c as char]
    else if c < 0x800 then [(0xC0 + c / 64) as char, (0x80 + c % 64) as char]
    else if c < 0x10000 then [(0xE0 + c / 4096) as char, (0x80 + c / 64 % 64) as char, (0x80 + c % 64) as char]
    else [(0xF0 + c / 262144) as char, (0x80 + c / 4096 % 64) as char,
          (0x80 + c / 64 % 64) as char, (0x80 + c % 64) as char]
  }

  /** The White_Space property. */
  predicate WhiteSpace(c: nat) {
    || 0x9 <= c <= 0xD || c == 0x20 || c == 0x85 || c == 0xA0 || c == 0x1680 || 0x2000 <= c <= 0x200A
    || c == 0x2028 || c == 0x2029 || c == 0x202F || c == 0x205F || c == 0x3000
  }

  /** Exactly the code points with the property are white space, at either end of a text. */
  lemma SpacesAreWhiteSpace(c: nat, rest: string)
    requires c < 0x110000
    ensures SpaceLength(Utf8(c) + rest) == if WhiteSpace(c) then |Utf8(c)| else 0
    ensures SpaceAtEnd(rest + Utf8(c)) == if WhiteSpace(c) then |Utf8(c)| else 0
  {
    OpensWithSpaceIff(c, rest);
    ClosesWithSpaceIff(c, rest);
    hide SpaceLength, SpaceAtEnd, Utf8, WhiteSpace;
  }

  lemma OpensWithSpaceIff(c: nat, rest: string)
    requires c < 0x110000
    ensures SpaceLength(Utf8(c) + rest) == if WhiteSpace(c) then |Utf8(c)| else 0
  {
  }

  lemma ClosesWithSpaceIff(c: nat, rest: string)
    requires c < 0x110000
    ensures SpaceAtEnd(rest + Utf8(c)) == if WhiteSpace(c) then |Utf8(c)| else 0
  {
  }

  // ---------- trimming ----------

  function TrimStart(s: string): (r: string)
    ensures |r| <= |s|
    decreases |s|
  {
    var n := SpaceLength(s);
    if n > 0 then TrimStart(s[n..]) else s
  }

  function TrimEnd(s: string): (r: string)
    ensures |r| <= |s|
    decreases |s|
  {
    var n := SpaceAtEnd(s);
    if n > 0 then TrimEnd(s[..|s| - n]) else s
  }

  function TrimCommas(s: string): (r: string)
    ensures |r| <= |s|
  {
    if s != "" && s[|s| - 1] == ',' then TrimCommas(s[..|s| - 1]) else s
  }

  lemma TrimStartStep(s: string)
    ensures TrimStart(s) == if SpaceLength(s) > 0 then TrimStart(s[SpaceLength(s)..]) else s
  {
  }

  lemma TrimEndStep(s: string)
    ensures TrimEnd(s) == if SpaceAtEnd(s) > 0 then TrimEnd(s[..|s| - SpaceAtEnd(s)]) else s
  {
  }

  lemma {:induction false} TrimStartDropsSpace(s: string)
    ensures var i := |s| - |TrimStart(s)|;
            TrimStart(s) == s[i..] && AllSpace(s[..i]) && SpaceLength(TrimStart(s)) == 0
    decreases |s|
  {
    hide SpaceLength, AllSpace, TrimStart;
    var n := SpaceLength(s);
    TrimStartStep(s);
    if n > 0 {
      TrimStartDropsSpace(s[n..]);
      FirstIsSpace(s);
      var i := |s[n..]| - |TrimStart(s)|;
      AllSpaceAppend(s[..n], s[n..][..i]);
      Nested(s, n, i);
    } else {
      NoSpace(s);
    }
  }

  lemma Nested(s: string, n: nat, i: nat)
    requires n + i <= |s|
    ensures s[..n] + s[n..][..i] == s[..n + i] && s[n..][i..] == s[n + i..]
  {
  }

  lemma NoSpace(s: string)
    ensures AllSpace(s[..0]) && s[0..] == s && AllSpace(s[|s|..]) && s[..|s|] == s
  {
    assert s[..0] == "" && s[|s|..] == "";
  }

  lemma {:induction false} TrimEndDropsSpace(s: string)
    ensures TrimEnd(s) <= s && AllSpace(s[|TrimEnd(s)|..]) && SpaceAtEnd(TrimEnd(s)) == 0
    decreases |s|
  {
    hide SpaceLength, SpaceAtEnd, AllSpace, TrimEnd;
    var n := SpaceAtEnd(s);
    TrimEndStep(s);
    if n > 0 {
      var front := s[..|s| - n];
      TrimEndDropsSpace(front);
      LastIsSpace(s);
      AllSpaceAppend(front[|TrimEnd(s)|..], s[|s| - n..]);
      NestedEnd(s, |s| - n, |TrimEnd(s)|);
    } else {
      NoSpace(s);
    }
  }

  lemma NestedEnd(s: string, n: nat, i: nat)
    requires i <= n <= |s|
    ensures s[..n][i..] + s[n..] == s[i..]
  {
  }

  lemma {:induction false} TrimCommasDropsCommas(s: string)
    ensures TrimCommas(s) <= s && forall k | |TrimCommas(s)| <= k < |s| :: s[k] == ','
    ensures TrimCommas(s) != "" ==> TrimCommas(s)[|TrimCommas(s)| - 1] != ','
  {
    if s != "" && s[|s| - 1] == ',' {
      TrimCommasDropsCommas(s[..|s| - 1]);
    }
  }

  lemma {:induction false} TrimStartSkips(space: string, s: string)
    requires AllSpace(space)
    ensures TrimStart(space + s) == TrimStart(s)
    decreases |space|
  {
    hide SpaceLength, TrimStart;
    if space == "" {
      assert space + s == s;
    } else {
      var n := SpaceLength(space);
      SpaceStays(space, s);
      TrimStartSkips(space[n..], s);
      TrimStartStep(space + s);
      DropOfConcat(space, s, n);
    }
  }

  lemma DropOfConcat(a: string, b: string, n: nat)
    requires n <= |a|
    ensures (a + b)[n..] == a[n..] + b
  {
  }

  lemma TakeOfConcat(a: string, b: string, n: nat)
    requires n <= |b|
    ensures (a + b)[..|a| + n] == a + b[..n]
  {
  }

  lemma {:induction false} TrimEndSkips(s: string, space: string)
    requires AllSpace(space)
    ensures TrimEnd(s + space) == TrimEnd(s)
    decreases |space|
  {
    hide SpaceLength, SpaceAtEnd, TrimEnd;
    if space == "" {
      assert s + space == s;
    } else {
      AllSpaceFromEnd(space);
      var n := SpaceAtEnd(space);
      SpaceAtEndStays(s, space);
      TrimEndSkips(s, space[..|space| - n]);
      TrimEndStep(s + space);
      TakeOfConcat(s, space, |space| - n);
    }
  }

  lemma TrimmedStart(s: string)
    requires SpaceLength(s) == 0
    ensures TrimStart(s) == s
  {
  }

  lemma TrimmedEnd(s: string)
    requires SpaceAtEnd(s) == 0
    ensures TrimEnd(s) == s
  {
  }

  lemma {:induction false} AllCommas(s: string)
    requires forall k | 0 <= k < |s| :: s[k] == ','
    ensures TrimCommas(s) == ""
  {
    if s != "" {
      AllCommas(s[..|s| - 1]);
    }
  }

  // ---------- clauses ----------

  function Trim(s: string): string {
    TrimEnd(TrimStart(s))
  }

  /** The sentence's remainder, trimmed of white space, then commas, then white space. */
  function TakeClause(rest: string): string {
    TakeClauseOf(UpToTerminator(rest))
  }

  function TakeClauseOf(sentence: string): string {
    Trim(TrimCommas(Trim(sentence)))
  }

  /** The bytes of white space skipped before the clause. */
  function Leading(rest: string): nat {
    |UpToTerminator(rest)| - |TrimStart(UpToTerminator(rest))|
  }

  /** White space, then commas, then white space. */
  predicate CommasBetween(s: string, m: nat, n: nat) {
    && m <= n <= |s|
    && AllSpace(s[..m])
    && (forall k | m <= k < n :: s[k] == ',')
    && AllSpace(s[n..])
  }

  ghost predicate SpaceAndCommas(s: string) {
    exists m, n :: CommasBetween(s, m, n)
  }

  ghost predicate EndsAt(clause: string, tail: string) {
    exists m, n :: CommasBetween(tail, m, n) && (m > 0 || clause == "" || clause[|clause| - 1] != ',')
  }

  /** What no longer begins with white space still does not after losing some of its end. */
  lemma PrefixStaysTrimmed(s: string, t: string)
    requires s <= t && SpaceLength(t) == 0
    ensures SpaceLength(s) == 0
  {
  }

  /** The stages of trimming a sentence. */
  ghost predicate Stages(s: string, a: string, b: string, c: string, e: string) {
    && |a| <= |s| && a == s[|s| - |a|..] && AllSpace(s[..|s| - |a|])
    && b <= a && AllSpace(a[|b|..])
    && c <= b && (forall k | |c| <= k < |b| :: b[k] == ',')
    && e <= c && AllSpace(c[|e|..]) && (c != "" ==> c[|c| - 1] != ',')
    && SpaceLength(c) == 0 && SpaceLength(e) == 0 && SpaceAtEnd(e) == 0
  }

  /** The second trimming of white space finds some at the end only. */
  lemma TrimsInStages(s: string) returns (a: string, b: string, c: string)
    ensures a == TrimStart(s) && c == TrimCommas(b)
    ensures Stages(s, a, b, c, TakeClauseOf(s))
  {
    hide SpaceLength, SpaceAtEnd, TrimStart, TrimEnd, TrimCommas, AllSpace;
    a := TrimStart(s);
    b := TrimEnd(a);
    c := TrimCommas(b);
    TrimStartDropsSpace(s);
    TrimEndDropsSpace(a);
    TrimCommasDropsCommas(b);
    TrimEndDropsSpace(c);
    PrefixStaysTrimmed(c, a);
    PrefixStaysTrimmed(TrimEnd(c), a);
    TrimmedStart(c);
  }

  /** Where a clause lies in its sentence: only white space precedes it, only white space,
      commas and white space follow, white space neither begins nor ends it, and it ends in a
      comma only if white space parts that comma from those dropped. */
  ghost predicate IsClause(sentence: string, i: nat, clause: string) {
    && i + |clause| <= |sentence| && clause == sentence[i..i + |clause|]
    && AllSpace(sentence[..i])
    && EndsAt(clause, sentence[i + |clause|..])
    && SpaceLength(clause) == 0 && SpaceAtEnd(clause) == 0
  }

  lemma ClauseMeaning(rest: string)
    ensures IsClause(UpToTerminator(rest), Leading(rest), TakeClause(rest))
  {
    hide UpToTerminator, TrimStart, TrimCommas, Stages, TakeClauseOf, IsClause;
    var a, b, c := TrimsInStages(UpToTerminator(rest));
    StagesMakeClause(UpToTerminator(rest), a, b, c, TakeClause(rest));
  }

  lemma StagesMakeClause(s: string, a: string, b: string, c: string, e: string)
    requires Stages(s, a, b, c, e)
    ensures |a| <= |s| && IsClause(s, |s| - |a|, e)
  {
    hide AllSpace, SpaceLength, SpaceAtEnd;
    TailOfClause(a, b, c, e);
    Nested(s, |s| - |a|, |e|);
    assert e == a[..|e|];
  }

  lemma TailOfClause(a: string, b: string, c: string, e: string)
    requires e <= c <= b <= a && AllSpace(c[|e|..]) && AllSpace(a[|b|..])
    requires forall k | |c| <= k < |b| :: b[k] == ','
    requires c != "" ==> c[|c| - 1] != ','
    ensures EndsAt(e, a[|e|..])
  {
    hide AllSpace;
    var tail := a[|e|..];
    assert tail[..|c| - |e|] == c[|e|..];
    assert tail[|b| - |e|..] == a[|b|..];
    forall k | |c| - |e| <= k < |b| - |e| ensures tail[k] == ',' {
      assert tail[k] == b[k + |e|];
    }
    assert CommasBetween(tail, |c| - |e|, |b| - |e|);
  }

  /** There is no clause exactly when the sentence is white space, then commas, then white space. */
  lemma NoClauseIff(rest: string)
    ensures TakeClause(rest) == "" <==> SpaceAndCommas(UpToTerminator(rest))
  {
    hide UpToTerminator, TrimStart, TrimCommas, TrimEnd, AllSpace, CommasBetween, TakeClauseOf;
    var sentence := UpToTerminator(rest);
    if TakeClauseOf(sentence) == "" {
      var m, n := EmptyClauseSplits(sentence);
      assert CommasBetween(UpToTerminator(rest), m, n);
    }
    forall m, n | CommasBetween(sentence, m, n) ensures TakeClauseOf(sentence) == "" {
      NothingBetween(sentence, m, n);
    }
  }

  lemma EmptyClauseSplits(s: string) returns (m: nat, n: nat)
    requires TakeClauseOf(s) == ""
    ensures CommasBetween(s, m, n)
  {
    hide TrimStart, TrimCommas, TakeClauseOf, Stages;
    var a, b, c := TrimsInStages(s);
    NothingLeft(s, a, b, c);
    m, n := |s| - |a|, |s| - |a| + |b|;
  }

  lemma NothingLeft(s: string, a: string, b: string, c: string)
    requires Stages(s, a, b, c, "")
    ensures |b| <= |a| <= |s| && CommasBetween(s, |s| - |a|, |s| - |a| + |b|)
  {
    assert c[0..] == c;
    NotAllSpace(c);
    hide AllSpace, SpaceLength, SpaceAtEnd;
    Nested(s, |s| - |a|, |b|);
    forall k | |s| - |a| <= k < |s| - |a| + |b| ensures s[k] == ',' {
      assert s[k] == a[k - (|s| - |a|)] == b[k - (|s| - |a|)];
    }
  }

  lemma NotAllSpace(s: string)
    requires SpaceLength(s) == 0 && AllSpace(s)
    ensures s == ""
  {
  }

  lemma NothingBetween(s: string, m: nat, n: nat)
    requires CommasBetween(s, m, n)
    ensures TakeClauseOf(s) == ""
  {
    hide TrimStart, TrimEnd, TrimCommas, SpaceLength, SpaceAtEnd, AllSpace;
    var commas := s[m..n];
    ThreeParts(s, m, n);
    TrimStartSkips(s[..m], commas + s[n..]);
    NothingTrimmed();
    if commas == "" {
      Alone(s[n..]);
      TrimStartSkips(s[n..], "");
    } else {
      CommasAreTrimmed(commas, s[n..]);
      TrimEndSkips(commas, s[n..]);
      AllCommas(commas);
    }
  }

  lemma ThreeParts(s: string, m: nat, n: nat)
    requires m <= n <= |s|
    ensures s == s[..m] + (s[m..n] + s[n..])
  {
  }

  lemma Alone(s: string)
    ensures "" + s == s == s + ""
  {
  }

  lemma NothingTrimmed()
    ensures TrimStart("") == "" && TrimEnd("") == "" && TrimCommas("") == ""
  {
  }

  lemma CommasAreTrimmed(commas: string, space: string)
    requires commas != "" && (forall k | 0 <= k < |commas| :: commas[k] == ',')
    ensures TrimStart(commas + space) == commas + space && TrimEnd(commas) == commas
  {
    assert SpaceLength(commas + space) == 0 && SpaceAtEnd(commas) == 0;
  }

  /** Where a clause lies in the text after its phrase. */
  lemma ClauseSpan(rest: string)
    ensures TakeClause(rest) != "" ==>
            var clause, k := TakeClause(rest), Leading(rest);
            k + |clause| <= |rest| && rest[k..k + |clause|] == clause && (k == 0 <==> SpaceLength(rest) == 0)
  {
    ClauseMeaning(rest);
    SentenceStartsAlike(rest);
    NoneLeading(UpToTerminator(rest));
    hide TakeClause, TrimStart, AllSpace, SpaceLength, SpaceAtEnd, SpaceAndCommas, UpToTerminator;
    var clause, k := TakeClause(rest), Leading(rest);
    SliceOfPrefix(UpToTerminator(rest), rest, k, k + |clause|);
  }

  lemma SliceOfPrefix(s: string, t: string, i: nat, j: nat)
    requires s <= t && i <= j <= |s|
    ensures s[i..j] == t[i..j]
  {
  }

  lemma NoneLeading(sentence: string)
    ensures |TrimStart(sentence)| == |sentence| <==> SpaceLength(sentence) == 0
  {
  }

  /** No multi-byte white space contains a terminator. */
  lemma SentenceStartsAlike(rest: string)
    ensures UpToTerminator(rest) != "" ==> SpaceLength(UpToTerminator(rest)) == SpaceLength(rest)
  {
    var sentence := UpToTerminator(rest);
    assert |sentence| < |rest| ==> IsTerminator(rest[|sentence|]);
  }

  lemma {:induction false} WithoutTerminator(s: string)
    requires forall k | 0 <= k < |s| :: !IsTerminator(s[k])
    ensures UpToTerminator(s) == s
  {
    if s != "" {
      WithoutTerminator(s[1..]);
    }
  }

  /** The clause of white space and then a stretch that needs no trimming is that stretch. */
  lemma ClauseAfterSpace(space: string, s: string)
    requires AllSpace(space) && s != "" && SpaceLength(s) == 0 && SpaceAtEnd(s) == 0 && s[|s| - 1] != ','
    requires forall k | 0 <= k < |space + s| :: !IsTerminator((space + s)[k])
    ensures TakeClause(space + s) == s && Leading(space + s) == |space|
  {
    hide TrimStart, TrimEnd, TrimCommas, SpaceLength, SpaceAtEnd, AllSpace, UpToTerminator, IsTerminator;
    WithoutTerminator(space + s);
    TrimStartSkips(space, s);
    TrimmedStart(s);
    TrimmedEnd(s);
    NoCommaAtEnd(s);
  }

  lemma NoCommaAtEnd(s: string)
    requires s != "" && s[|s| - 1] != ','
    ensures TrimCommas(s) == s
  {
  }
}
