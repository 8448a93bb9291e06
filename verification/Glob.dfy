/** The include/exclude globs of a doctrine tree: the greedy matcher that remembers only its
    last `*`, against a recursive reading of what a pattern means. */
module Glob {
  import opened Wrappers

  // ---------- what a pattern means ----------

  /** Where the members of a class begin: past `[`, and past a `!` that follows it. */
  function MembersStart(p: seq<char>): (start: nat)
    requires |p| > 0
  {
    if |p| > 1 && p[1] == '!' then 2 else 1
  }

  /** `n` is the length of the class opening `p`: up to and including the first `]` among its members. */
  predicate IsClassLen(p: seq<char>, n: nat) {
    |p| > 0 && MembersStart(p) < n <= |p| && p[n - 1] == ']' && forall i | MembersStart(p) <= i < n - 1 :: p[i] != ']'
  }

  /** The class opening `p` is terminated. */
  predicate Terminated(p: seq<char>) {
    |p| > 0 && exists i | MembersStart(p) <= i < |p| :: p[i] == ']'
  }

  function ClassLength(p: seq<char>): (n: nat)
    requires Terminated(p)
    ensures IsClassLen(p, n)
  {
    FirstClose(p, MembersStart(p)) + 1
  }

  function FirstClose(p: seq<char>, from: nat): (i: nat)
    requires exists k | from <= k < |p| :: p[k] == ']'
    ensures from <= i < |p| && p[i] == ']' && forall k | from <= k < i :: p[k] != ']'
    decreases |p| - from
  {
    if p[from] == ']' then from else FirstClose(p, from + 1)
  }

  /** A class member is a range; a single character is a range of one. */
  datatype Range = Range(lo: char, hi: char) {
    predicate Contains(c: char) {
      lo <= c <= hi
    }
  }

  /** The members written in `p[i..]`, up to the closing bracket. A `-` makes a range only
      with a character other than the closing bracket after it. */
  function Members(p: seq<char>, i: nat): seq<Range>
    decreases |p| - i
  {
    if i >= |p| || p[i] == ']' then []
    else if i + 2 < |p| && p[i + 1] == '-' && p[i + 2] != ']' then [Range(p[i], p[i + 2])] + Members(p, i + 3)
    else [Range(p[i], p[i])] + Members(p, i + 1)
  }

  predicate AnyContains(rs: seq<Range>, c: char) {
    exists i | 0 <= i < |rs| :: rs[i].Contains(c)
  }

  /** A class accepts its members, or everything else when negated. */
  predicate ClassAccepts(p: seq<char>, c: char)
    requires |p| > 0
  {
    AnyContains(Members(p, MembersStart(p)), c) != (|p| > 1 && p[1] == '!')
  }

  /** How much of the pattern its first one-character token takes. */
  function TokenLength(p: seq<char>): (n: nat)
    requires |p| > 0
    ensures 1 <= n <= |p|
  {
    if p[0] == '[' && Terminated(p) then ClassLength(p) else 1
  }

  predicate TokenAccepts(p: seq<char>, c: char)
    requires |p| > 0
  {
    p[0] == '?' || (if p[0] == '[' && Terminated(p) then ClassAccepts(p[..ClassLength(p)], c) else p[0] == c)
  }

  /** `p` matches the whole of `t`: a `*` takes any run of characters, any other token one. */
  ghost predicate Matches(p: seq<char>, t: seq<char>)
    decreases |p|
  {
    if p == [] then t == []
    else if p[0] == '*' then exists k | 0 <= k <= |t| :: Matches(p[1..], t[k..])
    else t != [] && TokenAccepts(p, t[0]) && Matches(p[TokenLength(p)..], t[1..])
  }

  /** A `]` right after `[` or `[!` closes the class rather than joining it: the first class
      then takes nothing and the second anything, whatever follows. */
  lemma EmptyClasses(rest: seq<char>, t: seq<char>)
    ensures !Matches("[]" + rest, t)
    ensures Matches("[!]" + rest, t) <==> t != [] && Matches(rest, t[1..])
  {
    var none, any := "[]" + rest, "[!]" + rest;
    assert none[1] == ']' && any[2] == ']';
    assert ClassLength(none) == 2 && none[..2] == "[]" && ClassLength(any) == 3 && any[..3] == "[!]";
    assert Members("[]", 1) == [] && Members("[!]", 2) == [];
    assert any[3..] == rest;
  }

  // ---------- laws of classes ----------

  /** The members written in `q`, up to a closing bracket, take `c`. */
  predicate Takes(q: seq<char>, c: char) {
    AnyContains(Members(q, 0), c)
  }

  lemma {:induction false} MembersTail(q: seq<char>, i: nat)
    requires 0 < i <= |q|
    ensures Members(q, i) == Members(q[1..], i - 1)
    decreases |q| - i
  {
    if i < |q| && q[i] != ']' {
      if i + 2 < |q| && q[i + 1] == '-' && q[i + 2] != ']' {
        MembersTail(q, i + 3);
      } else {
        MembersTail(q, i + 1);
      }
    }
  }

  /** The members from a position on are those of what stands there. */
  lemma {:induction false} MembersShift(p: seq<char>, i: nat)
    requires i <= |p|
    ensures Members(p, i) == Members(p[i..], 0)
  {
    if i > 0 {
      MembersTail(p, i);
      MembersShift(p[1..], i - 1);
      assert p[1..][i - 1..] == p[i..];
    } else {
      assert p[0..] == p;
    }
  }

  lemma {:induction false} MembersUpToClose(q: seq<char>, rest: seq<char>, i: nat)
    requires ']' !in q && i <= |q|
    ensures Members(q + [']'] + rest, i) == Members(q, i)
    decreases |q| - i
  {
    var p := q + [']'] + rest;
    assert p[|q|] == ']';
    if i < |q| {
      assert p[i] == q[i] && q[i] in q;
      if i + 2 < |q| && q[i + 1] == '-' {
        assert q[i + 2] in q;
        MembersUpToClose(q, rest, i + 3);
      } else {
        MembersUpToClose(q, rest, i + 1);
      }
    }
  }

  /** No members, or none before the closing bracket, take nothing. */
  lemma NothingTaken(q: seq<char>, c: char)
    ensures !Takes([], c) && !Takes([']'] + q, c)
  {
  }

  /** `lo-hi` takes what lies between, and the members after it take what they take. */
  lemma RangeTaken(lo: char, hi: char, q: seq<char>, c: char)
    requires lo != ']' && hi != ']'
    ensures Takes([lo, '-', hi] + q, c) <==> lo <= c <= hi || Takes(q, c)
  {
    var p := [lo, '-', hi] + q;
    MembersShift(p, 3);
    assert p[3..] == q;
    assert Members(p, 0) == [Range(lo, hi)] + Members(q, 0);
    AnyContainsHeadOrTail(Members(p, 0), c);
  }

  /** A character that no range begins with takes itself, and the members after it what they take. */
  lemma SingleTaken(a: char, q: seq<char>, c: char)
    requires a != ']' && !(|q| >= 2 && q[0] == '-' && q[1] != ']')
    ensures Takes([a] + q, c) <==> c == a || Takes(q, c)
  {
    var p := [a] + q;
    MembersShift(p, 1);
    assert p[1..] == q;
    assert Members(p, 0) == [Range(a, a)] + Members(q, 0);
    AnyContainsHeadOrTail(Members(p, 0), c);
  }

  /** A class takes what its members take, or, after a `!`, everything else. */
  lemma ClassTakes(q: seq<char>, c: char)
    ensures (q == [] || q[0] != '!') ==> (ClassAccepts(['['] + q, c) <==> Takes(q, c))
    ensures ClassAccepts(['[', '!'] + q, c) <==> !Takes(q, c)
  {
    MembersShift(['['] + q, 1);
    MembersShift(['[', '!'] + q, 2);
    assert (['['] + q)[1..] == q && (['[', '!'] + q)[2..] == q;
  }

  // ---------- laws of matching ----------

  /** The empty pattern, a literal character, `?` and `*`. */
  lemma MatchesPlain(c: char, rest: seq<char>, t: seq<char>)
    ensures Matches([], t) <==> t == []
    ensures c != '*' && c != '?' && c != '[' ==>
            (Matches([c] + rest, t) <==> t != [] && t[0] == c && Matches(rest, t[1..]))
    ensures Matches(['?'] + rest, t) <==> t != [] && Matches(rest, t[1..])
    ensures Matches(['*'] + rest, t) <==> exists k | 0 <= k <= |t| :: Matches(rest, t[k..])
  {
    assert ([c] + rest)[1..] == rest && (['?'] + rest)[1..] == rest && (['*'] + rest)[1..] == rest;
  }

  /** A class takes one character that its members take. */
  lemma MatchesClass(q: seq<char>, rest: seq<char>, t: seq<char>)
    requires ']' !in q && (q == [] || q[0] != '!')
    ensures Matches(['['] + q + [']'] + rest, t) <==> t != [] && Takes(q, t[0]) && Matches(rest, t[1..])
  {
    var p := ['['] + q + [']'] + rest;
    var n := |q| + 2;
    assert p[n - 1] == ']';
    assert forall i | 1 <= i < n - 1 :: p[i] == q[i - 1] && q[i - 1] in q;
    assert ClassLength(p) == n;
    assert p[n..] == rest && p[..n] == ['['] + (q + [']']);
    if t != [] {
      ClassTakes(q + [']'], t[0]);
      MembersUpToClose(q, [], 0);
      assert q + [']'] + [] == q + [']'];
    }
  }

  /** A class after `!` takes one character that they do not take. */
  lemma MatchesNegatedClass(q: seq<char>, rest: seq<char>, t: seq<char>)
    requires ']' !in q
    ensures Matches(['[', '!'] + q + [']'] + rest, t) <==> t != [] && !Takes(q, t[0]) && Matches(rest, t[1..])
  {
    var p := ['[', '!'] + q + [']'] + rest;
    var n := |q| + 3;
    assert p[n - 1] == ']';
    assert forall i | 2 <= i < n - 1 :: p[i] == q[i - 2] && q[i - 2] in q;
    assert ClassLength(p) == n;
    assert p[n..] == rest && p[..n] == ['[', '!'] + (q + [']']);
    if t != [] {
      ClassTakes(q + [']'], t[0]);
      MembersUpToClose(q, [], 0);
      assert q + [']'] + [] == q + [']'];
    }
  }

  /** A bracket that is never closed stands for itself. */
  lemma MatchesUnterminated(rest: seq<char>, t: seq<char>)
    requires ']' !in rest
    ensures Matches(['['] + rest, t) <==> t != [] && t[0] == '[' && Matches(rest, t[1..])
  {
    var p := ['['] + rest;
    assert forall i | 1 <= i < |p| :: p[i] == rest[i - 1] && rest[i - 1] in rest;
    assert !Terminated(p);
    assert p[1..] == rest;
  }

  /** A range by itself takes one character between its ends, and after `!` one outside them. */
  lemma MatchesRange(lo: char, hi: char, rest: seq<char>, t: seq<char>)
    requires lo != ']' && hi != ']'
    ensures lo != '!' ==>
            (Matches(['[', lo, '-', hi, ']'] + rest, t) <==> t != [] && lo <= t[0] <= hi && Matches(rest, t[1..]))
    ensures Matches(['[', '!', lo, '-', hi, ']'] + rest, t) <==> t != [] && !(lo <= t[0] <= hi) && Matches(rest, t[1..])
  {
    var q := [lo, '-', hi];
    assert ['[', lo, '-', hi, ']'] + rest == ['['] + q + [']'] + rest;
    assert ['[', '!', lo, '-', hi, ']'] + rest == ['[', '!'] + q + [']'] + rest;
    if t != [] {
      RangeTaken(lo, hi, [], t[0]);
      NothingTaken([], t[0]);
      assert q + [] == q;
    }
    if lo != '!' {
      MatchesClass(q, rest, t);
    }
    MatchesNegatedClass(q, rest, t);
  }

  lemma ClassesAtWork()
    ensures Matches("[a-c]x", "bx") && !Matches("[a-c]x", "dx")
    ensures Matches("[!0-9]*", "report-1") && !Matches("[!0-9]*", "1report")
  {
    assert "[a-c]x" == ['[', 'a', '-', 'c', ']'] + "x" && "[!0-9]*" == ['[', '!', '0', '-', '9', ']'] + "*";
    MatchesRange('a', 'c', "x", "bx");
    MatchesRange('a', 'c', "x", "dx");
    MatchesRange('0', '9', "*", "report-1");
    MatchesRange('0', '9', "*", "1report");
    assert "x" == ['x'] + [] && "*" == ['*'] + [];
    MatchesPlain('x', [], "x");
    MatchesPlain('*', [], "eport-1");
    assert "bx"[1..] == "x" && "x"[1..] == [] && "report-1"[1..] == "eport-1" && "eport-1"[7..] == [];
    assert Matches([], "eport-1"[7..]);
  }

  // ---------- the code ----------

  method ClassLen(p: seq<char>) returns (len: Option<nat>)
    requires |p| > 0
    ensures len == if Terminated(p) then Some(ClassLength(p)) else None
  {
    var i := 1;
    if i < |p| && p[i] == '!' {
      i := i + 1;
    }
    while i < |p|
      invariant MembersStart(p) <= i <= |p|
      invariant forall k | MembersStart(p) <= k < i :: p[k] != ']'
    {
      if p[i] == ']' {
        return Some(i + 1);
      }
      i := i + 1;
    }
    return None;
  }

  method ClassMatches(p: seq<char>, c: char) returns (accepts: bool)
    requires |p| > 0
    ensures accepts == ClassAccepts(p, c)
  {
    var i := 1;
    var neg := |p| > 1 && p[1] == '!';
    if neg {
      i := i + 1;
    }
    var hit := false;
    while i < |p| && p[i] != ']'
      invariant 0 <= i
      invariant AnyContains(Members(p, MembersStart(p)), c) <==> hit || AnyContains(Members(p, i), c)
      decreases |p| - i
    {
      var first, rest := Members(p, i)[0], Members(p, i)[1..];
      AnyContainsHeadOrTail(Members(p, i), c);
      if i + 2 < |p| && p[i + 1] == '-' && p[i + 2] != ']' {
        if p[i] <= c && c <= p[i + 2] {
          hit := true;
        }
        i := i + 3;
      } else {
        if p[i] == c {
          hit := true;
        }
        i := i + 1;
      }
    }
    accepts := hit != neg;
  }

  lemma AnyContainsHeadOrTail(rs: seq<Range>, c: char)
    requires rs != []
    ensures AnyContains(rs, c) <==> rs[0].Contains(c) || AnyContains(rs[1..], c)
  {
    if i :| 0 <= i < |rs| && rs[i].Contains(c) {
      assert i > 0 ==> rs[1..][i - 1].Contains(c);
    }
    if i :| 0 <= i < |rs[1..]| && rs[1..][i].Contains(c) {
      assert rs[i + 1].Contains(c);
    }
  }

  /** If the token at `pi` takes the character at `ti`, the pattern position after it. */
  method TryToken(p: seq<char>, pi: nat, c: char) returns (next: Option<nat>)
    requires pi < |p| && p[pi] != '*'
    ensures next == if TokenAccepts(p[pi..], c) then Some(pi + TokenLength(p[pi..])) else None
  {
    match p[pi] {
      case '?' => return Some(pi + 1);
      case '[' =>
        var len := ClassLen(p[pi..]);
        if len.Some? {
          assert p[pi..pi + len.value] == p[pi..][..len.value];
          var accepts := ClassMatches(p[pi..pi + len.value], c);
          if accepts {
            return Some(pi + len.value);
          }
        } else if p[pi] == c {
          return Some(pi + 1);
        }
      case other =>
        if other == c {
          return Some(pi + 1);
        }
    }
    return None;
  }

  // ---------- why the last star is enough ----------

  /** A star can start taking characters earlier. */
  lemma StarAbsorbs(q: seq<char>, t: seq<char>, i: nat, j: nat)
    requires q != [] && q[0] == '*' && i <= j <= |t|
    requires Matches(q, t[j..])
    ensures Matches(q, t[i..])
  {
    var k :| 0 <= k <= |t[j..]| && Matches(q[1..], t[j..][k..]);
    assert t[j..][k..] == t[i..][j - i + k..];
  }

  /** When another star is reached, no later choice for the star before it is needed. */
  lemma LastStarSuffices(p: seq<char>, t: seq<char>, star: nat, starT: nat, pi: nat, ti: nat)
    requires star < pi < |p| && p[star] == '*' && p[pi] == '*' && starT <= ti <= |t|
    requires Matches(p[star..], t[starT..])
    requires forall k | starT <= k <= |t| && Matches(p[star + 1..], t[k..]) ::
      k + (ti - starT) <= |t| && Matches(p[pi..], t[k + (ti - starT)..])
    ensures Matches(p[pi..], t[ti..])
  {
    var k :| 0 <= k <= |t[starT..]| && Matches(p[star..][1..], t[starT..][k..]);
    assert p[star..][1..] == p[star + 1..] && t[starT..][k..] == t[starT + k..];
    StarAbsorbs(p[pi..], t, ti, starT + k + (ti - starT));
  }

  /** If the text after a star cannot begin here, the star takes one more character. */
  lemma MoveStar(q: seq<char>, t: seq<char>, i: nat)
    requires q != [] && q[0] == '*' && i < |t| && !Matches(q[1..], t[i..])
    ensures Matches(q, t[i..]) <==> Matches(q, t[i + 1..])
    ensures Matches(q[1..], t[i + 1..]) ==> Matches(q, t[i + 1..])
  {
    if Matches(q, t[i..]) {
      var k :| 0 <= k <= |t[i..]| && Matches(q[1..], t[i..][k..]);
      assert t[i..][0..] == t[i..];
      assert t[i..][k..] == t[i + 1..][k - 1..];
    }
    if Matches(q, t[i + 1..]) {
      StarAbsorbs(q, t, i, i + 1);
    }
    assert t[i + 1..][0..] == t[i + 1..];
  }

  /** A one-character token takes exactly one accepted character wherever it is tried. */
  lemma TokenSteps(p: seq<char>, pi: nat, t: seq<char>, j: nat)
    requires pi < |p| && p[pi] != '*' && j <= |t|
    ensures Matches(p[pi..], t[j..]) <==>
      j < |t| && TokenAccepts(p[pi..], t[j]) && Matches(p[pi + TokenLength(p[pi..])..], t[j + 1..])
  {
    assert p[pi..][TokenLength(p[pi..])..] == p[pi + TokenLength(p[pi..])..];
    if j < |t| {
      assert t[j..][0] == t[j] && t[j..][1..] == t[j + 1..];
    }
  }

  lemma {:induction false} OnlyStarsMatchEmpty(q: seq<char>)
    ensures Matches(q, []) <==> forall i | 0 <= i < |q| :: q[i] == '*'
  {
    if q != [] && q[0] == '*' {
      OnlyStarsMatchEmpty(q[1..]);
      assert forall i | 0 < i < |q| :: q[i] == q[1..][i - 1];
      var nothing: seq<char> := [];
      assert nothing[0..] == nothing;
    }
  }

  /** Wherever the text after the star at `star` begins, the pattern up to `pi` takes as
      many characters as it took from `starT` to `ti`. */
  ghost predicate SegmentTakes(p: seq<char>, t: seq<char>, star: nat, starT: nat, pi: nat, ti: nat)
    requires star < pi <= |p| && starT <= ti <= |t|
  {
    forall k | starT <= k <= |t| && Matches(p[star + 1..], t[k..]) ::
      k + (ti - starT) <= |t| && Matches(p[pi..], t[k + (ti - starT)..])
  }

  /** The position `(pi, ti)` with the last star seen at `star`, whose run ends at `starT`:
      what is left decides the answer, unless a later end of the last star's run does. */
  ghost predicate Position(p: seq<char>, t: seq<char>, star: Option<nat>, starT: nat, pi: nat, ti: nat) {
    && pi <= |p| && starT <= ti <= |t|
    && (Matches(p[pi..], t[ti..]) ==> Matches(p, t))
    && (star.None? ==> (Matches(p, t) ==> Matches(p[pi..], t[ti..])))
    && (star.Some? ==>
        && star.value < pi && p[star.value] == '*'
        && (Matches(p, t) <==> Matches(p[star.value..], t[starT..]))
        && SegmentTakes(p, t, star.value, starT, pi, ti))
  }

  lemma AtStar(p: seq<char>, t: seq<char>, star: Option<nat>, starT: nat, pi: nat, ti: nat)
    requires Position(p, t, star, starT, pi, ti) && pi < |p| && p[pi] == '*'
    ensures Position(p, t, Some(pi), ti, pi + 1, ti)
  {
    if star.Some? && Matches(p, t) {
      LastStarSuffices(p, t, star.value, starT, pi, ti);
    }
    assert p[pi..][1..] == p[pi + 1..] && t[ti..][0..] == t[ti..];
  }

  lemma SegmentGrows(p: seq<char>, t: seq<char>, star: nat, starT: nat, pi: nat, ti: nat)
    requires star < pi < |p| && p[pi] != '*' && starT <= ti < |t|
    requires SegmentTakes(p, t, star, starT, pi, ti)
    ensures SegmentTakes(p, t, star, starT, pi + TokenLength(p[pi..]), ti + 1)
  {
    hide Matches, TokenAccepts;
    forall k | starT <= k <= |t| && Matches(p[star + 1..], t[k..])
      ensures k + (ti + 1 - starT) <= |t| && Matches(p[pi + TokenLength(p[pi..])..], t[k + (ti + 1 - starT)..])
    {
      TokenSteps(p, pi, t, k + (ti - starT));
    }
  }

  lemma AtToken(p: seq<char>, t: seq<char>, star: Option<nat>, starT: nat, pi: nat, ti: nat)
    requires Position(p, t, star, starT, pi, ti) && pi < |p| && p[pi] != '*' && ti < |t|
    ensures if TokenAccepts(p[pi..], t[ti]) then Position(p, t, star, starT, pi + TokenLength(p[pi..]), ti + 1)
            else !Matches(p[pi..], t[ti..])
  {
    TokenSteps(p, pi, t, ti);
    if star.Some? {
      SegmentGrows(p, t, star.value, starT, pi, ti);
    }
  }

  /** With the pattern used up and text left, nothing matches here. */
  lemma AtPatternEnd(p: seq<char>, t: seq<char>, ti: nat)
    requires ti < |t|
    ensures !Matches(p[|p|..], t[ti..])
  {
  }

  lemma AtMismatch(p: seq<char>, t: seq<char>, star: nat, starT: nat, pi: nat, ti: nat)
    requires Position(p, t, Some(star), starT, pi, ti) && ti < |t| && !Matches(p[pi..], t[ti..])
    ensures Position(p, t, Some(star), starT + 1, star + 1, starT + 1)
  {
    assert p[star..][1..] == p[star + 1..];
    assert !Matches(p[star + 1..], t[starT..]);
    MoveStar(p[star..], t, starT);
  }

  lemma AtEnd(p: seq<char>, t: seq<char>, star: Option<nat>, starT: nat, pi: nat)
    requires Position(p, t, star, starT, pi, |t|)
    ensures Matches(p, t) <==> Matches(p[pi..], [])
  {
    assert t[|t|..] == [];
    if star.Some? && Matches(p, t) {
      var k :| 0 <= k <= |t[starT..]| && Matches(p[star.value..][1..], t[starT..][k..]);
      assert p[star.value..][1..] == p[star.value + 1..] && t[starT..][k..] == t[starT + k..];
    }
  }

  lemma AtStart(p: seq<char>, t: seq<char>)
    ensures Position(p, t, None, 0, 0, 0)
  {
    assert p[0..] == p && t[0..] == t;
  }

  /** The final sweep over trailing stars decides whether the rest matches nothing. */
  lemma TrailingStars(p: seq<char>, from: nat, to: nat)
    requires from <= to <= |p| && (forall i | from <= i < to :: p[i] == '*') && (to < |p| ==> p[to] != '*')
    ensures Matches(p[from..], []) <==> to == |p|
  {
    OnlyStarsMatchEmpty(p[from..]);
    assert to < |p| ==> p[from..][to - from] == p[to];
  }

  method FnMatch(p: seq<char>, t: seq<char>) returns (matched: bool)
    ensures matched == Matches(p, t)
  {
    hide Matches, SegmentTakes;
    var pi: nat, ti: nat := 0, 0;
    var star: Option<nat>, starT: nat := None, 0;
    AtStart(p, t);
    while ti < |t|
      invariant Position(p, t, star, starT, pi, ti)
      decreases if star.None? then |t| + 1 else |t| - starT, |t| - ti, |p| - pi
    {
      if pi < |p| {
        if p[pi] == '*' {
          AtStar(p, t, star, starT, pi, ti);
          star, starT := Some(pi), ti;
          pi := pi + 1;
          continue;
        }
        AtToken(p, t, star, starT, pi, ti);
        var next := TryToken(p, pi, t[ti]);
        if next.Some? {
          pi, ti := next.value, ti + 1;
          continue;
        }
      } else {
        AtPatternEnd(p, t, ti);
      }
      if star.Some? {
        AtMismatch(p, t, star.value, starT, pi, ti);
        pi := star.value + 1;
        starT := starT + 1;
        ti := starT;
      } else {
        return false;
      }
    }
    AtEnd(p, t, star, starT, pi);
    ghost var rest := pi;
    while pi < |p| && p[pi] == '*'
      invariant rest <= pi <= |p| && forall i | rest <= i < pi :: p[i] == '*'
    {
      pi := pi + 1;
    }
    TrailingStars(p, rest, pi);
    matched := pi == |p|;
  }
}
