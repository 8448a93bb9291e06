/** Composing a wake-up: the freshest rows first, then the importance order, without
    repeats, up to a budget. */
module Wakeup {
  import opened Wrappers
  import opened Wall
  import opened Order
  import opened Sweep

  const WAKEUP_PERSONAL_LIMIT: nat := 20
  const WAKEUP_RECENT_STRATUM: nat := 8

  datatype Stratum = Recent | Lexicographic

  // ---------- what the two queries answer ----------

  function Ids(ms: seq<Memory>): set<MemoryId> {
    set m | m in ms :: m.id
  }

  predicate DistinctIds(ms: seq<Memory>) {
    forall i, j | 0 <= i < j < |ms| :: ms[i].id != ms[j].id
  }

  /** `ms` lists every live row once. */
  ghost predicate ListsLive(rows: Rows, ms: seq<Memory>) {
    && DistinctIds(ms)
    && (forall m | m in ms :: m.id in rows && rows[m.id] == m && m.Live())
    && (forall id | id in rows && rows[id].Live() :: id in Ids(ms))
  }

  /** `importance DESC, created_at DESC`, ties in whatever order the database likes. */
  predicate MayPrecede(a: Memory, b: Memory) {
    a.importance > b.importance || (a.importance == b.importance && !Less(a.createdAt, b.createdAt))
  }

  ghost predicate ByImportance(rows: Rows, ms: seq<Memory>) {
    ListsLive(rows, ms) && forall i, j | 0 <= i < j < |ms| :: MayPrecede(ms[i], ms[j])
  }

  /** `created_at DESC`. */
  ghost predicate ByRecency(rows: Rows, ms: seq<Memory>) {
    ListsLive(rows, ms) && forall i, j | 0 <= i < j < |ms| :: !Less(ms[i].createdAt, ms[j].createdAt)
  }

  function Min(a: nat, b: nat): nat {
    if a <= b then a else b
  }

  // ---------- the composition ----------

  /** The rows whose ids are not taken yet. */
  function Minus(ms: seq<Memory>, taken: set<MemoryId>): seq<Memory> {
    if ms == [] then []
    else if ms[0].id in taken then Minus(ms[1..], taken)
    else [ms[0]] + Minus(ms[1..], taken)
  }

  lemma {:induction false} MinusAppend(xs: seq<Memory>, ys: seq<Memory>, taken: set<MemoryId>)
    ensures Minus(xs + ys, taken) == Minus(xs, taken) + Minus(ys, taken)
  {
    if xs == [] {
      assert xs + ys == ys;
    } else {
      assert (xs + ys)[1..] == xs[1..] + ys;
      MinusAppend(xs[1..], ys, taken);
    }
  }

  lemma {:induction false} MinusMembers(ms: seq<Memory>, taken: set<MemoryId>)
    ensures forall m :: m in Minus(ms, taken) <==> m in ms && m.id !in taken
    ensures DistinctIds(ms) ==> DistinctIds(Minus(ms, taken))
  {
    if ms != [] {
      MinusMembers(ms[1..], taken);
      var rest := Minus(ms[1..], taken);
      assert forall i | 0 <= i < |rest| :: rest[i] in rest;
    }
  }

  lemma {:induction false} MinusNothing(ms: seq<Memory>, taken: set<MemoryId>)
    requires forall i | 0 <= i < |ms| :: ms[i].id !in taken
    ensures Minus(ms, taken) == ms
  {
    if ms != [] {
      MinusNothing(ms[1..], taken);
    }
  }

  /** Taking away `taken` ids removes at most that many rows, and exactly that many if all
      of them are listed. */
  lemma {:induction false} MinusLength(ms: seq<Memory>, taken: set<MemoryId>)
    requires DistinctIds(ms)
    ensures |Minus(ms, taken)| + |taken| >= |ms|
    ensures taken <= Ids(ms) ==> |Minus(ms, taken)| + |taken| == |ms|
  {
    if ms == [] {
      assert taken <= Ids(ms) ==> taken == {};
    } else {
      var id, rest := ms[0].id, ms[1..];
      assert Ids(ms) == {id} + Ids(rest);
      MinusLength(rest, taken - {id});
      MinusSame(rest, taken, taken - {id});
    }
  }

  lemma {:induction false} MinusSame(ms: seq<Memory>, s: set<MemoryId>, t: set<MemoryId>)
    requires forall i | 0 <= i < |ms| :: ms[i].id in s <==> ms[i].id in t
    ensures Minus(ms, s) == Minus(ms, t)
  {
    if ms != [] {
      MinusSame(ms[1..], s, t);
    }
  }

  lemma {:induction false} IdsCount(ms: seq<Memory>)
    requires DistinctIds(ms)
    ensures |Ids(ms)| == |ms|
  {
    if ms != [] {
      IdsCount(ms[1..]);
      assert Ids(ms) == {ms[0].id} + Ids(ms[1..]);
    }
  }

  lemma NextIsNew(ms: seq<Memory>, i: nat)
    requires DistinctIds(ms) && i < |ms|
    ensures ms[i].id !in Ids(ms[..i]) && Ids(ms[..i + 1]) == Ids(ms[..i]) + {ms[i].id}
    ensures ms[..i + 1] == ms[..i] + [ms[i]]
  {
  }

  lemma MinusNext(ms: seq<Memory>, i: nat, taken: set<MemoryId>)
    requires i < |ms|
    ensures Minus(ms[..i + 1], taken) == Minus(ms[..i], taken) + if ms[i].id in taken then [] else [ms[i]]
  {
    assert ms[..i + 1] == ms[..i] + [ms[i]];
    MinusAppend(ms[..i], [ms[i]], taken);
  }

  /** The recency stratum first, then the top list, each row once, cut to the budget. */
  method Compose(recent: seq<Memory>, top: seq<Memory>)
    returns (essentials: seq<Memory>, stratumOf: map<MemoryId, Stratum>)
    requires DistinctIds(recent) && DistinctIds(top)
    ensures essentials == Take(recent + Minus(top, Ids(recent)), 20)
    ensures forall m | m in essentials :: m.id in stratumOf && (stratumOf[m.id] == Recent <==> m.id in Ids(recent))
  {
    hide DistinctIds, Minus, Ids;
    var seen: set<MemoryId> := {};
    essentials, stratumOf := [], map[];
    NothingListed(recent, top);
    for i := 0 to |recent|
      invariant essentials == recent[..i]
      invariant seen == Ids(recent[..i]) == stratumOf.Keys
      invariant forall id | id in stratumOf :: stratumOf[id] == Recent
    {
      NextIsNew(recent, i);
      if recent[i].id !in seen {
        seen := seen + {recent[i].id};
        stratumOf := stratumOf[recent[i].id := Recent];
        essentials := essentials + [recent[i]];
      }
    }
    assert recent[..|recent|] == recent;
    for i := 0 to |top|
      invariant essentials == recent + Minus(top[..i], Ids(recent))
      invariant seen == Ids(recent) + Ids(top[..i]) == stratumOf.Keys
      invariant forall id | id in stratumOf :: stratumOf[id] == Recent <==> id in Ids(recent)
    {
      NextIsNew(top, i);
      MinusNext(top, i, Ids(recent));
      if top[i].id !in seen {
        seen := seen + {top[i].id};
        stratumOf := stratumOf[top[i].id := Lexicographic];
        essentials := essentials + [top[i]];
      }
    }
    assert top[..|top|] == top;
    InStrata(recent, top, stratumOf.Keys);
    essentials := Take(essentials, WAKEUP_PERSONAL_LIMIT);
  }

  lemma NothingListed(recent: seq<Memory>, top: seq<Memory>)
    ensures Ids(recent[..0]) == {} && Ids(top[..0]) == {} && Minus(top[..0], Ids(recent)) == []
  {
  }

  lemma InStrata(recent: seq<Memory>, top: seq<Memory>, keys: set<MemoryId>)
    requires keys == Ids(recent) + Ids(top)
    ensures forall m | m in recent + Minus(top, Ids(recent)) :: m.id in keys
  {
    MinusMembers(top, Ids(recent));
  }

  // ---------- what a wall's wake-up serves ----------

  /** Two listings of the live rows are equally long. */
  lemma ListingsAgree(rows: Rows, xs: seq<Memory>, ys: seq<Memory>)
    requires ListsLive(rows, xs) && ListsLive(rows, ys)
    ensures Ids(xs) == Ids(ys) && |xs| == |ys|
  {
    IdsCount(xs);
    IdsCount(ys);
  }

  /** Although only the top of the importance order is fetched, filling from it serves
      exactly what filling from the whole order would: the freshest rows, then the longest
      fitting prefix of the importance order over all the other live rows. */
  lemma WakeupServes(rows: Rows, lexical: seq<Memory>, recency: seq<Memory>)
    requires ByImportance(rows, lexical) && ByRecency(rows, recency)
    ensures var n := |lexical|;
            var recent := Take(recency, 8);
            var served := Take(recent + Minus(Take(lexical, 20), Ids(recent)), 20);
            && |served| == (if n < 20 then n else 20)
            && |recent| == (if n < 8 then n else 8)
            && served == recent + Take(Minus(lexical, Ids(recent)), |served| - |recent|)
            && DistinctIds(served)
            && forall m | m in served :: m.id in rows && rows[m.id] == m && m.Live()
  {
    hide Minus, Ids, DistinctIds, MayPrecede, Less;
    var n, limit := |lexical|, WAKEUP_PERSONAL_LIMIT;
    var recent, top := Take(recency, WAKEUP_RECENT_STRATUM), Take(lexical, limit);
    var taken := Ids(recent);
    ListingsAgree(rows, lexical, recency);
    PrefixListed(recency, WAKEUP_RECENT_STRATUM);
    PrefixListed(lexical, limit);
    MinusLength(lexical, taken);
    MinusLength(top, taken);
    MinusMembers(lexical, taken);
    FillFromTop(recent, top, lexical, taken);
    DistinctConcat(recent, Take(Minus(lexical, taken), Min(limit, n) - |recent|), Minus(lexical, taken));
  }

  lemma PrefixListed(ms: seq<Memory>, k: nat)
    requires DistinctIds(ms)
    ensures DistinctIds(Take(ms, k)) && Ids(Take(ms, k)) <= Ids(ms) && |Ids(Take(ms, k))| == |Take(ms, k)|
    ensures forall m | m in Take(ms, k) :: m in ms
  {
    IdsCount(Take(ms, k));
  }

  /** What the top of a listing leaves after taking rows away is the start of what the
      whole listing leaves. */
  lemma FillFromTop(recent: seq<Memory>, top: seq<Memory>, listing: seq<Memory>, taken: set<MemoryId>)
    requires top == Take(listing, WAKEUP_PERSONAL_LIMIT)
    requires |recent| <= |top| && |Minus(top, taken)| >= |top| - |recent|
    requires |listing| <= WAKEUP_PERSONAL_LIMIT ==> |Minus(top, taken)| == |top| - |recent|
    ensures Take(recent + Minus(top, taken), WAKEUP_PERSONAL_LIMIT)
         == recent + Take(Minus(listing, taken), |top| - |recent|)
    ensures |Take(recent + Minus(top, taken), WAKEUP_PERSONAL_LIMIT)| == |top|
  {
    hide Minus;
    assert listing == top + listing[|top|..];
    MinusAppend(top, listing[|top|..], taken);
    if |listing| <= WAKEUP_PERSONAL_LIMIT {
      assert top == listing;
    } else {
      var room := |top| - |recent|;
      assert (recent + Minus(top, taken))[..|top|] == recent + Minus(top, taken)[..room];
      assert Minus(listing, taken)[..room] == Minus(top, taken)[..room];
    }
  }

  /** No live row left out is fresher than one in the recency stratum, and none left out
      altogether ranks before one in the fill. */
  lemma NothingBetterIsLeftOut(rows: Rows, lexical: seq<Memory>, recency: seq<Memory>, left: Memory, k: nat)
    requires ByImportance(rows, lexical) && ByRecency(rows, recency)
    requires left.id in rows && rows[left.id] == left && left.Live()
    ensures var recent := Take(recency, 8);
            var fill := Take(Minus(lexical, Ids(recent)), k);
            && (left !in recent ==> forall m | m in recent :: !Less(m.createdAt, left.createdAt))
            && (left !in recent + fill ==> forall m | m in fill ::
                  m.importance > left.importance
                  || (m.importance == left.importance && !Less(m.createdAt, left.createdAt)))
  {
    var recent := Take(recency, WAKEUP_RECENT_STRATUM);
    var rest := Minus(lexical, Ids(recent));
    assert left.id in Ids(recency) && left.id in Ids(lexical);
    assert left in recency && left in lexical;
    MinusMembers(lexical, Ids(recent));
    MinusKeepsOrder(lexical, Ids(recent));
    if left !in recent {
      assert forall m | m in recent && m.id == left.id :: m == left;
      assert left in rest;
    }
  }

  /** `n` digits, or nothing. */
  predicate Stamped(m: Memory, n: nat) {
    m.createdAt == "" || (Decimal(m.createdAt) && |m.createdAt| == n)
  }

  /** String order is recency: where stamps have one width, a listing by recency goes from the
      numerically latest stamp down, with the rows that have none at the end. */
  lemma RecencyIsNumeric(rows: Rows, recency: seq<Memory>, n: nat, i: nat, j: nat)
    requires ByRecency(rows, recency) && i < j < |recency|
    requires Stamped(recency[i], n) && Stamped(recency[j], n)
    ensures recency[j].createdAt != "" ==>
            recency[i].createdAt != "" && Value(recency[i].createdAt) >= Value(recency[j].createdAt)
  {
    var a, b := recency[i].createdAt, recency[j].createdAt;
    if a != "" && b != "" {
      EqualLengthsCompareNumerically(a, b);
    }
  }

  lemma {:induction false} MinusKeepsOrder(ms: seq<Memory>, taken: set<MemoryId>)
    requires forall i, j | 0 <= i < j < |ms| :: MayPrecede(ms[i], ms[j])
    ensures forall i, j | 0 <= i < j < |Minus(ms, taken)| :: MayPrecede(Minus(ms, taken)[i], Minus(ms, taken)[j])
  {
    hide MayPrecede;
    if ms != [] {
      MinusKeepsOrder(ms[1..], taken);
      MinusMembers(ms[1..], taken);
      var rest := Minus(ms[1..], taken);
      forall j | 0 <= j < |rest| ensures MayPrecede(ms[0], rest[j]) {
        assert rest[j] in ms[1..];
        var k :| 0 <= k < |ms[1..]| && ms[1..][k] == rest[j];
        assert ms[k + 1] == rest[j];
      }
      var whole := Minus(ms, taken);
      forall i, j | 0 <= i < j < |whole| ensures MayPrecede(whole[i], whole[j]) {
        if whole != rest {
          assert whole[j] == rest[j - 1] && (i > 0 ==> whole[i] == rest[i - 1]);
        }
      }
    }
  }

  lemma DistinctConcat(xs: seq<Memory>, ys: seq<Memory>, zs: seq<Memory>)
    requires DistinctIds(xs) && DistinctIds(zs) && ys <= zs
    requires forall z | z in zs :: z.id !in Ids(xs)
    ensures DistinctIds(xs + ys) && forall y | y in ys :: y in zs
  {
    assert forall i | 0 <= i < |ys| :: ys[i] == zs[i] && ys[i] in zs;
    assert forall i | 0 <= i < |xs| :: xs[i].id in Ids(xs);
  }
}
