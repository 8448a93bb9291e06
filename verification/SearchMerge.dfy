/** Visible-scope search: per-wall top lists are merged one wall at a time, each merge
    sorting, dropping repeated ids and truncating. The result is what one sort of
    everything would have given. Similarities are taken as given reals. */
module SearchMerge {
  import opened Wrappers
  import opened Wall

  /** A scored hit with the wall it came from. */
  datatype Hit = Hit(memory: Memory, similarity: real, wall: string) {
    function Id(): MemoryId {
      memory.id
    }
  }

  ghost predicate Sorted(xs: seq<Hit>) {
    forall i, j | 0 <= i < j < |xs| :: xs[i].similarity >= xs[j].similarity
  }

  ghost predicate DistinctIds(xs: seq<Hit>) {
    forall i, j | 0 <= i < j < |xs| :: xs[i].Id() != xs[j].Id()
  }

  // ---------- the stable sort ----------

  function Insert(xs: seq<Hit>, h: Hit): seq<Hit> {
    if xs == [] then [h]
    else if xs[0].similarity >= h.similarity then [xs[0]] + Insert(xs[1..], h)
    else [h] + xs
  }

  /** The stable sort by descending similarity. */
  function SortDesc(xs: seq<Hit>): seq<Hit> {
    if xs == [] then [] else Insert(SortDesc(xs[..|xs| - 1]), xs[|xs| - 1])
  }

  /** The hits of one similarity, in order. */
  function At(xs: seq<Hit>, s: real): seq<Hit> {
    if xs == [] then []
    else if xs[0].similarity == s then [xs[0]] + At(xs[1..], s)
    else At(xs[1..], s)
  }

  lemma AtCons(x: Hit, ys: seq<Hit>, s: real)
    ensures At([x] + ys, s) == if x.similarity == s then [x] + At(ys, s) else At(ys, s)
  {
    assert ([x] + ys)[1..] == ys;
  }

  lemma {:induction false} AtAppend(xs: seq<Hit>, ys: seq<Hit>, s: real)
    ensures At(xs + ys, s) == At(xs, s) + At(ys, s)
  {
    if xs == [] {
      assert xs + ys == ys;
    } else {
      AtAppend(xs[1..], ys, s);
      HeadOfConcat(xs, ys);
      ConsConcat(xs[0], At(xs[1..], s), At(ys, s));
    }
  }

  lemma HeadOfConcat(xs: seq<Hit>, ys: seq<Hit>)
    requires xs != []
    ensures (xs + ys)[0] == xs[0] && (xs + ys)[1..] == xs[1..] + ys
  {
  }

  lemma ConsConcat(x: Hit, xs: seq<Hit>, ys: seq<Hit>)
    ensures [x] + (xs + ys) == [x] + xs + ys
  {
  }

  lemma {:induction false} NoneBelow(xs: seq<Hit>, s: real)
    requires forall i | 0 <= i < |xs| :: xs[i].similarity < s
    ensures At(xs, s) == []
  {
    if xs != [] {
      NoneBelow(xs[1..], s);
    }
  }

  lemma SortedCons(x: Hit, ys: seq<Hit>)
    requires Sorted(ys) && forall y | y in ys :: x.similarity >= y.similarity
    ensures Sorted([x] + ys)
  {
    assert forall i | 0 <= i < |ys| :: ys[i] in ys;
  }

  lemma NothingSorted()
    ensures Sorted([]) && DistinctIds([])
  {
  }

  lemma SortedTail(xs: seq<Hit>)
    requires Sorted(xs) && xs != []
    ensures Sorted(xs[1..]) && forall x | x in xs :: xs[0].similarity >= x.similarity
  {
  }

  lemma {:induction false} InsertSorts(xs: seq<Hit>, h: Hit)
    requires Sorted(xs)
    ensures Sorted(Insert(xs, h)) && multiset(Insert(xs, h)) == multiset(xs) + multiset{h}
    ensures forall x :: x in Insert(xs, h) <==> x in xs || x == h
  {
    hide Sorted;
    if xs == [] {
      NothingSorted();
      SortedCons(h, []);
      assert [h] + [] == [h];
    } else {
      SortedTail(xs);
      assert xs == [xs[0]] + xs[1..];
      if xs[0].similarity >= h.similarity {
        InsertSorts(xs[1..], h);
        SortedCons(xs[0], Insert(xs[1..], h));
      } else {
        SortedCons(h, xs);
      }
    }
  }

  lemma {:induction false} InsertKeepsOrder(xs: seq<Hit>, h: Hit, s: real)
    requires Sorted(xs)
    ensures At(Insert(xs, h), s) == At(xs, s) + At([h], s)
  {
    hide Sorted;
    if xs != [] {
      SortedTail(xs);
      var x := xs[0];
      if x.similarity >= h.similarity {
        InsertKeepsOrder(xs[1..], h, s);
        AtCons(x, Insert(xs[1..], h), s);
      } else {
        AtCons(h, xs, s);
        AtCons(h, [], s);
        assert [h] + [] == [h];
        if h.similarity == s {
          NoneBelow(xs, s);
        }
      }
    }
  }

  lemma {:induction false} SortSorts(xs: seq<Hit>)
    ensures Sorted(SortDesc(xs)) && multiset(SortDesc(xs)) == multiset(xs)
  {
    if xs != [] {
      var front, last := xs[..|xs| - 1], xs[|xs| - 1];
      SortSorts(front);
      InsertSorts(SortDesc(front), last);
      assert xs == front + [last];
    }
  }

  lemma {:induction false} SortKeepsOrder(xs: seq<Hit>, s: real)
    ensures At(SortDesc(xs), s) == At(xs, s)
  {
    if xs != [] {
      var front, last := xs[..|xs| - 1], xs[|xs| - 1];
      SortKeepsOrder(front, s);
      SortSorts(front);
      InsertKeepsOrder(SortDesc(front), last, s);
      AtAppend(front, [last], s);
      assert xs == front + [last];
    }
  }

  /** The sort permutes, orders, and keeps hits of equal similarity in order. */
  lemma SortIsStable(xs: seq<Hit>, s: real)
    ensures Sorted(SortDesc(xs)) && multiset(SortDesc(xs)) == multiset(xs) && At(SortDesc(xs), s) == At(xs, s)
  {
    SortSorts(xs);
    SortKeepsOrder(xs, s);
  }

  /** Any list that is sorted and keeps equal similarities in order is that sort. */
  lemma {:induction false} StableSortIsUnique(xs: seq<Hit>, ys: seq<Hit>)
    requires Sorted(xs) && Sorted(ys) && forall s :: At(xs, s) == At(ys, s)
    ensures xs == ys
  {
    if xs == [] || ys == [] {
      assert xs != [] ==> At(xs, xs[0].similarity) != [];
      assert ys != [] ==> At(ys, ys[0].similarity) != [];
    } else {
      var s, t := xs[0].similarity, ys[0].similarity;
      assert At(xs, s) != [] && At(ys, t) != [];
      if s < t { NoneBelow(xs, t); }
      if t < s { NoneBelow(ys, s); }
      assert xs[0] == At(xs, s)[0] == At(ys, s)[0] == ys[0];
      forall r ensures At(xs[1..], r) == At(ys[1..], r) {
        assert At(xs, r) == At(ys, r);
        if r == s {
          assert At(xs[1..], r) == At(xs, r)[1..] && At(ys[1..], r) == At(ys, r)[1..];
        }
      }
      StableSortIsUnique(xs[1..], ys[1..]);
      assert xs == [xs[0]] + xs[1..] && ys == [ys[0]] + ys[1..];
    }
  }

  lemma {:induction false} InsertAtEnd(xs: seq<Hit>, h: Hit)
    requires forall i | 0 <= i < |xs| :: xs[i].similarity >= h.similarity
    ensures Insert(xs, h) == xs + [h]
  {
    if xs != [] {
      InsertAtEnd(xs[1..], h);
    }
  }

  lemma {:induction false} SortOfSorted(xs: seq<Hit>)
    requires Sorted(xs)
    ensures SortDesc(xs) == xs
  {
    if xs != [] {
      SortOfSorted(xs[..|xs| - 1]);
      InsertAtEnd(xs[..|xs| - 1], xs[|xs| - 1]);
    }
  }

  // ---------- dropping repeated ids ----------

  /** Keep the first hit of every id not seen yet. */
  function KeepFirst(xs: seq<Hit>, seen: set<MemoryId>): seq<Hit> {
    if xs == [] then []
    else if xs[0].Id() in seen then KeepFirst(xs[1..], seen)
    else [xs[0]] + KeepFirst(xs[1..], seen + {xs[0].Id()})
  }

  function Without(xs: seq<Hit>, id: MemoryId): seq<Hit> {
    if xs == [] then []
    else if xs[0].Id() == id then Without(xs[1..], id)
    else [xs[0]] + Without(xs[1..], id)
  }

  lemma {:induction false} KeepFirstSubset(xs: seq<Hit>, seen: set<MemoryId>)
    ensures forall h | h in KeepFirst(xs, seen) :: h in xs && h.Id() !in seen
    ensures DistinctIds(KeepFirst(xs, seen))
    ensures Sorted(xs) ==> Sorted(KeepFirst(xs, seen))
  {
    hide Sorted, DistinctIds;
    if xs == [] {
      NothingSorted();
    } else {
      if Sorted(xs) {
        SortedTail(xs);
      }
      if xs[0].Id() in seen {
        KeepFirstSubset(xs[1..], seen);
      } else {
        KeepFirstSubset(xs[1..], seen + {xs[0].Id()});
        var rest := KeepFirst(xs[1..], seen + {xs[0].Id()});
        DistinctCons(xs[0], rest);
        if Sorted(xs) {
          SortedCons(xs[0], rest);
        }
      }
    }
  }

  lemma DistinctCons(x: Hit, ys: seq<Hit>)
    requires DistinctIds(ys) && forall y | y in ys :: y.Id() != x.Id()
    ensures DistinctIds([x] + ys)
  {
    assert forall i | 0 <= i < |ys| :: ys[i] in ys;
  }

  lemma {:induction false} KeepFirstWithout(xs: seq<Hit>, seen: set<MemoryId>, id: MemoryId)
    ensures KeepFirst(xs, seen + {id}) == Without(KeepFirst(xs, seen), id)
  {
    if xs != [] {
      var x := xs[0].Id();
      if x in seen {
        KeepFirstWithout(xs[1..], seen, id);
      } else {
        KeepFirstWithout(xs[1..], seen + {x}, id);
        assert seen + {x} + {id} == seen + {id} + {x};
        if x == id {
          assert seen + {x} + {id} == seen + {id};
        }
        assert KeepFirst(xs, seen)[1..] == KeepFirst(xs[1..], seen + {x});
      }
    }
  }

  lemma {:induction false} KeepFirstOfDistinct(xs: seq<Hit>, seen: set<MemoryId>)
    requires DistinctIds(xs) && forall i | 0 <= i < |xs| :: xs[i].Id() !in seen
    ensures KeepFirst(xs, seen) == xs
  {
    if xs != [] {
      KeepFirstOfDistinct(xs[1..], seen + {xs[0].Id()});
    }
  }

  // ---------- the best hits, all at once and one at a time ----------

  /** One sort of everything, first occurrences only, truncated. */
  function Top(xs: seq<Hit>, k: nat): seq<Hit> {
    Take(KeepFirst(SortDesc(xs), {}), k)
  }

  /** One more hit joins a sorted, duplicate-free list, or loses to its id's earlier hit. */
  function Offer(best: seq<Hit>, h: Hit): seq<Hit> {
    if best == [] then [h]
    else if best[0].similarity < h.similarity then [h] + Without(best, h.Id())
    else if best[0].Id() == h.Id() then best
    else [best[0]] + Offer(best[1..], h)
  }

  function OfferAll(best: seq<Hit>, hs: seq<Hit>, k: nat): seq<Hit>
    decreases |hs|
  {
    if hs == [] then best else OfferAll(Take(Offer(best, hs[0]), k), hs[1..], k)
  }

  /** Deduplicating after an insertion is offering to the deduplicated list. */
  lemma {:induction false} KeepFirstInsert(xs: seq<Hit>, h: Hit, seen: set<MemoryId>)
    requires Sorted(xs)
    ensures KeepFirst(Insert(xs, h), seen) ==
            if h.Id() in seen then KeepFirst(xs, seen) else Offer(KeepFirst(xs, seen), h)
  {
    if xs != [] {
      var x := xs[0];
      if x.similarity >= h.similarity {
        var rest := Insert(xs[1..], h);
        assert ([x] + rest)[1..] == rest;
        if x.Id() in seen {
          KeepFirstInsert(xs[1..], h, seen);
        } else {
          KeepFirstInsert(xs[1..], h, seen + {x.Id()});
          assert KeepFirst(xs, seen)[1..] == KeepFirst(xs[1..], seen + {x.Id()});
        }
      } else {
        assert ([h] + xs)[1..] == xs;
        KeepFirstWithout(xs, seen, h.Id());
        KeepFirstSubset(xs, seen);
        var kept := KeepFirst(xs, seen);
        if kept != [] {
          assert kept[0] in kept;
        }
      }
    }
  }

  lemma {:induction false} WithoutAbsent(xs: seq<Hit>, id: MemoryId)
    requires forall i | 0 <= i < |xs| :: xs[i].Id() != id
    ensures Without(xs, id) == xs
  {
    if xs != [] {
      WithoutAbsent(xs[1..], id);
    }
  }

  lemma {:induction false} TakeWithout(xs: seq<Hit>, id: MemoryId, k: nat)
    requires DistinctIds(xs) && k > 0
    ensures Take(Without(xs, id), k - 1) == Take(Without(Take(xs, k), id), k - 1)
  {
    if |xs| > k {
      var cut, rest := xs[..k], xs[1..];
      assert cut[1..] == rest[..k - 1];
      if xs[0].Id() == id {
        WithoutAbsent(rest, id);
        WithoutAbsent(rest[..k - 1], id);
      } else if k > 1 {
        TakeWithout(rest, id, k - 1);
        assert Take(rest, k - 1) == cut[1..];
        TakeCons(xs[0], Without(rest, id), k - 1);
        TakeCons(xs[0], Without(cut[1..], id), k - 1);
      }
    }
  }

  lemma TakeCons(x: Hit, xs: seq<Hit>, k: nat)
    requires k > 0
    ensures Take([x] + xs, k) == [x] + Take(xs, k - 1)
  {
  }

  /** What falls off the end of the list never mattered. */
  lemma {:induction false} OfferToTruncated(best: seq<Hit>, h: Hit, k: nat)
    requires DistinctIds(best)
    ensures Take(Offer(best, h), k) == Take(Offer(Take(best, k), h), k)
  {
    if k > 0 && |best| > k {
      var cut, rest := best[..k], best[1..];
      assert cut[1..] == Take(rest, k - 1);
      if best[0].similarity < h.similarity {
        TakeWithout(best, h.Id(), k);
        TakeCons(h, Without(best, h.Id()), k);
        TakeCons(h, Without(cut, h.Id()), k);
      } else if best[0].Id() != h.Id() {
        OfferToTruncated(rest, h, k - 1);
        TakeCons(best[0], Offer(rest, h), k);
        TakeCons(best[0], Offer(cut[1..], h), k);
      }
    }
  }

  lemma TopSnoc(xs: seq<Hit>, h: Hit, k: nat)
    ensures Top(xs + [h], k) == Take(Offer(Top(xs, k), h), k)
  {
    assert (xs + [h])[..|xs|] == xs;
    SortIsStable(xs, 0.0);
    KeepFirstInsert(SortDesc(xs), h, {});
    KeepFirstSubset(SortDesc(xs), {});
    OfferToTruncated(KeepFirst(SortDesc(xs), {}), h, k);
  }

  lemma {:induction false} TopAppend(xs: seq<Hit>, ys: seq<Hit>, k: nat)
    ensures Top(xs + ys, k) == OfferAll(Top(xs, k), ys, k)
    decreases |ys|
  {
    if ys == [] {
      assert xs + ys == xs;
    } else {
      TopSnoc(xs, ys[0], k);
      assert xs + ys == xs + [ys[0]] + ys[1..];
      TopAppend(xs + [ys[0]], ys[1..], k);
    }
  }

  lemma TopIsRanked(xs: seq<Hit>, k: nat)
    ensures Sorted(Top(xs, k)) && DistinctIds(Top(xs, k)) && |Top(xs, k)| <= k
  {
    SortIsStable(xs, 0.0);
    KeepFirstSubset(SortDesc(xs), {});
  }

  lemma TopOfRanked(xs: seq<Hit>, k: nat)
    requires Sorted(xs) && DistinctIds(xs)
    ensures Top(xs, k) == Take(xs, k)
  {
    SortOfSorted(xs);
    KeepFirstOfDistinct(xs, {});
  }

  /** Merging into an already merged list loses nothing. */
  lemma MergeIntoMerged(xs: seq<Hit>, ys: seq<Hit>, k: nat)
    ensures Top(Top(xs, k) + ys, k) == Top(xs + ys, k)
  {
    TopAppend(Top(xs, k), ys, k);
    TopAppend(xs, ys, k);
    TopIsRanked(xs, k);
    TopOfRanked(Top(xs, k), k);
  }

  // ---------- a wall's top hits are enough ----------

  /** Offering a hit no better than anything in the list can only append it. */
  lemma {:induction false} OfferWorst(best: seq<Hit>, h: Hit)
    requires forall i | 0 <= i < |best| :: best[i].similarity >= h.similarity
    ensures Offer(best, h) == best || Offer(best, h) == best + [h]
  {
    if best != [] {
      OfferWorst(best[1..], h);
      assert best == [best[0]] + best[1..];
    }
  }

  /** The first hit of an id. */
  function FirstOf(xs: seq<Hit>, id: MemoryId): Option<Hit> {
    if xs == [] then None else if xs[0].Id() == id then Some(xs[0]) else FirstOf(xs[1..], id)
  }

  lemma {:induction false} FirstAmongEquals(xs: seq<Hit>, r: Hit)
    requires FirstOf(xs, r.Id()) == Some(r)
    ensures FirstOf(At(xs, r.similarity), r.Id()) == Some(r)
  {
    if xs[0] != r {
      FirstAmongEquals(xs[1..], r);
      if xs[0].similarity == r.similarity {
        var equals := At(xs, r.similarity);
        assert equals[0] == xs[0] && equals[1..] == At(xs[1..], r.similarity);
      }
    }
  }

  lemma {:induction false} KeepFirstKeepsBest(xs: seq<Hit>, seen: set<MemoryId>, x: Hit)
    requires Sorted(xs) && x in xs && x.Id() !in seen
    ensures FirstOf(xs, x.Id()).Some?
    ensures FirstOf(xs, x.Id()).value in KeepFirst(xs, seen)
    ensures FirstOf(xs, x.Id()).value.Id() == x.Id() && FirstOf(xs, x.Id()).value.similarity >= x.similarity
  {
    if xs[0].Id() != x.Id() {
      KeepFirstKeepsBest(xs[1..], if xs[0].Id() in seen then seen else seen + {xs[0].Id()}, x);
    }
  }

  /** A hit of the same id, at least as good, is in the list. */
  predicate Represented(best: seq<Hit>, x: Hit) {
    exists r | r in best :: r.Id() == x.Id() && r.similarity >= x.similarity
  }

  /** Every hit in the top list is the best of its id and, among equals, the first. */
  lemma TopIsBest(xs: seq<Hit>, k: nat, r: Hit)
    requires r in Top(xs, k)
    ensures r in xs
    ensures forall x | x in xs && x.Id() == r.Id() :: x.similarity <= r.similarity
    ensures FirstOf(At(xs, r.similarity), r.Id()) == Some(r)
  {
    hide SortDesc, KeepFirst, At, Sorted;
    var sorted := SortDesc(xs);
    SortIsStable(xs, r.similarity);
    KeepFirstSubset(sorted, {});
    assert r in KeepFirst(sorted, {}) && r in multiset(sorted);
    KeepFirstKeepsBest(sorted, {}, r);
    assert FirstOf(sorted, r.Id()) == Some(r);
    forall x | x in xs && x.Id() == r.Id() ensures x.similarity <= r.similarity {
      assert x in multiset(sorted);
      KeepFirstKeepsBest(sorted, {}, x);
    }
    FirstAmongEquals(sorted, r);
  }

  /** A hit left out either has its id represented by one at least as good, or is no better
      than anything in a full list. */
  lemma TopIsComplete(xs: seq<Hit>, k: nat, x: Hit)
    requires x in xs
    ensures Represented(Top(xs, k), x)
            || (|Top(xs, k)| == k && forall r | r in Top(xs, k) :: r.similarity >= x.similarity)
  {
    hide SortDesc, KeepFirst, At, FirstOf;
    var sorted := SortDesc(xs);
    SortIsStable(xs, 0.0);
    assert x in multiset(sorted);
    KeepFirstSubset(sorted, {});
    KeepFirstKeepsBest(sorted, {}, x);
    var kept, best := KeepFirst(sorted, {}), FirstOf(sorted, x.Id()).value;
    var at :| 0 <= at < |kept| && kept[at] == best;
    if at < |Top(xs, k)| {
      assert best == Top(xs, k)[at];
    }
  }

  /** Beyond its first `k`, a ranked wall adds nothing to the top `k`. */
  lemma WallTopSuffices(xs: seq<Hit>, wall: seq<Hit>, k: nat)
    requires Sorted(wall) && DistinctIds(wall)
    ensures Top(xs + Take(wall, k), k) == Top(xs + wall, k)
  {
    hide Top, OfferAll;
    if |wall| > k {
      var cut, rest := wall[..k], wall[k..];
      var best := Top(xs + cut, k);
      FullAndBetter(xs, cut, k);
      assert wall == cut + rest && xs + wall == (xs + cut) + rest;
      TopAppend(xs + cut, rest, k);
      forall r, h | r in best && h in rest ensures r.similarity >= h.similarity {
        if k > 0 {
          assert cut[k - 1].similarity >= h.similarity;
        }
      }
      WorseChangeNothing(best, rest, k);
    }
  }

  /** Once `k` distinct ids have been offered, the list is full of hits at least as good as
      the worst of them. */
  lemma FullAndBetter(xs: seq<Hit>, cut: seq<Hit>, k: nat)
    requires Sorted(cut) && DistinctIds(cut) && |cut| == k
    ensures |Top(xs + cut, k)| == k
    ensures k > 0 ==> forall r | r in Top(xs + cut, k) :: r.similarity >= cut[k - 1].similarity
  {
    hide Top;
    var best := Top(xs + cut, k);
    TopIsRanked(xs + cut, k);
    if i :| 0 <= i < k && !Represented(best, cut[i]) {
      TopIsComplete(xs + cut, k, cut[i]);
    } else {
      AllRepresented(best, cut);
    }
  }

  lemma AllRepresented(best: seq<Hit>, cut: seq<Hit>)
    requires Sorted(cut) && DistinctIds(cut) && DistinctIds(best) && |best| <= |cut|
    requires forall i | 0 <= i < |cut| :: Represented(best, cut[i])
    ensures |best| == |cut|
    ensures |cut| > 0 ==> forall r | r in best :: r.similarity >= cut[|cut| - 1].similarity
  {
    forall id | id in Ids(cut) ensures id in Ids(best) {
      var x :| x in cut && x.Id() == id;
      assert Represented(best, x);
    }
    Pigeonhole(cut, best);
    forall r | r in best && |cut| > 0
      ensures r.similarity >= cut[|cut| - 1].similarity
    {
      assert r.Id() in Ids(cut);
      var i :| 0 <= i < |cut| && cut[i].Id() == r.Id();
      OfSameId(best, r, cut[i]);
    }
  }

  lemma OfSameId(best: seq<Hit>, r: Hit, x: Hit)
    requires DistinctIds(best) && r in best && r.Id() == x.Id() && Represented(best, x)
    ensures r.similarity >= x.similarity
  {
  }

  function Ids(xs: seq<Hit>): set<MemoryId> {
    set x | x in xs :: x.Id()
  }

  lemma {:induction false} IdsCount(xs: seq<Hit>)
    requires DistinctIds(xs)
    ensures |Ids(xs)| == |xs|
  {
    if xs != [] {
      IdsCount(xs[1..]);
      assert Ids(xs) == {xs[0].Id()} + Ids(xs[1..]);
    }
  }

  lemma SubsetOfEqualSize<T>(a: set<T>, b: set<T>)
    requires a <= b && |b| <= |a|
    ensures a == b
  {
    assert |b - a| == |b| - |a|;
  }

  /** Two duplicate-free lists, the longer's ids among the shorter's, have the same ids. */
  lemma Pigeonhole(xs: seq<Hit>, ys: seq<Hit>)
    requires DistinctIds(xs) && DistinctIds(ys) && |ys| <= |xs| && Ids(xs) <= Ids(ys)
    ensures |ys| == |xs| && Ids(xs) == Ids(ys)
  {
    IdsCount(xs);
    IdsCount(ys);
    SubsetOfEqualSize(Ids(xs), Ids(ys));
  }

  lemma {:induction false} WorseChangeNothing(best: seq<Hit>, hs: seq<Hit>, k: nat)
    requires |best| == k && forall r, h | r in best && h in hs :: r.similarity >= h.similarity
    ensures OfferAll(best, hs, k) == best
  {
    if hs != [] {
      OfferWorst(best, hs[0]);
      WorseChangeNothing(best, hs[1..], k);
    }
  }

  // ---------- the code ----------

  /** Sort the concatenation, retain first occurrences, truncate. */
  method MergeSearchHitsWithWalls(a: seq<Hit>, b: seq<Hit>, limit: nat) returns (all: seq<Hit>)
    ensures all == Top(a + b, limit)
  {
    var sorted := SortDesc(a + b);
    var seen: set<MemoryId> := {};
    all := [];
    for i := 0 to |sorted|
      invariant all + KeepFirst(sorted[i..], seen) == KeepFirst(sorted, {})
    {
      var h := sorted[i];
      assert sorted[i..][1..] == sorted[i + 1..];
      if h.Id() !in seen {
        seen := seen + {h.Id()};
        all := all + [h];
      }
    }
    assert sorted[|sorted|..] == [];
    all := Take(all, limit);
  }

  /** All walls' hits, one wall after the other. */
  function Flatten(walls: seq<seq<Hit>>): seq<Hit> {
    if walls == [] then [] else Flatten(walls[..|walls| - 1]) + walls[|walls| - 1]
  }

  lemma FlattenSnoc(walls: seq<seq<Hit>>, wall: seq<Hit>)
    ensures Flatten([]) == [] && Flatten(walls + [wall]) == Flatten(walls) + wall
  {
    assert (walls + [wall])[..|walls|] == walls;
  }

  lemma {:induction false} FlattenHolds(walls: seq<seq<Hit>>)
    ensures forall h :: h in Flatten(walls) <==> exists i | 0 <= i < |walls| :: h in walls[i]
  {
    if walls != [] {
      var n := |walls| - 1;
      FlattenHolds(walls[..n]);
      FlattenSnoc(walls[..n], walls[n]);
      assert walls == walls[..n] + [walls[n]];
      forall h ensures h in Flatten(walls) <==> exists i | 0 <= i < |walls| :: h in walls[i] {
        if i :| 0 <= i < |walls| && h in walls[i] {
          assert i < n ==> h in walls[..n][i];
        }
        if h in Flatten(walls[..n]) {
          var i :| 0 <= i < n && h in walls[..n][i];
          assert h in walls[i];
        }
      }
    }
  }

  lemma {:induction false} FirstOfAppend(xs: seq<Hit>, ys: seq<Hit>, id: MemoryId)
    ensures FirstOf(xs + ys, id) == if FirstOf(xs, id).Some? then FirstOf(xs, id) else FirstOf(ys, id)
  {
    if xs == [] {
      assert xs + ys == ys;
    } else {
      HeadOfConcat(xs, ys);
      FirstOfAppend(xs[1..], ys, id);
    }
  }

  lemma {:induction false} FirstOfIsIn(xs: seq<Hit>, id: MemoryId)
    ensures FirstOf(xs, id).Some? ==> FirstOf(xs, id).value in xs
    ensures forall h | h in xs && h.Id() == id :: FirstOf(xs, id).Some?
  {
    if xs != [] {
      FirstOfIsIn(xs[1..], id);
    }
  }

  lemma {:induction false} AtHolds(xs: seq<Hit>, s: real)
    ensures forall h :: h in At(xs, s) <==> h in xs && h.similarity == s
  {
    if xs != [] {
      AtHolds(xs[1..], s);
    }
  }

  /** The first of an id and similarity over all walls is in the earliest wall that has one. */
  lemma {:induction false} EarliestWallFirst(walls: seq<seq<Hit>>, r: Hit, i: nat, h: Hit)
    requires i < |walls| && h in walls[i] && h.Id() == r.Id() && h.similarity == r.similarity
    requires FirstOf(At(Flatten(walls), r.similarity), r.Id()) == Some(r)
    ensures exists j | 0 <= j <= i :: r in walls[j]
    decreases |walls|
  {
    var n, s := |walls| - 1, r.similarity;
    assert walls == walls[..n] + [walls[n]];
    FlattenSnoc(walls[..n], walls[n]);
    AtAppend(Flatten(walls[..n]), walls[n], s);
    FirstOfAppend(At(Flatten(walls[..n]), s), At(walls[n], s), r.Id());
    if i < n {
      FlattenHolds(walls[..n]);
      AtHolds(Flatten(walls[..n]), s);
      FirstOfIsIn(At(Flatten(walls[..n]), s), r.Id());
      assert h in walls[..n][i];
      EarliestWallFirst(walls[..n], r, i, h);
      var j :| 0 <= j <= i && r in walls[..n][j];
      assert r in walls[j];
    } else {
      AtHolds(Flatten(walls), s);
      FirstOfIsIn(At(Flatten(walls), s), r.Id());
      FlattenHolds(walls);
    }
  }

  /** What visible search must answer, told over the walls. */
  ghost predicate Answers(walls: seq<seq<Hit>>, limit: nat, merged: seq<Hit>) {
    && |merged| <= limit && Sorted(merged) && DistinctIds(merged)
    && (forall r | r in merged :: exists i | 0 <= i < |walls| :: r in walls[i])
    && (forall i, h | 0 <= i < |walls| && h in walls[i] ::
          Represented(merged, h) || (|merged| == limit && forall r | r in merged :: r.similarity >= h.similarity))
    && (forall i, h, r | 0 <= i < |walls| && h in walls[i] && r in merged && h.Id() == r.Id() ::
          h.similarity < r.similarity || (h.similarity == r.similarity && exists j | 0 <= j <= i :: r in walls[j]))
  }

  lemma TopAnswers(walls: seq<seq<Hit>>, limit: nat)
    ensures Answers(walls, limit, Top(Flatten(walls), limit))
  {
    hide Top, Flatten, At, FirstOf, Sorted, DistinctIds, Represented;
    var all := Flatten(walls);
    var merged := Top(all, limit);
    TopIsRanked(all, limit);
    FlattenHolds(walls);
    forall r | r in merged ensures exists i | 0 <= i < |walls| :: r in walls[i] {
      TopIsBest(all, limit, r);
    }
    forall i, h | 0 <= i < |walls| && h in walls[i]
      ensures Represented(merged, h) || (|merged| == limit && forall r | r in merged :: r.similarity >= h.similarity)
    {
      TopIsComplete(all, limit, h);
    }
    forall i, h, r | 0 <= i < |walls| && h in walls[i] && r in merged && h.Id() == r.Id()
      ensures h.similarity < r.similarity || (h.similarity == r.similarity && exists j | 0 <= j <= i :: r in walls[j])
    {
      TopIsBest(all, limit, r);
      if h.similarity == r.similarity {
        EarliestWallFirst(walls, r, i, h);
      }
    }
  }

  /** The visible-scope loop: each wall answers with its own top `limit`, merged in turn. The
      outcome is one sort of every wall's full list: at most `limit` hits with distinct ids, most
      similar first, each from some wall; any other hit has its id represented at least as well
      or is no better than anything in a full list; and of equally similar occurrences of an id
      the one in the earliest wall is returned. */
  method SearchVisible(walls: seq<seq<Hit>>, limit: nat) returns (merged: seq<Hit>)
    requires forall i | 0 <= i < |walls| :: Sorted(walls[i]) && DistinctIds(walls[i])
    ensures merged == Top(Flatten(walls), limit)
    ensures |merged| <= limit && Sorted(merged) && DistinctIds(merged)
    ensures forall r | r in merged :: exists i | 0 <= i < |walls| :: r in walls[i]
    ensures forall i, h | 0 <= i < |walls| && h in walls[i] ::
              Represented(merged, h) || (|merged| == limit && forall r | r in merged :: r.similarity >= h.similarity)
    ensures forall i, h, r | 0 <= i < |walls| && h in walls[i] && r in merged && h.Id() == r.Id() ::
              h.similarity < r.similarity || (h.similarity == r.similarity && exists j | 0 <= j <= i :: r in walls[j])
  {
    hide Top, Flatten, Sorted, DistinctIds, Represented;
    merged := [];
    FlattenSnoc([], []);
    NothingOnTop(limit);
    for i := 0 to |walls|
      invariant merged == Top(Flatten(walls[..i]), limit)
    {
      var withWall := Take(walls[i], limit);
      FlattenSnoc(walls[..i], walls[i]);
      assert walls[..i + 1] == walls[..i] + [walls[i]];
      MergeIntoMerged(Flatten(walls[..i]), withWall, limit);
      WallTopSuffices(Flatten(walls[..i]), walls[i], limit);
      merged := MergeSearchHitsWithWalls(merged, withWall, limit);
    }
    assert walls[..|walls|] == walls;
    TopAnswers(walls, limit);
  }

  lemma NothingOnTop(k: nat)
    ensures Top([], k) == []
  {
  }
}
