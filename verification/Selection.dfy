/** Greedy selection of portfolio candidates under a sector cap, and its optimality. */
module Selection {
  import opened Sorting

  datatype Candidate = Candidate(symbol: string, edge: real, confidence: real, sector: string)

  const SECTOR_CAP := 2

  function Score(c: Candidate): real {
    c.edge * 0.7 + c.confidence * 0.3
  }

  const BY_SCORE := (a: Candidate, b: Candidate) => Score(a) >= Score(b)

  function SectorCount(s: seq<Candidate>, sector: string): nat {
    if s == [] then 0 else SectorCount(s[..|s| - 1], sector) + if s[|s| - 1].sector == sector then 1 else 0
  }

  /** The total score: seven tenths of the edges and three tenths of the confidences. */
  function Total(s: seq<Candidate>): real {
    if s == [] then 0.0 else Total(s[..|s| - 1]) + (0.7 * s[|s| - 1].edge + 0.3 * s[|s| - 1].confidence)
  }

  /** The greedy pass over candidates in descending score, from those already selected. */
  function Pick(scored: seq<Candidate>, selected: seq<Candidate>, maxPositions: int): seq<Candidate> {
    if scored == [] then selected
    else if SectorCount(selected, scored[0].sector) >= SECTOR_CAP then Pick(scored[1..], selected, maxPositions)
    else if |selected| + 1 >= maxPositions then selected + [scored[0]]
    else Pick(scored[1..], selected + [scored[0]], maxPositions)
  }

  function Select(candidates: seq<Candidate>, maxPositions: int): seq<Candidate> {
    Pick(Sort(BY_SCORE, candidates), [], maxPositions)
  }

  method SelectCandidates(candidates: seq<Candidate>, maxPositions: int) returns (selected: seq<Candidate>)
    ensures selected == Select(candidates, maxPositions)
  {
    var scored := Sort(BY_SCORE, candidates);
    selected := [];
    var sectorCount: map<string, nat> := map[];
    for i := 0 to |scored|
      invariant Pick(scored[i..], selected, maxPositions) == Pick(scored, [], maxPositions)
      invariant forall s :: SectorCount(selected, s) == if s in sectorCount then sectorCount[s] else 0
    {
      var c := scored[i];
      assert scored[i..][0] == c && scored[i..][1..] == scored[i + 1..];
      var count := if c.sector in sectorCount then sectorCount[c.sector] else 0;
      if count >= SECTOR_CAP {
        continue;
      }
      assert forall s ::
          SectorCount(selected + [c], s) == SectorCount(selected, s) + if s == c.sector then 1 else 0 by {
        assert (selected + [c])[..|selected|] == selected;
      }
      selected := selected + [c];
      sectorCount := sectorCount[c.sector := count + 1];
      if |selected| >= maxPositions {
        break;
      }
    }
  }

  // ---------- feasibility ----------

  ghost predicate Feasible(s: seq<Candidate>, candidates: seq<Candidate>, maxPositions: int) {
    && multiset(s) <= multiset(candidates)
    && |s| <= maxPositions
    && forall sector :: SectorCount(s, sector) <= 2
  }

  lemma {:induction false} RemoveOne(s: seq<Candidate>, k: nat)
    requires k < |s|
    ensures Total(s) == Total(Without(s, k)) + Score(s[k])
    ensures forall sector ::
              SectorCount(s, sector) == SectorCount(Without(s, k), sector) + if s[k].sector == sector then 1 else 0
  {
    var n := |s| - 1;
    if k == n {
      assert Without(s, k) == s[..n];
    } else {
      RemoveOne(s[..n], k);
      assert Without(s, k)[..n - 1] == Without(s[..n], k);
    }
  }

  lemma {:induction false} SectorAbsent(s: seq<Candidate>, sector: string)
    ensures SectorCount(s, sector) == 0 <==> forall i | 0 <= i < |s| :: s[i].sector != sector
  {
    if s != [] {
      var n := |s| - 1;
      SectorAbsent(s[..n], sector);
      assert s == s[..n] + [s[n]];
    }
  }

  /** The greedy pass keeps the caps and takes only candidates still on offer. */
  lemma {:induction false} PickFeasible(scored: seq<Candidate>, selected: seq<Candidate>, maxPositions: int)
    requires |selected| < maxPositions
    requires forall sector :: SectorCount(selected, sector) <= SECTOR_CAP
    ensures var r := Pick(scored, selected, maxPositions);
            && selected <= r && |r| <= maxPositions
            && multiset(r) <= multiset(selected) + multiset(scored)
            && forall sector :: SectorCount(r, sector) <= SECTOR_CAP
  {
    if scored != [] {
      var c := scored[0];
      assert scored == [c] + scored[1..];
      if SectorCount(selected, c.sector) >= SECTOR_CAP {
        PickFeasible(scored[1..], selected, maxPositions);
      } else {
        assert (selected + [c])[..|selected|] == selected;
        if |selected| + 1 < maxPositions {
          PickFeasible(scored[1..], selected + [c], maxPositions);
        }
      }
    }
  }

  // ---------- optimality ----------

  lemma StillOffered<T(!new)>(offered: seq<T>, s: seq<T>, k: nat)
    requires offered != [] && k < |s| && multiset(s) <= multiset(offered)
    requires s[k] == offered[0] || offered[0] !in s
    ensures multiset(Without(s, k)) <= multiset(offered[1..])
  {
    WithoutKeeps(s, k);
    assert offered == [offered[0]] + offered[1..];
    var rest, left := Without(s, k), offered[1..];
    forall x
      ensures multiset(rest)[x] <= multiset(left)[x]
    {
      assert multiset(s)[x] <= multiset(offered)[x];
      assert multiset(offered)[x] == multiset(left)[x] + if x == offered[0] then 1 else 0;
      assert multiset(s)[x] == multiset(rest)[x] + if x == s[k] then 1 else 0;
    }
  }

  /** What an alternative gives up when the greedy pass takes `c`: a member no better than `c`. */
  lemma Exchange(scored: seq<Candidate>, selected: seq<Candidate>, alt: seq<Candidate>, room: nat)
      returns (rest: seq<Candidate>)
    requires scored != [] && Sorted(BY_SCORE, scored) && Score(scored[0]) >= 0.0
    requires multiset(alt) <= multiset(scored) && |alt| <= room && room > 0
    requires SectorCount(selected, scored[0].sector) < SECTOR_CAP
    requires forall sector :: SectorCount(alt, sector) + SectorCount(selected, sector) <= SECTOR_CAP
    ensures Total(alt) <= Total(rest) + Score(scored[0])
    ensures multiset(rest) <= multiset(scored[1..]) && |rest| <= room - 1
    ensures forall sector :: SectorCount(rest, sector) + SectorCount(selected + [scored[0]], sector) <= SECTOR_CAP
  {
    var c := scored[0];
    assert scored == [c] + scored[1..];
    assert (selected + [c])[..|selected|] == selected;
    if alt == [] {
      rest := [];
    } else {
      SectorAbsent(alt, c.sector);
      var k: nat := 0;
      if i :| 0 <= i < |alt| && alt[i] == c {
        k := i;
      } else if i :| 0 <= i < |alt| && alt[i].sector == c.sector {
        k := i;
      }
      RemoveOne(alt, k);
      rest := Without(alt, k);
      assert alt[k] in multiset(scored);
      assert Score(alt[k]) <= Score(c);
      StillOffered(scored, alt, k);
    }
  }

  lemma {:induction false} PickOptimal(scored: seq<Candidate>, selected: seq<Candidate>, maxPositions: int,
                                       alt: seq<Candidate>)
    requires Sorted(BY_SCORE, scored) && |selected| < maxPositions
    requires selected <= Pick(scored, selected, maxPositions)
    requires forall c | c in Pick(scored, selected, maxPositions)[|selected|..] :: Score(c) >= 0.0
    requires multiset(alt) <= multiset(scored) && |alt| <= maxPositions - |selected|
    requires forall sector :: SectorCount(alt, sector) + SectorCount(selected, sector) <= SECTOR_CAP
    ensures Total(alt) + Total(selected) <= Total(Pick(scored, selected, maxPositions))
  {
    var r := Pick(scored, selected, maxPositions);
    if scored == [] {
      assert alt == [] by { assert |alt| == |multiset(alt)|; }
    } else {
      var c := scored[0];
      assert scored == [c] + scored[1..];
      if SectorCount(selected, c.sector) >= SECTOR_CAP {
        SectorAbsent(alt, c.sector);
        assert c !in multiset(alt);
        assert multiset(scored) == multiset{c} + multiset(scored[1..]);
        PickOptimal(scored[1..], selected, maxPositions, alt);
      } else {
        var more := selected + [c];
        assert more[..|selected|] == selected;
        assert more <= r by {
          if |selected| + 1 < maxPositions {
            PickExtends(scored[1..], more, maxPositions);
          }
        }
        assert r[|selected|] == c;
        assert r[|selected|..][0] == c;
        var rest := Exchange(scored, selected, alt, maxPositions - |selected|);
        if |selected| + 1 >= maxPositions {
          assert rest == [];
        } else {
          assert r[|more|..] == r[|selected|..][1..];
          PickOptimal(scored[1..], more, maxPositions, rest);
        }
      }
    }
  }

  lemma {:induction false} PickExtends(scored: seq<Candidate>, selected: seq<Candidate>, maxPositions: int)
    ensures selected <= Pick(scored, selected, maxPositions)
  {
    if scored != [] {
      PickExtends(scored[1..], selected, maxPositions);
      PickExtends(scored[1..], selected + [scored[0]], maxPositions);
    }
  }

  /** With room for at least one position, the selection is feasible, and no feasible choice of
      candidates has a larger total score exactly when no selected score is negative. */
  lemma OptimalIffNoneNegative(candidates: seq<Candidate>, maxPositions: int)
    requires maxPositions >= 1
    ensures Feasible(Select(candidates, maxPositions), candidates, maxPositions)
    ensures (forall alt | Feasible(alt, candidates, maxPositions) ::
              Total(alt) <= Total(Select(candidates, maxPositions)))
            <==> (forall c | c in Select(candidates, maxPositions) :: Score(c) >= 0.0)
  {
    var scored := Sort(BY_SCORE, candidates);
    var selected := Select(candidates, maxPositions);
    SortSorts(BY_SCORE, candidates);
    PickFeasible(scored, [], maxPositions);
    assert multiset(selected) <= multiset(candidates) by {
      assert multiset([]) + multiset(scored) == multiset(scored);
    }
    if forall c | c in selected :: Score(c) >= 0.0 {
      forall alt | Feasible(alt, candidates, maxPositions)
        ensures Total(alt) <= Total(selected)
      {
        assert selected[0..] == selected;
        PickOptimal(scored, [], maxPositions, alt);
      }
    } else {
      var k :| 0 <= k < |selected| && Score(selected[k]) < 0.0;
      var better := Without(selected, k);
      RemoveOne(selected, k);
      WithoutKeeps(selected, k);
      assert Feasible(better, candidates, maxPositions);
      assert Total(better) > Total(selected);
    }
  }

  // ---------- when a negative score is selected ----------

  /** How many candidates of a sector have a non-negative score. */
  function GoodCount(s: seq<Candidate>, sector: string): nat {
    if s == [] then 0
    else GoodCount(s[..|s| - 1], sector) + if s[|s| - 1].sector == sector && Score(s[|s| - 1]) >= 0.0 then 1 else 0
  }

  /** How many positions the candidates with non-negative scores can take under the sector cap. */
  function GoodSlots(s: seq<Candidate>): nat {
    if s == [] then 0
    else
      var c := s[|s| - 1];
      GoodSlots(s[..|s| - 1]) + if Score(c) >= 0.0 && GoodCount(s[..|s| - 1], c.sector) < SECTOR_CAP then 1 else 0
  }

  lemma GoodAppend(s: seq<Candidate>, c: Candidate)
    ensures forall sector :: GoodCount(s + [c], sector)
              == GoodCount(s, sector) + if c.sector == sector && Score(c) >= 0.0 then 1 else 0
    ensures GoodSlots(s + [c])
              == GoodSlots(s) + if Score(c) >= 0.0 && GoodCount(s, c.sector) < SECTOR_CAP then 1 else 0
  {
    assert (s + [c])[..|s|] == s;
  }

  lemma {:induction false} InsertCount(s: seq<Candidate>, x: Candidate, sector: string)
    ensures GoodCount(Insert(BY_SCORE, s, x), sector) == GoodCount(s + [x], sector)
  {
    hide GoodCount;
    if s != [] && !BY_SCORE(s[|s| - 1], x) {
      var n := |s| - 1;
      InsertCount(s[..n], x, sector);
      GoodAppend(Insert(BY_SCORE, s[..n], x), s[n]);
      GoodAppend(s[..n], x);
      GoodAppend(s[..n], s[n]);
      assert s == s[..n] + [s[n]];
      GoodAppend(s, x);
    }
  }

  lemma {:induction false} InsertSlots(s: seq<Candidate>, x: Candidate)
    ensures GoodSlots(Insert(BY_SCORE, s, x)) == GoodSlots(s + [x])
  {
    hide GoodCount, GoodSlots;
    if s != [] && !BY_SCORE(s[|s| - 1], x) {
      var n := |s| - 1;
      InsertSlots(s[..n], x);
      InsertCount(s[..n], x, s[n].sector);
      GoodAppend(Insert(BY_SCORE, s[..n], x), s[n]);
      GoodAppend(s[..n], x);
      GoodAppend(s[..n], s[n]);
      assert s == s[..n] + [s[n]];
      GoodAppend(s, x);
    }
  }

  /** Both counts are of the candidates, whatever their order. */
  lemma {:induction false} SortGood(s: seq<Candidate>)
    ensures forall sector :: GoodCount(Sort(BY_SCORE, s), sector) == GoodCount(s, sector)
    ensures GoodSlots(Sort(BY_SCORE, s)) == GoodSlots(s)
  {
    if s != [] {
      var n := |s| - 1;
      SortGood(s[..n]);
      InsertSlots(Sort(BY_SCORE, s[..n]), s[n]);
      forall sector
        ensures GoodCount(Sort(BY_SCORE, s), sector) == GoodCount(Sort(BY_SCORE, s[..n]) + [s[n]], sector)
      {
        InsertCount(Sort(BY_SCORE, s[..n]), s[n], sector);
      }
      GoodAppend(Sort(BY_SCORE, s[..n]), s[n]);
    }
  }

  ghost predicate SomeNegative(s: seq<Candidate>) {
    exists c :: c in s && Score(c) < 0.0
  }

  /** Candidates with negative scores only: one is taken exactly when one still has room in its sector. */
  lemma {:induction false} NegativeTail(rest: seq<Candidate>, selected: seq<Candidate>, maxPositions: int)
    requires |selected| < maxPositions && !SomeNegative(selected) && forall c | c in rest :: Score(c) < 0.0
    ensures SomeNegative(Pick(rest, selected, maxPositions))
            <==> exists c :: c in rest && SectorCount(selected, c.sector) < SECTOR_CAP
  {
    if rest != [] {
      var c := rest[0];
      assert rest == [c] + rest[1..];
      if SectorCount(selected, c.sector) >= SECTOR_CAP {
        NegativeTail(rest[1..], selected, maxPositions);
      } else {
        var more := selected + [c];
        PickExtends(rest[1..], more, maxPositions);
        assert more[|selected|] == c && c in rest;
        var r := Pick(rest, selected, maxPositions);
        assert more <= r && r[|selected|] == c;
        assert c in r;
      }
    }
  }

  lemma {:induction false} BadAdds(done: seq<Candidate>, rest: seq<Candidate>)
    requires forall c | c in rest :: Score(c) < 0.0
    ensures forall sector :: GoodCount(done + rest, sector) == GoodCount(done, sector)
    ensures GoodSlots(done + rest) == GoodSlots(done)
  {
    if rest != [] {
      var n := |rest| - 1;
      BadAdds(done, rest[..n]);
      GoodAppend(done + rest[..n], rest[n]);
      assert done + rest == done + rest[..n] + [rest[n]];
    } else {
      assert done + rest == done;
    }
  }

  lemma {:induction false} SlotsGrow(done: seq<Candidate>, rest: seq<Candidate>)
    ensures GoodSlots(done) <= GoodSlots(done + rest)
  {
    if rest != [] {
      var n := |rest| - 1;
      SlotsGrow(done, rest[..n]);
      GoodAppend(done + rest[..n], rest[n]);
      assert done + rest == done + rest[..n] + [rest[n]];
    } else {
      assert done + rest == done;
    }
  }

  /** What the pass has taken from candidates with non-negative scores only. */
  ghost predicate TookGood(done: seq<Candidate>, selected: seq<Candidate>) {
    && !SomeNegative(done) && !SomeNegative(selected) && |selected| == GoodSlots(done)
    && forall sector :: SectorCount(selected, sector)
         == if GoodCount(done, sector) < SECTOR_CAP then GoodCount(done, sector) else SECTOR_CAP
  }

  /** A negative candidate with room left in its sector. */
  ghost predicate NegativeFits(s: seq<Candidate>) {
    exists c :: c in s && Score(c) < 0.0 && GoodCount(s, c.sector) < SECTOR_CAP
  }

  lemma {:induction false} TakesNegativeIff(done: seq<Candidate>, rest: seq<Candidate>, selected: seq<Candidate>,
                                            maxPositions: int)
    requires Sorted(BY_SCORE, rest) && TookGood(done, selected) && |selected| < maxPositions
    ensures SomeNegative(Pick(rest, selected, maxPositions))
            <==> GoodSlots(done + rest) < maxPositions && NegativeFits(done + rest)
    decreases |rest|
  {
    hide GoodCount, GoodSlots;
    if rest == [] {
      assert done + rest == done;
    } else if Score(rest[0]) < 0.0 {
      BadAdds(done, rest);
      NegativeTail(rest, selected, maxPositions);
    } else {
      var c, more := rest[0], done + [rest[0]];
      GoodAppend(done, c);
      assert done + rest == more + rest[1..];
      assert (selected + [c])[..|selected|] == selected;
      if SectorCount(selected, c.sector) >= SECTOR_CAP {
        TakesNegativeIff(more, rest[1..], selected, maxPositions);
      } else if |selected| + 1 >= maxPositions {
        SlotsGrow(more, rest[1..]);
      } else {
        TakesNegativeIff(more, rest[1..], selected + [c], maxPositions);
      }
    }
  }

  /** With room for at least one position, the selection is feasible.  No feasible choice has a
      larger total score if and only if the candidates with non-negative scores fill all positions
      under the sector cap, or fill the sector of every other candidate. */
  lemma SelectionOptimalIff(candidates: seq<Candidate>, maxPositions: int)
    requires maxPositions >= 1
    ensures Feasible(Select(candidates, maxPositions), candidates, maxPositions)
    ensures (forall alt | Feasible(alt, candidates, maxPositions) ::
              Total(alt) <= Total(Select(candidates, maxPositions)))
            <==> GoodSlots(candidates) >= maxPositions
                 || forall c | c in candidates && 0.7 * c.edge + 0.3 * c.confidence < 0.0 ::
                      GoodCount(candidates, c.sector) >= 2
  {
    hide Pick, Sort, Total, GoodCount, GoodSlots, Feasible;
    var scored := Sort(BY_SCORE, candidates);
    OptimalIffNoneNegative(candidates, maxPositions);
    SortSorts(BY_SCORE, candidates);
    SortGood(candidates);
    NothingTaken();
    TakesNegativeIff([], scored, [], maxPositions);
    assert [] + scored == scored;
    forall c
      ensures c in scored <==> c in candidates
    {
      SameMembers(scored, candidates, c);
    }
  }

  lemma NothingTaken()
    ensures TookGood([], [])
  {
  }

  /** With no room at all the loop still takes the best candidate before it looks at the limit. */
  lemma NonPositiveLimitTakesOne(candidates: seq<Candidate>, maxPositions: int)
    requires maxPositions <= 0 && candidates != []
    ensures Select(candidates, maxPositions) == [Sort(BY_SCORE, candidates)[0]]
  {
    SortSorts(BY_SCORE, candidates);
  }
}
