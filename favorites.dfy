/** The favorite/ordering maintainer (set_favorite_availability) as three
    passes over the owner's id list, each a function of the store it starts
    from. Each pass is defined on the prefix it has processed, so the loops of
    AvailabilityStore.SetFavoriteAvailability can state their progress
    directly. The lemmas give the closed form of the whole operation and the
    facts about ranks: the target ranks 0, the other stored ids rank 1..m in
    list order, densely and without repeats. */
module Favorites {
  import opened Types
  import opened IdSeq

  /** The record after the first pass: no longer favorite, touched at now. */
  function Cleared(a: Availability, now: nat): Availability {
    a.(isFavorite := false, updatedAt := now)
  }

  /** The target after the second pass. */
  function Promoted(a: Availability, now: nat): Availability {
    a.(isFavorite := true, displayOrder := 0, updatedAt := now)
  }

  /** A record after the third pass gave it rank `order`. */
  function Ranked(a: Availability, order: nat, now: nat): Availability {
    a.(displayOrder := order, updatedAt := now)
  }

  /** An id the third pass ranks: stored, and not the target. */
  predicate IsRanked(x: string, target: string, keys: set<string>) {
    x != target && x in keys
  }

  /** How many positions of ids the third pass ranks (the counter's advance). */
  function RankedCount(ids: seq<string>, target: string, keys: set<string>): (n: nat)
    ensures n <= |ids|
  {
    if ids == [] then 0
    else RankedCount(ids[..|ids| - 1], target, keys)
         + (if IsRanked(ids[|ids| - 1], target, keys) then 1 else 0)
  }

  /** First pass, over the ids processed so far: every stored id of the list
      is cleared; the rest of the store is untouched. Repeated ids are
      harmless, since clearing twice is clearing once. */
  function ClearPass(st: map<string, Availability>, ids: seq<string>, now: nat)
    : (r: map<string, Availability>)
    ensures r.Keys == st.Keys
    ensures forall x :: x in st ==> r[x] == if x in ids then Cleared(st[x], now) else st[x]
    decreases |ids|
  {
    if ids == [] then st
    else
      var prev := ClearPass(st, ids[..|ids| - 1], now);
      var x := ids[|ids| - 1];
      assert ids == ids[..|ids| - 1] + [x];
      if x in prev then prev[x := Cleared(prev[x], now)] else prev
  }

  /** One step of the first pass: the last listed id is cleared, when stored. */
  lemma ClearPassStep(st: map<string, Availability>, ids: seq<string>, now: nat)
    requires ids != []
    ensures var prev := ClearPass(st, ids[..|ids| - 1], now);
            var x := ids[|ids| - 1];
            ClearPass(st, ids, now) == if x in prev then prev[x := Cleared(prev[x], now)] else prev
  {
  }

  /** Third pass, over the ids processed so far: returns the store and the
      counter, which starts at 1 and advances once per ranked position. Ids
      that are not listed, and the target, are untouched. */
  function RankPass(st: map<string, Availability>, ids: seq<string>, target: string, now: nat)
    : (r: (map<string, Availability>, nat))
    ensures r.0.Keys == st.Keys
    ensures r.1 == 1 + RankedCount(ids, target, st.Keys)
    decreases |ids|
  {
    if ids == [] then (st, 1)
    else
      var n := |ids| - 1;
      var prev := RankPass(st, ids[..n], target, now);
      var x := ids[n];
      assert ids == ids[..n] + [x];
      if IsRanked(x, target, st.Keys) then (prev.0[x := Ranked(prev.0[x], prev.1, now)], prev.1 + 1)
      else prev
  }

  /** One step of the third pass: the last listed id is ranked with the
      counter left by the ids before it, when it is rankable. */
  lemma RankPassStep(st: map<string, Availability>, ids: seq<string>, target: string, now: nat)
    requires ids != []
    ensures var n := |ids| - 1;
            var prev := RankPass(st, ids[..n], target, now);
            RankPass(st, ids, target, now)
              == if IsRanked(ids[n], target, st.Keys)
                 then (prev.0[ids[n] := Ranked(prev.0[ids[n]], prev.1, now)], prev.1 + 1)
                 else prev
  {
  }

  /** The third pass leaves ids that are not listed, and the target, as
      they were. */
  lemma {:induction false} RankPassUntouched(st: map<string, Availability>, ids: seq<string>,
                                             target: string, now: nat, x: string)
    requires x in st && (x !in ids || x == target)
    ensures RankPass(st, ids, target, now).0[x] == st[x]
    decreases |ids|
  {
    if ids != [] {
      var n := |ids| - 1;
      assert x !in ids[..n] || x == target by {
        if x in ids[..n] { assert x in ids; }
      }
      RankPassUntouched(st, ids[..n], target, now, x);
      RankPassStep(st, ids, target, now);
      assert x != ids[n] || x == target by {
        if x == ids[n] { assert x in ids; }
      }
    }
  }

  /** The third pass gives the id at position k, when it does not occur again
      later in the list, the rank one more than the number of ranked
      positions before it. An earlier occurrence is harmless: its rank is
      overwritten. */
  lemma {:induction false} RankPassAt(st: map<string, Availability>, ids: seq<string>, target: string,
                                      now: nat, k: nat)
    requires k < |ids| && IsRanked(ids[k], target, st.Keys)
    requires forall j :: k < j < |ids| ==> ids[j] != ids[k]
    ensures RankPass(st, ids, target, now).0[ids[k]]
            == Ranked(st[ids[k]], 1 + RankedCount(ids[..k], target, st.Keys), now)
    decreases |ids|
  {
    var n := |ids| - 1;
    var front := ids[..n];
    var prev := RankPass(st, front, target, now);
    RankPassStep(st, ids, target, now);
    if k < n {
      assert front[k] == ids[k] && front[..k] == ids[..k];
      assert forall j :: k < j < |front| ==> front[j] != front[k] by {
        forall j | k < j < |front| ensures front[j] != front[k] { assert front[j] == ids[j]; }
      }
      RankPassAt(st, front, target, now, k);
      assert ids[n] != ids[k];
    } else {
      RankPassFrame(st, front, target, now, ids[k]);
      assert ids[..k] == front;
    }
  }

  /** The third pass writes only the rank and the timestamp of a record. */
  lemma {:induction false} RankPassFrame(st: map<string, Availability>, ids: seq<string>, target: string,
                                         now: nat, x: string)
    requires x in st
    ensures var a := RankPass(st, ids, target, now).0[x];
            a == st[x].(displayOrder := a.displayOrder, updatedAt := a.updatedAt)
    decreases |ids|
  {
    if ids != [] {
      var n := |ids| - 1;
      var prev := RankPass(st, ids[..n], target, now);
      RankPassFrame(st, ids[..n], target, now, x);
      assert RankPass(st, ids, target, now).0
             == if IsRanked(ids[n], target, st.Keys) then prev.0[ids[n] := Ranked(prev.0[ids[n]], prev.1, now)]
                else prev.0;
    }
  }

  /** The whole of set_favorite_availability's effect on the store: clear the
      listed ids, promote the target, rank the others. */
  function SetFavoriteEffect(st: map<string, Availability>, ids: seq<string>, target: string, now: nat)
    : (r: map<string, Availability>)
    requires target in st
    ensures r.Keys == st.Keys
    ensures r[target] == Promoted(st[target], now)
  {
    var cleared := ClearPass(st, ids, now);
    var promoted := cleared[target := Promoted(cleared[target], now)];
    assert RankPass(promoted, ids, target, now).0[target] == promoted[target] by {
      RankPassUntouched(promoted, ids, target, now, target);
    }
    RankPass(promoted, ids, target, now).0
  }

  /** Closed form of the effect: the target is the favorite at rank 0; every
      other stored listed id is not favorite and is ranked by its position
      among the ranked ids; everything else is untouched. */
  lemma SetFavoriteOutcome(st: map<string, Availability>, ids: seq<string>, target: string, now: nat)
    requires target in st && NoDup(ids)
    ensures SetFavoriteEffect(st, ids, target, now).Keys == st.Keys
    ensures SetFavoriteEffect(st, ids, target, now)[target] == Promoted(st[target], now)
    ensures forall k :: 0 <= k < |ids| && IsRanked(ids[k], target, st.Keys) ==>
      SetFavoriteEffect(st, ids, target, now)[ids[k]]
        == st[ids[k]].(isFavorite := false,
                       displayOrder := 1 + RankedCount(ids[..k], target, st.Keys),
                       updatedAt := now)
    ensures forall x :: x in st && x !in ids && x != target ==>
      SetFavoriteEffect(st, ids, target, now)[x] == st[x]
  {
    var cleared := ClearPass(st, ids, now);
    var promoted := cleared[target := Promoted(cleared[target], now)];
    SetFavoriteTouchesOnlyRanking(st, ids, target, now);
    forall x | x in st && x !in ids && x != target
      ensures SetFavoriteEffect(st, ids, target, now)[x] == st[x]
    {
      RankPassUntouched(promoted, ids, target, now, x);
    }
    forall k | 0 <= k < |ids| && IsRanked(ids[k], target, st.Keys)
      ensures SetFavoriteEffect(st, ids, target, now)[ids[k]]
        == st[ids[k]].(isFavorite := false,
                       displayOrder := 1 + RankedCount(ids[..k], target, st.Keys),
                       updatedAt := now)
    {
      SetFavoriteRankAt(st, ids, target, now, k);
    }
  }

  /** The record at position k of a list in which it does not occur again
      later ends up cleared and ranked by its position. */
  lemma SetFavoriteRankAt(st: map<string, Availability>, ids: seq<string>, target: string, now: nat, k: nat)
    requires target in st && k < |ids| && IsRanked(ids[k], target, st.Keys)
    requires forall j :: k < j < |ids| ==> ids[j] != ids[k]
    ensures SetFavoriteEffect(st, ids, target, now)[ids[k]]
        == st[ids[k]].(isFavorite := false,
                       displayOrder := 1 + RankedCount(ids[..k], target, st.Keys),
                       updatedAt := now)
  {
    var x := ids[k];
    var cleared := ClearPass(st, ids, now);
    var promoted := cleared[target := Promoted(cleared[target], now)];
    assert promoted.Keys == st.Keys;
    RankPassAt(promoted, ids, target, now, k);
    assert x in ids;
    assert promoted[x] == Cleared(st[x], now);
  }

  /** Set-favorite changes only the favorite flag, the rank and the
      timestamp of a record, and clears the flag of every listed id other than
      the target, whether or not the list repeats ids. */
  lemma SetFavoriteTouchesOnlyRanking(st: map<string, Availability>, ids: seq<string>, target: string,
                                      now: nat)
    requires target in st
    ensures SetFavoriteEffect(st, ids, target, now).Keys == st.Keys
    ensures forall x :: x in st ==>
      var a := SetFavoriteEffect(st, ids, target, now)[x];
      a == st[x].(isFavorite := a.isFavorite, displayOrder := a.displayOrder, updatedAt := a.updatedAt)
    ensures forall x :: x in ids && x in st && x != target ==>
      !SetFavoriteEffect(st, ids, target, now)[x].isFavorite
    ensures SetFavoriteEffect(st, ids, target, now)[target] == Promoted(st[target], now)
  {
    var cleared := ClearPass(st, ids, now);
    var promoted := cleared[target := Promoted(cleared[target], now)];
    assert promoted.Keys == st.Keys;
    forall x | x in st
      ensures var a := SetFavoriteEffect(st, ids, target, now)[x];
              a == st[x].(isFavorite := a.isFavorite, displayOrder := a.displayOrder, updatedAt := a.updatedAt)
    {
      RankPassFrame(promoted, ids, target, now, x);
    }
    forall x | x in ids && x in st && x != target
      ensures !SetFavoriteEffect(st, ids, target, now)[x].isFavorite
    {
      RankPassFrame(promoted, ids, target, now, x);
      assert promoted[x] == Cleared(st[x], now);
    }
    RankPassUntouched(promoted, ids, target, now, target);
  }

  /** The counter never goes back: a longer prefix ranks at least as many ids. */
  lemma {:induction false} RankedCountMonotone(ids: seq<string>, target: string, keys: set<string>, i: nat, j: nat)
    requires i <= j <= |ids|
    ensures RankedCount(ids[..i], target, keys) <= RankedCount(ids[..j], target, keys)
    decreases j - i
  {
    if i < j {
      RankedCountMonotone(ids, target, keys, i, j - 1);
      assert ids[..j][..j - 1] == ids[..j - 1];
    }
  }

  /** A ranked position advances the counter. */
  lemma RankedCountStep(ids: seq<string>, target: string, keys: set<string>, k: nat)
    requires k < |ids|
    ensures RankedCount(ids[..k + 1], target, keys)
            == RankedCount(ids[..k], target, keys) + (if IsRanked(ids[k], target, keys) then 1 else 0)
  {
    assert ids[..k + 1][..k] == ids[..k];
  }

  /** The ranks 1..m. */
  function RankRange(m: nat): (s: set<nat>)
    ensures forall n :: n in s <==> 1 <= n <= m
  {
    if m == 0 then {} else RankRange(m - 1) + {m}
  }

  /** Every rank from 1 to the number of ranked ids is given to some ranked
      position. */
  lemma {:induction false} RanksCovered(ids: seq<string>, target: string, keys: set<string>, n: nat)
    requires 1 <= n <= RankedCount(ids, target, keys)
    ensures exists k :: 0 <= k < |ids| && IsRanked(ids[k], target, keys)
                        && 1 + RankedCount(ids[..k], target, keys) == n
    decreases |ids|
  {
    var m := |ids| - 1;
    var front := ids[..m];
    if n <= RankedCount(front, target, keys) {
      RanksCovered(front, target, keys, n);
      var k :| 0 <= k < |front| && IsRanked(front[k], target, keys)
               && 1 + RankedCount(front[..k], target, keys) == n;
      assert front[k] == ids[k] && front[..k] == ids[..k];
    } else {
      assert ids[..m] == front;
    }
  }

  /** After set-favorite, on a list without repetitions, exactly the target
      is favorite among the stored listed ids, and it ranks 0. */
  lemma FavoriteIsUnique(st: map<string, Availability>, ids: seq<string>, target: string, now: nat)
    requires target in st && NoDup(ids)
    ensures forall x :: x in ids && x in st ==>
      (SetFavoriteEffect(st, ids, target, now)[x].isFavorite <==> x == target)
    ensures SetFavoriteEffect(st, ids, target, now)[target].isFavorite
    ensures SetFavoriteEffect(st, ids, target, now)[target].displayOrder == 0
  {
    SetFavoriteOutcome(st, ids, target, now);
    forall x | x in ids && x in st && x != target
      ensures !SetFavoriteEffect(st, ids, target, now)[x].isFavorite
    {
      var k :| 0 <= k < |ids| && ids[k] == x;
      assert IsRanked(ids[k], target, st.Keys);
    }
  }

  /** After set-favorite, on a list without repetitions, the other stored
      listed ids are ranked in list order: a later position gets a larger
      rank, so no two share one. */
  lemma RanksFollowListOrder(st: map<string, Availability>, ids: seq<string>, target: string, now: nat,
                             k1: nat, k2: nat)
    requires target in st && NoDup(ids)
    requires k1 < k2 < |ids| && IsRanked(ids[k1], target, st.Keys) && IsRanked(ids[k2], target, st.Keys)
    ensures SetFavoriteEffect(st, ids, target, now)[ids[k1]].displayOrder
            < SetFavoriteEffect(st, ids, target, now)[ids[k2]].displayOrder
  {
    RankAt(st, ids, target, now, k1);
    RankAt(st, ids, target, now, k2);
    RankedCountStep(ids, target, st.Keys, k1);
    RankedCountMonotone(ids, target, st.Keys, k1 + 1, k2);
  }

  /** The rank set-favorite gives one ranked position, bounded by the number
      of ranked positions. */
  lemma RankAt(st: map<string, Availability>, ids: seq<string>, target: string, now: nat, k: nat)
    requires target in st && NoDup(ids) && k < |ids| && IsRanked(ids[k], target, st.Keys)
    ensures SetFavoriteEffect(st, ids, target, now)[ids[k]].displayOrder
            == 1 + RankedCount(ids[..k], target, st.Keys)
    ensures 1 + RankedCount(ids[..k], target, st.Keys) <= RankedCount(ids, target, st.Keys)
  {
    SetFavoriteOutcome(st, ids, target, now);
    RankedCountStep(ids, target, st.Keys, k);
    RankedCountMonotone(ids, target, st.Keys, k + 1, |ids|);
    assert ids[..|ids|] == ids;
  }

  /** The ranks a store gives to the ranked positions of a list. */
  ghost function RanksOf(r: map<string, Availability>, ids: seq<string>, target: string, keys: set<string>)
    : set<nat>
    requires forall k :: 0 <= k < |ids| && IsRanked(ids[k], target, keys) ==> ids[k] in r
  {
    set k | 0 <= k < |ids| && IsRanked(ids[k], target, keys) :: r[ids[k]].displayOrder
  }

  /** A store ranks the list by position: each ranked position k holds rank
      one more than the number of ranked positions before it. */
  ghost predicate RanksByPosition(r: map<string, Availability>, ids: seq<string>, target: string,
                                  keys: set<string>)
  {
    forall k :: 0 <= k < |ids| && IsRanked(ids[k], target, keys) ==>
      ids[k] in r && r[ids[k]].displayOrder == 1 + RankedCount(ids[..k], target, keys)
  }

  /** Ranking by position uses exactly the ranks 1..m. */
  lemma {:induction false} PositionRanksAreDense(r: map<string, Availability>, ids: seq<string>, target: string,
                                                 keys: set<string>)
    requires RanksByPosition(r, ids, target, keys)
    ensures RanksOf(r, ids, target, keys) == RankRange(RankedCount(ids, target, keys))
  {
    var m := RankedCount(ids, target, keys);
    var ranks := RanksOf(r, ids, target, keys);
    forall n | n in ranks ensures n in RankRange(m) {
      var k :| 0 <= k < |ids| && IsRanked(ids[k], target, keys) && r[ids[k]].displayOrder == n;
      RankedCountStep(ids, target, keys, k);
      RankedCountMonotone(ids, target, keys, k + 1, |ids|);
      assert ids[..|ids|] == ids;
    }
    forall n | n in RankRange(m) ensures n in ranks {
      RanksCovered(ids, target, keys, n);
      var k :| 0 <= k < |ids| && IsRanked(ids[k], target, keys)
               && 1 + RankedCount(ids[..k], target, keys) == n;
      assert r[ids[k]].displayOrder == n;
    }
  }

  /** After set-favorite, on a list without repetitions, the ranks of the
      other stored listed ids are exactly 1..m, m being how many they are. */
  lemma RanksAreDense(st: map<string, Availability>, ids: seq<string>, target: string, now: nat)
    requires target in st && NoDup(ids)
    ensures SetFavoriteEffect(st, ids, target, now).Keys == st.Keys
    ensures RanksOf(SetFavoriteEffect(st, ids, target, now), ids, target, st.Keys)
            == RankRange(RankedCount(ids, target, st.Keys))
  {
    var r := SetFavoriteEffect(st, ids, target, now);
    SetFavoriteOutcome(st, ids, target, now);
    assert RanksByPosition(r, ids, target, st.Keys);
    PositionRanksAreDense(r, ids, target, st.Keys);
  }
}
