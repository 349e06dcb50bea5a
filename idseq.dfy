/** Operations on an owner's ordered list of availability ids: `retain`
    (delete), `position` followed by a positional write (regenerate), and the
    filter_map that turns ids into stored records (listing). */
module IdSeq {
  import opened Types

  predicate NoDup<T(==)>(s: seq<T>) {
    forall i, j :: 0 <= i < j < |s| ==> s[i] != s[j]
  }

  // ---------------------------------------------------------------------------
  // retain(|x| x != target)
  // ---------------------------------------------------------------------------

  /** The elements of s other than x, in their original order. */
  function RemoveAll(s: seq<string>, x: string): (r: seq<string>)
    ensures forall y :: y in r <==> y in s && y != x
    ensures |r| <= |s|
  {
    if s == [] then []
    else (if s[0] == x then [] else [s[0]]) + RemoveAll(s[1..], x)
  }

  /** Removal distributes over concatenation: nothing is reordered. */
  lemma {:induction false} RemoveAllAppend(a: seq<string>, b: seq<string>, x: string)
    ensures RemoveAll(a + b, x) == RemoveAll(a, x) + RemoveAll(b, x)
  {
    if a == [] {
      assert a + b == b;
    } else {
      assert (a + b)[0] == a[0] && (a + b)[1..] == a[1..] + b;
      RemoveAllAppend(a[1..], b, x);
    }
  }

  /** Removing an id that is not listed changes nothing. */
  lemma {:induction false} RemoveAllAbsent(s: seq<string>, x: string)
    requires x !in s
    ensures RemoveAll(s, x) == s
  {
    if s != [] {
      RemoveAllAbsent(s[1..], x);
      assert s == [s[0]] + s[1..];
    }
  }

  /** Removing an id that occurs only at position p closes the gap and keeps
      every other id in its relative order. */
  lemma {:induction false} RemoveAllAt(s: seq<string>, p: nat)
    requires p < |s| && forall j :: 0 <= j < |s| && j != p ==> s[j] != s[p]
    ensures RemoveAll(s, s[p]) == s[..p] + s[p + 1..]
  {
    var x, tail := s[p], s[1..];
    if p == 0 {
      assert x !in tail by {
        forall j | 0 <= j < |tail| ensures tail[j] != x { assert tail[j] == s[j + 1]; }
      }
      RemoveAllAbsent(tail, x);
    } else {
      assert tail[p - 1] == x;
      assert forall j :: 0 <= j < |tail| && j != p - 1 ==> tail[j] != tail[p - 1] by {
        forall j | 0 <= j < |tail| && j != p - 1 ensures tail[j] != tail[p - 1] { assert tail[j] == s[j + 1]; }
      }
      RemoveAllAt(tail, p - 1);
      assert s[..p] + s[p + 1..] == [s[0]] + (tail[..p - 1] + tail[p..]);
    }
  }

  lemma {:induction false} RemoveAllNoDup(s: seq<string>, x: string)
    requires NoDup(s)
    ensures NoDup(RemoveAll(s, x))
  {
    if s != [] {
      assert NoDup(s[1..]) by {
        forall i, j | 0 <= i < j < |s[1..]| ensures s[1..][i] != s[1..][j] {
          assert s[i + 1] != s[j + 1];
        }
      }
      RemoveAllNoDup(s[1..], x);
      assert s[0] !in s[1..] by {
        forall k | 0 <= k < |s[1..]| ensures s[1..][k] != s[0] { assert s[k + 1] != s[0]; }
      }
      var rest := RemoveAll(s[1..], x);
      var head: seq<string> := if s[0] == x then [] else [s[0]];
      forall i, j | 0 <= i < j < |head + rest| ensures (head + rest)[i] != (head + rest)[j] {
        if i < |head| {
          assert (head + rest)[j] in rest;
        }
      }
    }
  }

  // ---------------------------------------------------------------------------
  // position(|id| id == target), then ids[pos] = new_id
  // ---------------------------------------------------------------------------

  /** The first position holding x, if any. */
  function FirstIndexOf(s: seq<string>, x: string): (r: Option<nat>)
    ensures r.None? <==> x !in s
    ensures r.Some? ==> r.value < |s| && s[r.value] == x
                        && forall k :: 0 <= k < r.value ==> s[k] != x
  {
    if s == [] then None
    else if s[0] == x then Some(0)
    else match FirstIndexOf(s[1..], x)
      case None => None
      case Some(k) => Some(k + 1)
  }

  /** The list with the first occurrence of x overwritten by y in place. */
  function ReplaceFirst(s: seq<string>, x: string, y: string): (r: seq<string>)
    ensures |r| == |s|
    ensures x !in s ==> r == s
    ensures forall k :: 0 <= k < |s| && s[k] == x && x !in s[..k] ==> r[k] == y
    ensures forall k :: 0 <= k < |s| && r[k] != s[k] ==> s[k] == x && x !in s[..k]
  {
    match FirstIndexOf(s, x)
    case None => s
    case Some(p) =>
      assert x !in s[..p] by {
        forall j | 0 <= j < p ensures s[..p][j] != x { assert s[..p][j] == s[j]; }
      }
      assert forall k :: p < k < |s| ==> x in s[..k] by {
        forall k | p < k < |s| ensures x in s[..k] { assert s[..k][p] == x; }
      }
      s[p := y]
  }

  /** Replacing an id by an unlisted one keeps the list free of repetitions
      and changes its membership by exactly that swap. */
  lemma ReplaceFirstNoDup(s: seq<string>, x: string, y: string)
    requires NoDup(s) && y !in s
    ensures NoDup(ReplaceFirst(s, x, y))
    ensures forall z :: z in ReplaceFirst(s, x, y) <==>
                        (z in s && z != x) || (z == y && x in s)
  {
    var r := ReplaceFirst(s, x, y);
    if x in s {
      var p := FirstIndexOf(s, x).value;
      assert r == s[p := y];
      forall z ensures z in r <==> (z in s && z != x) || (z == y && x in s) {
        if z in r {
          var k :| 0 <= k < |r| && r[k] == z;
          if k != p { assert s[k] == z && s[k] != s[p]; }
        }
        if z in s && z != x {
          var k :| 0 <= k < |s| && s[k] == z;
          assert r[k] == z;
        }
        if z == y { assert r[p] == y; }
      }
      forall i, j | 0 <= i < j < |r| ensures r[i] != r[j] {
        if i == p { assert r[j] == s[j] && s[j] in s; }
        else if j == p { assert r[i] == s[i] && s[i] in s; }
      }
    }
  }

  // ---------------------------------------------------------------------------
  // ids.iter().filter_map(|id| store.get(id)).collect()
  // ---------------------------------------------------------------------------

  /** The stored records of the listed ids, in list order, skipping ids the
      store does not hold. */
  function Listing(store: map<string, Availability>, ids: seq<string>): (r: seq<Availability>)
    ensures |r| <= |ids|
    ensures forall a :: a in r ==> exists k :: 0 <= k < |ids| && ids[k] in store && store[ids[k]] == a
    ensures forall k :: 0 <= k < |ids| && ids[k] in store ==> store[ids[k]] in r
  {
    if ids == [] then []
    else
      var rest := Listing(store, ids[1..]);
      assert forall a :: a in rest ==> exists k :: 0 < k < |ids| && ids[k] in store && store[ids[k]] == a by {
        forall a | a in rest ensures exists k :: 0 < k < |ids| && ids[k] in store && store[ids[k]] == a {
          var k :| 0 <= k < |ids[1..]| && ids[1..][k] in store && store[ids[1..][k]] == a;
          assert ids[k + 1] == ids[1..][k];
        }
      }
      assert forall k :: 1 <= k < |ids| && ids[k] in store ==> store[ids[k]] in rest by {
        forall k | 1 <= k < |ids| && ids[k] in store ensures store[ids[k]] in rest {
          assert ids[k] == ids[1..][k - 1];
        }
      }
      (if ids[0] in store then [store[ids[0]]] else []) + rest
  }

  /** Listing distributes over concatenation: the result follows list order. */
  lemma {:induction false} ListingAppend(store: map<string, Availability>, a: seq<string>, b: seq<string>)
    ensures Listing(store, a + b) == Listing(store, a) + Listing(store, b)
  {
    if a == [] {
      assert a + b == b;
    } else {
      assert (a + b)[0] == a[0] && (a + b)[1..] == a[1..] + b;
      ListingAppend(store, a[1..], b);
    }
  }

  /** When every listed id is stored, the listing is exactly the records of the
      ids, position by position. */
  lemma {:induction false} ListingAllStored(store: map<string, Availability>, ids: seq<string>)
    requires forall k :: 0 <= k < |ids| ==> ids[k] in store
    ensures |Listing(store, ids)| == |ids|
    ensures forall k :: 0 <= k < |ids| ==> Listing(store, ids)[k] == store[ids[k]]
  {
    if ids != [] {
      ListingAllStored(store, ids[1..]);
      var rest := Listing(store, ids[1..]);
      assert Listing(store, ids) == [store[ids[0]]] + rest;
      forall k | 0 < k < |ids| ensures Listing(store, ids)[k] == store[ids[k]] {
        assert ids[1..][k - 1] == ids[k];
      }
    }
  }
}
