/**
 * The list computations behind the repository's mutations (data/PatientRepository.kt):
 * `addOrUpdate` finds the first record with the same `bil` and replaces it, or
 * appends the record under the `bil` from `nextBil` (one past the largest, fresh
 * while the largest is below `Int.MAX_VALUE`, wrapping to `Int.MIN_VALUE` at it),
 * then sorts by `bil`;
 * `delete` filters out every record with the given `bil`.
 */
module RecordList {
  import opened Wrappers
  import opened Text
  import opened Records
  import opened Seqs

  // ---------------------------------------------------------------------------
  // Searching and identifiers
  // ---------------------------------------------------------------------------

  /** `indexOfFirst { it.bil == bil }`: the first position holding `bil`, or -1 when none does. */
  function IndexOfFirst(s: seq<PatientLocation>, bil: int): (r: int)
    ensures -1 <= r < |s|
    ensures r == -1 <==> forall i :: 0 <= i < |s| ==> s[i].bil != bil
    ensures r >= 0 ==> s[r].bil == bil && forall i :: 0 <= i < r ==> s[i].bil != bil
  {
    if s == [] then -1
    else if s[0].bil == bil then 0
    else
      var k := IndexOfFirst(s[1..], bil);
      if k == -1 then -1 else k + 1
  }

  /** `maxOfOrNull { it.bil }`: the largest `bil`, or none for an empty list. */
  function MaxBil(s: seq<PatientLocation>): (r: Option<Int32>)
    ensures r.None? <==> s == []
    ensures r.Some? ==> (exists i :: 0 <= i < |s| && s[i].bil == r.value)
                        && forall i :: 0 <= i < |s| ==> s[i].bil <= r.value
  {
    if s == [] then None
    else match MaxBil(s[1..])
      case None => Some(s[0].bil)
      case Some(m) =>
        assert forall i :: 1 <= i < |s| ==> s[i] == s[1..][i - 1];
        Some(if m < s[0].bil then s[0].bil else m)
  }

  /** `nextBil`: one more than the largest `bil`, taken as 0 for an empty list, with `Int` wrap-around. */
  function NextBil(s: seq<PatientLocation>): Int32 {
    Wrap32(MaxBil(s).GetOr(0) + 1)
  }

  /**
   * Below the top of the `Int` range, `nextBil` is one more than the largest `bil`
   * (or 1 for an empty list), so no record in the list carries it.
   */
  lemma NextBilFresh(s: seq<PatientLocation>)
    requires MaxBil(s).GetOr(0) < INT_MAX
    ensures NextBil(s) == MaxBil(s).GetOr(0) + 1
    ensures s == [] ==> NextBil(s) == 1
    ensures forall i :: 0 <= i < |s| ==> s[i].bil < NextBil(s)
  {
  }

  /** At the top of the `Int` range the addition wraps: the next `bil` is `Int.MIN_VALUE`. */
  lemma NextBilWraps(s: seq<PatientLocation>)
    requires MaxBil(s) == Some(INT_MAX)
    ensures NextBil(s) == INT_MIN
  {
  }

  // ---------------------------------------------------------------------------
  // Records by identifier
  // ---------------------------------------------------------------------------

  /** `[x]` when `x` carries `bil == k`, otherwise nothing. */
  function Keep(x: PatientLocation, k: int): seq<PatientLocation> {
    if x.bil == k then [x] else []
  }

  /** The records carrying `bil == k`, in list order. */
  function WithBil(s: seq<PatientLocation>, k: int): seq<PatientLocation> {
    if s == [] then [] else Keep(s[0], k) + WithBil(s[1..], k)
  }

  lemma WithBilCons(x: PatientLocation, t: seq<PatientLocation>, k: int)
    ensures WithBil([x] + t, k) == Keep(x, k) + WithBil(t, k)
  {
    assert ([x] + t)[0] == x && ([x] + t)[1..] == t;
  }

  lemma {:induction false} WithBilAppend(a: seq<PatientLocation>, b: seq<PatientLocation>, k: int)
    ensures WithBil(a + b, k) == WithBil(a, k) + WithBil(b, k)
    decreases |a|
  {
    if a == [] {
      assert a + b == b;
    } else {
      ConsAppend(a, b);
      WithBilAppend(a[1..], b, k);
      AppendAssoc(Keep(a[0], k), WithBil(a[1..], k), WithBil(b, k));
    }
  }

  /** No record carries `k` exactly when `WithBil` is empty. */
  lemma {:induction false} WithBilEmpty(s: seq<PatientLocation>, k: int)
    ensures WithBil(s, k) == [] <==> forall i :: 0 <= i < |s| ==> s[i].bil != k
    decreases |s|
  {
    if s != [] {
      WithBilEmpty(s[1..], k);
      assert forall i :: 1 <= i < |s| ==> s[i] == s[1..][i - 1];
    }
  }

  /** Identifiers are unique. */
  predicate UniqueBils(s: seq<PatientLocation>) {
    forall i, j :: 0 <= i < j < |s| ==> s[i].bil != s[j].bil
  }

  /** At most one record carries each identifier. */
  ghost predicate AtMostOneEach(s: seq<PatientLocation>) {
    forall k :: |WithBil(s, k)| <= 1
  }

  /** Identifiers are unique exactly when no identifier is carried by two records. */
  lemma {:induction false} UniqueIff(s: seq<PatientLocation>)
    ensures UniqueBils(s) <==> AtMostOneEach(s)
    decreases |s|
  {
    if s != [] {
      var t := s[1..];
      UniqueIff(t);
      WithBilEmpty(t, s[0].bil);
      assert forall i :: 1 <= i < |s| ==> s[i] == t[i - 1];
      assert UniqueBils(s) <==> UniqueBils(t) && WithBil(t, s[0].bil) == [];
      assert AtMostOneEach(s) <==> AtMostOneEach(t) && WithBil(t, s[0].bil) == [] by {
        if AtMostOneEach(s) {
          assert |WithBil(s, s[0].bil)| <= 1;
          forall k ensures |WithBil(t, k)| <= 1 {
            assert |WithBil(s, k)| <= 1;
          }
        }
        if AtMostOneEach(t) && WithBil(t, s[0].bil) == [] {
          forall k ensures |WithBil(s, k)| <= 1 {
            assert |WithBil(t, k)| <= 1;
          }
        }
      }
    }
  }

  // ---------------------------------------------------------------------------
  // Sorting
  // ---------------------------------------------------------------------------

  predicate SortedByBil(s: seq<PatientLocation>) {
    forall i, j :: 0 <= i < j < |s| ==> s[i].bil <= s[j].bil
  }

  lemma SortedCons(x: PatientLocation, t: seq<PatientLocation>)
    requires SortedByBil(t)
    requires forall j :: 0 <= j < |t| ==> x.bil <= t[j].bil
    ensures SortedByBil([x] + t)
  {
    var r := [x] + t;
    forall i, j | 0 <= i < j < |r| ensures r[i].bil <= r[j].bil {
      assert r[j] == t[j - 1];
      if i > 0 {
        assert r[i] == t[i - 1];
      }
    }
  }

  /** Inserts `p` into a sorted list after every record whose `bil` is at most `p.bil`. */
  function InsertByBil(s: seq<PatientLocation>, p: PatientLocation): (r: seq<PatientLocation>)
    requires SortedByBil(s)
    ensures SortedByBil(r)
    ensures multiset(r) == multiset(s) + multiset{p}
  {
    if s == [] then [p]
    else if p.bil < s[0].bil then [p] + s
    else
      SortedTail(s);
      var rest := InsertByBil(s[1..], p);
      SplitFirst(s);
      AllAtLeast(rest, s[1..], p, s[0].bil);
      SortedCons(s[0], rest);
      [s[0]] + rest
  }

  /** `sortedBy { it.bil }`: sorted by `bil` and a permutation of the input. */
  function SortByBil(s: seq<PatientLocation>): (r: seq<PatientLocation>)
    ensures SortedByBil(r)
    ensures multiset(r) == multiset(s)
    ensures |r| == |s|
  {
    if s == [] then []
    else
      var pre, x := s[..|s| - 1], s[|s| - 1];
      assert s == pre + [x];
      var r := InsertByBil(SortByBil(pre), x);
      assert |r| == |multiset(r)|;
      r
  }

  lemma {:induction false} InsertStable(s: seq<PatientLocation>, p: PatientLocation, k: int)
    requires SortedByBil(s)
    ensures WithBil(InsertByBil(s, p), k) == WithBil(s, k) + Keep(p, k)
    decreases |s|
  {
    if s == [] {
      WithBilCons(p, [], k);
      assert [p] + [] == [p];
    } else if p.bil < s[0].bil {
      InsertFrontStable(s, p, k);
    } else {
      SortedTail(s);
      InsertStable(s[1..], p, k);
      InsertStableStep(s, p, k);
    }
  }

  lemma InsertFrontStable(s: seq<PatientLocation>, p: PatientLocation, k: int)
    requires SortedByBil(s) && s != [] && p.bil < s[0].bil
    ensures WithBil(InsertByBil(s, p), k) == WithBil(s, k) + Keep(p, k)
  {
    WithBilCons(p, s, k);
    if p.bil == k {
      forall i | 0 <= i < |s| ensures s[i].bil != k {
        assert s[0].bil <= s[i].bil;
      }
      WithBilEmpty(s, k);
    }
  }

  lemma InsertStableStep(s: seq<PatientLocation>, p: PatientLocation, k: int)
    requires SortedByBil(s) && s != [] && s[0].bil <= p.bil
    requires WithBil(InsertByBil(s[1..], p), k) == WithBil(s[1..], k) + Keep(p, k)
    ensures WithBil(InsertByBil(s, p), k) == WithBil(s, k) + Keep(p, k)
  {
    var rest := InsertByBil(s[1..], p);
    assert InsertByBil(s, p) == [s[0]] + rest;
    WithBilCons(s[0], rest, k);
    WithBilCons(s[0], s[1..], k);
    SplitFirst(s);
    AppendAssoc(Keep(s[0], k), WithBil(s[1..], k), Keep(p, k));
  }

  /** The sort is stable: records with equal `bil` keep their relative order. */
  lemma {:induction false} SortStable(s: seq<PatientLocation>, k: int)
    ensures WithBil(SortByBil(s), k) == WithBil(s, k)
    decreases |s|
  {
    if s != [] {
      var pre, x := s[..|s| - 1], s[|s| - 1];
      SplitLast(s);
      assert SortByBil(s) == InsertByBil(SortByBil(pre), x);
      SortStable(pre, k);
      InsertStable(SortByBil(pre), x, k);
      WithBilAppend(pre, [x], k);
      WithBilCons(x, [], k);
      assert [x] + [] == [x];
      assert WithBil([x], k) == Keep(x, k);
    }
  }

  /** A record whose `bil` is at least every other one goes to the end. */
  lemma {:induction false} InsertLast(s: seq<PatientLocation>, p: PatientLocation)
    requires SortedByBil(s)
    requires forall i :: 0 <= i < |s| ==> s[i].bil <= p.bil
    ensures InsertByBil(s, p) == s + [p]
    decreases |s|
  {
    if s != [] {
      SortedTail(s);
      forall i | 0 <= i < |s[1..]| ensures s[1..][i].bil <= p.bil {
        assert s[1..][i] == s[i + 1];
      }
      InsertLast(s[1..], p);
      assert InsertByBil(s, p) == [s[0]] + (s[1..] + [p]);
      AppendAssoc([s[0]], s[1..], [p]);
      SplitFirst(s);
    }
  }

  /** Sorting a sorted list changes nothing. */
  lemma {:induction false} SortSorted(s: seq<PatientLocation>)
    requires SortedByBil(s)
    ensures SortByBil(s) == s
    decreases |s|
  {
    if s != [] {
      var pre, x := s[..|s| - 1], s[|s| - 1];
      SplitLast(s);
      assert SortedByBil(pre) by {
        forall i, j | 0 <= i < j < |pre| ensures pre[i].bil <= pre[j].bil {
          assert pre[i] == s[i] && pre[j] == s[j];
        }
      }
      forall i | 0 <= i < |pre| ensures pre[i].bil <= x.bil {
        assert pre[i] == s[i];
      }
      SortSorted(pre);
      InsertLast(pre, x);
      assert SortByBil(s) == InsertByBil(SortByBil(pre), x);
    }
  }

  lemma SortedTail(s: seq<PatientLocation>)
    requires s != [] && SortedByBil(s)
    ensures SortedByBil(s[1..])
    ensures forall i :: 0 <= i < |s[1..]| ==> s[0].bil <= s[1..][i].bil
  {
    forall i, j | 0 <= i < j < |s[1..]| ensures s[1..][i].bil <= s[1..][j].bil {
      assert s[1..][i] == s[i + 1] && s[1..][j] == s[j + 1];
    }
    forall i | 0 <= i < |s[1..]| ensures s[0].bil <= s[1..][i].bil {
      assert s[1..][i] == s[i + 1];
    }
  }

  /** The records of `t` are those of `u` and `p`; if all of those reach `b`, so do all of `t`. */
  lemma AllAtLeast(t: seq<PatientLocation>, u: seq<PatientLocation>, p: PatientLocation, b: int)
    requires multiset(t) == multiset(u) + multiset{p}
    requires forall i :: 0 <= i < |u| ==> b <= u[i].bil
    requires b <= p.bil
    ensures forall j :: 0 <= j < |t| ==> b <= t[j].bil
  {
    forall j | 0 <= j < |t| ensures b <= t[j].bil {
      assert t[j] in multiset(t);
      if t[j] != p {
        assert t[j] in multiset(u);
        assert t[j] in u;
      }
    }
  }

  /** A record with a larger `bil` than every other one is placed last. */
  lemma SortAppendLargest(s: seq<PatientLocation>, q: PatientLocation)
    requires forall i :: 0 <= i < |s| ==> s[i].bil < q.bil
    ensures SortByBil(s + [q]) == SortByBil(s) + [q]
  {
    var t := s + [q];
    assert t[..|t| - 1] == s && t[|t| - 1] == q;
    var r := SortByBil(s);
    forall i | 0 <= i < |r| ensures r[i].bil <= q.bil {
      assert r[i] in multiset(s);
    }
    InsertLast(r, q);
  }

  // ---------------------------------------------------------------------------
  // addOrUpdate
  // ---------------------------------------------------------------------------

  /** The list `addOrUpdate` publishes and writes. */
  function Upsert(s: seq<PatientLocation>, p: PatientLocation): seq<PatientLocation> {
    var index := IndexOfFirst(s, p.bil);
    SortByBil(if index >= 0 then s[index := p] else s + [p.(bil := NextBil(s))])
  }

  /** Replacing the first record carrying `p.bil` by `p` replaces the first entry of `WithBil`. */
  lemma {:induction false} ReplaceFirstSame(s: seq<PatientLocation>, i: nat, p: PatientLocation)
    requires i < |s| && s[i].bil == p.bil
    requires forall j :: 0 <= j < i ==> s[j].bil != p.bil
    ensures WithBil(s, p.bil) != []
    ensures WithBil(s[i := p], p.bil) == WithBil(s, p.bil)[0 := p]
    decreases i
  {
    SplitFirst(s);
    WithBilCons(s[0], s[1..], p.bil);
    if i == 0 {
      assert s[i := p] == [p] + s[1..];
      WithBilCons(p, s[1..], p.bil);
    } else {
      var u := s[1..][i - 1 := p];
      assert s[i := p] == [s[0]] + u;
      WithBilCons(s[0], u, p.bil);
      ReplaceFirstSame(s[1..], i - 1, p);
    }
  }

  /** Replacing a record by one with the same `bil` leaves `WithBil` of any other `bil` alone. */
  lemma {:induction false} ReplaceOther(s: seq<PatientLocation>, i: nat, x: PatientLocation, k: int)
    requires i < |s| && s[i].bil != k && x.bil != k
    ensures WithBil(s[i := x], k) == WithBil(s, k)
    decreases i
  {
    SplitFirst(s);
    WithBilCons(s[0], s[1..], k);
    if i == 0 {
      assert s[i := x] == [x] + s[1..];
      WithBilCons(x, s[1..], k);
    } else {
      var u := s[1..][i - 1 := x];
      assert s[i := x] == [s[0]] + u;
      WithBilCons(s[0], u, k);
      ReplaceOther(s[1..], i - 1, x, k);
    }
  }

  /**
   * `addOrUpdate` of a `bil` already in the list: the length is unchanged, the
   * first record with that `bil` is replaced by exactly `p`, every other record is
   * kept (records with another `bil` in their order), and the result is sorted.
   */
  lemma UpsertExisting(s: seq<PatientLocation>, p: PatientLocation)
    requires exists i :: 0 <= i < |s| && s[i].bil == p.bil
    ensures IndexOfFirst(s, p.bil) >= 0 && WithBil(s, p.bil) != []
    ensures |Upsert(s, p)| == |s|
    ensures SortedByBil(Upsert(s, p))
    ensures multiset(Upsert(s, p)) == multiset(s) - multiset{s[IndexOfFirst(s, p.bil)]} + multiset{p}
    ensures WithBil(Upsert(s, p), p.bil) == WithBil(s, p.bil)[0 := p]
    ensures forall k :: k != p.bil ==> WithBil(Upsert(s, p), k) == WithBil(s, k)
  {
    var i := IndexOfFirst(s, p.bil);
    var t := s[i := p];
    assert Upsert(s, p) == SortByBil(t);
    assert multiset(t) == multiset(s) - multiset{s[i]} + multiset{p};
    SortStable(t, p.bil);
    ReplaceFirstSame(s, i, p);
    forall k | k != p.bil ensures WithBil(Upsert(s, p), k) == WithBil(s, k) {
      SortStable(t, k);
      ReplaceOther(s, i, p, k);
    }
  }

  /**
   * `addOrUpdate` of a `bil` not in the list: exactly one record more, namely `p`
   * under the `bil` from `nextBil`; every other record is kept in its order and
   * the result is sorted.
   */
  lemma UpsertNew(s: seq<PatientLocation>, p: PatientLocation)
    requires forall i :: 0 <= i < |s| ==> s[i].bil != p.bil
    ensures |Upsert(s, p)| == |s| + 1
    ensures SortedByBil(Upsert(s, p))
    ensures multiset(Upsert(s, p)) == multiset(s) + multiset{p.(bil := NextBil(s))}
    ensures forall k :: WithBil(Upsert(s, p), k) == WithBil(s, k) + Keep(p.(bil := NextBil(s)), k)
  {
    var q := p.(bil := NextBil(s));
    var t := s + [q];
    assert IndexOfFirst(s, p.bil) == -1;
    assert Upsert(s, p) == SortByBil(t);
    forall k ensures WithBil(Upsert(s, p), k) == WithBil(s, k) + Keep(q, k) {
      AppendStable(s, q, k);
    }
  }

  lemma AppendStable(s: seq<PatientLocation>, q: PatientLocation, k: int)
    ensures WithBil(SortByBil(s + [q]), k) == WithBil(s, k) + Keep(q, k)
  {
    SortStable(s + [q], k);
    WithBilAppend(s, [q], k);
    WithBilCons(q, [], k);
    assert [q] + [] == [q];
  }

  /**
   * Below the top of the `Int` range, a record added under a new `bil` carries an
   * identifier no record had and ends up last, after the other records sorted.
   */
  lemma UpsertNewLast(s: seq<PatientLocation>, p: PatientLocation)
    requires forall i :: 0 <= i < |s| ==> s[i].bil != p.bil
    requires MaxBil(s).GetOr(0) < INT_MAX
    ensures WithBil(s, NextBil(s)) == []
    ensures Upsert(s, p) == SortByBil(s) + [p.(bil := NextBil(s))]
  {
    NextBilFresh(s);
    WithBilEmpty(s, NextBil(s));
    assert IndexOfFirst(s, p.bil) == -1;
    SortAppendLargest(s, p.(bil := NextBil(s)));
  }

  /**
   * From a list with unique identifiers, `addOrUpdate` keeps them unique exactly when
   * the record replaces one with its `bil`, or the `bil` it is given from `nextBil`
   * is unused. Below the top of the `Int` range it always is (`UpsertNewLast`); at
   * the top `nextBil` wraps to `Int.MIN_VALUE`, which may already be taken.
   */
  lemma UpsertKeepsUnique(s: seq<PatientLocation>, p: PatientLocation)
    requires UniqueBils(s)
    ensures UniqueBils(Upsert(s, p))
            <==> IndexOfFirst(s, p.bil) >= 0 || WithBil(s, NextBil(s)) == []
    ensures MaxBil(s).GetOr(0) < INT_MAX ==> UniqueBils(Upsert(s, p))
  {
    UniqueIff(s);
    if IndexOfFirst(s, p.bil) >= 0 {
      ReplaceKeepsUnique(s, p);
    } else if MaxBil(s).GetOr(0) < INT_MAX {
      UpsertNewLast(s, p);
      AppendKeepsUnique(s, p);
    } else if WithBil(s, NextBil(s)) == [] {
      AppendKeepsUnique(s, p);
    } else {
      AppendTakenDuplicates(s, p);
    }
  }

  lemma ReplaceKeepsUnique(s: seq<PatientLocation>, p: PatientLocation)
    requires AtMostOneEach(s)
    requires IndexOfFirst(s, p.bil) >= 0
    ensures UniqueBils(Upsert(s, p))
  {
    var r := Upsert(s, p);
    UpsertExisting(s, p);
    forall k ensures |WithBil(r, k)| <= 1 {
      assert |WithBil(s, k)| <= 1;
    }
    UniqueIff(r);
  }

  lemma AppendKeepsUnique(s: seq<PatientLocation>, p: PatientLocation)
    requires AtMostOneEach(s)
    requires IndexOfFirst(s, p.bil) == -1
    requires WithBil(s, NextBil(s)) == []
    ensures UniqueBils(Upsert(s, p))
  {
    var r := Upsert(s, p);
    var q := p.(bil := NextBil(s));
    UpsertNew(s, p);
    forall k ensures |WithBil(r, k)| <= 1 {
      if k == q.bil {
        assert WithBil(r, k) == [] + [q];
      } else {
        assert WithBil(r, k) == WithBil(s, k) + [];
        assert |WithBil(s, k)| <= 1;
      }
    }
    UniqueIff(r);
  }

  lemma AppendTakenDuplicates(s: seq<PatientLocation>, p: PatientLocation)
    requires IndexOfFirst(s, p.bil) == -1
    requires WithBil(s, NextBil(s)) != []
    ensures !UniqueBils(Upsert(s, p))
  {
    var r := Upsert(s, p);
    var q := p.(bil := NextBil(s));
    UpsertNew(s, p);
    assert WithBil(r, q.bil) == WithBil(s, q.bil) + [q];
    assert |WithBil(r, q.bil)| >= 2;
    UniqueIff(r);
  }

  /** Every record `addOrUpdate` publishes was in the list before, or is `p` under some `bil`. */
  lemma UpsertMembers(s: seq<PatientLocation>, p: PatientLocation)
    ensures forall x :: x in Upsert(s, p) ==> x in s || x.(bil := p.bil) == p
  {
    var r := Upsert(s, p);
    if IndexOfFirst(s, p.bil) >= 0 {
      UpsertExisting(s, p);
    } else {
      UpsertNew(s, p);
    }
    forall x | x in r ensures x in s || x.(bil := p.bil) == p {
      assert x in multiset(r);
    }
  }

  /** On a sorted list a new record is appended at the end under the next `bil`. */
  lemma UpsertNewSorted(s: seq<PatientLocation>, p: PatientLocation)
    requires SortedByBil(s)
    requires forall i :: 0 <= i < |s| ==> s[i].bil != p.bil
    requires MaxBil(s).GetOr(0) < INT_MAX
    ensures Upsert(s, p) == s + [p.(bil := MaxBil(s).GetOr(0) + 1)]
  {
    NextBilFresh(s);
    UpsertNewLast(s, p);
    SortSorted(s);
  }

  // ---------------------------------------------------------------------------
  // delete
  // ---------------------------------------------------------------------------

  /** `filterNot { it.bil == bil }`: exactly the records with another `bil` remain. */
  function Remove(s: seq<PatientLocation>, bil: int): (r: seq<PatientLocation>)
    ensures |r| <= |s|
  {
    if s == [] then [] else (if s[0].bil == bil then [] else [s[0]]) + Remove(s[1..], bil)
  }

  /**
   * `delete` keeps exactly the records with another `bil` and drops exactly as many
   * records as carry `bil`.
   */
  lemma {:induction false} RemoveMembers(s: seq<PatientLocation>, bil: int)
    ensures forall x :: x in Remove(s, bil) <==> x in s && x.bil != bil
    ensures |Remove(s, bil)| == |s| - |WithBil(s, bil)|
    decreases |s|
  {
    if s != [] {
      RemoveMembers(s[1..], bil);
      SplitFirst(s);
      assert forall x :: x in s <==> x == s[0] || x in s[1..];
    }
  }

  /** Deleting a `bil` that no record carries leaves the list unchanged. */
  lemma {:induction false} RemoveAbsent(s: seq<PatientLocation>, bil: int)
    requires forall i :: 0 <= i < |s| ==> s[i].bil != bil
    ensures Remove(s, bil) == s
    decreases |s|
  {
    if s != [] {
      RemoveAbsent(s[1..], bil);
      assert s == [s[0]] + s[1..];
    }
  }

  /** Deleting keeps the other records in their order: it distributes over concatenation. */
  lemma {:induction false} RemoveAppend(a: seq<PatientLocation>, b: seq<PatientLocation>, bil: int)
    ensures Remove(a + b, bil) == Remove(a, bil) + Remove(b, bil)
    decreases |a|
  {
    if a == [] {
      assert a + b == b;
    } else {
      ConsAppend(a, b);
      RemoveAppend(a[1..], b, bil);
      AppendAssoc(if a[0].bil == bil then [] else [a[0]], Remove(a[1..], bil), Remove(b, bil));
    }
  }

  /** Deleting touches no record with another `bil`, and leaves none with this one. */
  lemma {:induction false} RemoveWithBil(s: seq<PatientLocation>, bil: int, k: int)
    ensures WithBil(Remove(s, bil), k) == if k == bil then [] else WithBil(s, k)
    decreases |s|
  {
    if s != [] {
      RemoveWithBil(s[1..], bil, k);
      var head := if s[0].bil == bil then [] else [s[0]];
      WithBilAppend(head, Remove(s[1..], bil), k);
      WithBilCons(s[0], s[1..], k);
      assert s == [s[0]] + s[1..];
      if s[0].bil != bil {
        WithBilCons(s[0], [], k);
        assert [s[0]] + [] == [s[0]];
      }
    }
  }

  /** Deleting keeps a sorted list sorted. */
  lemma {:induction false} RemoveKeepsSorted(s: seq<PatientLocation>, bil: int)
    requires SortedByBil(s)
    ensures SortedByBil(Remove(s, bil))
    decreases |s|
  {
    if s != [] {
      var rest := Remove(s[1..], bil);
      RemoveKeepsSorted(s[1..], bil);
      RemoveMembers(s[1..], bil);
      if s[0].bil == bil {
        assert Remove(s, bil) == rest;
      } else {
        forall j | 0 <= j < |rest| ensures s[0].bil <= rest[j].bil {
          assert rest[j] in s[1..];
          var k :| 0 <= k < |s[1..]| && s[1..][k] == rest[j];
          assert s[k + 1] == rest[j];
        }
        assert Remove(s, bil) == [s[0]] + rest;
        SortedCons(s[0], rest);
      }
    }
  }

  /** Deleting keeps identifiers unique. */
  lemma RemoveKeepsUnique(s: seq<PatientLocation>, bil: int)
    requires UniqueBils(s)
    ensures UniqueBils(Remove(s, bil))
  {
    UniqueIff(s);
    forall k ensures |WithBil(Remove(s, bil), k)| <= 1 {
      RemoveWithBil(s, bil, k);
    }
    UniqueIff(Remove(s, bil));
  }
}
