/** Exactly which tables nm sorts, table by table, while their names fit into a char. */
module NmTables {
  import opened Bytes
  import opened Layout
  import opened ParseSpec
  import opened Lists
  import opened NmSpec
  import opened NmFacts

  ghost predicate NoRepeats(s: seq<SymRef>)
  {
    forall i, j :: 0 <= i < j < |s| ==> s[i] != s[j]
  }

  /** No symbol of the list beats the sentinel. */
  ghost predicate NoneBeatsSentinel(x: Ctx, s: seq<SymRef>)
    requires AllResolved(x, s)
  {
    forall i :: 0 <= i < |s| ==> !BeatsSentinel(x, s[i])
  }

  /** Symbol i does not beat the sentinel, and no symbol of greater name in front of it does. */
  ghost predicate Stuck(x: Ctx, s: seq<SymRef>, i: nat)
    requires AllResolved(x, s)
  {
    && i < |s| && !BeatsSentinel(x, s[i])
    && forall j :: 0 <= j < i && BeatsSentinel(x, s[j]) ==> Leq(x, s[j], s[i])
  }

  /** Symbol j has the greatest name of those that beat the sentinel. */
  ghost predicate Greatest(x: Ctx, s: seq<SymRef>, j: nat)
    requires AllResolved(x, s)
  {
    && j < |s| && BeatsSentinel(x, s[j])
    && forall i :: 0 <= i < |s| && BeatsSentinel(x, s[i]) ==> Leq(x, s[i], s[j])
  }

  /**
   * The stuck symbols are above all that beat the sentinel, in order, and stand behind
   * the greatest of these.
   */
  ghost predicate StuckInPlace(x: Ctx, s: seq<SymRef>, i: nat)
    requires AllResolved(x, s) && i < |s|
  {
    && (forall j :: 0 <= j < |s| && BeatsSentinel(x, s[j]) ==> Leq(x, s[j], s[i]))
    && (forall j :: i < j < |s| && Stuck(x, s, j) ==> Leq(x, s[i], s[j]))
    && (forall j :: i < j < |s| ==> !Greatest(x, s, j))
  }

  ghost predicate TableOk(x: Ctx, s: seq<SymRef>)
    requires AllResolved(x, s)
  {
    forall i :: Stuck(x, s, i) ==> StuckInPlace(x, s, i)
  }

  // ----- taking the selected symbol out -----

  /** The position in s of what is at position i after s[k] was taken out. */
  function Old(k: nat, i: nat): nat
  {
    if i < k then i else i + 1
  }

  lemma Removed(s: seq<SymRef>, k: nat)
    requires k < |s|
    ensures |RemoveAt(s, k)| == |s| - 1
    ensures forall i :: 0 <= i < |s| - 1 ==> RemoveAt(s, k)[i] == s[Old(k, i)]
  {
  }

  /** Names that differ in beating the sentinel differ. */
  lemma StrictlyAbove(x: Ctx, s: SymRef, t: SymRef)
    requires Resolved(x, s) && Resolved(x, t) && BeatsSentinel(x, s) != BeatsSentinel(x, t) && Leq(x, s, t)
    ensures !Leq(x, t, s)
  {
    hide Key, Resolved, Leq;
    LeqTotal(x, s, t);
  }

  /** In a good table the round selects the first minimum of the whole list. */
  lemma GoodSelection(x: Ctx, s: seq<SymRef>, b: nat, k: nat)
    requires AllResolved(x, s) && Selects(x, s, |s|, b, k) && TableOk(x, s)
    ensures IsFirstMin(x, s, |s|, k)
  {
    hide Key, Resolved, Leq, BeatsSentinel;
    forall i | 0 <= i < b ensures Leq(x, s[k], s[i]) && !Leq(x, s[i], s[k]) {
      assert Stuck(x, s, i);
      StrictlyAbove(x, s[b], s[i]);
      LeqTrans(x, s[k], s[b], s[i]);
    }
  }

  /** Taking the first minimum out changes neither who is stuck nor who is greatest. */
  lemma SameStanding(x: Ctx, s: seq<SymRef>, k: nat, t: seq<SymRef>, i: nat)
    requires AllResolved(x, s) && IsFirstMin(x, s, |s|, k) && AllResolved(x, t) && i < |t| == |s| - 1
    requires forall i :: 0 <= i < |t| ==> t[i] == s[Old(k, i)]
    ensures Stuck(x, t, i) <==> Stuck(x, s, Old(k, i))
    ensures Greatest(x, t, i) <==> Greatest(x, s, Old(k, i))
  {
    hide Key, Resolved, Leq, BeatsSentinel;
    forall j | 0 <= j < |s| && j != k ensures var j' := if j < k then j else j - 1; s[j] == t[j'] && j == Old(k, j') {
    }
    if Stuck(x, t, i) {
      forall j | 0 <= j < Old(k, i) && BeatsSentinel(x, s[j]) ensures Leq(x, s[j], s[Old(k, i)]) {
        if j != k {
          var j' := if j < k then j else j - 1;
          assert t[j'] == s[j] && j' < i;
        }
      }
    }
    if Stuck(x, s, Old(k, i)) {
      forall j | 0 <= j < i && BeatsSentinel(x, t[j]) ensures Leq(x, t[j], t[i]) {
        assert t[j] == s[Old(k, j)] && Old(k, j) < Old(k, i);
      }
    }
    if Greatest(x, t, i) {
      forall j | 0 <= j < |s| && BeatsSentinel(x, s[j]) ensures Leq(x, s[j], s[Old(k, i)]) {
        if j != k {
          var j' := if j < k then j else j - 1;
          assert t[j'] == s[j];
        }
      }
    }
    if Greatest(x, s, Old(k, i)) {
      forall j | 0 <= j < |t| && BeatsSentinel(x, t[j]) ensures Leq(x, t[j], t[i]) {
        assert t[j] == s[Old(k, j)];
      }
    }
  }

  /** What is left of a good table is good, and the selection of the last round is not stale. */
  lemma RestIsOk(x: Ctx, s: seq<SymRef>, b: nat, k: nat, t: seq<SymRef>)
    requires AllResolved(x, s) && Selects(x, s, |s|, b, k) && IsFirstMin(x, s, |s|, k) && TableOk(x, s)
    requires AllResolved(x, t) && |t| == |s| - 1 && forall i :: 0 <= i < |t| ==> t[i] == s[Old(k, i)]
    ensures TableOk(x, t) && (NoneBeatsSentinel(x, t) && t != [] ==> k == 0)
  {
    hide Key, Resolved, Leq, BeatsSentinel, Greatest;
    forall i: nat | Stuck(x, t, i) ensures StuckInPlace(x, t, i) {
      SameStanding(x, s, k, t, i);
      assert StuckInPlace(x, s, Old(k, i));
      forall j | i < j < |t| ensures !Greatest(x, t, j) && (Stuck(x, t, j) ==> Leq(x, t[i], t[j])) {
        SameStanding(x, s, k, t, j);
        assert Old(k, i) < Old(k, j);
      }
    }
    if NoneBeatsSentinel(x, t) && 0 < k {
      LastOne(x, s, b, k, t);
    }
  }

  /** Behind another symbol the only one that beats the sentinel cannot be selected in a good table. */
  lemma LastOne(x: Ctx, s: seq<SymRef>, b: nat, k: nat, t: seq<SymRef>)
    requires AllResolved(x, s) && Selects(x, s, |s|, b, k) && 0 < k
    requires AllResolved(x, t) && |t| == |s| - 1 && forall i :: 0 <= i < |t| ==> t[i] == s[Old(k, i)]
    requires NoneBeatsSentinel(x, t)
    ensures !TableOk(x, s)
  {
    hide Key, Resolved, Leq, BeatsSentinel;
    forall j | 0 <= j < |s| && j != k ensures !BeatsSentinel(x, s[j]) {
      var j' := if j < k then j else j - 1;
      assert t[j'] == s[j];
    }
    assert b == k;
    LeqTotal(x, s[k], s[k]);
    assert Stuck(x, s, 0) && Greatest(x, s, k);
  }

  /** Conversely, a good rest behind the first minimum makes a good table. */
  lemma WholeIsOk(x: Ctx, s: seq<SymRef>, b: nat, k: nat, t: seq<SymRef>)
    requires AllResolved(x, s) && Selects(x, s, |s|, b, k) && IsFirstMin(x, s, |s|, k)
    requires AllResolved(x, t) && |t| == |s| - 1 && forall i :: 0 <= i < |t| ==> t[i] == s[Old(k, i)]
    requires TableOk(x, t) && (NoneBeatsSentinel(x, t) && t != [] ==> k == 0)
    ensures TableOk(x, s)
  {
    hide Key, Resolved, Leq, BeatsSentinel, Greatest;
    forall i: nat | Stuck(x, s, i) ensures StuckInPlace(x, s, i) {
      NotStuck(x, s, b, k);
      var i' := if i < k then i else i - 1;
      SameStanding(x, s, k, t, i');
      assert StuckInPlace(x, t, i');
      forall j | 0 <= j < |s| && j != k
        ensures BeatsSentinel(x, s[j]) ==> Leq(x, s[j], s[i])
        ensures i < j ==> !Greatest(x, s, j) && (Stuck(x, s, j) ==> Leq(x, s[i], s[j]))
      {
        var j' := if j < k then j else j - 1;
        SameStanding(x, s, k, t, j');
        assert t[j'] == s[j];
      }
      if i < k && Greatest(x, s, k) {
        AnotherGreatest(x, s, k, t, i);
      }
    }
  }

  lemma NotStuck(x: Ctx, s: seq<SymRef>, b: nat, k: nat)
    requires AllResolved(x, s) && Selects(x, s, |s|, b, k)
    ensures !Stuck(x, s, k)
  {
    hide Key, Resolved, Leq, BeatsSentinel;
  }

  /** When the minimum is also the greatest that beats the sentinel, another such symbol stands behind it. */
  lemma AnotherGreatest(x: Ctx, s: seq<SymRef>, k: nat, t: seq<SymRef>, i: nat)
    requires AllResolved(x, s) && IsFirstMin(x, s, |s|, k) && Greatest(x, s, k) && i < k
    requires AllResolved(x, t) && |t| == |s| - 1 && forall i :: 0 <= i < |t| ==> t[i] == s[Old(k, i)]
    requires NoneBeatsSentinel(x, t) && t != [] ==> k == 0
    ensures exists j :: i < j < |t| && Greatest(x, t, j)
  {
    hide Key, Resolved, Leq, BeatsSentinel;
    assert t != [];
    var j :| 0 <= j < |t| && BeatsSentinel(x, t[j]);
    var q := Old(k, j);
    assert t[j] == s[q] && Leq(x, s[q], s[k]);
    assert k < q;
    forall p | 0 <= p < |t| && BeatsSentinel(x, t[p]) ensures Leq(x, t[p], t[j]) {
      assert t[p] == s[Old(k, p)];
      LeqTrans(x, s[Old(k, p)], s[k], s[q]);
    }
    assert Greatest(x, t, j);
  }

  // ----- all rounds -----

  lemma {:induction false} FirstWithKey(x: Ctx, s: seq<SymRef>, key: seq<byte>) returns (i: nat)
    requires AllResolved(x, s) && WithKey(x, s, key) != []
    ensures i < |s| && WithKey(x, s, key)[0] == s[i] && Key(x, s[i]) == key
    ensures forall j :: 0 <= j < i ==> Key(x, s[j]) != key
  {
    hide Key, Resolved;
    if Key(x, s[0]) == key {
      i := 0;
    } else {
      i := FirstWithKey(x, s[1..], key);
      forall j | 0 <= j < i + 1 ensures Key(x, s[j]) != key {
        if j > 0 { assert s[1..][j - 1] == s[j]; }
      }
      i := i + 1;
    }
  }

  /** The head of a stable sort is the first minimum. */
  lemma HeadIsFirstMin(x: Ctx, s: seq<SymRef>, k: nat, t: seq<SymRef>)
    requires AllResolved(x, s) && AllResolved(x, t) && NoRepeats(s) && k < |s|
    requires AllResolved(x, [s[k]] + t) && IsStableSort(x, [s[k]] + t, s)
    ensures IsFirstMin(x, s, |s|, k)
  {
    hide Key, Resolved, Leq;
    var r, key := [s[k]] + t, Key(x, s[k]);
    assert r[0] == s[k];
    forall i | 0 <= i < |s| ensures Leq(x, s[k], s[i]) {
      assert s[i] in multiset(s);
      assert s[i] in r;
      var j :| 0 <= j < |r| && r[j] == s[i];
      if j == 0 { LeqTotal(x, s[k], s[k]); } else { assert Leq(x, r[0], r[j]); }
    }
    assert WithKey(x, r, key)[0] == s[k];
    assert WithKey(x, s, key) == WithKey(x, r, key);
    var f := FirstWithKey(x, s, key);
    assert f == k;
    forall i | 0 <= i < k ensures !Leq(x, s[i], s[k]) {
      LeqTotal(x, s[i], s[k]);
    }
  }

  lemma SameRest(s: seq<SymRef>, k: nat, t: seq<SymRef>)
    requires k < |s| && multiset([s[k]] + t) == multiset(s)
    ensures multiset(t) == multiset(RemoveAt(s, k))
  {
    assert s == s[..k] + [s[k]] + s[k + 1..];
    assert multiset(s) == multiset{s[k]} + multiset(RemoveAt(s, k));
    assert multiset(t) == multiset([s[k]] + t) - multiset{s[k]};
  }

  lemma WithKeyCons(x: Ctx, e: SymRef, t: seq<SymRef>, key: seq<byte>)
    requires Resolved(x, e) && AllResolved(x, t)
    ensures AllResolved(x, [e] + t)
    ensures WithKey(x, [e] + t, key) == if Key(x, e) == key then [e] + WithKey(x, t, key) else WithKey(x, t, key)
  {
    hide Key, Resolved;
    assert ([e] + t)[1..] == t;
  }

  /** The tail of a stable sort is a stable sort of the rest. */
  lemma TailIsStableSort(x: Ctx, s: seq<SymRef>, k: nat, t: seq<SymRef>)
    requires AllResolved(x, s) && AllResolved(x, t) && IsFirstMin(x, s, |s|, k)
    requires AllResolved(x, [s[k]] + t) && IsStableSort(x, [s[k]] + t, s)
    ensures AllResolved(x, RemoveAt(s, k)) && IsStableSort(x, t, RemoveAt(s, k))
  {
    hide Key, Resolved, Leq, WithKey;
    var e, r, rest := s[k], [s[k]] + t, RemoveAt(s, k);
    SameRest(s, k, t);
    WithKeyRemove(x, s, k, []);
    forall key ensures WithKey(x, t, key) == WithKey(x, rest, key) {
      WithKeyRemove(x, s, k, key);
      WithKeyCons(x, e, t, key);
      WithKeyCons(x, e, rest, key);
      assert WithKey(x, r, key) == WithKey(x, s, key);
      SameTail([e], WithKey(x, t, key), WithKey(x, rest, key));
    }
    forall i, j | 0 <= i < j < |t| ensures Leq(x, t[i], t[j]) {
      assert t[i] == r[i + 1] && t[j] == r[j + 1];
    }
  }

  lemma SameTail<T>(a: seq<T>, b: seq<T>, c: seq<T>)
    ensures a + b == a + c ==> b == c
  {
    assert (a + b)[|a|..] == b && (a + c)[|a|..] == c;
  }

  lemma AllStuck(x: Ctx, s: seq<SymRef>)
    requires AllResolved(x, s) && NoneBeatsSentinel(x, s)
    ensures Sorted(x, s) <==> TableOk(x, s)
  {
    hide Key, Resolved, BeatsSentinel, Leq;
    assert forall i: nat :: i < |s| ==> Stuck(x, s, i);
    if TableOk(x, s) {
      forall i, j | 0 <= i < j < |s| ensures Leq(x, s[i], s[j]) {
        assert StuckInPlace(x, s, i) && Stuck(x, s, j);
      }
    }
  }

  /** When no name beats the sentinel, the list stays as it is, if the selection is not stale. */
  lemma NoneBeatsCase(x: Ctx, s: seq<SymRef>, stale: nat)
    requires AllResolved(x, s) && NoneBeatsSentinel(x, s)
    ensures AllResolved(x, Rounds(x, s, stale))
    ensures IsStableSort(x, Rounds(x, s, stale), s) <==> TableOk(x, s) && (s != [] ==> stale == 0)
  {
    hide Key, Resolved, BeatsSentinel, Leq, Rounds;
    RoundsResolved(x, s, stale);
    StaleRounds(x, s, stale);
    AllStuck(x, s);
    if s != [] && 0 < stale {
      assert |multiset(Rounds(x, s, stale))| < |multiset(s)|;
    }
  }

  lemma RestOf(x: Ctx, s: seq<SymRef>, k: nat)
    requires AllResolved(x, s) && Fits(x, s) && NoRepeats(s) && k < |s|
    ensures AllResolved(x, RemoveAt(s, k)) && Fits(x, RemoveAt(s, k)) && NoRepeats(RemoveAt(s, k))
  {
    hide Key, Resolved;
    Removed(s, k);
  }

  /** The rounds sort the list exactly when it is good and no selection is left over for it. */
  lemma {:induction false} RoundsSort(x: Ctx, s: seq<SymRef>, stale: nat)
    requires AllResolved(x, s) && Fits(x, s) && NoRepeats(s)
    ensures AllResolved(x, Rounds(x, s, stale))
    ensures IsStableSort(x, Rounds(x, s, stale), s)
            <==> TableOk(x, s) && (NoneBeatsSentinel(x, s) && s != [] ==> stale == 0)
    decreases |s|
  {
    hide Key, Resolved, BeatsSentinel, Leq, Fits, IsStableSort, TableOk, ScanTo, IsFirstMin, Selects;
    if NoneBeatsSentinel(x, s) {
      NoneBeatsCase(x, s, stale);
    } else {
      RoundsResolved(x, s, stale);
      var k := ScanTo(x, s, |s|, stale).sel;
      var b := ScanSelects(x, s, |s|, stale);
      assert k < |s| by { SelectedInside(x, s, b, k); }
      var t := RemoveAt(s, k);
      RestOf(x, s, k);
      Removed(s, k);
      RoundsSort(x, t, k);
      RoundIff(x, s, b, k, t, Rounds(x, t, k));
    }
  }

  lemma SelectedInside(x: Ctx, s: seq<SymRef>, b: nat, k: nat)
    requires AllResolved(x, s) && Selects(x, s, |s|, b, k)
    ensures k < |s|
  {
  }

  lemma RoundIff(x: Ctx, s: seq<SymRef>, b: nat, k: nat, t: seq<SymRef>, r: seq<SymRef>)
    requires AllResolved(x, s) && NoRepeats(s) && Selects(x, s, |s|, b, k)
    requires t == RemoveAt(s, k) && AllResolved(x, t) && AllResolved(x, r) && AllResolved(x, [s[k]] + r)
    requires IsStableSort(x, r, t) <==> TableOk(x, t) && (NoneBeatsSentinel(x, t) && t != [] ==> k == 0)
    ensures IsStableSort(x, [s[k]] + r, s) <==> TableOk(x, s)
  {
    hide Key, Resolved, BeatsSentinel, Leq, IsStableSort, TableOk, IsFirstMin, Selects;
    SelectedInside(x, s, b, k);
    Removed(s, k);
    if TableOk(x, s) {
      GoodSelection(x, s, b, k);
      RestIsOk(x, s, b, k, t);
      StepSortsStably(x, s, k, r);
    }
    if IsStableSort(x, [s[k]] + r, s) {
      HeadIsFirstMin(x, s, k, r);
      TailIsStableSort(x, s, k, r);
      WholeIsOk(x, s, b, k, t);
    }
  }

  /**
   * A table of visible symbols whose names fit into a char pairwise is listed in stable
   * order if and only if its stuck symbols are in place.
   */
  lemma TableListed(x: Ctx, first: SymRef, l: seq<SymRef>)
    requires Resolved(x, first) && AllResolved(x, l) && Fits(x, l) && NoRepeats(l)
    requires forall i :: 0 <= i < |l| ==> !Hidden(x, l[i])
    ensures ListedRight(x, first, l) <==> TableOk(x, l)
  {
    hide Key, Resolved, Hidden, BeatsSentinel, Leq, Fits, IsStableSort, TableOk, Rounds, NmOutput;
    ListingOfVisible(x, first, l);
    RoundsSort(x, l, 0);
  }
}
