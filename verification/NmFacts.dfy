/** The nm listing is the stable sort by name of the visible symbols. */
module NmFacts {
  import opened Bytes
  import opened Layout
  import opened ParseSpec
  import opened Lists
  import opened NmSpec
  import opened Decoded

  // ----- comparing names -----

  ghost predicate NoNul(a: seq<byte>)
  {
    forall i :: 0 <= i < |a| ==> a[i] != 0
  }

  ghost predicate SevenBit(a: seq<byte>)
  {
    forall i :: 0 <= i < |a| ==> a[i] < 128
  }

  /** At the first difference the comparison is the difference of the two bytes. */
  lemma {:induction false} StrcmpFirstDifference(a: seq<byte>, b: seq<byte>, i: nat)
    requires i < |a| && i < |b| && a[..i] == b[..i] && a[i] != b[i]
    ensures Strcmp(a, b) == a[i] as int - b[i] as int
  {
    if i > 0 {
      assert a[0] == a[..i][0] == b[..i][0] == b[0];
      assert a[1..][..i - 1] == a[..i][1..] == b[..i][1..] == b[1..][..i - 1];
      StrcmpFirstDifference(a[1..], b[1..], i - 1);
    }
  }

  /** Against a name it is a prefix of, the end of a name counts as a NUL byte. */
  lemma {:induction false} StrcmpPrefix(a: seq<byte>, b: seq<byte>)
    requires a <= b
    ensures Strcmp(a, b) == if |a| == |b| then 0 else -(b[|a|] as int)
    ensures Strcmp(b, a) == if |a| == |b| then 0 else b[|a|] as int
  {
    if a != [] {
      assert a[0] == b[0] && a[1..] <= b[1..];
      StrcmpPrefix(a[1..], b[1..]);
    }
  }

  /** a comes no later than b in the order of their bytes: it is a prefix, or smaller at the first difference. */
  ghost predicate InByteOrder(a: seq<byte>, b: seq<byte>)
  {
    || a <= b
    || exists i :: 0 <= i < |a| && i < |b| && a[..i] == b[..i] && a[i] < b[i]
  }

  lemma {:induction false} FirstDifference(a: seq<byte>, b: seq<byte>) returns (i: nat)
    ensures i <= |a| && i <= |b| && a[..i] == b[..i]
    ensures i == |a| || i == |b| || a[i] != b[i]
  {
    if a != [] && b != [] && a[0] == b[0] {
      i := FirstDifference(a[1..], b[1..]);
      assert a[..i + 1] == [a[0]] + a[1..][..i] && b[..i + 1] == [b[0]] + b[1..][..i];
      i := i + 1;
    } else {
      i := 0;
    }
  }

  /** strcmp orders names without NUL by their bytes. */
  lemma StrcmpIsByteOrder(a: seq<byte>, b: seq<byte>)
    requires NoNul(a) && NoNul(b)
    ensures Strcmp(a, b) <= 0 <==> InByteOrder(a, b)
  {
    hide Strcmp;
    var i := FirstDifference(a, b);
    if i == |a| {
      assert a <= b;
      StrcmpPrefix(a, b);
    } else if i == |b| {
      assert b <= a && b != a;
      StrcmpPrefix(b, a);
      forall j | 0 <= j < |a| && j < |b| ensures a[j] == b[j] {
        assert a[..i][j] == b[..i][j];
      }
    } else {
      StrcmpFirstDifference(a, b, i);
      if exists j :: 0 <= j < |a| && j < |b| && a[..j] == b[..j] && a[j] < b[j] {
        var j :| 0 <= j < |a| && j < |b| && a[..j] == b[..j] && a[j] < b[j];
        StrcmpFirstDifference(a, b, j);
      }
    }
  }

  lemma {:induction false} StrcmpSwap(a: seq<byte>, b: seq<byte>)
    ensures Strcmp(a, b) == -Strcmp(b, a)
  {
    if a != [] && b != [] && a[0] == b[0] {
      StrcmpSwap(a[1..], b[1..]);
    }
  }

  lemma {:induction false} StrcmpZero(a: seq<byte>, b: seq<byte>)
    requires NoNul(a) && NoNul(b)
    ensures Strcmp(a, b) == 0 <==> a == b
  {
    if a != [] && b != [] && a[0] == b[0] {
      StrcmpZero(a[1..], b[1..]);
      assert a == [a[0]] + a[1..] && b == [b[0]] + b[1..];
    }
  }

  lemma {:induction false} StrcmpTrans(a: seq<byte>, b: seq<byte>, c: seq<byte>)
    requires NoNul(a) && NoNul(b) && NoNul(c)
    requires Strcmp(a, b) <= 0 && Strcmp(b, c) <= 0
    ensures Strcmp(a, c) <= 0
    ensures Strcmp(a, b) < 0 || Strcmp(b, c) < 0 ==> Strcmp(a, c) < 0
  {
    if a != [] && b != [] && c != [] && a[0] == b[0] == c[0] {
      StrcmpTrans(a[1..], b[1..], c[1..]);
    }
  }

  /** Squeezing strcmp into a char keeps the order exactly while the difference fits. */
  lemma CharCompare(a: seq<byte>, b: seq<byte>)
    ensures (StrcmpNm(a, b) > 0 <==> Strcmp(a, b) > 0) <==> -128 <= Strcmp(a, b) <= 127
  {
  }

  /** The names that beat the sentinel. */
  lemma SentinelMeaning(a: seq<byte>)
    ensures StrcmpNm(SENTINEL, a) > 0 <==> a == [] || a[0] < 127 || (a[0] == 127 && |a| > 1 && a[1] > 128)
  {
    assert SENTINEL[1..] == [];
    if a != [] && a[0] == 127 {
      assert Strcmp(SENTINEL, a) == Strcmp([], a[1..]);
    }
  }

  // ----- names the sort gets right -----

  /** Every two names differ by no more than a char can hold. */
  ghost predicate Fits(x: Ctx, s: seq<SymRef>)
    requires AllResolved(x, s)
  {
    forall i, j :: 0 <= i < |s| && 0 <= j < |s| ==> Strcmp(Key(x, s[i]), Key(x, s[j])) <= 127
  }

  ghost predicate BeatsSentinel(x: Ctx, s: SymRef)
    requires Resolved(x, s)
  {
    StrcmpNm(SENTINEL, Key(x, s)) > 0
  }

  /** The names fit and all beat the sentinel. */
  ghost predicate Sortable(x: Ctx, s: seq<SymRef>)
    requires AllResolved(x, s)
  {
    Fits(x, s) && forall i :: 0 <= i < |s| ==> BeatsSentinel(x, s[i])
  }

  ghost predicate OneName(x: Ctx, s: seq<SymRef>)
    requires AllResolved(x, s)
  {
    forall i, j :: 0 <= i < |s| && 0 <= j < |s| ==> Key(x, s[i]) == Key(x, s[j])
  }

  /** Every symbol of the list l is one of s. */
  ghost predicate Over(l: seq<SymRef>, s: seq<SymRef>)
  {
    forall i :: 0 <= i < |l| ==> l[i] in s
  }

  lemma OverResolved(x: Ctx, l: seq<SymRef>, s: seq<SymRef>)
    requires AllResolved(x, s) && Over(l, s)
    ensures AllResolved(x, l)
    ensures Sortable(x, s) ==> Sortable(x, l)
    ensures OneName(x, s) ==> OneName(x, l)
  {
    hide Resolved, Key, BeatsSentinel;
    assert AllResolved(x, l);
    forall i, j | 0 <= i < |l| && 0 <= j < |l|
      ensures Sortable(x, s) ==> Strcmp(Key(x, l[i]), Key(x, l[j])) <= 127
      ensures OneName(x, s) ==> Key(x, l[i]) == Key(x, l[j])
    {
      var i', j' :| 0 <= i' < |s| && 0 <= j' < |s| && s[i'] == l[i] && s[j'] == l[j];
    }
  }

  /** 7-bit names whose first byte is below 127. */
  ghost predicate Ordinary(x: Ctx, s: SymRef)
    requires Resolved(x, s)
  {
    SevenBit(Key(x, s)) && (Key(x, s) != [] ==> Key(x, s)[0] < 127)
  }

  lemma {:induction false} SevenBitRange(a: seq<byte>, b: seq<byte>)
    requires SevenBit(a) && SevenBit(b)
    ensures -128 < Strcmp(a, b) < 128
  {
    if a != [] && b != [] && a[0] == b[0] {
      SevenBitRange(a[1..], b[1..]);
    }
  }

  /** Ordinary names are sortable. */
  lemma OrdinaryIsSortable(x: Ctx, s: seq<SymRef>)
    requires AllResolved(x, s) && forall i :: 0 <= i < |s| ==> Ordinary(x, s[i])
    ensures Sortable(x, s)
  {
    hide Resolved, Key;
    forall i, j | 0 <= i < |s| && 0 <= j < |s| ensures Strcmp(Key(x, s[i]), Key(x, s[j])) <= 127 {
      SevenBitRange(Key(x, s[i]), Key(x, s[j]));
    }
    forall i | 0 <= i < |s| ensures BeatsSentinel(x, s[i]) {
      SentinelMeaning(Key(x, s[i]));
    }
  }

  lemma KeyNoNul(x: Ctx, s: SymRef)
    requires Resolved(x, s)
    ensures NoNul(Key(x, s))
  {
    hide SymAt;
    CStrMeaning(x.m, AddW(x.c, SymAt(x.c, x.m, s.sym_offset).name, x.strOff), Key(x, s));
  }

  ghost predicate Leq(x: Ctx, s: SymRef, t: SymRef)
    requires Resolved(x, s) && Resolved(x, t)
  {
    Strcmp(Key(x, s), Key(x, t)) <= 0
  }

  lemma LeqTrans(x: Ctx, s: SymRef, t: SymRef, u: SymRef)
    requires Resolved(x, s) && Resolved(x, t) && Resolved(x, u)
    requires Leq(x, s, t) && Leq(x, t, u)
    ensures Leq(x, s, u)
    ensures !Leq(x, t, s) || !Leq(x, u, t) ==> !Leq(x, u, s)
  {
    hide Key, Resolved;
    KeyNoNul(x, s);
    KeyNoNul(x, t);
    KeyNoNul(x, u);
    StrcmpTrans(Key(x, s), Key(x, t), Key(x, u));
    StrcmpSwap(Key(x, s), Key(x, t));
    StrcmpSwap(Key(x, t), Key(x, u));
    StrcmpSwap(Key(x, s), Key(x, u));
  }

  lemma LeqTotal(x: Ctx, s: SymRef, t: SymRef)
    requires Resolved(x, s) && Resolved(x, t)
    ensures Leq(x, s, t) || Leq(x, t, s)
    ensures Leq(x, s, t) && Leq(x, t, s) <==> Key(x, s) == Key(x, t)
  {
    hide Key, Resolved;
    KeyNoNul(x, s);
    KeyNoNul(x, t);
    StrcmpSwap(Key(x, s), Key(x, t));
    StrcmpZero(Key(x, s), Key(x, t));
  }

  /** Position k holds the first minimum of the first n symbols. */
  ghost predicate IsFirstMin(x: Ctx, s: seq<SymRef>, n: nat, k: nat)
    requires AllResolved(x, s) && n <= |s|
  {
    && k < n
    && (forall i :: 0 <= i < n ==> Leq(x, s[k], s[i]))
    && (forall i :: 0 <= i < k ==> !Leq(x, s[i], s[k]))
  }

  /** b is the first symbol that beats the sentinel, and k the first minimum from b on, among the first n. */
  ghost predicate Selects(x: Ctx, s: seq<SymRef>, n: nat, b: nat, k: nat)
    requires AllResolved(x, s) && n <= |s|
  {
    && b <= k < n && BeatsSentinel(x, s[b])
    && (forall i :: 0 <= i < b ==> !BeatsSentinel(x, s[i]))
    && (forall i :: b <= i < n ==> Leq(x, s[k], s[i]))
    && (forall i :: b <= i < k ==> !Leq(x, s[i], s[k]))
  }

  lemma ScanStep(x: Ctx, s: seq<SymRef>, n: nat, stale: nat)
    requires AllResolved(x, s) && 0 < n <= |s|
    ensures var prev, cur := ScanTo(x, s, n - 1, stale), Key(x, s[n - 1]);
            ScanTo(x, s, n, stale) == if StrcmpNm(prev.min, cur) > 0 then Scan(cur, n - 1) else prev
  {
    hide Resolved, Key, StrcmpNm;
  }

  /** Once a name beats the sentinel, the scan compares as strcmp does. */
  lemma {:induction false} ScanSelects(x: Ctx, s: seq<SymRef>, n: nat, stale: nat) returns (b: nat)
    requires AllResolved(x, s) && Fits(x, s) && n <= |s|
    requires exists i :: 0 <= i < n && BeatsSentinel(x, s[i])
    ensures var r := ScanTo(x, s, n, stale); Selects(x, s, n, b, r.sel) && r.min == Key(x, s[r.sel])
  {
    hide Key, Resolved, Leq, StrcmpNm, BeatsSentinel, ScanTo, Selects, Fits;
    ScanStep(x, s, n, stale);
    if exists i :: 0 <= i < n - 1 && BeatsSentinel(x, s[i]) {
      b := ScanSelects(x, s, n - 1, stale);
      SelectStep(x, s, n, b, ScanTo(x, s, n - 1, stale).sel);
    } else {
      b := n - 1;
      NoneSoFar(x, s, n - 1, stale);
      SelectFirst(x, s, n);
    }
  }

  lemma SelectFirst(x: Ctx, s: seq<SymRef>, n: nat)
    requires AllResolved(x, s) && 0 < n <= |s| && BeatsSentinel(x, s[n - 1])
    requires forall i :: 0 <= i < n - 1 ==> !BeatsSentinel(x, s[i])
    ensures Selects(x, s, n, n - 1, n - 1) && StrcmpNm(SENTINEL, Key(x, s[n - 1])) > 0
  {
    hide Key, Resolved, StrcmpNm;
    LeqTotal(x, s[n - 1], s[n - 1]);
  }

  lemma {:induction false} NoneSoFar(x: Ctx, s: seq<SymRef>, n: nat, stale: nat)
    requires AllResolved(x, s) && n <= |s| && forall i :: 0 <= i < n ==> !BeatsSentinel(x, s[i])
    ensures ScanTo(x, s, n, stale) == Scan(SENTINEL, stale)
  {
    hide Key, Resolved;
    if n > 0 {
      NoneSoFar(x, s, n - 1, stale);
      assert !BeatsSentinel(x, s[n - 1]);
    }
  }

  lemma SelectStep(x: Ctx, s: seq<SymRef>, n: nat, b: nat, k: nat)
    requires AllResolved(x, s) && Fits(x, s) && 1 < n <= |s| && Selects(x, s, n - 1, b, k)
    ensures Selects(x, s, n, b, if StrcmpNm(Key(x, s[k]), Key(x, s[n - 1])) > 0 then n - 1 else k)
  {
    hide Key, Resolved, StrcmpNm, BeatsSentinel;
    var cur := s[n - 1];
    assert Strcmp(Key(x, s[k]), Key(x, cur)) <= 127 && Strcmp(Key(x, cur), Key(x, s[k])) <= 127;
    StrcmpSwap(Key(x, s[k]), Key(x, cur));
    CharCompare(Key(x, s[k]), Key(x, cur));
    LeqTotal(x, s[k], cur);
    LeqTotal(x, cur, cur);
    if !Leq(x, s[k], cur) {
      forall i | b <= i < n - 1 ensures Leq(x, cur, s[i]) && !Leq(x, s[i], cur) {
        LeqTrans(x, cur, s[k], s[i]);
      }
    }
  }

  /** With sortable names the sentinel is beaten at once and the round selects the first minimum. */
  lemma ScanFindsFirstMin(x: Ctx, s: seq<SymRef>, n: nat, stale: nat)
    requires AllResolved(x, s) && Sortable(x, s) && 0 < n <= |s|
    ensures var r := ScanTo(x, s, n, stale);
            IsFirstMin(x, s, n, r.sel) && r.min == Key(x, s[r.sel])
  {
    hide Key, Resolved, Leq, BeatsSentinel, Fits;
    assert BeatsSentinel(x, s[0]);
    var b := ScanSelects(x, s, n, stale);
  }

  // ----- stable sorting -----

  /** The symbols named key, in list order. */
  function WithKey(x: Ctx, s: seq<SymRef>, key: seq<byte>): seq<SymRef>
    requires AllResolved(x, s)
  {
    if s == [] then []
    else if Key(x, s[0]) == key then [s[0]] + WithKey(x, s[1..], key)
    else WithKey(x, s[1..], key)
  }

  ghost predicate Sorted(x: Ctx, s: seq<SymRef>)
    requires AllResolved(x, s)
  {
    forall i, j :: 0 <= i < j < |s| ==> Leq(x, s[i], s[j])
  }

  /** r holds the symbols of s, ordered by name, equal names in their old order. */
  ghost predicate IsStableSort(x: Ctx, r: seq<SymRef>, s: seq<SymRef>)
    requires AllResolved(x, r) && AllResolved(x, s)
  {
    && multiset(r) == multiset(s)
    && Sorted(x, r)
    && forall key :: WithKey(x, r, key) == WithKey(x, s, key)
  }

  lemma {:induction false} WithKeyConcat(x: Ctx, s: seq<SymRef>, t: seq<SymRef>, key: seq<byte>)
    requires AllResolved(x, s) && AllResolved(x, t)
    ensures AllResolved(x, s + t)
    ensures WithKey(x, s + t, key) == WithKey(x, s, key) + WithKey(x, t, key)
  {
    hide Key, Resolved;
    if s == [] {
      assert s + t == t;
    } else {
      WithKeyConcat(x, s[1..], t, key);
      assert (s + t)[1..] == s[1..] + t;
    }
  }

  /** Taking out the first minimum moves it in front of all symbols of the same name. */
  lemma WithKeyRemove(x: Ctx, s: seq<SymRef>, k: nat, key: seq<byte>)
    requires AllResolved(x, s) && IsFirstMin(x, s, |s|, k)
    ensures AllResolved(x, RemoveAt(s, k))
    ensures WithKey(x, s, key) == WithKey(x, [s[k]] + RemoveAt(s, k), key)
  {
    hide Key, Resolved, Leq;
    var a, e, b := s[..k], s[k], s[k + 1..];
    assert s == a + ([e] + b);
    assert [e] + RemoveAt(s, k) == [e] + (a + b);
    WithKeyConcat(x, a, [e] + b, key);
    WithKeyConcat(x, [e], b, key);
    WithKeyConcat(x, [e], a + b, key);
    WithKeyConcat(x, a, b, key);
    if key == Key(x, e) {
      forall i | 0 <= i < |a| ensures Key(x, a[i]) != key {
        LeqTotal(x, a[i], e);
      }
      NoneWithKey(x, a, key);
    }
  }

  lemma {:induction false} NoneWithKey(x: Ctx, s: seq<SymRef>, key: seq<byte>)
    requires AllResolved(x, s) && forall i :: 0 <= i < |s| ==> Key(x, s[i]) != key
    ensures WithKey(x, s, key) == []
  {
    if s != [] {
      NoneWithKey(x, s[1..], key);
    }
  }

  /** The selection rounds sort stably; nothing is lost or duplicated. */
  lemma {:induction false} RoundsSortStably(x: Ctx, s: seq<SymRef>, stale: nat)
    requires AllResolved(x, s) && Sortable(x, s)
    ensures AllResolved(x, Rounds(x, s, stale))
    ensures IsStableSort(x, Rounds(x, s, stale), s)
    decreases |s|
  {
    hide Key, Resolved, Leq, ScanTo, Fits, BeatsSentinel, Sortable;
    RoundsResolved(x, s, stale);
    if s != [] {
      var k := ScanTo(x, s, |s|, stale).sel;
      ScanFindsFirstMin(x, s, |s|, stale);
      var rest := RemoveAt(s, k);
      OverResolved(x, rest, s);
      RoundsSortStably(x, rest, k);
      StepSortsStably(x, s, k, Rounds(x, rest, k));
    }
  }

  lemma StepSortsStably(x: Ctx, s: seq<SymRef>, k: nat, t: seq<SymRef>)
    requires AllResolved(x, s) && AllResolved(x, t) && IsFirstMin(x, s, |s|, k)
    requires AllResolved(x, RemoveAt(s, k)) && IsStableSort(x, t, RemoveAt(s, k))
    ensures AllResolved(x, [s[k]] + t) && IsStableSort(x, [s[k]] + t, s)
  {
    hide Key, Resolved, Leq;
    var r := [s[k]] + t;
    assert s == s[..k] + [s[k]] + s[k + 1..];
    assert multiset(r) == multiset(s);
    forall key ensures WithKey(x, r, key) == WithKey(x, s, key) {
      WithKeyRemove(x, s, k, key);
      assert r[1..] == t && ([s[k]] + RemoveAt(s, k))[1..] == RemoveAt(s, k);
    }
    forall i, j | 0 <= i < j < |r| ensures Leq(x, r[i], r[j]) {
      if i == 0 {
        assert r[j] in multiset(t);
        assert r[j] in RemoveAt(s, k);
        assert r[j] in s;
      } else {
        assert r[i] == t[i - 1] && r[j] == t[j - 1];
      }
    }
  }

  /** A list has only one stable sort. */
  lemma {:induction false} StableSortUnique(x: Ctx, q: seq<SymRef>, r: seq<SymRef>, s: seq<SymRef>)
    requires AllResolved(x, q) && AllResolved(x, r) && AllResolved(x, s)
    requires IsStableSort(x, q, s) && IsStableSort(x, r, s)
    ensures q == r
  {
    hide Key, Resolved, Leq;
    SameRuns(x, q, r);
  }

  lemma {:induction false} SameRuns(x: Ctx, q: seq<SymRef>, r: seq<SymRef>)
    requires AllResolved(x, q) && AllResolved(x, r) && Sorted(x, q) && Sorted(x, r)
    requires forall key :: WithKey(x, q, key) == WithKey(x, r, key)
    ensures q == r
  {
    hide Key, Resolved, Leq;
    assert r != [] ==> WithKey(x, r, Key(x, r[0])) != [];
    if q != [] {
      assert WithKey(x, q, Key(x, q[0])) != [];
      var j := MemberWithKey(x, r, Key(x, q[0]));
      assert WithKey(x, r, Key(x, r[0])) != [];
      var i := MemberWithKey(x, q, Key(x, r[0]));
      SameFirstKey(x, q, r, i, j);
      var first := Key(x, q[0]);
      assert WithKey(x, q, first)[0] == q[0] && WithKey(x, r, first)[0] == r[0];
      forall key ensures WithKey(x, q[1..], key) == WithKey(x, r[1..], key) {
        assert WithKey(x, q, key) == WithKey(x, r, key);
        if key == first {
          assert WithKey(x, q[1..], key) == WithKey(x, q, key)[1..];
          assert WithKey(x, r[1..], key) == WithKey(x, r, key)[1..];
        }
      }
      SameRuns(x, q[1..], r[1..]);
      assert q == [q[0]] + q[1..] && r == [r[0]] + r[1..];
    }
  }

  lemma {:induction false} MemberWithKey(x: Ctx, s: seq<SymRef>, key: seq<byte>) returns (i: nat)
    requires AllResolved(x, s) && WithKey(x, s, key) != []
    ensures i < |s| && Key(x, s[i]) == key
  {
    hide Resolved;
    if Key(x, s[0]) == key {
      i := 0;
    } else {
      i := MemberWithKey(x, s[1..], key);
      i := i + 1;
    }
  }

  lemma SameFirstKey(x: Ctx, q: seq<SymRef>, r: seq<SymRef>, i: nat, j: nat)
    requires AllResolved(x, q) && AllResolved(x, r) && Sorted(x, q) && Sorted(x, r)
    requires i < |q| && j < |r| && Key(x, q[i]) == Key(x, r[0]) && Key(x, r[j]) == Key(x, q[0])
    ensures Key(x, q[0]) == Key(x, r[0])
  {
    hide Key, Resolved;
    LeqTotal(x, q[0], q[i]);
    LeqTotal(x, r[0], r[j]);
    LeqTotal(x, q[0], r[0]);
    if i > 0 { assert Leq(x, q[0], q[i]); }
    if j > 0 { assert Leq(x, r[0], r[j]); }
  }

  // ----- the two filters -----

  /** STT_SECTION is 3 and STT_FILE is 4, in the low half of st_info: byte 12 or 4 of the symbol. */
  lemma HiddenTypes(x: Ctx, s: SymRef)
    requires Resolved(x, s)
    ensures x.c.Class32? ==> (Hidden(x, s) <==> x.m[s.sym_offset + 12] % 16 in {3, 4})
    ensures x.c.Class64? ==> (Hidden(x, s) <==> x.m[s.sym_offset + 4] % 16 in {3, 4})
  {
    hide SymAt;
    if x.c.Class32? {
      SymFields32(x.m, s.sym_offset);
    } else {
      SymFields64(x.m, s.sym_offset);
    }
  }

  /** Every second element, beginning with the second. */
  function EverySecond<T>(s: seq<T>): seq<T>
  {
    if |s| < 2 then [] else [s[1]] + EverySecond(s[2..])
  }

  /**
   * Behind any symbol the sweep deletes every other symbol of a run of hidden ones,
   * beginning with the first, and goes on at the visible symbol behind the run.
   */
  lemma {:induction false} SweepRun(x: Ctx, a: SymRef, run: seq<SymRef>, rest: seq<SymRef>)
    requires Resolved(x, a) && AllResolved(x, run) && AllResolved(x, rest) && AllResolved(x, [a] + run + rest)
    requires rest != [] && !Hidden(x, rest[0]) && forall i :: 0 <= i < |run| ==> Hidden(x, run[i])
    ensures Sweep(x, [a] + run + rest)
            == match Sweep(x, rest) case None => None case Some(t) => Some([a] + EverySecond(run) + t)
    decreases |run|
  {
    hide Resolved, Hidden;
    var s, t := [a] + run + rest, Sweep(x, rest);
    if |run| == 0 {
      assert s == [a] + rest && s[1..] == rest && s[1] == rest[0];
    } else if |run| == 1 {
      assert s[1] == run[0] && s[2..] == rest;
      if t.Some? { assert [a] + EverySecond(run) + t.value == [a] + t.value; }
    } else {
      var b, more := run[1], run[2..];
      assert s[1] == run[0] && s[2..] == [b] + more + rest;
      SweepRun(x, b, more, rest);
      if t.Some? { assert [a] + ([b] + EverySecond(more) + t.value) == [a] + EverySecond(run) + t.value; }
    }
  }

  /** The number of hidden symbols at the end of the list. */
  function TrailingHidden(x: Ctx, s: seq<SymRef>): nat
    requires AllResolved(x, s)
  {
    if s == [] || !Hidden(x, s[|s| - 1]) then 0 else 1 + TrailingHidden(x, s[..|s| - 1])
  }

  lemma {:induction false} TrailingOfTail(x: Ctx, s: seq<SymRef>)
    requires AllResolved(x, s) && s != []
    ensures TrailingHidden(x, s[1..]) <= |s| - 1
    ensures TrailingHidden(x, s)
            == if TrailingHidden(x, s[1..]) == |s| - 1 && Hidden(x, s[0]) then |s| else TrailingHidden(x, s[1..])
  {
    hide Resolved, Hidden;
    var n := |s| - 1;
    if n == 0 {
      assert s[..0] == [];
    } else {
      TrailingOfTail(x, s[..n]);
      assert s[..n][1..] == s[1..][..n - 1];
      assert s[1..][n - 1] == s[n];
    }
  }

  /** The sweep follows a null pointer exactly when an odd number of hidden symbols ends the list behind its head. */
  lemma {:induction false} SweepCrashes(x: Ctx, s: seq<SymRef>)
    requires AllResolved(x, s) && s != []
    ensures Sweep(x, s).None? <==> TrailingHidden(x, s[1..]) % 2 == 1
    decreases |s|
  {
    hide Resolved, Hidden;
    if |s| > 1 {
      TrailingOfTail(x, s[1..]);
      assert s[1..][1..] == s[2..];
      if !Hidden(x, s[1]) {
        SweepCrashes(x, s[1..]);
      } else if |s| > 2 {
        SweepCrashes(x, s[2..]);
        TrailingOfTail(x, s[2..]);
        assert s[2..][1..] == s[3..];
      }
    }
  }

  lemma {:induction false} SweepKeepsVisible(x: Ctx, s: seq<SymRef>)
    requires AllResolved(x, s) && Sweep(x, s).Some?
    ensures Visible(x, Sweep(x, s).value) == Visible(x, s)
    decreases |s|
  {
    hide Resolved, Hidden;
    if |s| > 1 {
      if !Hidden(x, s[1]) {
        SweepKeepsVisible(x, s[1..]);
        VisibleCons(x, s[0], s[1..]);
        VisibleCons(x, s[0], Sweep(x, s[1..]).value);
        assert s == [s[0]] + s[1..];
      } else if |s| > 2 {
        SweepKeepsVisible(x, s[2..]);
        VisibleCons(x, s[0], s[2..]);
        VisibleCons(x, s[0], Sweep(x, s[2..]).value);
        assert s[1..] == [s[1]] + s[2..] && s == [s[0]] + s[1..];
        VisibleCons(x, s[1], s[2..]);
        VisibleCons(x, s[0], s[1..]);
      }
    }
  }

  lemma VisibleCons(x: Ctx, e: SymRef, s: seq<SymRef>)
    requires Resolved(x, e) && AllResolved(x, s)
    ensures AllResolved(x, [e] + s)
    ensures Visible(x, [e] + s) == if Hidden(x, e) then Visible(x, s) else [e] + Visible(x, s)
  {
    hide Resolved, Hidden;
    assert ([e] + s)[1..] == s;
  }

  lemma {:induction false} DropKeepsVisible(x: Ctx, s: seq<SymRef>)
    requires AllResolved(x, s)
    ensures Visible(x, DropHidden(x, s)) == Visible(x, s)
    ensures DropHidden(x, s) == [] <==> Visible(x, s) == []
    ensures DropHidden(x, s) != [] ==> TrailingHidden(x, DropHidden(x, s)[1..]) == TrailingHidden(x, s)
  {
    hide Resolved, Hidden;
    if s != [] {
      TrailingOfTail(x, s);
      if Hidden(x, s[0]) {
        DropKeepsVisible(x, s[1..]);
        AllHidden(x, s[1..]);
      }
    }
  }

  lemma {:induction false} AllHidden(x: Ctx, s: seq<SymRef>)
    requires AllResolved(x, s)
    ensures TrailingHidden(x, s) == |s| <==> Visible(x, s) == []
    ensures TrailingHidden(x, s) <= |s|
  {
    hide Resolved, Hidden;
    if s != [] {
      AllHidden(x, s[1..]);
      TrailingOfTail(x, s);
    }
  }

  // ----- stable sorting commutes with filtering -----

  lemma {:induction false} VisibleWithKey(x: Ctx, s: seq<SymRef>, key: seq<byte>)
    requires AllResolved(x, s)
    ensures AllResolved(x, WithKey(x, s, key))
    ensures WithKey(x, Visible(x, s), key) == Visible(x, WithKey(x, s, key))
  {
    hide Resolved, Hidden, Key;
    if s != [] {
      VisibleWithKey(x, s[1..], key);
      VisibleCons(x, s[0], WithKey(x, s[1..], key));
      assert ([s[0]] + Visible(x, s[1..]))[1..] == Visible(x, s[1..]);
    }
  }

  lemma {:induction false} VisibleCount(x: Ctx, s: seq<SymRef>, e: SymRef)
    requires AllResolved(x, s) && Resolved(x, e)
    ensures multiset(Visible(x, s))[e] == if Hidden(x, e) then 0 else multiset(s)[e]
  {
    hide Resolved, Hidden;
    if s != [] {
      VisibleCount(x, s[1..], e);
      assert s == [s[0]] + s[1..];
    }
  }

  lemma {:induction false} VisibleSorted(x: Ctx, s: seq<SymRef>)
    requires AllResolved(x, s) && Sorted(x, s)
    ensures Sorted(x, Visible(x, s))
    ensures forall i :: 0 <= i < |Visible(x, s)| ==> Visible(x, s)[i] in s
  {
    hide Resolved, Hidden, Leq;
    if s != [] {
      VisibleSorted(x, s[1..]);
      var t := Visible(x, s[1..]);
      forall i | 0 <= i < |t| ensures Leq(x, s[0], t[i]) && t[i] in s {
        assert t[i] in s[1..];
      }
    }
  }

  lemma FilterCommutes(x: Ctx, r: seq<SymRef>, s: seq<SymRef>)
    requires AllResolved(x, r) && AllResolved(x, s) && IsStableSort(x, r, s)
    ensures IsStableSort(x, Visible(x, r), Visible(x, s))
  {
    hide Resolved, Hidden, Leq, Key;
    VisibleSorted(x, r);
    forall key ensures WithKey(x, Visible(x, r), key) == WithKey(x, Visible(x, s), key) {
      VisibleWithKey(x, r, key);
      VisibleWithKey(x, s, key);
    }
    forall e ensures multiset(Visible(x, r))[e] == multiset(Visible(x, s))[e] {
      if e in Visible(x, r) || e in Visible(x, s) {
        VisibleCount(x, r, e);
        VisibleCount(x, s, e);
      }
    }
    assert multiset(Visible(x, r)) == multiset(Visible(x, s));
  }

  // ----- the whole listing -----

  lemma {:induction false} SweepOver(x: Ctx, s: seq<SymRef>)
    requires AllResolved(x, s) && Sweep(x, s).Some?
    ensures Over(Sweep(x, s).value, s)
    decreases |s|
  {
    hide Resolved, Hidden;
    if |s| > 1 {
      if !Hidden(x, s[1]) {
        SweepOver(x, s[1..]);
      } else if |s| > 2 {
        SweepOver(x, s[2..]);
      }
    }
  }

  lemma {:induction false} DropOver(x: Ctx, s: seq<SymRef>)
    requires AllResolved(x, s)
    ensures Over(DropHidden(x, s), s)
  {
    hide Resolved, Hidden;
    if s != [] && Hidden(x, s[0]) {
      DropOver(x, s[1..]);
    }
  }

  /** nm runs to the end exactly when nothing is visible or an even number of hidden symbols ends the table. */
  lemma NmCompletes(x: Ctx, syms: seq<SymRef>)
    requires AllResolved(x, syms)
    ensures NmOutput(x, syms).Some?
            <==> Visible(x, Tail(syms)) == [] || TrailingHidden(x, Tail(syms)) % 2 == 0
  {
    hide Resolved, Hidden, Rounds;
    DropKeepsVisible(x, Tail(syms));
    var y := DropHidden(x, Tail(syms));
    if y != [] {
      SweepCrashes(x, y);
    }
  }

  /**
   * With sortable names the listing is the stable sort by name of all symbols but the
   * first that are neither SECTION nor FILE symbols.
   */
  lemma NmListsStableSort(x: Ctx, syms: seq<SymRef>)
    requires AllResolved(x, syms) && Sortable(x, Tail(syms)) && NmOutput(x, syms).Some?
    ensures AllResolved(x, NmOutput(x, syms).value)
    ensures IsStableSort(x, NmOutput(x, syms).value, Visible(x, Tail(syms)))
  {
    hide Resolved, Hidden, Rounds, IsStableSort, Sortable, OneName;
    var t := Tail(syms);
    DropKeepsVisible(x, t);
    DropOver(x, t);
    var y := DropHidden(x, t);
    OverResolved(x, y, t);
    SweepKeepsVisible(x, y);
    SweepOver(x, y);
    var z := Sweep(x, y).value;
    OverResolved(x, z, y);
    RoundsSortStably(x, z, 0);
    FilterCommutes(x, Rounds(x, z, 0), z);
  }

  // ----- stability by place -----

  /** The symbols stand in the order of their offsets. */
  ghost predicate Increasing(s: seq<SymRef>)
  {
    forall i, j :: 0 <= i < j < |s| ==> s[i].sym_offset < s[j].sym_offset
  }

  lemma {:induction false} WithKeyMembers(x: Ctx, s: seq<SymRef>, key: seq<byte>, e: SymRef)
    requires AllResolved(x, s) && Resolved(x, e)
    ensures e in WithKey(x, s, key) <==> e in s && Key(x, e) == key
  {
    hide Resolved, Key;
    if s != [] {
      WithKeyMembers(x, s[1..], key, e);
      assert e in s <==> e == s[0] || e in s[1..];
    }
  }

  lemma IncreasingCons(e: SymRef, s: seq<SymRef>)
    requires Increasing(s) && forall i :: 0 <= i < |s| ==> e.sym_offset < s[i].sym_offset
    ensures Increasing([e] + s)
  {
  }

  lemma {:induction false} WithKeyIncreasing(x: Ctx, s: seq<SymRef>, key: seq<byte>)
    requires AllResolved(x, s) && Increasing(s)
    ensures Increasing(WithKey(x, s, key))
  {
    hide Resolved, Key;
    if s != [] {
      WithKeyIncreasing(x, s[1..], key);
      var t := WithKey(x, s[1..], key);
      forall i | 0 <= i < |t| ensures s[0].sym_offset < t[i].sym_offset {
        WithKeyIn(x, s[1..], key, i);
      }
      IncreasingCons(s[0], t);
    }
  }

  lemma {:induction false} WithKeyIn(x: Ctx, s: seq<SymRef>, key: seq<byte>, i: nat)
    requires AllResolved(x, s) && i < |WithKey(x, s, key)|
    ensures WithKey(x, s, key)[i] in s
  {
    hide Resolved, Key;
    if Key(x, s[0]) != key {
      WithKeyIn(x, s[1..], key, i);
    } else if i > 0 {
      WithKeyIn(x, s[1..], key, i - 1);
    }
  }

  lemma {:induction false} VisibleIncreasing(x: Ctx, s: seq<SymRef>)
    requires AllResolved(x, s) && Increasing(s)
    ensures Increasing(Visible(x, s)) && forall i :: 0 <= i < |Visible(x, s)| ==> Visible(x, s)[i] in s
  {
    hide Resolved, Hidden;
    if s != [] {
      VisibleIncreasing(x, s[1..]);
      var t := Visible(x, s[1..]);
      forall i | 0 <= i < |t| ensures s[0].sym_offset < t[i].sym_offset && t[i] in s {
        assert t[i] in s[1..];
      }
      IncreasingCons(s[0], t);
    }
  }

  /** Symbols of one name stand in the order of their offsets when the list of that name does. */
  lemma {:induction false} SameNameOrder(x: Ctx, s: seq<SymRef>, i: nat, j: nat)
    requires AllResolved(x, s) && i < j < |s| && Key(x, s[i]) == Key(x, s[j])
    requires Increasing(WithKey(x, s, Key(x, s[i])))
    ensures s[i].sym_offset < s[j].sym_offset
  {
    hide Resolved, Key;
    var key := Key(x, s[i]);
    var t := WithKey(x, s[1..], key);
    if i == 0 {
      WithKeyMembers(x, s[1..], key, s[j]);
      assert s[j] == s[1..][j - 1];
      var k :| 0 <= k < |t| && t[k] == s[j];
      assert WithKey(x, s, key)[k + 1] == s[j] && WithKey(x, s, key)[0] == s[0];
    } else {
      assert forall a, b :: 0 <= a < b < |t| ==> t[a].sym_offset < t[b].sym_offset by {
        var w := WithKey(x, s, key);
        assert if Key(x, s[0]) == key then w == [s[0]] + t else w == t;
        if Key(x, s[0]) == key { assert forall a :: 0 <= a < |t| ==> t[a] == w[a + 1]; }
      }
      SameNameOrder(x, s[1..], i - 1, j - 1);
    }
  }

  lemma {:induction false} VisibleMembers(x: Ctx, s: seq<SymRef>, e: SymRef)
    requires AllResolved(x, s)
    ensures e in Visible(x, s) ==> e in s
    ensures e in s ==> Resolved(x, e) && (e in Visible(x, s) <==> !Hidden(x, e))
  {
    hide Resolved, Hidden;
    if s != [] {
      VisibleMembers(x, s[1..], e);
      assert e in s <==> e == s[0] || e in s[1..];
    }
  }

  // ----- exactly which names are sorted right -----

  /** The rounds sort the list stably. */
  ghost predicate SortedRight(x: Ctx, l: seq<SymRef>)
  {
    AllResolved(x, l) && AllResolved(x, Rounds(x, l, 0)) && IsStableSort(x, Rounds(x, l, 0), l)
  }

  /**
   * When no name beats the sentinel, the old selection stays: the list from there on is
   * kept in its order, and what stands in front is dropped.
   */
  lemma {:induction false} StaleRounds(x: Ctx, s: seq<SymRef>, stale: nat)
    requires AllResolved(x, s) && forall i :: 0 <= i < |s| ==> !BeatsSentinel(x, s[i])
    ensures Rounds(x, s, stale) == if stale < |s| then s[stale..] else []
    decreases |s|
  {
    hide Resolved, Key, BeatsSentinel, ScanTo, RemoveAt;
    if s != [] {
      NoneSoFar(x, s, |s|, stale);
      if stale < |s| {
        TailKept(s, stale);
        StaleRounds(x, RemoveAt(s, stale), stale);
      } else {
        StaleRounds(x, s[1..], stale);
      }
    }
  }

  /** What stands behind a removed place moves up to it. */
  lemma TailKept(s: seq<SymRef>, k: nat)
    requires k < |s|
    ensures |RemoveAt(s, k)| == |s| - 1 && RemoveAt(s, k)[k..] == s[k + 1..]
    ensures forall i :: 0 <= i < |s| - 1 ==> RemoveAt(s, k)[i] == s[if i < k then i else i + 1]
    ensures s[k..] == [s[k]] + s[k + 1..]
  {
  }

  /** In particular nothing is lost when no selection is stale. */
  lemma NothingSelected(x: Ctx, s: seq<SymRef>)
    requires AllResolved(x, s) && forall i :: 0 <= i < |s| ==> !BeatsSentinel(x, s[i])
    ensures Rounds(x, s, 0) == s
  {
    hide Resolved, BeatsSentinel, Rounds;
    StaleRounds(x, s, 0);
  }

  /** Two names that differ by more than a char holds stay in the wrong order. */
  lemma PairMisordered(x: Ctx, s: SymRef, t: SymRef)
    requires Resolved(x, s) && Resolved(x, t) && BeatsSentinel(x, s) && BeatsSentinel(x, t)
    requires Strcmp(Key(x, s), Key(x, t)) > 127
    ensures Rounds(x, [s, t], 0) == [s, t] && !SortedRight(x, [s, t])
  {
    hide Resolved, Key;
    var l := [s, t];
    assert ScanTo(x, l, 0, 0) == Scan(SENTINEL, 0);
    assert ScanTo(x, l, 1, 0) == Scan(Key(x, s), 0);
    assert ScanTo(x, l, 2, 0) == Scan(Key(x, s), 0);
    var rest := RemoveAt(l, 0);
    assert rest == [t];
    assert ScanTo(x, rest, 0, 0) == Scan(SENTINEL, 0);
    assert ScanTo(x, rest, 1, 0) == Scan(Key(x, t), 0);
    assert RemoveAt(rest, 0) == [];
    assert Rounds(x, rest, 0) == [t];
    assert !Leq(x, l[0], l[1]);
  }

  /** A name that does not beat the sentinel is lost behind one that does: its round uses a stale selection. */
  lemma PairLost(x: Ctx, s: SymRef, t: SymRef)
    requires Resolved(x, s) && Resolved(x, t) && !BeatsSentinel(x, s) && BeatsSentinel(x, t)
    ensures Rounds(x, [s, t], 0) == [t] && !SortedRight(x, [s, t])
  {
    hide Resolved, Key;
    var l := [s, t];
    assert ScanTo(x, l, 0, 0) == Scan(SENTINEL, 0);
    assert ScanTo(x, l, 1, 0) == Scan(SENTINEL, 0);
    assert ScanTo(x, l, 2, 0) == Scan(Key(x, t), 1);
    var rest := RemoveAt(l, 1);
    assert rest == [s];
    assert ScanTo(x, rest, 0, 1) == Scan(SENTINEL, 1);
    assert ScanTo(x, rest, 1, 1) == Scan(SENTINEL, 1);
    assert Rounds(x, rest, 1) == [];
    assert |multiset(l)| == 2 && |multiset([t])| == 1;
  }

  /** Two different names that do not beat the sentinel keep their order, right or wrong. */
  lemma PairKept(x: Ctx, s: SymRef, t: SymRef)
    requires Resolved(x, s) && Resolved(x, t) && !BeatsSentinel(x, s) && !BeatsSentinel(x, t)
    requires Key(x, s) != Key(x, t)
    ensures !SortedRight(x, [s, t]) || !SortedRight(x, [t, s])
  {
    hide Resolved, Key, Leq, Rounds, SortedRight;
    NothingSelected(x, [s, t]);
    NothingSelected(x, [t, s]);
    LeqTotal(x, s, t);
    if SortedRight(x, [s, t]) { PairOrdered(x, s, t); }
    if SortedRight(x, [t, s]) { PairOrdered(x, t, s); }
  }

  lemma PairOrdered(x: Ctx, s: SymRef, t: SymRef)
    requires Resolved(x, s) && Resolved(x, t) && SortedRight(x, [s, t]) && Rounds(x, [s, t], 0) == [s, t]
    ensures Leq(x, s, t)
  {
    hide Resolved, Key, Leq, Rounds;
    var l := [s, t];
    assert Leq(x, l[0], l[1]);
  }

  /** Symbols whose lists are all sorted right have sortable names, or all the same name. */
  lemma WrongList(x: Ctx, s: seq<SymRef>) returns (l: seq<SymRef>)
    requires AllResolved(x, s) && !Sortable(x, s) && !OneName(x, s)
    ensures Over(l, s) && !SortedRight(x, l)
  {
    hide Resolved, Key, BeatsSentinel, SortedRight;
    if i :| 0 <= i < |s| && !BeatsSentinel(x, s[i]) {
      var j :| 0 <= j < |s| && Key(x, s[j]) != Key(x, s[i]);
      if BeatsSentinel(x, s[j]) {
        PairLost(x, s[i], s[j]);
        l := [s[i], s[j]];
      } else {
        PairKept(x, s[i], s[j]);
        l := if SortedRight(x, [s[i], s[j]]) then [s[j], s[i]] else [s[i], s[j]];
      }
    } else {
      var i, j :| 0 <= i < |s| && 0 <= j < |s| && Strcmp(Key(x, s[i]), Key(x, s[j])) > 127;
      PairMisordered(x, s[i], s[j]);
      l := [s[i], s[j]];
    }
  }

  lemma OneNameSorted(x: Ctx, l: seq<SymRef>)
    requires AllResolved(x, l) && OneName(x, l)
    ensures SortedRight(x, l)
  {
    hide Resolved, Key, Rounds, ScanTo;
    forall i, j | 0 <= i < |l| && 0 <= j < |l| ensures Strcmp(Key(x, l[i]), Key(x, l[j])) == 0 {
      StrcmpSwap(Key(x, l[i]), Key(x, l[i]));
    }
    if l != [] && BeatsSentinel(x, l[0]) {
      RoundsSortStably(x, l, 0);
    } else {
      NothingSelected(x, l);
    }
  }

  /**
   * All lists over a set of symbols are sorted stably if and only if their names fit
   * into a char pairwise and all beat the sentinel, or there is only one name.
   */
  lemma SortsExactly(x: Ctx, s: seq<SymRef>)
    requires AllResolved(x, s)
    ensures (forall l :: Over(l, s) ==> SortedRight(x, l)) <==> Sortable(x, s) || OneName(x, s)
  {
    hide Resolved, Key, SortedRight, Sortable, OneName, Over;
    if Sortable(x, s) || OneName(x, s) {
      forall l | Over(l, s) ensures SortedRight(x, l) {
        RightList(x, l, s);
      }
    } else {
      var l := WrongList(x, s);
    }
  }

  lemma RightList(x: Ctx, l: seq<SymRef>, s: seq<SymRef>)
    requires AllResolved(x, s) && Over(l, s) && (Sortable(x, s) || OneName(x, s))
    ensures SortedRight(x, l)
  {
    hide Resolved, Key, Sortable, OneName, IsStableSort, Rounds;
    OverResolved(x, l, s);
    if Sortable(x, s) {
      RoundsSortStably(x, l, 0);
    } else {
      OneNameSorted(x, l);
    }
  }

  // ----- the same for whole listings -----

  lemma {:induction false} RoundsOver(x: Ctx, s: seq<SymRef>, stale: nat)
    requires AllResolved(x, s)
    ensures Over(Rounds(x, s, stale), s)
    decreases |s|
  {
    hide Resolved, Key, ScanTo;
    if s != [] {
      var sel := ScanTo(x, s, |s|, stale).sel;
      if sel < |s| {
        RoundsOver(x, RemoveAt(s, sel), sel);
      } else {
        RoundsOver(x, s[1..], sel);
      }
    }
  }

  lemma {:induction false} NothingHidden(x: Ctx, s: seq<SymRef>)
    requires AllResolved(x, s) && forall i :: 0 <= i < |s| ==> !Hidden(x, s[i])
    ensures DropHidden(x, s) == s && Sweep(x, s) == Some(s) && Visible(x, s) == s
  {
    hide Resolved, Hidden;
    if s != [] {
      NothingHidden(x, s[1..]);
      assert s == [s[0]] + s[1..];
    }
  }

  /** Without hidden symbols the listing is what the rounds make of all symbols but the first. */
  lemma ListingOfVisible(x: Ctx, first: SymRef, l: seq<SymRef>)
    requires Resolved(x, first) && AllResolved(x, l) && forall i :: 0 <= i < |l| ==> !Hidden(x, l[i])
    ensures AllResolved(x, [first] + l) && NmOutput(x, [first] + l) == Some(Rounds(x, l, 0))
  {
    hide Resolved, Hidden, Rounds;
    assert Tail([first] + l) == l;
    NothingHidden(x, l);
    RoundsResolved(x, l, 0);
    RoundsOver(x, l, 0);
    NothingHidden(x, Rounds(x, l, 0));
  }

  /** nm lists the symbols behind the first stably sorted. */
  ghost predicate ListedRight(x: Ctx, first: SymRef, l: seq<SymRef>)
  {
    && AllResolved(x, l) && AllResolved(x, [first] + l)
    && NmOutput(x, [first] + l).Some?
    && AllResolved(x, NmOutput(x, [first] + l).value)
    && IsStableSort(x, NmOutput(x, [first] + l).value, l)
  }

  /** nm lists every table of visible symbols right if and only if their names are sortable or all equal. */
  lemma ListsExactly(x: Ctx, first: SymRef, s: seq<SymRef>)
    requires Resolved(x, first) && AllResolved(x, s) && forall i :: 0 <= i < |s| ==> !Hidden(x, s[i])
    ensures (forall l :: Over(l, s) ==> ListedRight(x, first, l)) <==> Sortable(x, s) || OneName(x, s)
  {
    hide Resolved, Hidden, Rounds, IsStableSort, Sortable, OneName, NmOutput;
    SortsExactly(x, s);
    forall l | Over(l, s) ensures ListedRight(x, first, l) <==> SortedRight(x, l) {
      OverResolved(x, l, s);
      ListingOfVisible(x, first, l);
    }
  }
}
