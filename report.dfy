/** The ordering generate_report gives the artifacts before writing them (line 175):

      devices.sort(key=lambda x: x['Last Connection (Reg Update)'] or datetime.min, reverse=True)

    Python's sort is stable, also with reverse=True: entries with equal keys
    keep their relative order.  The list is sorted in place; here it is an array.
 */
module Report {
  import opened FileTime
  import opened UsbStor

  /** datetime.min, 0001-01-01 00:00, on the microsecond scale that starts in 1601. */
  const DATETIME_MIN: int := YearStart(1)

  /** The sort key: the last connection, or datetime.min when there is none. */
  function SortKey(a: Artifact): int {
    match a.lastConnection
    case Some(t) => t
    case None => DATETIME_MIN
  }

  /** Most recent first. */
  ghost predicate NewestFirst(s: seq<Artifact>) {
    forall p, q :: 0 <= p < q < |s| ==> SortKey(s[p]) >= SortKey(s[q])
  }

  /** The entries of s whose key is k, in their order in s. */
  function WithKey(s: seq<Artifact>, k: int): seq<Artifact> {
    if s == [] then []
    else (if SortKey(s[0]) == k then [s[0]] else []) + WithKey(s[1..], k)
  }

  /** Entries with equal keys appear in the same relative order in s and t. */
  ghost predicate SameOrderPerKey(s: seq<Artifact>, t: seq<Artifact>) {
    forall k :: WithKey(s, k) == WithKey(t, k)
  }

  lemma {:induction false} WithKeyAppend(s: seq<Artifact>, t: seq<Artifact>, k: int)
    ensures WithKey(s + t, k) == WithKey(s, k) + WithKey(t, k)
  {
    if s == [] {
      assert s + t == t;
    } else {
      assert (s + t)[0] == s[0];
      assert (s + t)[1..] == s[1..] + t;
      WithKeyAppend(s[1..], t, k);
    }
  }

  /** s with its entries at j - 1 and j exchanged. */
  function Exchanged(s: seq<Artifact>, j: int): (r: seq<Artifact>)
    requires 0 < j < |s|
  {
    s[..j - 1] + [s[j], s[j - 1]] + s[j + 1..]
  }

  /** Exchanging two neighbours with different keys keeps the order within every
      key, and the multiset of entries. */
  lemma ExchangeKeepsOrderPerKey(s: seq<Artifact>, j: int)
    requires 0 < j < |s|
    requires SortKey(s[j - 1]) != SortKey(s[j])
    ensures SameOrderPerKey(Exchanged(s, j), s)
    ensures multiset(Exchanged(s, j)) == multiset(s)
  {
    var front, back := s[..j - 1], s[j + 1..];
    assert s == front + [s[j - 1], s[j]] + back;
    forall k
      ensures WithKey(Exchanged(s, j), k) == WithKey(s, k)
    {
      WithKeyAppend(front + [s[j], s[j - 1]], back, k);
      WithKeyAppend(front, [s[j], s[j - 1]], k);
      WithKeyAppend(front + [s[j - 1], s[j]], back, k);
      WithKeyAppend(front, [s[j - 1], s[j]], k);
      assert [s[j], s[j - 1]][1..] == [s[j - 1]];
      assert [s[j - 1], s[j]][1..] == [s[j]];
    }
  }

  lemma SameOrderTransitive(s: seq<Artifact>, t: seq<Artifact>, u: seq<Artifact>)
    requires SameOrderPerKey(s, t) && SameOrderPerKey(t, u)
    ensures SameOrderPerKey(s, u)
  {
  }

  /** The state of one insertion pass over s[..i + 1]: newest first except for
      the moving entry at j, which is newer than everything after it. */
  ghost predicate Inserting(s: seq<Artifact>, j: int, i: int) {
    0 <= j <= i < |s| &&
    (forall p, q :: 0 <= p < q <= i && p != j && q != j ==> SortKey(s[p]) >= SortKey(s[q])) &&
    (forall q :: j < q <= i ==> SortKey(s[j]) > SortKey(s[q]))
  }

  lemma InsertingStep(s: seq<Artifact>, j: int, i: int)
    requires Inserting(s, j, i) && 0 < j && SortKey(s[j - 1]) < SortKey(s[j])
    ensures Inserting(Exchanged(s, j), j - 1, i)
  {
    var r := Exchanged(s, j);
    assert forall m :: 0 <= m < |s| && m != j - 1 && m != j ==> r[m] == s[m];
  }

  lemma InsertingDone(s: seq<Artifact>, j: int, i: int)
    requires Inserting(s, j, i) && (j == 0 || SortKey(s[j - 1]) >= SortKey(s[j]))
    ensures forall p, q :: 0 <= p < q <= i ==> SortKey(s[p]) >= SortKey(s[q])
  {
  }

  /** Moves devices[j] one place up, past a neighbour with an older key. */
  method Exchange(devices: array<Artifact>, j: int)
    requires 0 < j < devices.Length
    modifies devices
    ensures devices[..] == Exchanged(old(devices[..]), j)
  {
    devices[j - 1], devices[j] := devices[j], devices[j - 1];
  }

  /** One pass of the insertion: devices[..i] is newest first, and devices[i]
      moves up past every older entry, and past no entry of equal key. */
  method Insert(devices: array<Artifact>, i: int)
    requires 0 <= i < devices.Length
    requires forall p, q :: 0 <= p < q < i ==> SortKey(devices[p]) >= SortKey(devices[q])
    modifies devices
    ensures forall p, q :: 0 <= p < q <= i ==> SortKey(devices[p]) >= SortKey(devices[q])
    ensures multiset(devices[..]) == old(multiset(devices[..]))
    ensures SameOrderPerKey(devices[..], old(devices[..]))
  {
    var j := i;
    while 0 < j && SortKey(devices[j - 1]) < SortKey(devices[j])
      invariant Inserting(devices[..], j, i)
      invariant multiset(devices[..]) == old(multiset(devices[..]))
      invariant SameOrderPerKey(devices[..], old(devices[..]))
    {
      ghost var before := devices[..];
      ExchangeKeepsOrderPerKey(before, j);
      InsertingStep(before, j, i);
      Exchange(devices, j);
      SameOrderTransitive(devices[..], before, old(devices[..]));
      j := j - 1;
    }
    InsertingDone(devices[..], j, i);
  }

  /** devices.sort(key=..., reverse=True): newest first, a permutation, stable. */
  method SortByLastConnection(devices: array<Artifact>)
    modifies devices
    ensures NewestFirst(devices[..])
    ensures multiset(devices[..]) == old(multiset(devices[..]))
    ensures SameOrderPerKey(devices[..], old(devices[..]))
  {
    var i := 0;
    while i < devices.Length
      invariant 0 <= i <= devices.Length
      invariant forall p, q :: 0 <= p < q < i ==> SortKey(devices[p]) >= SortKey(devices[q])
      invariant multiset(devices[..]) == old(multiset(devices[..]))
      invariant SameOrderPerKey(devices[..], old(devices[..]))
    {
      ghost var before := devices[..];
      Insert(devices, i);
      SameOrderTransitive(devices[..], before, old(devices[..]));
      i := i + 1;
    }
  }

  /* ---------------------------------------------------------------------------
     What the ordering means for the report.
     ------------------------------------------------------------------------- */

  lemma {:induction false} WithKeyMembers(s: seq<Artifact>, k: int)
    ensures forall x :: x in WithKey(s, k) ==> x in s && SortKey(x) == k
  {
    if s != [] {
      WithKeyMembers(s[1..], k);
    }
  }

  lemma NonEmptyWithKey(s: seq<Artifact>)
    ensures s != [] ==> WithKey(s, SortKey(s[0])) != []
  {
  }

  /** Newest first and the same order within every key leave exactly one
      arrangement: the one Python's stable sort produces. */
  lemma {:induction false} NewestFirstUnique(s: seq<Artifact>, t: seq<Artifact>)
    requires NewestFirst(s) && NewestFirst(t) && SameOrderPerKey(s, t)
    ensures s == t
  {
    if s == [] || t == [] {
      NonEmptyWithKey(s);
      NonEmptyWithKey(t);
    } else {
      var k := SortKey(s[0]);
      WithKeyMembers(s, SortKey(t[0]));
      assert t[0] in WithKey(t, SortKey(t[0]));
      WithKeyMembers(t, k);
      assert s[0] in WithKey(s, k);
      assert SortKey(t[0]) == k;
      assert WithKey(s, k) == [s[0]] + WithKey(s[1..], k);
      assert WithKey(t, k) == [t[0]] + WithKey(t[1..], k);
      forall k' ensures WithKey(s[1..], k') == WithKey(t[1..], k') {
        if k' != k {
          assert WithKey(s, k') == WithKey(s[1..], k');
        } else {
          assert WithKey(s, k)[1..] == WithKey(s[1..], k);
        }
      }
      NewestFirstUnique(s[1..], t[1..]);
      assert s == [s[0]] + s[1..] && t == [t[0]] + t[1..];
    }
  }

  /** Newest first puts every entry with a last connection before every entry without one. */
  lemma UndatedLast(s: seq<Artifact>)
    requires NewestFirst(s)
    ensures forall p, q :: 0 <= p < q < |s| && s[p].lastConnection.None? ==> s[q].lastConnection.None?
  {
    forall p, q | 0 <= p < q < |s| && s[p].lastConnection.None?
      ensures s[q].lastConnection.None?
    {
      assert SortKey(s[p]) >= SortKey(s[q]);
    }
  }

  /** Entries with times T2 > T1 and one without a time, listed [T2, none, T1],
      are reported as [T2, T1, none]. */
  lemma ReportOrderExample(t1: nat, t2: nat, r: seq<Artifact>)
    requires t1 < t2
    requires NewestFirst(r)
    requires SameOrderPerKey(r, [Artifact("Disk&Ven_A", "2", "A", Some(t2)),
                                 Artifact("Disk&Ven_B", "0", "B", None),
                                 Artifact("Disk&Ven_C", "1", "C", Some(t1))])
    ensures r == [Artifact("Disk&Ven_A", "2", "A", Some(t2)),
                  Artifact("Disk&Ven_C", "1", "C", Some(t1)),
                  Artifact("Disk&Ven_B", "0", "B", None)]
  {
    var a2, none, a1 := Artifact("Disk&Ven_A", "2", "A", Some(t2)), Artifact("Disk&Ven_B", "0", "B", None),
                        Artifact("Disk&Ven_C", "1", "C", Some(t1));
    ExchangeKeepsOrderPerKey([a2, none, a1], 2);
    assert Exchanged([a2, none, a1], 2) == [a2, a1, none];
    SameOrderTransitive(r, [a2, none, a1], [a2, a1, none]) by {
      forall k ensures WithKey([a2, none, a1], k) == WithKey([a2, a1, none], k) { }
    }
    NewestFirstUnique(r, [a2, a1, none]);
  }
}
