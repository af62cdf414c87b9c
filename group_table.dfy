/**
 The store's state, `groupList`, as a value: a map from a group number to the
 ordered records of that group. Each mutator of the store is specified here by
 a function from the old table to the new one, and each reader by a function
 of the table; the lemmas state what those functions promise.
 */
module GroupTable {
  import opened Records

  /** `groupList`: group number -> the records of that group, in order. */
  type Groups<P> = map<nat, seq<PenData<P>>>

  /** One entry of the roster handed to initialisation. `Absent` is a null or
      undefined entry, on which reading `groupnum` throws. */
  datatype RosterItem = Absent | Group(groupnum: nat, stuIds: seq<string>)

  /** The `groupInfo` argument: an array of entries, or anything else. */
  datatype GroupInfo = NotArray | Items(items: seq<RosterItem>)

  // ---------------------------------------------------------------------
  // Roster initialisation (`_.transform` over the entries)

  /** True iff some entry of `items` is null or undefined. */
  predicate HasAbsent(items: seq<RosterItem>)
  {
    exists i :: 0 <= i < |items| && items[i].Absent?
  }

  /** The table built from the entries, in order: each entry sets its group
      to fresh records for its ids, so a later entry for the same group
      replaces an earlier one. */
  function Roster<P>(items: seq<RosterItem>): (m: Groups<P>)
    ensures m.Keys == set i | 0 <= i < |items| && items[i].Group? :: items[i].groupnum
    ensures forall g :: g in m ==> forall j :: 0 <= j < |m[g]| ==> m[g][j].points == []
  {
    if items == [] then map[]
    else
      var prev := Roster(items[..|items| - 1]);
      var last := items[|items| - 1];
      assert forall i :: 0 <= i < |items| - 1 ==> items[..|items| - 1][i] == items[i];
      if last.Group? then prev[last.groupnum := Enrol(last.stuIds)] else prev
  }

  /** Entry `i` is the last entry of `items` for group `g`. */
  predicate LastEntryFor(items: seq<RosterItem>, g: nat, i: int)
  {
    && 0 <= i < |items| && items[i].Group? && items[i].groupnum == g
    && forall j :: i < j < |items| ==> !(items[j].Group? && items[j].groupnum == g)
  }

  /** The last entry for a group decides its records: one fresh record per
      listed id, in the listed order. */
  lemma {:induction false} RosterLastEntryWins<P>(items: seq<RosterItem>, g: nat, i: int)
    requires LastEntryFor(items, g, i)
    ensures g in Roster<P>(items)
    ensures Roster<P>(items)[g] == Enrol(items[i].stuIds)
  {
    var n := |items|;
    var init := items[..n - 1];
    if i < n - 1 {
      assert init[i] == items[i];
      assert LastEntryFor(init, g, i) by {
        forall j | i < j < |init|
          ensures !(init[j].Group? && init[j].groupnum == g)
        {
          assert init[j] == items[j];
        }
      }
      RosterLastEntryWins<P>(init, g, i);
      assert !(items[n - 1].Group? && items[n - 1].groupnum == g);
    }
  }

  // ---------------------------------------------------------------------
  // Free grouping

  /** The table after student `u` joins group `g` ad hoc: a group that does
      not exist is created with `u`'s fresh record, one without `u` gets
      that record at its end, and one that already holds `u` is left alone. */
  function JoinFree<P>(m: Groups<P>, u: string, g: nat): (r: Groups<P>)
    ensures r.Keys == m.Keys + {g}
    ensures forall k :: k in m && k != g ==> r[k] == m[k]
    ensures HasUser(r[g], u)
    ensures g in m ==> |m[g]| <= |r[g]| <= |m[g]| + 1 && r[g][..|m[g]|] == m[g]
    ensures g in m && HasUser(m[g], u) ==> r == m
    ensures !(g in m && HasUser(m[g], u)) ==> r[g][|r[g]| - 1] == PenData(u, [])
    ensures g !in m ==> r[g] == [PenData(u, [])]
    ensures g in m && !HasUser(m[g], u) ==> r[g] == m[g] + [PenData(u, [])]
  {
    if g !in m then
      var created := [PenData(u, [])];
      assert created[0].userId == u;
      m[g := created]
    else if HasUser(m[g], u) then
      m
    else
      var grown := m[g] + [PenData(u, [])];
      assert grown[|m[g]|].userId == u;
      m[g := grown]
  }

  /** Joining twice is joining once. */
  lemma JoinFreeIdempotent<P>(m: Groups<P>, u: string, g: nat)
    ensures JoinFree(JoinFree(m, u, g), u, g) == JoinFree(m, u, g)
  {
  }

  /** Free joining never puts a second record for a student into a group. */
  lemma JoinFreeKeepsDistinct<P>(m: Groups<P>, u: string, g: nat)
    requires g in m ==> DistinctUsers(m[g])
    ensures DistinctUsers(JoinFree(m, u, g)[g])
  {
    if g in m && !HasUser(m[g], u) {
      var r := JoinFree(m, u, g)[g];
      forall i, j | 0 <= i < j < |r|
        ensures r[i].userId != r[j].userId
      {
        if j == |m[g]| {
          assert r[i] == m[g][i];
        } else {
          assert r[i] == m[g][i] && r[j] == m[g][j];
        }
      }
    }
  }

  // ---------------------------------------------------------------------
  // Receiving points

  /** The guard of point reception: the id, the group number and the points
      must all be truthy. The empty string, group 0 and a missing points
      value are falsy; an empty array of points is truthy. */
  predicate Accepts<P>(u: string, g: nat, pts: Option<seq<P>>)
  {
    u != "" && g != 0 && pts.Some?
  }

  /** The table after a batch of points for student `u` of group `g`
      arrives: the batch is appended to the points of the first record of
      `u` in `g`; without such a record, or when the guard fails, nothing
      changes. */
  function WithPoints<P>(m: Groups<P>, u: string, g: nat, pts: Option<seq<P>>): (r: Groups<P>)
    ensures r.Keys == m.Keys
    ensures forall k :: k in m && k != g ==> r[k] == m[k]
    ensures !(Accepts(u, g, pts) && g in m && HasUser(m[g], u)) ==> r == m
    ensures g in m ==> |r[g]| == |m[g]| &&
                       forall j :: 0 <= j < |m[g]| ==> r[g][j].userId == m[g][j].userId
    ensures Accepts(u, g, pts) && g in m && HasUser(m[g], u) ==>
              var i := FirstIndex(m[g], u).value;
              && r[g][i].points == m[g][i].points + pts.value
              && forall j :: 0 <= j < |m[g]| && j != i ==> r[g][j] == m[g][j]
  {
    if Accepts(u, g, pts) && g in m && FirstIndex(m[g], u).Some? then
      var i := FirstIndex(m[g], u).value;
      var student := m[g][i];
      m[g := m[g][i := student.(points := student.points + pts.value)]]
    else
      m
  }

  /** Group 0 is falsy, so no points ever reach it, although a student can
      join it freely. */
  lemma GroupZeroReceivesNothing<P>(m: Groups<P>, u: string, pts: Option<seq<P>>)
    ensures WithPoints(m, u, 0, pts) == m
    ensures 0 in JoinFree(m, u, 0)
  {
  }

  /** The concatenation of a list of batches, in order. */
  function Concat<P>(batches: seq<seq<P>>): seq<P>
  {
    if batches == [] then [] else batches[0] + Concat(batches[1..])
  }

  /** The table after the batches arrive one after another for `u` in `g`. */
  function WithAllPoints<P>(m: Groups<P>, u: string, g: nat, batches: seq<seq<P>>): Groups<P>
    decreases |batches|
  {
    if batches == [] then m
    else WithAllPoints(WithPoints(m, u, g, Some(batches[0])), u, g, batches[1..])
  }

  /** `r` is `m` with `extra` appended to the points of record `i` of
      group `g`, and nothing else changed. */
  ghost predicate AppendedAt<P>(m: Groups<P>, r: Groups<P>, g: nat, i: nat, extra: seq<P>)
  {
    && g in m && g in r && i < |m[g]|
    && r.Keys == m.Keys
    && (forall k :: k in m && k != g ==> r[k] == m[k])
    && |r[g]| == |m[g]|
    && r[g][i] == m[g][i].(points := m[g][i].points + extra)
    && forall j :: 0 <= j < |m[g]| && j != i ==> r[g][j] == m[g][j]
  }

  /** Two appends to the same record are one append of both parts. */
  lemma AppendedAtTrans<P>(m: Groups<P>, m1: Groups<P>, r: Groups<P>, g: nat, i: nat, a: seq<P>, b: seq<P>)
    requires AppendedAt(m, m1, g, i, a) && AppendedAt(m1, r, g, i, b)
    ensures AppendedAt(m, r, g, i, a + b)
  {
    assert m[g][i].points + a + b == m[g][i].points + (a + b);
  }

  /** Points are append-only: after several batches for a known student,
      that student's first record holds the old points followed by every
      batch in arrival order, and nothing else in the table has changed. */
  lemma {:induction false} WithAllPointsConcatenates<P>(m: Groups<P>, u: string, g: nat, batches: seq<seq<P>>)
    requires u != "" && g != 0
    requires g in m && HasUser(m[g], u)
    ensures AppendedAt(m, WithAllPoints(m, u, g, batches), g, FirstIndex(m[g], u).value, Concat(batches))
  {
    var i := FirstIndex(m[g], u).value;
    if batches == [] {
      assert m[g][i].points + [] == m[g][i].points;
    } else {
      var m1: Groups<P> := WithPoints(m, u, g, Some(batches[0]));
      FirstIndexFollowsIds(m[g], m1[g], u);
      assert AppendedAt(m, m1, g, i, batches[0]);
      WithAllPointsConcatenates(m1, u, g, batches[1..]);
      AppendedAtTrans(m, m1, WithAllPoints(m1, u, g, batches[1..]), g, i, batches[0], Concat(batches[1..]));
    }
  }

  /** Two batches in a row land as their concatenation. */
  lemma TwoBatchesConcatenate<P>(m: Groups<P>, u: string, g: nat, a: seq<P>, b: seq<P>)
    requires u != "" && g != 0
    ensures WithPoints(WithPoints(m, u, g, Some(a)), u, g, Some(b)) == WithPoints(m, u, g, Some(a + b))
  {
    if g in m && HasUser(m[g], u) {
      var m1 := WithPoints(m, u, g, Some(a));
      FirstIndexFollowsIds(m[g], m1[g], u);
      var i := FirstIndex(m[g], u).value;
      var m2: Groups<P> := WithPoints(m1, u, g, Some(b));
      var m3: Groups<P> := WithPoints(m, u, g, Some(a + b));
      assert m1[g][i].points + b == m[g][i].points + (a + b);
      assert m2[g] == m3[g] by {
        forall j | 0 <= j < |m[g]| ensures m2[g][j] == m3[g][j] {
          if j == i {
            assert m2[g][j].userId == u == m3[g][j].userId;
          }
        }
      }
      assert m2.Keys == m3.Keys;
    }
  }

  /** Receiving points never adds or removes records, so a group without
      duplicate students keeps that property. */
  lemma WithPointsKeepsDistinct<P>(m: Groups<P>, u: string, g: nat, pts: Option<seq<P>>, k: nat)
    requires k in m && DistinctUsers(m[k])
    ensures k in WithPoints(m, u, g, pts) && DistinctUsers(WithPoints(m, u, g, pts)[k])
  {
  }

  // ---------------------------------------------------------------------
  // The flattened view (`_(object).toArray().flatten()`)

  /** The smallest element of a non-empty set of group numbers, found by
      taking elements out one at a time. */
  ghost function MinOf(s: set<nat>): (k: nat)
    requires s != {}
    ensures k in s
    ensures forall y :: y in s ==> k <= y
    decreases |s|
  {
    var x :| x in s;
    var rest := s - {x};
    assert forall y :: y in s ==> y == x || y in rest;
    if rest == {} then
      x
    else
      var k := MinOf(rest);
      if x < k then x else k
  }

  /** The smallest of a non-empty set of group numbers: the same value as
      `MinOf`, obtained in a form that compiled code may use. */
  function Least(s: set<nat>): (k: nat)
    requires s != {}
    ensures k in s && forall y :: y in s ==> k <= y
  {
    var least := MinOf(s);
    assert least in s && forall y :: y in s ==> least <= y;
    var k :| k in s && forall y :: y in s ==> k <= y;
    k
  }

  /** The group numbers in ascending order: the order in which JavaScript
      enumerates integer-like object keys. */
  function SortedKeys(s: set<nat>): (ks: seq<nat>)
    ensures forall k :: k in ks <==> k in s
    ensures |ks| == |s|
    ensures forall i, j :: 0 <= i < j < |ks| ==> ks[i] < ks[j]
    decreases |s|
  {
    if s == {} then []
    else
      var k := Least(s);
      var rest := SortedKeys(s - {k});
      var ks := [k] + rest;
      assert forall j :: 0 <= j < |rest| ==> k < rest[j] by {
        forall j | 0 <= j < |rest| ensures k < rest[j] {
          assert rest[j] in s - {k};
        }
      }
      assert forall j :: 1 <= j < |ks| ==> ks[j] == rest[j - 1];
      ks
  }

  /** The records of the groups named in `ks`, group after group. */
  function Flatten<P>(m: Groups<P>, ks: seq<nat>): seq<PenData<P>>
    requires forall k :: k in ks ==> k in m
  {
    if ks == [] then [] else m[ks[0]] + Flatten(m, ks[1..])
  }

  /** A record is in the flattened view of `ks` iff it is in one of those groups. */
  lemma {:induction false} FlattenMembers<P>(m: Groups<P>, ks: seq<nat>, rec: PenData<P>)
    requires forall k :: k in ks ==> k in m
    ensures rec in Flatten(m, ks) <==> exists k :: k in ks && rec in m[k]
  {
    if ks != [] {
      FlattenMembers(m, ks[1..], rec);
      assert forall k :: k in ks <==> k == ks[0] || k in ks[1..];
    }
  }

  /** The flattened view only looks at the groups named. */
  lemma {:induction false} FlattenFrame<P>(m: Groups<P>, m': Groups<P>, ks: seq<nat>)
    requires forall k :: k in ks ==> k in m && k in m' && m[k] == m'[k]
    ensures Flatten(m, ks) == Flatten(m', ks)
  {
    if ks != [] {
      FlattenFrame(m, m', ks[1..]);
    }
  }

  /** Some group number of a non-empty table. */
  ghost function Pick<P>(m: Groups<P>): (g: nat)
    requires m != map[]
    ensures g in m
  {
    var g :| g in m; g
  }

  /** The number of records in the table: the sum of the group sizes, taken
      in no particular order. */
  ghost function TotalRecords<P>(m: Groups<P>): nat
    decreases |m|
  {
    if m == map[] then 0
    else
      var g := Pick(m);
      assert (m - {g}).Keys == m.Keys - {g};
      |m[g]| + TotalRecords(m - {g})
  }

  /** The sum does not depend on which group is taken first. */
  lemma {:induction false} TotalRecordsRemove<P>(m: Groups<P>, g: nat)
    requires g in m
    ensures TotalRecords(m) == |m[g]| + TotalRecords(m - {g})
    decreases |m|
  {
    var h := Pick(m);
    if h != g {
      var mh, mg := m - {h}, m - {g};
      assert mh.Keys == m.Keys - {h} && mg.Keys == m.Keys - {g};
      TotalRecordsRemove(mh, g);
      TotalRecordsRemove(mg, h);
      assert mh - {g} == mg - {h};
    }
  }

  /** Flattening the groups in any duplicate-free enumeration of the group
      numbers yields as many records as the groups hold together. */
  lemma {:induction false} FlattenCount<P>(m: Groups<P>, ks: seq<nat>)
    requires forall k :: k in ks <==> k in m
    requires forall i, j :: 0 <= i < j < |ks| ==> ks[i] != ks[j]
    ensures |Flatten(m, ks)| == TotalRecords(m)
  {
    if ks == [] {
      assert m.Keys == {};
      assert m == map[];
    } else {
      var k := ks[0];
      var m' := m - {k};
      assert forall j :: 0 <= j < |ks[1..]| ==> ks[1..][j] == ks[j + 1];
      FlattenFrame(m, m', ks[1..]);
      FlattenCount(m', ks[1..]);
      TotalRecordsRemove(m, k);
    }
  }

  /** The first record of `u` in the flattened view of `ks` is its first
      record in the group at position `p`, when that group holds `u` and no
      group named before it does. */
  lemma {:induction false} FindInFlatten<P>(m: Groups<P>, ks: seq<nat>, p: nat, u: string)
    requires forall k :: k in ks ==> k in m
    requires p < |ks| && HasUser(m[ks[p]], u)
    requires forall q :: 0 <= q < p ==> !HasUser(m[ks[q]], u)
    ensures Find(Flatten(m, ks), u) == Find(m[ks[p]], u)
  {
    FindConcat(m[ks[0]], Flatten(m, ks[1..]), u);
    if p > 0 {
      assert forall q :: 0 <= q < p - 1 ==> ks[1..][q] == ks[q + 1];
      FindInFlatten(m, ks[1..], p - 1, u);
    }
  }

  /** `[objectToArray]`: every record of every group, one group after
      another in ascending group number, each group in its own order. */
  function ObjectToArray<P>(m: Groups<P>): (s: seq<PenData<P>>)
    ensures forall i :: 0 <= i < |s| ==> exists g :: g in m && s[i] in m[g]
    ensures forall g, j :: g in m && 0 <= j < |m[g]| ==> m[g][j] in s
    ensures |s| == TotalRecords(m)
  {
    var ks := SortedKeys(m.Keys);
    var s := Flatten(m, ks);
    FlattenCount(m, ks);
    forall i | 0 <= i < |s| ensures exists g :: g in m && s[i] in m[g] {
      FlattenMembers(m, ks, s[i]);
    }
    forall g, j | g in m && 0 <= j < |m[g]| ensures m[g][j] in s {
      FlattenMembers(m, ks, m[g][j]);
    }
    s
  }

  /** The flattened view is the lowest-numbered group's records followed by
      the flattened view of the other groups; with no groups it is empty.
      Applied repeatedly, this lays the groups end to end in ascending
      group number. */
  lemma ObjectToArrayLeastFirst<P>(m: Groups<P>)
    ensures m == map[] ==> ObjectToArray(m) == []
    ensures m != map[] ==> ObjectToArray(m) == m[Least(m.Keys)] + ObjectToArray(m - {Least(m.Keys)})
  {
    if m == map[] {
      assert m.Keys == {};
    } else {
      var k := Least(m.Keys);
      var m' := m - {k};
      assert m'.Keys == m.Keys - {k};
      var ks := SortedKeys(m.Keys);
      assert ks == [k] + SortedKeys(m.Keys - {k});
      FlattenFrame(m, m', ks[1..]);
    }
  }

  /** A student is in the flattened view of `ks` iff one of those groups
      holds them. */
  lemma {:induction false} FlattenHasUser<P>(m: Groups<P>, ks: seq<nat>, u: string)
    requires forall k :: k in ks ==> k in m
    ensures HasUser(Flatten(m, ks), u) <==> exists k :: k in ks && HasUser(m[k], u)
  {
    if ks != [] {
      FindConcat(m[ks[0]], Flatten(m, ks[1..]), u);
      FlattenHasUser(m, ks[1..], u);
      assert forall k :: k in ks <==> k == ks[0] || k in ks[1..];
    }
  }

  /** A student is found in the flattened view iff some group holds them. */
  lemma HasUserFlattened<P>(m: Groups<P>, u: string)
    ensures HasUser(ObjectToArray(m), u) <==> exists g :: g in m && HasUser(m[g], u)
  {
    FlattenHasUser(m, SortedKeys(m.Keys), u);
  }

  /** Looking `u` up in the flattened view gives the first record of `u`
      in the lowest-numbered group that holds one: groups are flattened in
      ascending order, so a student in several groups is found in the
      smallest of them. */
  lemma FindInObjectToArray<P>(m: Groups<P>, g: nat, u: string)
    requires g in m && HasUser(m[g], u)
    requires forall k :: k in m && k < g ==> !HasUser(m[k], u)
    ensures Find(ObjectToArray(m), u) == Find(m[g], u)
  {
    var ks := SortedKeys(m.Keys);
    var p :| 0 <= p < |ks| && ks[p] == g;
    forall q | 0 <= q < p ensures !HasUser(m[ks[q]], u) {
      assert ks[q] < g && ks[q] in m;
    }
    FindInFlatten(m, ks, p, u);
  }

  /** Whenever some group holds `u`, the flattened lookup answers from the
      lowest-numbered such group. */
  lemma FindLowestGroup<P>(m: Groups<P>, u: string)
    requires exists g :: g in m && HasUser(m[g], u)
    ensures exists g :: && g in m && HasUser(m[g], u)
                         && (forall k :: k in m && k < g ==> !HasUser(m[k], u))
                         && Find(ObjectToArray(m), u) == Find(m[g], u)
  {
    var holders := set g | g in m && HasUser(m[g], u);
    var some :| some in m && HasUser(m[some], u);
    assert some in holders;
    var g := Least(holders);
    assert forall k :: k in m && HasUser(m[k], u) ==> k in holders;
    FindInObjectToArray(m, g, u);
  }
}
