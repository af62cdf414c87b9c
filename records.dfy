/**
 The per-student stroke record `{userId, points}` and the lookups the store
 performs on a sequence of such records (`_.find` / `Array.prototype.find`
 matching on `userId`).
 */
module Records {

  datatype Option<T> = None | Some(value: T)

  /** One student's record: the id and the stroke points received so far. */
  datatype PenData<P> = PenData(userId: string, points: seq<P>)

  /** True iff some record in `recs` belongs to `u`. */
  predicate HasUser<P>(recs: seq<PenData<P>>, u: string)
  {
    exists i :: 0 <= i < |recs| && recs[i].userId == u
  }

  /** True iff no two records in `recs` belong to the same student. */
  predicate DistinctUsers<P>(recs: seq<PenData<P>>)
  {
    forall i, j :: 0 <= i < j < |recs| ==> recs[i].userId != recs[j].userId
  }

  /** A fresh record, with no points yet, for every id, in the order given
      (the `_.flatMap` of the roster initialisation). Duplicate ids are kept. */
  function Enrol<P>(ids: seq<string>): (recs: seq<PenData<P>>)
    ensures |recs| == |ids|
    ensures forall i :: 0 <= i < |ids| ==> recs[i] == PenData(ids[i], [])
  {
    if ids == [] then [] else [PenData(ids[0], [])] + Enrol(ids[1..])
  }

  /** Position of the first record that belongs to `u`, if any. */
  function FirstIndex<P>(recs: seq<PenData<P>>, u: string): (r: Option<nat>)
    ensures r.Some? ==> r.value < |recs| && recs[r.value].userId == u
    ensures r.Some? ==> forall j :: 0 <= j < r.value ==> recs[j].userId != u
    ensures r.None? <==> !HasUser(recs, u)
  {
    if recs == [] then None
    else if recs[0].userId == u then Some(0)
    else
      match FirstIndex(recs[1..], u)
      case None => None
      case Some(i) => Some(i + 1)
  }

  /** The first record that belongs to `u`, or not-found. */
  function Find<P>(recs: seq<PenData<P>>, u: string): (r: Option<PenData<P>>)
    ensures r.None? <==> !HasUser(recs, u)
    ensures r.Some? ==> r.value.userId == u
    ensures r.Some? ==> exists i :: 0 <= i < |recs| && recs[i] == r.value &&
                                    forall j :: 0 <= j < i ==> recs[j].userId != u
  {
    match FirstIndex(recs, u)
    case None => None
    case Some(i) => Some(recs[i])
  }

  /** Only the ids decide which record is found first. */
  lemma FirstIndexFollowsIds<P>(a: seq<PenData<P>>, b: seq<PenData<P>>, u: string)
    requires |a| == |b|
    requires forall j :: 0 <= j < |a| ==> a[j].userId == b[j].userId
    ensures FirstIndex(a, u) == FirstIndex(b, u)
  {
  }

  /** Searching a concatenation searches the front part first. */
  lemma {:induction false} FindConcat<P>(a: seq<PenData<P>>, b: seq<PenData<P>>, u: string)
    ensures Find(a + b, u) == if HasUser(a, u) then Find(a, u) else Find(b, u)
  {
    if a == [] {
      assert a + b == b;
    } else if a[0].userId != u {
      assert (a + b)[1..] == a[1..] + b;
      FindConcat(a[1..], b, u);
      assert HasUser(a, u) == HasUser(a[1..], u) by {
        if HasUser(a, u) {
          var i :| 0 <= i < |a| && a[i].userId == u;
          assert a[1..][i - 1] == a[i];
        }
        if HasUser(a[1..], u) {
          var i :| 0 <= i < |a[1..]| && a[1..][i].userId == u;
          assert a[i + 1] == a[1..][i];
        }
      }
    }
  }
}
