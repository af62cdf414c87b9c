/**
 The handwriting data centre: one object whose only field, `groupList`,
 maps a group number to the stroke records of the students in that group.
 Three methods change it (roster initialisation, free joining, receiving
 points); three functions read it (by student, by group, everything).
 */
module PenGroupDataCenter {
  import opened Records
  import opened GroupTable

  class PenDataCenter<P> {
    /** Group number -> the records of that group, in order. */
    var groupList: Groups<P>

    /** A new centre holds no groups. */
    constructor ()
      ensures groupList == map[]
    {
      groupList := map[];
    }

    /** `[resetPenDataList]`: drops every group and record. */
    method ResetPenDataList()
      modifies this
      ensures groupList == map[]
    {
      groupList := map[];
    }

    /** Clears the centre, then rebuilds it from the roster when `groupInfo`
        is an array: each entry's group gets one fresh record per listed id.
        A null or undefined entry makes the rebuild throw; the error is
        swallowed (`ok` is false) and the centre stays empty, since the
        rebuilt table is only stored once complete. */
    method InitPenData(groupInfo: GroupInfo) returns (ok: bool)
      modifies this
      ensures ok <==> !(groupInfo.Items? && HasAbsent(groupInfo.items))
      ensures groupList == if groupInfo.Items? && ok then Roster(groupInfo.items) else map[]
    {
      ResetPenDataList();
      ok := true;
      if groupInfo.Items? {
        var items := groupInfo.items;
        var result: Groups<P> := map[];
        var i := 0;
        while i < |items|
          invariant 0 <= i <= |items|
          invariant !HasAbsent(items[..i])
          invariant result == Roster(items[..i])
          invariant groupList == map[]
        {
          match items[i]
          case Absent =>
            ok := false;
            return;
          case Group(g, ids) =>
            assert items[..i + 1][..i] == items[..i];
            result := result[g := Enrol(ids)];
          i := i + 1;
        }
        assert items[..i] == items;
        groupList := result;
      }
    }

    /** Adds a fresh record for `userid` to group `groupnum`, creating the
        group if needed; nothing happens when the group already has a record
        for that student. `added` tells whether a record was added. */
    method HandleFreeGroup(userid: string, groupnum: nat) returns (added: bool)
      modifies this
      ensures added <==> !(groupnum in old(groupList) && HasUser(old(groupList)[groupnum], userid))
      ensures groupList == JoinFree(old(groupList), userid, groupnum)
    {
      added := false;
      if groupnum !in groupList || FirstIndex(groupList[groupnum], userid).None? {
        var penData := PenData(userid, []);
        if groupnum in groupList {
          groupList := groupList[groupnum := groupList[groupnum] + [penData]];
        } else {
          groupList := groupList[groupnum := [penData]];
        }
        added := true;
      }
    }

    /** Appends `points` to the first record of `userid` in group `groupnum`.
        Ignored when the id is empty, the group number is 0, the points are
        missing, or the group has no record for the student. `stored` tells
        whether the points were appended. */
    method ReceivePenData(userid: string, groupnum: nat, points: Option<seq<P>>) returns (stored: bool)
      modifies this
      ensures stored <==> Accepts(userid, groupnum, points) && groupnum in old(groupList) &&
                          HasUser(old(groupList)[groupnum], userid)
      ensures groupList == WithPoints(old(groupList), userid, groupnum, points)
    {
      stored := false;
      if userid != "" && groupnum != 0 && points.Some? {
        if groupnum in groupList {
          var group := groupList[groupnum];
          var found := FirstIndex(group, userid);
          if found.Some? {
            var student := group[found.value];
            groupList := groupList[groupnum := group[found.value := student.(points := student.points + points.value)]];
            stored := true;
          }
        }
      }
    }

    /** The first record of `u` in the flattened view (see `Find`), or
        not-found; found iff some group holds a record of `u`, and then it
        is the first record of `u` in the lowest-numbered such group. */
    function GetPenDataByUserId(u: string): (r: Option<PenData<P>>)
      reads this
      ensures r == Find(GetAllPenData(), u)
      ensures r.Some? ==> r.value.userId == u
      ensures r.Some? <==> exists g :: g in groupList && HasUser(groupList[g], u)
      ensures r.Some? ==> exists g :: && g in groupList && HasUser(groupList[g], u)
                                      && (forall k :: k in groupList && k < g ==> !HasUser(groupList[k], u))
                                      && r == Find(groupList[g], u)
    {
      HasUserFlattened(groupList, u);
      var r := Find(GetAllPenData(), u);
      if r.Some? then
        FindLowestGroup(groupList, u);
        r
      else
        r
    }

    /** The records of group `g`, or none when the group does not exist. */
    function GetPenDataByGoupNum(g: nat): (r: seq<PenData<P>>)
      reads this
      ensures g in groupList ==> r == groupList[g]
      ensures g !in groupList ==> r == []
      ensures forall j :: 0 <= j < |r| ==> r[j] in GetAllPenData()
    {
      if g in groupList then groupList[g] else []
    }

    /** Every record of every group, group after group in ascending group
        number: the lowest-numbered group's records come first, followed by
        those of the remaining groups laid out the same way. Each record of
        a group is in it, each record in it comes from a group, and its
        length is the total number of records. */
    function GetAllPenData(): (r: seq<PenData<P>>)
      reads this
      ensures forall i :: 0 <= i < |r| ==> exists g :: g in groupList && r[i] in groupList[g]
      ensures forall g, j :: g in groupList && 0 <= j < |groupList[g]| ==> groupList[g][j] in r
      ensures |r| == TotalRecords(groupList)
      ensures groupList == map[] ==> r == []
      ensures groupList != map[] ==>
                r == groupList[Least(groupList.Keys)] + ObjectToArray(groupList - {Least(groupList.Keys)})
    {
      ObjectToArrayLeastFirst(groupList);
      ObjectToArray(groupList)
    }
  }
}
