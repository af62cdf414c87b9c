/**
 Client code that drives a centre through typical usage scenarios. Every
 fact asserted here follows from the contracts of the methods, functions
 and lemmas it uses, not from their bodies.
 */
module Scenarios {
  import opened Records
  import opened GroupTable
  import opened PenGroupDataCenter

  /** A roster with one group; then points for one of its students. */
  method RosterThenPoints<P>(p1: P, p2: P)
  {
    var roster := [Group(1, ["s1", "s2"])];
    var table := map[1 := [PenData("s1", []), PenData("s2", [])]];
    OneGroupRoster<P>(1, ["s1", "s2"]);
    var enrolled := Enrol<P>(["s1", "s2"]);
    assert enrolled[0] == PenData("s1", []) && enrolled[1] == PenData("s2", []);

    var center := new PenDataCenter<P>();
    var ok := center.InitPenData(Items(roster));
    assert !HasAbsent(roster);
    assert enrolled == [PenData("s1", []), PenData("s2", [])];
    assert ok && center.groupList == Roster<P>(roster) == table;
    assert center.GetPenDataByGoupNum(1) == [PenData("s1", []), PenData("s2", [])];

    var stored := center.ReceivePenData("s1", 1, Some([p1, p2]));
    assert center.groupList[1][0].userId == "s1";
    assert stored;
    assert center.groupList[1][0].points == [] + [p1, p2] == [p1, p2];
    assert center.groupList[1] == [PenData("s1", [p1, p2]), PenData("s2", [])];
    assert center.GetPenDataByUserId("s1") == Some(PenData("s1", [p1, p2]));

    // Initialising again with the same roster gives the same state as once.
    ok := center.InitPenData(Items(roster));
    assert center.groupList == table;
  }

  /** A roster of one entry builds exactly that one group. */
  lemma OneGroupRoster<P>(g: nat, ids: seq<string>)
    ensures Roster<P>([Group(g, ids)]) == map[g := Enrol(ids)]
  {
    RosterLastEntryWins<P>([Group(g, ids)], g, 0);
    assert Roster<P>([Group(g, ids)]).Keys == {g};
  }

  /** Free joining creates a group; joining again changes nothing. */
  method FreeJoinTwice<P>()
  {
    var center := new PenDataCenter<P>();
    var added := center.HandleFreeGroup("s9", 99);
    assert added;
    assert center.GetPenDataByGoupNum(99) == [PenData("s9", [])];
    added := center.HandleFreeGroup("s9", 99);
    assert !added;
    assert center.GetPenDataByGoupNum(99) == [PenData("s9", [])];
  }

  /** Points for a group that does not exist are dropped. */
  method PointsForMissingGroup<P>(p: P)
  {
    OneGroupRoster<P>(1, ["s1"]);
    assert Enrol<P>(["s1"])[0] == PenData("s1", []);
    assert Enrol<P>(["s1"]) == [PenData("s1", [])];
    var center := new PenDataCenter<P>();
    var ok := center.InitPenData(Items([Group(1, ["s1"])]));
    assert !HasAbsent([Group(1, ["s1"])]);
    assert center.groupList == Roster<P>([Group(1, ["s1"])]);
    var stored := center.ReceivePenData("s1", 7, Some([p]));
    assert !stored;
    assert center.GetPenDataByGoupNum(7) == [];
    assert center.groupList == map[1 := [PenData("s1", [])]];
  }

  /** A null roster entry leaves the centre empty, and a roster that is not
      an array leaves it empty without an error. */
  method BadRosters<P>()
  {
    var center := new PenDataCenter<P>();
    var added := center.HandleFreeGroup("s1", 3);
    var bad := [Group(1, ["s1"]), Absent];
    var ok := center.InitPenData(Items(bad));
    assert bad[1].Absent?;
    assert !ok && center.groupList == map[];
    ok := center.InitPenData(NotArray);
    assert ok && center.groupList == map[];
  }
}
