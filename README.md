# PenDataCenter, verified model

A Dafny model of `PenDataCenter` (penGroupDataCenter.js). It is the in-memory
store of a classroom handwriting system. It holds the stroke points sent by
students' pens, grouped by classroom group and by student. Its one field,
`groupList`, maps a group number to the ordered list of the group's records
`{userId, points}`.

- `records.dfy` (module `Records`) holds the record type and the first-match
  lookup that `_.find` and `Array.prototype.find` perform on `userId`.
- `group_table.dfy` (module `GroupTable`) holds the table as a value.
  - Each mutator is specified by a function from the old table to the new one:
    `Roster`, `JoinFree` and `WithPoints`.
  - The flattened view is `ObjectToArray`.
  - The lemmas relate these functions.
- `pen_data_center.dfy` (module `PenGroupDataCenter`) holds the class
  `PenDataCenter`.
  - The field `groupList` is a `map`.
  - The three mutators are methods. Each reassigns the field, and each states
    its new state through the functions above.
  - The three readers are functions that read the field.
- `scenarios.dfy` (module `Scenarios`) drives a centre through typical usage
  scenarios. Every fact it asserts follows from the contracts of the members
  it uses (for the roster, through `RosterLastEntryWins`), not from their
  bodies.

Modelling choices:
- Point payloads are a type parameter `P` and are never inspected.
- Group numbers are `nat`.
- A student id is a `string`. The empty string is its only falsy value.
- `points` is `Option<seq<P>>`. `None` stands for a missing (null or undefined)
  value, which is falsy. An empty array is truthy, as in JavaScript.
- `groupInfo` is `NotArray` or `Items(entries)`. An entry is `Group(groupnum,
  stuIds)` or `Absent` (null or undefined).
- The source's mutators return nothing. Here each returns a status flag (`ok`,
  `added`, `stored`) so that a caller can see what happened.

Behaviours of the code that are easy to misread, which the model follows:
- **Enumeration order.** The flattened view lists groups in ascending group
  number, not in insertion order. `_(object).toArray()` enumerates
  integer-like object keys in ascending numeric order (`SortedKeys`,
  `ObjectToArrayLeastFirst`).
- **Roster failure.** If the roster rebuild fails, the store is left empty, not
  partially filled. `_.transform` builds a new object, and `groupList` is
  assigned only after the transform completes (penGroupDataCenter.js:28). A null
  entry throws before that assignment.
- **Unique ids are not enforced everywhere.** A group is meant to hold one
  record per student, but roster initialisation does not enforce this:
  duplicate ids in `stuIds` give duplicate records (`Enrol` keeps every id).
  Free joining and point reception do keep the property
  (`JoinFreeKeepsDistinct`, `WithPointsKeepsDistinct`). With duplicates, points
  go to the first record only.
- **Group 0.** A student can join group 0 freely, but no points ever reach
  group 0, because 0 is falsy in the point-reception guard
  (`GroupZeroReceivesNothing`).

## Model

| member | source | states |
|---|---|---|
| Records.Enrol | penGroupDataCenter.js:29-31 | one fresh record (empty points) per id, same length, same order, duplicates kept |
| Records.FirstIndex | penGroupDataCenter.js:62 | the position found holds `u` and no earlier record does; not-found exactly when no record holds `u` |
| Records.Find | penGroupDataCenter.js:77 | the record found belongs to `u` and is the first such record; not-found exactly when none belongs to `u` |
| Records.FindConcat | penGroupDataCenter.js:77 | a search of a concatenation returns the front part's match when there is one, otherwise the back part's |
| GroupTable.Roster | penGroupDataCenter.js:28-32 | the groups built are exactly the group numbers listed, and every record starts with no points |
| Scenarios.OneGroupRoster | penGroupDataCenter.js:28-32 | a roster of a single entry builds exactly that one group with one fresh record per id |
| GroupTable.RosterLastEntryWins | penGroupDataCenter.js:28-32 | the last entry for a group decides it: one fresh record per listed id, in order; earlier entries for that group are overwritten |
| GroupTable.JoinFree | penGroupDataCenter.js:45-49 | the group then exists and holds `u`; other groups unchanged; old records kept in order and at most one added at the end; no change if `u` was already there; a missing group is created holding exactly `u`'s fresh record; a group without `u` gets that record appended at its end |
| GroupTable.JoinFreeIdempotent | penGroupDataCenter.js:45-46 | joining twice with the same arguments equals joining once |
| GroupTable.JoinFreeKeepsDistinct | penGroupDataCenter.js:45-49 | free joining never gives a group a second record for the same student |
| GroupTable.WithPoints | penGroupDataCenter.js:61-65 | with a truthy guard and a record for `u`, its first record gets old points followed by the batch, and every other record and group is unchanged; otherwise the table is unchanged |
| GroupTable.GroupZeroReceivesNothing | penGroupDataCenter.js:45-61 | points for group 0 are always dropped, although free joining creates group 0 |
| GroupTable.WithAllPointsConcatenates | penGroupDataCenter.js:64 | after any number of batches for a known student, the record holds the old points followed by all batches in arrival order; nothing else changes |
| GroupTable.TwoBatchesConcatenate | penGroupDataCenter.js:64 | two batches in a row have the same effect as their concatenation in one batch |
| GroupTable.WithPointsKeepsDistinct | penGroupDataCenter.js:62-64 | receiving points never breaks "one record per student" in any group |
| GroupTable.SortedKeys | penGroupDataCenter.js:100 | the group numbers, each once, in strictly ascending order (JavaScript's order for integer-like keys) |
| GroupTable.FlattenCount | penGroupDataCenter.js:99-101 | flattening the groups in any duplicate-free order gives as many records as all groups hold together |
| GroupTable.ObjectToArray | penGroupDataCenter.js:99-101 | every record in the flattened view comes from a group, every record of every group is in it, and its length is the sum of group sizes |
| GroupTable.ObjectToArrayLeastFirst | penGroupDataCenter.js:99-101 | the flattened view is empty for no groups, and otherwise is the lowest-numbered group's records followed by the flattened view of the remaining groups, so the groups are laid end to end in ascending group number |
| GroupTable.HasUserFlattened | penGroupDataCenter.js:76-78 | a student occurs in the flattened view iff some group holds a record of that student |
| GroupTable.FindInObjectToArray | penGroupDataCenter.js:76-78 | when `g` is the lowest-numbered group holding `u` (other groups may hold `u` too), the lookup over all records returns `g`'s first record of `u` |
| GroupTable.FindLowestGroup | penGroupDataCenter.js:76-78 | when some group holds `u`, there is a lowest-numbered such group, and the lookup over all records returns its first record of `u` |
| PenGroupDataCenter.PenDataCenter.constructor | penGroupDataCenter.js:16-18 | a new centre has no groups |
| PenGroupDataCenter.PenDataCenter.ResetPenDataList | penGroupDataCenter.js:105-107 | the centre afterwards has no groups |
| PenGroupDataCenter.PenDataCenter.InitPenData | penGroupDataCenter.js:24-37 | clears first whenever called with an argument object. A non-array input leaves the centre empty and succeeds. An array containing a null entry fails and leaves it empty. Otherwise the centre is exactly the roster's table |
| PenGroupDataCenter.PenDataCenter.HandleFreeGroup | penGroupDataCenter.js:43-54 | the new table is the free-join of the old one; a record is added iff the group did not already hold the student |
| PenGroupDataCenter.PenDataCenter.ReceivePenData | penGroupDataCenter.js:59-70 | the new table is the old one with the batch appended; points are stored iff the guard is truthy and the group holds the student |
| PenGroupDataCenter.PenDataCenter.GetPenDataByUserId | penGroupDataCenter.js:76-78 | returns the first record of `u` in the flattened view; found iff some group holds `u`, and then it is the first record of `u` in the lowest-numbered group holding `u` |
| PenGroupDataCenter.PenDataCenter.GetPenDataByGoupNum | penGroupDataCenter.js:84-86 | returns the group's records, or the empty sequence for an absent group; all of them appear in the flattened view |
| PenGroupDataCenter.PenDataCenter.GetAllPenData | penGroupDataCenter.js:91-93 | every record of every group, and only those; its length is the total record count; empty for no groups, otherwise the lowest-numbered group's records followed by the remaining groups laid out the same way |

## Left out

- Logging (penGroupDataCenter.js:11,35,52,68) is external I/O. The catch
  blocks of `handleFreeGroup` and `receivePenData` cannot be reached with
  well-typed inputs, so those paths are not modelled. The reachable catch in
  `initPenData` (a null or undefined roster entry) is modelled as `ok == false`.
- A null or undefined argument object is not modelled. `initPenData`,
  `handleFreeGroup` and `receivePenData` destructure their argument in the
  parameter list (penGroupDataCenter.js:24,43,59), so such a call throws a
  TypeError to the caller before the body runs. For `initPenData` the store is
  then not cleared. Every modelled call has an argument object.
- The module-level singleton (penGroupDataCenter.js:15,108) is modelled as an
  ordinary constructed object.
- The lodash functions are specified by their effect on the table, not modelled
  themselves.
- Readers return live arrays in the source, which callers could mutate. The
  model returns values, so aliasing is not captured.
- Concurrency is not modelled. The code assumes one event loop.
- The following inputs are not modelled:
  - group numbers that are not non-negative integers (strings, negative or
    fractional numbers);
  - integers of 2^32 - 1 or more, which JavaScript enumerates after the
    integer-like keys, in insertion order;
  - a missing `groupnum`, which becomes the key "undefined";
  - a null or undefined `userid`;
  - a truthy `points` value that is not an array, which `concat` would append
    as a single element;
  - roster entries that are non-null primitives.
- An entry without `stuIds` is not a separate case. `_.flatMap` gives it an
  empty group, the same as an entry with an empty `stuIds`.
- Stroke points are opaque. Their structure is not modelled.
