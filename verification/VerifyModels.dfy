/** The campaigns of a VERIFY sheet, as the parser hands them on. */
module VerifyModels {
  import opened Optional

  datatype Group = Group(requested: int, maximum: Option<int>, frames: seq<string>, perFrame: seq<(string, int)>)

  datatype Schedule = Schedule(
    dateKey: string, requested: int, frames: seq<string>, perFrame: seq<(string, int)>, groups: seq<Group>)

  datatype Campaign = Campaign(name: string, kind: string, order: nat, schedules: seq<Schedule>)
}
