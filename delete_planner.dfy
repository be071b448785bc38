/** The planner that deletes every arriving record (DeletePlanner), as its test pins it. */
module DeletePlanner {
  import opened Results
  import opened Mutations

  /** configure: taken to accept the empty configuration its test passes. */
  function Configure(config: map<string, string>): (r: Outcome<string>)
    ensures config == map[] ==> r == Pass
  {
    Pass
  }

  /** planMutationsForSet: one DELETE entry carrying the arrived batch itself. */
  function PlanMutationsForSet(arriving: Dataset): (plan: Plan)
    ensures |plan| == 1
    ensures plan[0].mutationType == Delete
    ensures plan[0].data == arriving
  {
    [Planned(Delete, arriving)]
  }
}
