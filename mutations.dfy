/** Mutation plans: what a planner emits and an output applies. */
module Mutations {
  import opened Rows

  datatype MutationType = Insert | Update | Delete | Upsert

  /** A Dataset<Row>: a schema and the rows that share it. */
  datatype Dataset = Dataset(schema: seq<Field>, rows: seq<Row>)

  /** One plan entry, a Tuple2<MutationType, Dataset<Row>>. */
  datatype Planned = Planned(mutationType: MutationType, data: Dataset)

  /** The ordered list of entries planMutationsForSet returns. */
  type Plan = seq<Planned>
}
