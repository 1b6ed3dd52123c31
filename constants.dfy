/** The constants of src/constants.js that carry behaviour. */
module Constants {

  /** Length of the rest countdown between sets, in seconds. */
  const RestTimerSeconds: nat := 60

  /** Number of history entries kept; older ones are dropped. */
  const MaxHistoryEntries: nat := 100

  /** Form defaults, used when a number field parses to 0 or NaN. */
  const DefaultTargetReps: int := 10
  const DefaultTargetSets: int := 3
  const DefaultHoldTime: int := 0
}
