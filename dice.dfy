/** The RandomSource behind `dice.Roll().d(n).AsSum()` and
    `dice.Roll().Percentile().AsSum()`. A die is modelled by the value it
    shows when rolled with `n` sides; every operation that rolls reports
    the sizes of the dice it rolled, in order, so how many rolls an operation
    consumes is part of its contract. */
module Dice {

  /** A RandomSource honours its contract: a die with n sides shows 1..n. */
  ghost predicate IsDie(die: nat -> int)
  {
    forall n: nat :: 1 <= n ==> 1 <= die(n) <= n
  }

  /** A value together with the sizes of the dice rolled to produce it. */
  datatype Rolled<T> = Rolled(value: T, rolls: seq<nat>)

  /** `Percentile()` is a roll of one hundred-sided die. */
  const PercentileSides: nat := 100
}
