/** PercentileSelector: a percentile table maps each roll of a hundred-sided
    die to a result. The table is the one the percentile mapper returns for the
    table name, and results are strings (the generic conversion is the identity
    on them). */
module PercentileSelector {

  import opened Results
  import opened Dictionaries
  import opened Dice
  import opened Numerals

  type PercentileTable = Dict<int, string>

  function NotAnEntryMessage(roll: int, tableName: string): string
  {
    IntToString(roll) + " is not a valid entry in the table " + tableName
  }

  /** SelectFrom(tableName): roll the percentile die once and return the
      table's result for the roll, or the C# selector's ArgumentException when the
      table has no entry for it. */
  function SelectFrom(table: PercentileTable, tableName: string, die: nat -> int): (r: Rolled<Result<string>>)
    requires IsDie(die)
    ensures r.rolls == [PercentileSides]
    ensures r.value.Success? <==> exists i :: 0 <= i < |table| && table[i].0 == die(PercentileSides)
    ensures r.value.Success? ==>
      exists i :: 0 <= i < |table| && table[i] == (die(PercentileSides), r.value.value) &&
        forall j :: 0 <= j < i ==> table[j].0 != die(PercentileSides)
    ensures r.value.Failure? ==> r.value.message == NotAnEntryMessage(die(PercentileSides), tableName)
  {
    var roll := die(PercentileSides);
    if !ContainsKey(table, roll) then Rolled(Failure(NotAnEntryMessage(roll, tableName)), [PercentileSides])
    else Rolled(Success(Get(table, roll)), [PercentileSides])
  }

  /** A table with an entry for every roll 1..100 never fails. */
  lemma SelectFromCompleteTable(table: PercentileTable, tableName: string, die: nat -> int)
    requires IsDie(die)
    requires forall roll :: 1 <= roll <= 100 ==> ContainsKey(table, roll)
    ensures SelectFrom(table, tableName, die).value.Success?
  {
    assert 1 <= die(PercentileSides) <= 100;
  }

  /** SelectAllFrom(tableName): every distinct result of the table, in the
      order of its first occurrence among the table's values. */
  function SelectAllFrom(table: PercentileTable): (r: seq<string>)
    ensures NoDuplicates(r)
    ensures forall i :: 0 <= i < |r| ==> exists j :: 0 <= j < |table| && table[j].1 == r[i]
    ensures forall j :: 0 <= j < |table| ==> table[j].1 in r
    ensures InFirstOccurrenceOrder(Values(table), r)
  {
    var values := Values(table);
    var r := Distinct(values);
    DistinctKeepsFirstOccurrenceOrder(values);
    assert forall i :: 0 <= i < |r| ==> exists j :: 0 <= j < |table| && values[j] == r[i];
    r
  }

  /** A percentile roll below the threshold: roll / 100 <= chance, on exact reals. */
  predicate ChanceHit(roll: int, chance: real)
  {
    roll as real / 100.0 <= chance
  }

  /** SelectFrom(chance): certain at or above 1 and impossible at or below 0,
      without rolling; otherwise one percentile roll that hits when
      roll / 100 <= chance. */
  function SelectFromChance(chance: real, die: nat -> int): (r: Rolled<bool>)
    requires IsDie(die)
    ensures 1.0 <= chance ==> r == Rolled(true, [])
    ensures chance <= 0.0 ==> r == Rolled(false, [])
    ensures 0.0 < chance < 1.0 ==>
      r.rolls == [PercentileSides] && (r.value <==> die(PercentileSides) <= (100.0 * chance).Floor)
  {
    if chance >= 1.0 then Rolled(true, [])
    else if chance <= 0.0 then Rolled(false, [])
    else
      var roll := die(PercentileSides);
      ChanceHitThreshold(roll, chance);
      Rolled(ChanceHit(roll, chance), [PercentileSides])
  }

  /** A roll hits exactly when it is at most floor(100 * chance). */
  lemma ChanceHitThreshold(roll: int, chance: real)
    ensures ChanceHit(roll, chance) <==> roll <= (100.0 * chance).Floor
  {
    assert ChanceHit(roll, chance) <==> roll as real <= 100.0 * chance;
  }

  /** How many of the rolls 1..n hit. */
  function HitCount(n: nat, chance: real): nat
  {
    if n == 0 then 0 else HitCount(n - 1, chance) + (if ChanceHit(n, chance) then 1 else 0)
  }

  /** Of the 1..n rolls, those up to floor(100 * chance) hit. */
  lemma {:induction false} HitCountBelow(n: nat, chance: real)
    ensures HitCount(n, chance) == if (100.0 * chance).Floor <= 0 then 0
                                  else if n <= (100.0 * chance).Floor then n
                                  else (100.0 * chance).Floor
  {
    if n > 0 {
      HitCountBelow(n - 1, chance);
      ChanceHitThreshold(n, chance);
    }
  }

  /** For a chance strictly between 0 and 1, exactly floor(100 * chance) of the
      hundred equally likely rolls hit: the selection is true with probability
      floor(100 * chance) / 100. */
  lemma ChanceHitsOfHundred(chance: real)
    requires 0.0 < chance < 1.0
    ensures HitCount(100, chance) == (100.0 * chance).Floor
    ensures 0 <= (100.0 * chance).Floor < 100
  {
    HitCountBelow(100, chance);
  }
}
