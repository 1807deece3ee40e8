/**
 * The fixed tables of the structural summary: the Z-score weights of each
 * card, the estimated Zsum for a Zf, and the age-dependent thresholds of the
 * special indices.
 */
module ScoringTables {

  // ---------------------------------------------------------------------------
  // Z scores

  /** The four Z codes an organisational response can carry. */
  const ZCodes: set<string> := {"ZW", "ZA", "ZD", "ZS"}

  /** The weights of one card, for ZW, ZA, ZD and ZS in that order. */
  datatype ZRow = ZRow(zw: real, za: real, zd: real, zs: real)

  /** The Z-score weights of the ten cards, keyed by Arabic card number. */
  const ZSumTable: map<string, ZRow> := map[
    "1" := ZRow(1.0, 4.0, 6.0, 3.5),
    "2" := ZRow(4.5, 3.0, 5.5, 4.5),
    "3" := ZRow(5.5, 3.0, 4.0, 4.5),
    "4" := ZRow(2.0, 4.0, 3.5, 5.0),
    "5" := ZRow(1.0, 2.5, 5.0, 4.0),
    "6" := ZRow(2.5, 2.5, 6.0, 6.5),
    "7" := ZRow(2.5, 1.0, 3.0, 4.0),
    "8" := ZRow(4.5, 3.0, 3.0, 4.0),
    "9" := ZRow(5.5, 2.5, 4.5, 5.0),
    "10" := ZRow(5.5, 4.0, 4.5, 6.0)
  ]

  /** The weight of a Z code in a row; any other code weighs 0. */
  function RowWeight(row: ZRow, z: string): real
  {
    if z == "ZW" then row.zw
    else if z == "ZA" then row.za
    else if z == "ZD" then row.zd
    else if z == "ZS" then row.zs
    else 0.0
  }

  /** `z_sum_dict.get(card, {}).get(z, 0)`: the Z weight of a response, 0 off the table. */
  function ZWeight(card: string, z: string): real
  {
    if card in ZSumTable then RowWeight(ZSumTable[card], z) else 0.0
  }

  /** Every weight in the table lies between 1 and 6.5. */
  lemma ZRowsBounded(card: string)
    requires card in ZSumTable
    ensures 1.0 <= ZSumTable[card].zw <= 6.5 && 1.0 <= ZSumTable[card].za <= 6.5
    ensures 1.0 <= ZSumTable[card].zd <= 6.5 && 1.0 <= ZSumTable[card].zs <= 6.5
  {
  }

  /**
   * A response weighs nothing unless its Z is one of the four codes; a coded
   * response on a card of the table weighs between 1 and 6.5; no response
   * weighs more than 6.5.
   */
  lemma ZWeightBounds(card: string, z: string)
    ensures z !in ZCodes ==> ZWeight(card, z) == 0.0
    ensures 0.0 <= ZWeight(card, z) <= 6.5
    ensures z in ZCodes && card in ZSumTable ==> 1.0 <= ZWeight(card, z)
  {
    if card in ZSumTable {
      ZRowsBounded(card);
    }
  }

  /** The estimated Zsum for Zf = 1..50. */
  function ZestEntry(zf: nat): real
    requires 1 <= zf <= 50
  {
    if zf == 1 then 0.0
    else if zf == 2 then 2.5
    else if zf == 3 then 6.0
    else if zf == 4 then 10.0
    else if zf == 5 then 13.5
    else if zf == 6 then 17.0
    else if zf == 7 then 20.5
    else if zf == 8 then 24.0
    else if zf == 9 then 27.5
    else if zf == 10 then 31.0
    else if zf == 11 then 34.5
    else if zf == 12 then 38.0
    else if zf == 13 then 41.5
    else if zf == 14 then 45.5
    else if zf == 15 then 49.0
    else if zf == 16 then 51.5
    else if zf == 17 then 56.0
    else if zf == 18 then 59.5
    else if zf == 19 then 63.0
    else if zf == 20 then 66.5
    else if zf == 21 then 70.0
    else if zf == 22 then 73.5
    else if zf == 23 then 77.0
    else if zf == 24 then 81.0
    else if zf == 25 then 84.5
    else if zf == 26 then 88.0
    else if zf == 27 then 91.5
    else if zf == 28 then 95.0
    else if zf == 29 then 98.5
    else if zf == 30 then 102.5
    else if zf == 31 then 105.5
    else if zf == 32 then 109.5
    else if zf == 33 then 112.5
    else if zf == 34 then 116.5
    else if zf == 35 then 120.0
    else if zf == 36 then 123.5
    else if zf == 37 then 127.0
    else if zf == 38 then 130.5
    else if zf == 39 then 134.0
    else if zf == 40 then 137.5
    else if zf == 41 then 141.0
    else if zf == 42 then 144.0
    else if zf == 43 then 148.0
    else if zf == 44 then 152.0
    else if zf == 45 then 155.5
    else if zf == 46 then 159.0
    else if zf == 47 then 162.5
    else if zf == 48 then 166.0
    else if zf == 49 then 169.5
    else 173.0
  }

  /** The estimated Zsum: 0 for no organisational response, 173 above 50, the table otherwise. */
  function Zest(zf: nat): real
  {
    if zf == 0 then 0.0
    else if zf > 50 then 173.0
    else ZestEntry(zf)
  }

  /** Each table entry is larger than the one before. */
  lemma ZestTableIncreasing(zf: nat)
    requires 1 < zf <= 50
    ensures ZestEntry(zf - 1) < ZestEntry(zf)
  {
  }

  /** The estimate never decreases as Zf grows. */
  lemma {:induction false} ZestMonotone(a: nat, b: nat)
    requires a <= b
    ensures Zest(a) <= Zest(b)
    decreases b - a
  {
    if a < b {
      ZestMonotone(a, b - 1);
      if 1 < b <= 50 {
        ZestTableIncreasing(b);
      }
    }
  }

  /** The estimate is positive exactly when there are at least two organisational responses, and is 173 from 50 on. */
  lemma ZestPositive(zf: nat)
    ensures Zest(zf) > 0.0 <==> zf >= 2
    ensures zf >= 50 ==> Zest(zf) == 173.0
    ensures Zest(zf) <= 173.0
  {
    if zf >= 2 {
      ZestMonotone(2, zf);
    }
    if zf <= 51 {
      ZestMonotone(zf, 51);
    }
  }

  // ---------------------------------------------------------------------------
  // age-dependent thresholds of the special indices

  /** The WSum6 threshold of PTI4 for records of 17 or more responses; 20 below age 5. */
  function HighRWsum6(age: int): nat
  {
    if 5 <= age <= 7 then 20
    else if 8 <= age <= 10 then 19
    else if 11 <= age <= 13 then 18
    else if age >= 14 then 16
    else 20
  }

  /** The WSum6 threshold of PTI4 for records of fewer than 17 responses; 16 below age 5. */
  function LowRWsum6(age: int): nat
  {
    if 5 <= age <= 7 then 16
    else if 8 <= age <= 10 then 15
    else if 11 <= age <= 13 then 14
    else if age >= 14 then 12
    else 16
  }

  /** The Afr threshold of DEPI4 and CDI3; 0.57 below age 5. */
  function AfrCriterion(age: int): real
  {
    if 5 <= age <= 6 then 0.57
    else if 7 <= age <= 9 then 0.55
    else if 10 <= age <= 13 then 0.53
    else if age >= 14 then 0.46
    else 0.57
  }

  /** The normal range of the egocentricity index: its lower bound first, then its upper bound. */
  datatype EgoRange = EgoRange(first: real, second: real)

  /** The egocentricity range for ages 5..16, (0.33, 0.44) from 17 on, and the age-5 range below 5. */
  function EgoTable(age: int): EgoRange
  {
    if age == 5 then EgoRange(0.55, 0.83)
    else if age == 6 then EgoRange(0.52, 0.82)
    else if age == 7 then EgoRange(0.52, 0.77)
    else if age == 8 then EgoRange(0.48, 0.74)
    else if age == 9 then EgoRange(0.45, 0.69)
    else if age == 10 then EgoRange(0.45, 0.63)
    else if age == 11 then EgoRange(0.45, 0.58)
    else if age == 12 then EgoRange(0.38, 0.58)
    else if age == 13 then EgoRange(0.38, 0.56)
    else if age == 14 then EgoRange(0.37, 0.54)
    else if age == 15 then EgoRange(0.33, 0.5)
    else if age == 16 then EgoRange(0.33, 0.48)
    else if age >= 17 then EgoRange(0.33, 0.44)
    else EgoRange(0.55, 0.83)
  }

  /**
   * Every threshold is defined for every age, and none grows with age: older
   * clients are held to lower WSum6, Afr and egocentricity cut-offs. Every
   * row of the egocentricity table lists the smaller bound first.
   */
  lemma AgeBandsNonIncreasing(younger: int, older: int)
    requires younger <= older
    ensures HighRWsum6(older) <= HighRWsum6(younger) && LowRWsum6(older) <= LowRWsum6(younger)
    ensures AfrCriterion(older) <= AfrCriterion(younger)
    ensures EgoTable(older).first <= EgoTable(younger).first
    ensures EgoTable(older).second <= EgoTable(younger).second
    ensures EgoTable(younger).first < EgoTable(younger).second
  {
  }

  /** The adult and the under-5 rows of the thresholds. */
  lemma AgeBandEnds(age: int)
    ensures age < 5 ==> HighRWsum6(age) == 20 && LowRWsum6(age) == 16 && AfrCriterion(age) == 0.57
    ensures age < 5 ==> EgoTable(age) == EgoRange(0.55, 0.83)
    ensures age >= 14 ==> HighRWsum6(age) == 16 && LowRWsum6(age) == 12 && AfrCriterion(age) == 0.46
    ensures age >= 17 ==> EgoTable(age) == EgoRange(0.33, 0.44)
  {
  }
}
