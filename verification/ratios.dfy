/**
 * The two ratios of a report row that divide by the account's Hive Power:
 * the percentage of it delegated away and the rewards-per-HP figure (KE).
 * Both are forced to zero when the Hive Power is not positive, so no
 * division by zero (or by a negative figure) ever happens.
 */
module Ratios {

  datatype DerivedRatios = DerivedRatios(percentageHpDelegated: real, ke: real)

  /** `hp` is the account's Hive Power, `hpDelegated` the Hive Power of its
      delegations (already scaled down from raw millionths of VESTS), and `rewards` the raw curation plus posting rewards, which
      the report expresses in thousands. */
  function HpRatios(hp: real, hpDelegated: real, rewards: int): (r: DerivedRatios)
    ensures hp <= 0.0 ==> r == DerivedRatios(0.0, 0.0)
    ensures hp > 0.0 ==> r.percentageHpDelegated * hp == hpDelegated * 100.0
    ensures hp > 0.0 ==> r.ke * hp * 1000.0 == rewards as real
  {
    var rewardsInThousands := rewards as real / 1000.0;
    var percentage := if hp > 0.0 then (hpDelegated / hp) * 100.0 else 0.0;
    var ke := if hp > 0.0 then rewardsInThousands / hp else 0.0;
    DerivedRatios(percentage, ke)
  }

  /** Delegating no more than one holds gives a percentage in [0, 100]. */
  lemma PercentageBounds(hp: real, hpDelegated: real, rewards: int)
    requires 0.0 <= hpDelegated <= hp
    ensures 0.0 <= HpRatios(hp, hpDelegated, rewards).percentageHpDelegated <= 100.0
  {
    var p := HpRatios(hp, hpDelegated, rewards).percentageHpDelegated;
    if hp > 0.0 {
      assert p * hp == hpDelegated * 100.0;
    }
  }

  /** With positive Hive Power, the whole of it is delegated exactly when the
      percentage is 100, and none of it exactly when the percentage is 0. */
  lemma PercentageExtremes(hp: real, hpDelegated: real, rewards: int)
    requires hp > 0.0
    ensures HpRatios(hp, hpDelegated, rewards).percentageHpDelegated == 100.0 <==> hpDelegated == hp
    ensures HpRatios(hp, hpDelegated, rewards).percentageHpDelegated == 0.0 <==> hpDelegated == 0.0
  {
    var p := HpRatios(hp, hpDelegated, rewards).percentageHpDelegated;
    assert p * hp == hpDelegated * 100.0;
  }

  /** KE has the sign of the rewards when the Hive Power is positive. */
  lemma KeSign(hp: real, hpDelegated: real, rewards: int)
    requires hp > 0.0
    ensures HpRatios(hp, hpDelegated, rewards).ke >= 0.0 <==> rewards >= 0
  {
    var k := HpRatios(hp, hpDelegated, rewards).ke;
    assert k * hp * 1000.0 == rewards as real;
  }
}
