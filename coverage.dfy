/**
 * Colour band of an overlap cell: how large a share of the participants is
 * available there. The colours themselves are presentation; the band is what
 * decides them.
 */
module Coverage {

  /** From white (nobody) through light red, yellow, light green, green to dark green (everyone). */
  datatype Band = NoCoverage | Minimal | Low | Medium | High | Full

  /** 0 for NoCoverage up to 5 for Full. */
  function Rank(b: Band): nat {
    match b
    case NoCoverage => 0
    case Minimal => 1
    case Low => 2
    case Medium => 3
    case High => 4
    case Full => 5
  }

  /**
   * get_color_for_count: the ratio is compared with 1, 3/4, 1/2 and 1/4 in that
   * order. Python divides in floating point; the model divides exactly.
   */
  function Classify(count: int, total: int): (r: Band)
    ensures 0 <= count && 0 < total ==> (r == Full <==> count == total)
    ensures 0 <= count && 0 <= total ==> (r == NoCoverage <==> count == 0 || total == 0)
  {
    if count == 0 then NoCoverage
    else if total == 0 then NoCoverage
    else
      var ratio := count as real / total as real;
      if ratio == 1.0 then Full
      else if ratio >= 0.75 then High
      else if ratio >= 0.5 then Medium
      else if ratio >= 0.25 then Low
      else Minimal
  }

  /** The same banding in integer arithmetic only: `count / total >= p / q` as `q * count >= p * total`. */
  function CrossMultipliedBand(count: int, total: int): Band {
    if count == 0 || total == 0 then NoCoverage
    else if count == total then Full
    else if 4 * count >= 3 * total then High
    else if 2 * count >= total then Medium
    else if 4 * count >= total then Low
    else Minimal
  }

  lemma RatioAgainst(count: int, total: int, q: real)
    requires total > 0
    ensures (count as real / total as real >= q) <==> (count as real >= q * total as real)
    ensures (count as real / total as real == q) <==> (count as real == q * total as real)
  {
    var r := count as real / total as real;
    assert r * total as real == count as real;
    if r >= q { assert r * total as real >= q * total as real; }
  }

  /** The ratio can be replaced exactly by cross-multiplication (also when count exceeds total). */
  lemma ClassifyIsCrossMultiplied(count: int, total: int)
    requires total >= 0
    ensures Classify(count, total) == CrossMultipliedBand(count, total)
  {
    if count != 0 && total != 0 {
      RatioAgainst(count, total, 1.0);
      RatioAgainst(count, total, 0.75);
      RatioAgainst(count, total, 0.5);
      RatioAgainst(count, total, 0.25);
    }
  }

  /** More participants available never gives a lower band. */
  lemma ClassifyMonotone(c1: int, c2: int, total: int)
    requires 0 <= c1 <= c2 <= total
    ensures Rank(Classify(c1, total)) <= Rank(Classify(c2, total))
  {
    ClassifyIsCrossMultiplied(c1, total);
    ClassifyIsCrossMultiplied(c2, total);
  }

  /** Each threshold is inclusive: a quarter, a half, three quarters and all of 4k participants. */
  lemma ThresholdsAreInclusive(k: int)
    requires k > 0
    ensures Classify(0, 4 * k) == NoCoverage
    ensures Classify(1, 4 * k + 1) == Minimal
    ensures Classify(k, 4 * k) == Low
    ensures Classify(2 * k, 4 * k) == Medium
    ensures Classify(3 * k, 4 * k) == High
    ensures Classify(4 * k, 4 * k) == Full
  {
    ClassifyIsCrossMultiplied(1, 4 * k + 1);
    ClassifyIsCrossMultiplied(k, 4 * k);
    ClassifyIsCrossMultiplied(2 * k, 4 * k);
    ClassifyIsCrossMultiplied(3 * k, 4 * k);
    ClassifyIsCrossMultiplied(4 * k, 4 * k);
  }
}
