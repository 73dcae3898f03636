/** The ordinal encoding of risk categories (`level_to_value` in functions.py). */
module RiskLevel {

  /** The four named risk categories. */
  datatype Level = VeryLow | Low | Medium | High

  /** The spelling of each category in the data. */
  function Name(l: Level): string {
    match l
    case VeryLow => "Very Low"
    case Low => "Low"
    case Medium => "Medium"
    case High => "High"
  }

  /** The categories from least to most severe. */
  const Severities: seq<Level> := [VeryLow, Low, Medium, High]

  /**
    The ordinal of a risk label: a named category maps to its 1-based rank
    in severity order, and every other string to 0.
  */
  function LevelToValue(risklevel: string): (v: nat)
    ensures v <= |Severities|
    ensures v == 0 <==> forall l: Level :: Name(l) != risklevel
    ensures 0 < v ==> Name(Severities[v - 1]) == risklevel
  {
    if risklevel == "High" then assert Name(High) == risklevel; 4
    else if risklevel == "Medium" then assert Name(Medium) == risklevel; 3
    else if risklevel == "Low" then assert Name(Low) == risklevel; 2
    else if risklevel == "Very Low" then assert Name(VeryLow) == risklevel; 1
    else 0
  }

  /** Distinct categories have distinct spellings. */
  lemma NameInjective(a: Level, b: Level)
    requires Name(a) == Name(b)
    ensures a == b
  {
  }

  /** Each named category maps to its rank in severity order. */
  lemma ValueIsSeverityRank(i: nat)
    requires i < |Severities|
    ensures LevelToValue(Name(Severities[i])) == i + 1
  {
    var v := LevelToValue(Name(Severities[i]));
    NameInjective(Severities[v - 1], Severities[i]);
  }

  /** The ordinal strictly increases with severity across the named categories. */
  lemma ValueIncreasesWithSeverity(i: nat, j: nat)
    requires i < j < |Severities|
    ensures 0 < LevelToValue(Name(Severities[i])) < LevelToValue(Name(Severities[j]))
  {
    ValueIsSeverityRank(i);
    ValueIsSeverityRank(j);
  }
}
