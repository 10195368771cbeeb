/**
  The severity categories of the severity chart: `Series.map(severity_mapping)`
  over the accident-type column, an exact, case-sensitive dictionary lookup
  in which any other label (and a NaN cell) maps to NaN.
 */
module Classification {
  import opened Wrappers

  datatype Severity = PropertyDamageOnly | Injury | Fatal

  /** The label the chart prints for a severity. */
  function SeverityName(v: Severity): string {
    match v
    case PropertyDamageOnly => "Property Damage Only"
    case Injury => "Injury"
    case Fatal => "Fatal"
  }

  /**
    No two severities share a label, so counting the mapped column by
    Severity gives the same table as counting it by label.
   */
  lemma SeverityNamesDistinct(a: Severity, b: Severity)
    ensures SeverityName(a) == SeverityName(b) <==> a == b
  {
  }

  /** The fixed alias table: seven accident-type spellings and their severity. */
  const SeverityAliases: map<string, Severity> := map[
    "Property Damage Crash" := PropertyDamageOnly,
    "PD" := PropertyDamageOnly,
    "pd" := PropertyDamageOnly,
    "Injury Crash" := Injury,
    "PI" := Injury,
    "Fatal Crash" := Fatal,
    "F" := Fatal
  ]

  /** The severity of one accident-type cell; None stands for NaN. */
  function Classify(accidentType: Option<string>): (r: Option<Severity>)
    ensures r.Some? <==> accidentType.Some? && accidentType.value in SeverityAliases
    ensures r.Some? ==> r.value == SeverityAliases[accidentType.value]
  {
    match accidentType
    case Some(l) => if l in SeverityAliases then Some(SeverityAliases[l]) else None
    case None => None
  }

  /** The long-form accident type of each severity. */
  function CrashLabel(v: Severity): string {
    match v
    case PropertyDamageOnly => "Property Damage Crash"
    case Injury => "Injury Crash"
    case Fatal => "Fatal Crash"
  }

  /** Exactly seven labels are classified, and each severity has the aliases the table lists. */
  lemma ClassifiedLabels(l: string)
    ensures Classify(Some(l)) == Some(PropertyDamageOnly) <==> l == "Property Damage Crash" || l == "PD" || l == "pd"
    ensures Classify(Some(l)) == Some(Injury) <==> l == "Injury Crash" || l == "PI"
    ensures Classify(Some(l)) == Some(Fatal) <==> l == "Fatal Crash" || l == "F"
    ensures |SeverityAliases| == 7
  {
    assert SeverityAliases.Keys == {"Property Damage Crash", "PD", "pd", "Injury Crash", "PI", "Fatal Crash", "F"};
  }

  /** Every severity is reached from its long-form label, so no category is unreachable. */
  lemma CrashLabelClassifies(v: Severity)
    ensures Classify(Some(CrashLabel(v))) == Some(v)
  {
  }

  /** The lookup does not fold case: "pd" and "PD" are aliases, "Pd" and "fatal crash" are not. */
  lemma LookupIsCaseSensitive()
    ensures Classify(Some("pd")) == Some(PropertyDamageOnly) && Classify(Some("PD")) == Some(PropertyDamageOnly)
    ensures Classify(Some("Pd")).None? && Classify(Some("pD")).None?
    ensures Classify(Some("fatal crash")).None? && Classify(Some("f")).None?
  {
  }

}
