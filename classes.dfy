/** The fixed class table of the detector: names in output order and their display colours. */
module Classes {

  /** Number of object classes the model scores (one score row per class). */
  const NumClasses: nat := 7

  /** Class names, indexed by class id. */
  const ClassNames: seq<string> := [
    "OxygenTank",
    "NitrogenTank",
    "FirstAidBox",
    "FireAlarm",
    "SafetySwitchPanel",
    "EmergencyPhone",
    "FireExtinguisher"
  ]

  /** A valid index into the class table. */
  type ClassId = c: int | 0 <= c < 7

  /** Display colour of each class name. */
  const ClassColors: map<string, string> := map[
    "OxygenTank" := "#00f0ff",
    "NitrogenTank" := "#00ff88",
    "FirstAidBox" := "#ff6b35",
    "FireAlarm" := "#ff3366",
    "SafetySwitchPanel" := "#ffdd00",
    "EmergencyPhone" := "#aa66ff",
    "FireExtinguisher" := "#ff0066"
  ]

  /** Colour used when a name has no entry in the colour table. */
  const FallbackColor: string := "#00f0ff"

  /** The name of class `id`. */
  function ClassName(id: ClassId): (name: string)
    ensures name in ClassNames && name in ClassColors
  {
    ClassNames[id]
  }

  /**
   * Looks a class name up in the colour table, falling back to the default colour
   * when the entry is missing or empty; every class name has a non-empty entry,
   * so the fallback is never taken.
   */
  function ClassColor(name: string): (color: string)
    requires name in ClassNames
    ensures name in ClassColors && color == ClassColors[name]
    ensures color != ""
  {
    if name in ClassColors && ClassColors[name] != "" then ClassColors[name] else FallbackColor
  }

  /** The class table has exactly `NumClasses` entries and no name occurs twice. */
  lemma ClassNamesDistinct()
    ensures |ClassNames| == NumClasses
    ensures forall i, j :: 0 <= i < j < NumClasses ==> ClassNames[i] != ClassNames[j]
  {
  }

  /** Every class gets its own colour: distinct classes are drawn in distinct colours. */
  lemma ClassColorsDistinct(i: ClassId, j: ClassId)
    requires i != j
    ensures ClassColor(ClassName(i)) != ClassColor(ClassName(j))
  {
  }

  /** The fallback colour coincides with the colour of class 0, so a missing entry is indistinguishable from it. */
  lemma FallbackIsClassZeroColor()
    ensures ClassColor(ClassName(0)) == FallbackColor
  {
  }
}
