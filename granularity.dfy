/** Granularity.fromString of the two instrumentation agents: a mode name,
    upper-cased, looked up among the enum's constants, with METHOD for a
    null name and for a name that is not one of them. */
module ChainsGranularity {
  import opened Wrappers
  import opened JavaStrings

  datatype Granularity = CLASS | METHOD

  /** Granularity.valueOf(name): the constant of that exact name. */
  function ValueOf(name: string): (r: Option<Granularity>)
    ensures r == Some(CLASS) <==> name == "CLASS"
    ensures r == Some(METHOD) <==> name == "METHOD"
  {
    if name == "CLASS" then Some(CLASS)
    else if name == "METHOD" then Some(METHOD)
    else None
  }

  /** fromString(mode); a null mode is None. valueOf's
      IllegalArgumentException becomes METHOD: a mode gives CLASS exactly
      when it upper-cases to "CLASS", and every other mode, null included,
      gives METHOD. */
  function FromString(mode: Option<string>): (g: Granularity)
    ensures g == CLASS <==> mode.Some? && UpperCase(mode.value) == "CLASS"
    ensures g != CLASS ==> g == METHOD
  {
    if mode.None? then METHOD
    else
      match ValueOf(UpperCase(mode.value))
      case Some(g) => g
      case None => METHOD
  }

  /** On ASCII modes: CLASS exactly for "class" in any letter case. */
  lemma ClassInAnyCase(mode: string)
    requires AllAscii(mode)
    ensures FromString(Some(mode)) == CLASS <==> EqualsIgnoreCaseAscii(mode, "class")
  {
    UpperCaseMatchesName(mode, "CLASS");
    assert forall i :: 0 <= i < 5 ==> AsciiLower("class"[i]) == AsciiLower("CLASS"[i]);
  }

  /** The sharp s upper-cases to "SS", so "claß" names CLASS too. */
  lemma SharpSNamesClass()
    ensures FromString(Some("claß")) == CLASS
  {
    assert UpperCase("claß") == "CLASS" by {
      assert UpperCase("ß") == "SS";
      assert UpperCase("s") == "S";
      assert UpperCase("aß") == "ASS";
      assert UpperCase("laß") == "LASS";
    }
  }
}

/** The later agent's Granularity: DEPENDENCY replaces CLASS. */
module ProjectGranularity {
  import opened Wrappers
  import opened JavaStrings

  datatype Granularity = DEPENDENCY | METHOD

  function ValueOf(name: string): (r: Option<Granularity>)
    ensures r == Some(DEPENDENCY) <==> name == "DEPENDENCY"
    ensures r == Some(METHOD) <==> name == "METHOD"
  {
    if name == "DEPENDENCY" then Some(DEPENDENCY)
    else if name == "METHOD" then Some(METHOD)
    else None
  }

  /** fromString(mode): a mode gives DEPENDENCY exactly when it upper-cases
      to "DEPENDENCY", and every other mode, null included, gives METHOD. */
  function FromString(mode: Option<string>): (g: Granularity)
    ensures g == DEPENDENCY <==> mode.Some? && UpperCase(mode.value) == "DEPENDENCY"
    ensures g != DEPENDENCY ==> g == METHOD
  {
    if mode.None? then METHOD
    else
      match ValueOf(UpperCase(mode.value))
      case Some(g) => g
      case None => METHOD
  }

  /** On ASCII modes: DEPENDENCY exactly for "dependency" in any letter case. */
  lemma DependencyInAnyCase(mode: string)
    requires AllAscii(mode)
    ensures FromString(Some(mode)) == DEPENDENCY <==> EqualsIgnoreCaseAscii(mode, "dependency")
  {
    UpperCaseMatchesName(mode, "DEPENDENCY");
    assert forall i :: 0 <= i < 10 ==> AsciiLower("dependency"[i]) == AsciiLower("DEPENDENCY"[i]);
  }

  /** "class", the other agent's mode, is not a constant here: METHOD. */
  lemma ClassModeIsMethod()
    ensures FromString(Some("class")) == METHOD
    ensures FromString(Some("CLASS")) == METHOD
  {
    assert UpperCase("class") == "CLASS" by {
      assert UpperCase("s") == "S";
      assert UpperCase("ss") == "SS";
      assert UpperCase("ass") == "ASS";
      assert UpperCase("lass") == "LASS";
    }
    assert UpperCase("CLASS") == "CLASS" by {
      assert UpperCase("S") == "S";
      assert UpperCase("SS") == "SS";
      assert UpperCase("ASS") == "ASS";
      assert UpperCase("LASS") == "LASS";
    }
  }
}
