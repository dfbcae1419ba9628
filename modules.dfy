/** The `Module` record: an immutable value built once by its constructor. */
module Modules {
  import opened Options
  import opened JavaInteger

  /** An OR of AND-groups of module codes: any one group, taken whole, suffices. */
  type PrereqGroups = seq<seq<string>>

  /** A module's fields; a datatype value cannot be reassigned, and the field
      selectors are the getters. */
  datatype Module = Module(
    code: string,
    name: string,
    mc: int32,
    moduleType: string,
    prerequisites: PrereqGroups)
  {
    /** What the constructor asserts of its arguments. */
    predicate Valid() {
      code != [] && name != [] && moduleType != []
    }
  }

  /** The constructor: it asserts a non-empty code, name and type (a list of
      prerequisites is never null here) and keeps the credits as given, with
      no range check. */
  function NewModule(code: string, name: string, mc: int32, moduleType: string,
                     prerequisites: PrereqGroups): (m: Module)
    requires code != [] && name != [] && moduleType != []
    ensures m.Valid()
    ensures m.code == code && m.name == name && m.mc == mc
    ensures m.moduleType == moduleType && m.prerequisites == prerequisites
  {
    Module(code, name, mc, moduleType, prerequisites)
  }

  /** Every valid module is what the constructor makes of its own getters. */
  lemma NewModuleFromGetters(m: Module)
    requires m.Valid()
    ensures NewModule(m.code, m.name, m.mc, m.moduleType, m.prerequisites) == m
  {
  }

  /** The storage encoders, whose definitions are not part of this model:
      one for a text field, one for the prerequisites. */
  datatype Serialiser = Serialiser(
    message: string -> string,
    preReqTree: PrereqGroups -> string)

  /** The storage line of `toFormatedString`: the encoded code, name,
      credits text, type and prerequisites, in that order, where the credits
      text is `Integer.toString` of the credits, the canonical decimal that
      `Integer.parseInt` reads back as the module's credits. */
  function ToFormattedString(m: Module, s: Serialiser): (line: string)
    ensures exists mcText ::
              && mcText == ToDecimal(m.mc)
              && ParseInt(mcText) == Some(m.mc)
              && line == s.message(m.code) + s.message(m.name)
                   + s.message(mcText) + s.message(m.moduleType) + s.preReqTree(m.prerequisites)
  {
    ParseIntToDecimal(m.mc);
    s.message(m.code) + s.message(m.name) + s.message(ToDecimal(m.mc))
      + s.message(m.moduleType) + s.preReqTree(m.prerequisites)
  }

  /** The line depends on the five fields only: modules that agree on them
      have the same line. */
  lemma FormattedStringDeterministic(m1: Module, m2: Module, s: Serialiser)
    requires m1.code == m2.code && m1.name == m2.name && m1.mc == m2.mc
    requires m1.moduleType == m2.moduleType && m1.prerequisites == m2.prerequisites
    ensures ToFormattedString(m1, s) == ToFormattedString(m2, s)
  {
  }
}
