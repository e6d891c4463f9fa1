/** The FluentValidation built-in rules the API validators use, as
    predicates on one property value. Comparison rules on a nullable value
    pass when it is null, as FluentValidation's do. */
module ValidationRules {
  import opened Wrappers
  import Text
  import CompoundingCadenceOptions

  /** `InclusiveBetween(from, to)` on a `decimal`. */
  predicate InclusiveBetween(x: real, from: real, to: real) {
    from <= x <= to
  }

  /** `InclusiveBetween(from, to)` on an `int`. */
  predicate InclusiveBetweenInt(x: int, from: int, to: int) {
    from <= x <= to
  }

  /** `InclusiveBetween(from, to)` on a `decimal?`: null passes. */
  predicate OptionalInclusiveBetween(x: Option<real>, from: real, to: real) {
    x.None? || from <= x.value <= to
  }

  /** `NotEmpty()` on a string: not empty and not only white space. */
  predicate NotEmpty(s: string) {
    !Text.IsBlank(s)
  }

  /** `MaximumLength(max)` on a `string?`: null passes. */
  predicate MaximumLength(s: Option<string>, max: nat) {
    s.None? || |s.value| <= max
  }

  /** The properties among `all` whose rules fail: FluentValidation runs
      every rule and collects each failure under its property. */
  function FailingProperties<P(!new)>(all: set<P>, fails: P -> bool): (failed: set<P>)
    ensures forall property :: property in failed <==> property in all && fails(property)
  {
    set property | property in all && fails(property)
  }

  /** The property a rule contributes to the error set when it fails. */
  function Report<P>(failed: bool, property: P): set<P> {
    if failed then {property} else {}
  }

  /** A cadence that fails `NotEmpty` also fails `IsSupported`. */
  lemma BlankCadenceFails(cadence: string)
    ensures !NotEmpty(cadence) ==> !CompoundingCadenceOptions.IsSupported(Some(cadence))
  {
    if !NotEmpty(cadence) {
      CompoundingCadenceOptions.BlankIsNeverSupported(Some(cadence));
    }
  }
}
