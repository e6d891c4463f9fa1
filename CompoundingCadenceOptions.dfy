/** The compounding-cadence table and its case-insensitive lookups
    (CompoundCalc/Helpers/CompoundingCadenceOptions.cs). */
module CompoundingCadenceOptions {
  import opened Wrappers
  import opened Faults
  import Text

  datatype Schedule = Schedule(Name: string, PeriodsPerYear: int)

  /** The fixed table, in declaration order. */
  const Schedules: seq<Schedule> := [
    Schedule("Annual", 1),
    Schedule("SemiAnnual", 2),
    Schedule("Quarterly", 4),
    Schedule("Monthly", 12)
  ]

  /** The names of the table, in table order (`Schedules.Select(s => s.Name)`;
      TableShape proves the correspondence). */
  const SupportedCadences: seq<string> := ["Annual", "SemiAnnual", "Quarterly", "Monthly"]

  /** A canonical cadence name, as `NormalizeName` returns it. */
  type CadenceName = s: string | s in SupportedCadences witness "Annual"

  /** The value `TryResolveSchedule` leaves in its out-parameter on a miss:
      `default((string, int))`. Its name is null in the source; the empty
      string stands for it here. */
  const DefaultSchedule := Schedule("", 0)

  predicate Matches(entry: Schedule, cadence: string) {
    Text.EqualsIgnoreCase(entry.Name, cadence)
  }

  /** The first table entry at or after `from` whose name matches `cadence`. */
  function FirstMatch(cadence: string, from: nat): (r: Option<Schedule>)
    requires from <= |Schedules|
    decreases |Schedules| - from
    ensures r.Some? ==> r.value in Schedules && Matches(r.value, cadence)
    ensures r.None? <==> forall i | from <= i < |Schedules| :: !Matches(Schedules[i], cadence)
  {
    if from == |Schedules| then None
    else if Matches(Schedules[from], cadence) then Some(Schedules[from])
    else FirstMatch(cadence, from + 1)
  }

  /** What `TryResolveSchedule` finds: nothing for null or blank input,
      otherwise the first entry whose name equals the input ignoring case. */
  function Resolve(cadence: Option<string>): (r: Option<Schedule>)
    ensures r.Some? <==> !Text.IsNullOrWhiteSpace(cadence) && exists i | 0 <= i < |Schedules| :: Matches(Schedules[i], cadence.value)
    ensures r.Some? ==> r.value in Schedules && Matches(r.value, cadence.value)
  {
    if Text.IsNullOrWhiteSpace(cadence) then None else FirstMatch(cadence.value, 0)
  }

  /** The `foreach` over the table with an early return and an out-parameter. */
  method TryResolveSchedule(cadence: Option<string>) returns (found: bool, schedule: Schedule)
    ensures found == Resolve(cadence).Some?
    ensures schedule == if found then Resolve(cadence).value else DefaultSchedule
  {
    if Text.IsNullOrWhiteSpace(cadence) {
      return false, DefaultSchedule;
    }
    var i := 0;
    while i < |Schedules|
      invariant 0 <= i <= |Schedules|
      invariant FirstMatch(cadence.value, 0) == FirstMatch(cadence.value, i)
    {
      var entry := Schedules[i];
      if Text.EqualsIgnoreCase(entry.Name, cadence.value) {
        return true, entry;
      }
      i := i + 1;
    }
    return false, DefaultSchedule;
  }

  /** The non-throwing probe; SupportedExactlyWhenSomeNameMatches states
      what it accepts. */
  predicate IsSupported(cadence: Option<string>) {
    Resolve(cadence).Some?
  }

  /** The throwing lookup: `ArgumentException` naming `cadence` on a miss. */
  function ResolveSchedule(cadence: string): (r: Result<Schedule, Fault>)
    ensures r.Success? <==> IsSupported(Some(cadence))
    ensures r.Success? ==> r.value in Schedules && Matches(r.value, cadence)
    ensures r.Success? ==> forall i | 0 <= i < |Schedules| && Matches(Schedules[i], cadence) :: r.value == Schedules[i]
    ensures r.Failure? ==> r.error == Argument("cadence")
  {
    match Resolve(Some(cadence))
    case Some(schedule) =>
      OnlyMatch(cadence, schedule);
      Success(schedule)
    case None => Failure(Argument("cadence"))
  }

  /** The count of the entry whose name matches, ignoring case. */
  function GetPeriodsPerYear(cadence: string): (r: Result<int, Fault>)
    ensures r.Success? <==> IsSupported(Some(cadence))
    ensures r.Success? ==> forall i | 0 <= i < |Schedules| && Matches(Schedules[i], cadence) :: r.value == Schedules[i].PeriodsPerYear
    ensures r.Success? ==> r.value in {1, 2, 4, 12} && 12 % r.value == 0
    ensures r.Failure? ==> r.error == Argument("cadence")
  {
    match ResolveSchedule(cadence)
    case Success(schedule) => Success(schedule.PeriodsPerYear)
    case Failure(e) => Failure(e)
  }

  /** The table spelling of the entry whose name matches, ignoring case. */
  function NormalizeName(cadence: string): (r: Result<CadenceName, Fault>)
    ensures r.Success? <==> IsSupported(Some(cadence))
    ensures r.Success? ==> Text.EqualsIgnoreCase(r.value, cadence)
    ensures r.Success? ==> forall i | 0 <= i < |Schedules| && Matches(Schedules[i], cadence) :: r.value == Schedules[i].Name
    ensures r.Failure? ==> r.error == Argument("cadence")
  {
    match ResolveSchedule(cadence)
    case Success(schedule) => Success(schedule.Name)
    case Failure(e) => Failure(e)
  }

  // ---------------------------------------------------------------------
  // Properties of the table and the lookups

  /** The table is Annual 1, SemiAnnual 2, Quarterly 4, Monthly 12; every
      periods-per-year value is positive and divides 12. */
  lemma TableShape()
    ensures |SupportedCadences| == |Schedules|
    ensures forall i | 0 <= i < |Schedules| :: SupportedCadences[i] == Schedules[i].Name
    ensures forall i | 0 <= i < |Schedules| :: Schedules[i].PeriodsPerYear > 0 && 12 % Schedules[i].PeriodsPerYear == 0
  {
  }

  /** The table names have pairwise different lengths, so no input matches
      two entries. */
  lemma AtMostOneMatch(cadence: string, i: nat, j: nat)
    requires i < |Schedules| && j < |Schedules|
    requires Matches(Schedules[i], cadence) && Matches(Schedules[j], cadence)
    ensures i == j
  {
    Text.EqualsIgnoreCaseAt(Schedules[i].Name, cadence);
    Text.EqualsIgnoreCaseAt(Schedules[j].Name, cadence);
  }

  /** An entry that matches is the only entry that matches. */
  lemma OnlyMatch(cadence: string, entry: Schedule)
    requires entry in Schedules && Matches(entry, cadence)
    ensures forall i | 0 <= i < |Schedules| && Matches(Schedules[i], cadence) :: entry == Schedules[i]
  {
    var j :| 0 <= j < |Schedules| && Schedules[j] == entry;
    forall i | 0 <= i < |Schedules| && Matches(Schedules[i], cadence)
      ensures entry == Schedules[i]
    {
      AtMostOneMatch(cadence, i, j);
    }
  }

  /** Annual compounds once a year, SemiAnnual twice, Quarterly four times
      and Monthly twelve times. */
  lemma PeriodsOfTableNames()
    ensures GetPeriodsPerYear("Annual") == Success(1)
    ensures GetPeriodsPerYear("SemiAnnual") == Success(2)
    ensures GetPeriodsPerYear("Quarterly") == Success(4)
    ensures GetPeriodsPerYear("Monthly") == Success(12)
  {
    ResolveTableName(0);
    ResolveTableName(1);
    ResolveTableName(2);
    ResolveTableName(3);
  }

  /** A table name resolves to its own entry. */
  lemma ResolveTableName(i: nat)
    requires i < |Schedules|
    ensures Resolve(Some(Schedules[i].Name)) == Some(Schedules[i])
  {
    var name := Schedules[i].Name;
    Text.EqualsIgnoreCaseIsEquivalence(name, name, name);
    assert !Text.IsWhiteSpace(name[0]);
    var r := Resolve(Some(name));
    var j :| 0 <= j < |Schedules| && Schedules[j] == r.value;
    AtMostOneMatch(name, i, j);
  }

  /** An input is supported exactly when it is not blank and equals some
      table name, ignoring case. */
  lemma SupportedExactlyWhenSomeNameMatches(cadence: Option<string>)
    ensures IsSupported(cadence) <==>
      !Text.IsNullOrWhiteSpace(cadence) && exists i | 0 <= i < |Schedules| :: Matches(Schedules[i], cadence.value)
  {
  }

  /** Null, empty or white-space-only input is never supported. */
  lemma BlankIsNeverSupported(cadence: Option<string>)
    requires Text.IsNullOrWhiteSpace(cadence)
    ensures !IsSupported(cadence)
    ensures cadence.Some? ==> GetPeriodsPerYear(cadence.value) == Failure(Argument("cadence"))
  {
  }

  /** Matching ignores case but does not trim. */
  lemma LowerCaseIsSupported()
    ensures IsSupported(Some("monthly")) && NormalizeName("monthly") == Success("Monthly")
  {
    MonthlyMatchesLowerCase();
    assert !Text.IsWhiteSpace("monthly"[0]);
    NormalizeMatchingName("monthly", 3);
  }

  lemma MonthlyMatchesLowerCase()
    ensures Text.EqualsIgnoreCase("Monthly", "monthly")
  {
  }

  /** An input that matches a table entry, and does not start with white
      space, normalises to that entry's name. */
  lemma NormalizeMatchingName(cadence: string, i: nat)
    requires i < |Schedules| && Matches(Schedules[i], cadence)
    requires cadence != [] && !Text.IsWhiteSpace(cadence[0])
    ensures NormalizeName(cadence) == Success(Schedules[i].Name)
  {
    var r := Resolve(Some(cadence));
    assert r.Some?;
    var j :| 0 <= j < |Schedules| && Schedules[j] == r.value;
    AtMostOneMatch(cadence, i, j);
  }

  lemma UpperCaseIsSupported()
    ensures NormalizeName("QUARTERLY") == Success("Quarterly")
  {
    QuarterlyMatchesUpperCase();
    assert !Text.IsWhiteSpace("QUARTERLY"[0]);
    NormalizeMatchingName("QUARTERLY", 2);
  }

  lemma QuarterlyMatchesUpperCase()
    ensures Text.EqualsIgnoreCase("Quarterly", "QUARTERLY")
  {
  }

  /** No trimming: a leading space makes the name unsupported. */
  lemma PaddedIsNotSupported()
    ensures !IsSupported(Some(" Monthly"))
    ensures !IsSupported(Some("Weekly"))
  {
  }

  /** `IsSupported` holds exactly when both throwing lookups succeed; when it
      does not, both throw `ArgumentException` for `cadence`. */
  lemma SupportedIffLookupsSucceed(cadence: string)
    ensures IsSupported(Some(cadence)) <==> GetPeriodsPerYear(cadence).Success?
    ensures IsSupported(Some(cadence)) <==> NormalizeName(cadence).Success?
    ensures !IsSupported(Some(cadence)) ==>
      GetPeriodsPerYear(cadence) == Failure(Argument("cadence")) && NormalizeName(cadence) == Failure(Argument("cadence"))
  {
  }

  /** `NormalizeName` returns the table spelling; normalizing again changes
      nothing and the periods per year are those of the original input. */
  lemma NormalizeNameIdempotent(cadence: string)
    requires IsSupported(Some(cadence))
    ensures NormalizeName(NormalizeName(cadence).value) == NormalizeName(cadence)
    ensures GetPeriodsPerYear(NormalizeName(cadence).value) == GetPeriodsPerYear(cadence)
  {
    var s := Resolve(Some(cadence)).value;
    var i :| 0 <= i < |Schedules| && Schedules[i] == s;
    ResolveTableName(i);
  }

  /** The canonical names are exactly the fixed points of `NormalizeName`. */
  lemma CanonicalNamesAreFixedPoints(cadence: string)
    ensures cadence in SupportedCadences <==> NormalizeName(cadence) == Success(cadence)
  {
    if cadence in SupportedCadences {
      TableShape();
      var i :| 0 <= i < |SupportedCadences| && SupportedCadences[i] == cadence;
      ResolveTableName(i);
    }
  }

  /** A canonical name is supported and has a positive period count. */
  lemma CadenceNameResolves(cadence: CadenceName)
    ensures IsSupported(Some(cadence))
    ensures GetPeriodsPerYear(cadence).Success? && GetPeriodsPerYear(cadence).value >= 1
  {
    CanonicalNamesAreFixedPoints(cadence);
  }
}
