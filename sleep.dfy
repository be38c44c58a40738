/**
 * The sleep dashboard: the participant name and text age group columns,
 * the eight-stage filter chain, the photo picks and the organization groups
 * of the per-organization charts.
 */
module SleepDashboard {
  import opened Wrappers
  import opened Lexicographic
  import opened Text
  import opened Filters
  import opened Photos

  /** One sleep record; categorical cells are missing (`None`) or hold text. */
  datatype SleepRow = SleepRow(
    organizationName: Option<string>,
    cohortName: Option<string>,
    programName: Option<string>,
    physicianName: Option<string>,
    participantGender: Option<string>,
    ageGroup: Option<string>,
    ethnicity: Option<string>,
    firstName: Option<string>,
    lastName: Option<string>,
    participantName: Option<string>,
    physicianPhoto: Option<string>,
    participantPhotoURL: Option<string>)

  /** The viewer's eight selections, "All" or one offered value each. */
  datatype SleepSelection = SleepSelection(
    organization: string,
    cohort: string,
    program: string,
    physician: string,
    participant: string,
    gender: string,
    ethnicity: string,
    ageGroup: string)

  /** How `astype(str)` writes a missing cell. */
  const MissingText: string := "nan"

  /** The text of an age group cell after `astype(str)`. */
  function AgeGroupText(cell: Option<string>): string
  {
    match cell
    case None => MissingText
    case Some(s) => s
  }

  // ---------------------------------------------------------------------
  // Derived columns, written into the table in place
  // ---------------------------------------------------------------------

  /** The sleep table being prepared; its derived columns are assigned one after the other. */
  class SleepFrame {
    var rows: seq<SleepRow>

    constructor (rows: seq<SleepRow>)
      ensures this.rows == rows
    {
      this.rows := rows;
    }

    /** ParticipantName = LastName + " " + FirstName, row by row. */
    method AddParticipantNames()
      modifies this
      ensures |rows| == |old(rows)|
      ensures forall i :: 0 <= i < |rows| ==>
        rows[i] == old(rows)[i].(participantName := JoinName(old(rows)[i].lastName, old(rows)[i].firstName))
    {
      var k := 0;
      while k < |rows|
        invariant 0 <= k <= |rows| == |old(rows)|
        invariant forall i :: 0 <= i < k ==>
          rows[i] == old(rows)[i].(participantName := JoinName(old(rows)[i].lastName, old(rows)[i].firstName))
        invariant forall i :: k <= i < |rows| ==> rows[i] == old(rows)[i]
      {
        var row := rows[k];
        rows := rows[k := row.(participantName := JoinName(row.lastName, row.firstName))];
        k := k + 1;
      }
    }

    /** AgeGroup = AgeGroup as text, row by row; a missing cell becomes "nan". */
    method StringifyAgeGroups()
      modifies this
      ensures |rows| == |old(rows)|
      ensures forall i :: 0 <= i < |rows| ==>
        rows[i] == old(rows)[i].(ageGroup := Some(AgeGroupText(old(rows)[i].ageGroup)))
    {
      var k := 0;
      while k < |rows|
        invariant 0 <= k <= |rows| == |old(rows)|
        invariant forall i :: 0 <= i < k ==>
          rows[i] == old(rows)[i].(ageGroup := Some(AgeGroupText(old(rows)[i].ageGroup)))
        invariant forall i :: k <= i < |rows| ==> rows[i] == old(rows)[i]
      {
        var row := rows[k];
        rows := rows[k := row.(ageGroup := Some(AgeGroupText(row.ageGroup)))];
        k := k + 1;
      }
    }
  }

  /** A column with no missing cell has every row present. */
  lemma {:induction false} NoneMissing<R>(t: seq<R>, column: R -> Option<string>)
    requires forall i :: 0 <= i < |t| ==> column(t[i]).Some?
    ensures CountPresent(t, column) == |t|
  {
    if t != [] {
      NoneMissing(t[1..], column);
    }
  }

  /**
   * Once the age groups are text, no row is dropped as missing when the age
   * group options are built, and "nan" is offered exactly when some raw age
   * group was missing or was literally "nan".
   */
  lemma AgeGroupOptions(raw: seq<SleepRow>, t: seq<SleepRow>)
    requires |t| == |raw|
    requires forall i :: 0 <= i < |t| ==> t[i].ageGroup == Some(AgeGroupText(raw[i].ageGroup))
    ensures CountPresent(t, (x: SleepRow) => x.ageGroup) == |t|
    ensures MissingText in Options(t, (x: SleepRow) => x.ageGroup)[1..] <==>
      exists i :: 0 <= i < |raw| && raw[i].ageGroup in {None, Some(MissingText)}
  {
    var column := (x: SleepRow) => x.ageGroup;
    NoneMissing(t, column);
    OptionsContents(t, column);
    assert forall i :: 0 <= i < |raw| ==>
      (t[i].ageGroup == Some(MissingText) <==> raw[i].ageGroup in {None, Some(MissingText)});
  }

  // ---------------------------------------------------------------------
  // The filter chain
  // ---------------------------------------------------------------------

  /** The eight stages in sidebar order, each with its column and selection. */
  function SleepStages(sel: SleepSelection): seq<Stage<SleepRow>>
  {
    [ Stage((x: SleepRow) => x.organizationName, sel.organization),
      Stage((x: SleepRow) => x.cohortName, sel.cohort),
      Stage((x: SleepRow) => x.programName, sel.program),
      Stage((x: SleepRow) => x.physicianName, sel.physician),
      Stage((x: SleepRow) => x.participantName, sel.participant),
      Stage((x: SleepRow) => x.participantGender, sel.gender),
      Stage((x: SleepRow) => x.ethnicity, sel.ethnicity),
      Stage((x: SleepRow) => x.ageGroup, sel.ageGroup) ]
  }

  /** The table every chart below the sidebar reads. */
  function SleepFiltered(t: seq<SleepRow>, sel: SleepSelection): seq<SleepRow>
  {
    Pipeline(t, SleepStages(sel))
  }

  /** A row satisfies every one of the eight selections, column by column. */
  predicate MatchesSleep(sel: SleepSelection, x: SleepRow)
  {
    && Keeps(sel.organization, x.organizationName)
    && Keeps(sel.cohort, x.cohortName)
    && Keeps(sel.program, x.programName)
    && Keeps(sel.physician, x.physicianName)
    && Keeps(sel.participant, x.participantName)
    && Keeps(sel.gender, x.participantGender)
    && Keeps(sel.ethnicity, x.ethnicity)
    && Keeps(sel.ageGroup, x.ageGroup)
  }

  /** Passing the eight stages is matching the eight selections. */
  lemma PassesSleepStages(sel: SleepSelection, x: SleepRow)
    ensures PassesAll(SleepStages(sel), x) <==> MatchesSleep(sel, x)
  {
    var stages := SleepStages(sel);
    if PassesAll(stages, x) {
      assert Passes(stages[0], x) && Passes(stages[1], x) && Passes(stages[2], x) && Passes(stages[3], x);
      assert Passes(stages[4], x) && Passes(stages[5], x) && Passes(stages[6], x) && Passes(stages[7], x);
    }
    if MatchesSleep(sel, x) {
      forall i | 0 <= i < |stages|
        ensures Passes(stages[i], x)
      {
        if i == 0 {} else if i == 1 {} else if i == 2 {} else if i == 3 {}
        else if i == 4 {} else if i == 5 {} else if i == 6 {} else {}
      }
    }
  }

  /**
   * The filtered table holds, in input order, exactly the input rows that
   * satisfy every selection other than "All".
   */
  lemma SleepFilteredRows(t: seq<SleepRow>, sel: SleepSelection)
    ensures Subsequence(SleepFiltered(t, sel), t)
    ensures forall x :: x in SleepFiltered(t, sel) <==> x in t && MatchesSleep(sel, x)
  {
    PipelineRows(t, SleepStages(sel));
    forall x ensures PassesAll(SleepStages(sel), x) <==> MatchesSleep(sel, x) {
      PassesSleepStages(sel, x);
    }
  }

  /** Selecting "All" everywhere leaves the table itself. */
  lemma SleepAllSelectsEverything(t: seq<SleepRow>)
    ensures SleepFiltered(t, SleepSelection(All, All, All, All, All, All, All, All)) == t
  {
    var stages := SleepStages(SleepSelection(All, All, All, All, All, All, All, All));
    AllStagesKeep(t, stages, |stages|);
  }

  /**
   * Both photo lookups are safe when every selection was offered: a
   * physician or participant other than "All" leaves a first row.
   */
  lemma SleepPhotosAreSafe(t: seq<SleepRow>, sel: SleepSelection)
    requires Offered(t, SleepStages(sel))
    ensures PickPhoto(SleepFiltered(t, sel), (x: SleepRow) => x.physicianPhoto, sel.physician).Ok?
    ensures PickPhoto(SleepFiltered(t, sel), (x: SleepRow) => x.participantPhotoURL, sel.participant).Ok?
  {
    OfferedPhotoIsSafe(t, SleepStages(sel), 3, (x: SleepRow) => x.physicianPhoto);
    OfferedPhotoIsSafe(t, SleepStages(sel), 4, (x: SleepRow) => x.participantPhotoURL);
  }

  // ---------------------------------------------------------------------
  // Per-organization groups
  // ---------------------------------------------------------------------

  /** The keys of `groupby("OrganizationName")`: sorted, missing organizations dropped. */
  function OrganizationGroups(t: seq<SleepRow>): seq<string>
  {
    Categories(t, (x: SleepRow) => x.organizationName)
  }

  /**
   * One group per distinct organization present in the filtered table, in
   * ascending order, and every group has at least one row.
   */
  lemma OrganizationGroupsSpec(t: seq<SleepRow>)
    ensures StrictlyAscending(OrganizationGroups(t))
    ensures forall v :: v in OrganizationGroups(t) <==> exists i :: 0 <= i < |t| && t[i].organizationName == Some(v)
    ensures forall v :: v in OrganizationGroups(t) ==> Narrow(t, (x: SleepRow) => x.organizationName, v) != []
    ensures |OrganizationGroups(t)| <= CountPresent(t, (x: SleepRow) => x.organizationName)
  {
    var column := (x: SleepRow) => x.organizationName;
    ValuesMembers(t, column);
    forall v | v in OrganizationGroups(t)
      ensures Narrow(t, column, v) != []
    {
      ValuesCountRows(t, column, v);
      assert v in Values(t, column);
    }
  }
}
