/**
 * The steps (activity) dashboard: the participant name column, the
 * nine-stage filter chain, the photo picks, the two-hour time slots and
 * the anomaly and top-participant counts over the filtered table.
 */
module StepsDashboard {
  import opened Wrappers
  import opened Text
  import opened Filters
  import opened Photos
  import opened Counts

  /** One activity record; categorical cells are missing (`None`) or hold text. */
  datatype ActivityRow = ActivityRow(
    organizationName: Option<string>,
    cohortName: Option<string>,
    programName: Option<string>,
    physicianName: Option<string>,
    participantGender: Option<string>,
    ageGroup: Option<string>,
    ethnicity: Option<string>,
    city: Option<string>,
    firstName: Option<string>,
    lastName: Option<string>,
    participantName: Option<string>,
    physicianPhoto: Option<string>,
    participantPhotoURL: Option<string>,
    anomalyType: Option<string>,
    hour: Option<int>,
    timeSlot: Option<string>)

  /** The viewer's nine selections, "All" or one offered value each. */
  datatype ActivitySelection = ActivitySelection(
    organization: string,
    cohort: string,
    program: string,
    physician: string,
    gender: string,
    ageGroup: string,
    ethnicity: string,
    city: string,
    participant: string)

  // ---------------------------------------------------------------------
  // Derived columns, written into the table in place
  // ---------------------------------------------------------------------

  /** The activity table being prepared; its derived columns are assigned one after the other. */
  class ActivityFrame {
    var rows: seq<ActivityRow>

    constructor (rows: seq<ActivityRow>)
      ensures this.rows == rows
    {
      this.rows := rows;
    }

    /** ParticipantName = LastName + " " + FirstName, row by row. */
    method AddParticipantNames()
      modifies this
      ensures |rows| == |old(rows)|
      ensures forall i :: 0 <= i < |rows| ==>
        rows[i] == old(rows)[i].(participantName := JoinName(old(rows)[i].lastName, old(rows)[i].firstName))
    {
      var k := 0;
      while k < |rows|
        invariant 0 <= k <= |rows| == |old(rows)|
        invariant forall i :: 0 <= i < k ==>
          rows[i] == old(rows)[i].(participantName := JoinName(old(rows)[i].lastName, old(rows)[i].firstName))
        invariant forall i :: k <= i < |rows| ==> rows[i] == old(rows)[i]
      {
        var row := rows[k];
        rows := rows[k := row.(participantName := JoinName(row.lastName, row.firstName))];
        k := k + 1;
      }
    }

    /** TimeSlot = the two-hour bin of Hour, row by row. */
    method AddTimeSlots()
      modifies this
      ensures |rows| == |old(rows)|
      ensures forall i :: 0 <= i < |rows| ==> rows[i] == old(rows)[i].(timeSlot := TimeSlot(old(rows)[i].hour))
    {
      var k := 0;
      while k < |rows|
        invariant 0 <= k <= |rows| == |old(rows)|
        invariant forall i :: 0 <= i < k ==> rows[i] == old(rows)[i].(timeSlot := TimeSlot(old(rows)[i].hour))
        invariant forall i :: k <= i < |rows| ==> rows[i] == old(rows)[i]
      {
        var row := rows[k];
        rows := rows[k := row.(timeSlot := TimeSlot(row.hour))];
        k := k + 1;
      }
    }
  }

  /**
   * After the names are derived, a participant option is offered only for a
   * row whose first and last names are both present, and it spells them.
   */
  lemma NamedParticipantsOnly(t: seq<ActivityRow>, v: string)
    requires forall i :: 0 <= i < |t| ==> t[i].participantName == JoinName(t[i].lastName, t[i].firstName)
    requires v in Options(t, (x: ActivityRow) => x.participantName)[1..]
    ensures exists i ::
      && 0 <= i < |t| && t[i].lastName.Some? && t[i].firstName.Some?
      && v == t[i].lastName.value + " " + t[i].firstName.value
  {
    OptionsContents(t, (x: ActivityRow) => x.participantName);
    var i :| 0 <= i < |t| && t[i].participantName == Some(v);
    assert t[i].lastName.Some? && t[i].firstName.Some?;
  }

  // ---------------------------------------------------------------------
  // Time slots
  // ---------------------------------------------------------------------

  /** The bin labels, in bin order; the last bin is labelled as ending at midnight. */
  const SlotLabels: seq<string> :=
    ["00-02", "02-04", "04-06", "06-08", "08-10", "10-12",
     "12-14", "14-16", "16-18", "18-20", "20-22", "22-00"]

  /**
   * `pd.cut` of the hour with edges 0, 2, ..., 24, closed on the right and
   * not including the lowest edge: bin k is (2k, 2k + 2]. An hour outside
   * (0, 24], or a missing one, gets no slot.
   */
  function TimeSlot(hour: Option<int>): (r: Option<string>)
    ensures r.Some? <==> hour.Some? && 0 < hour.value <= 24
  {
    if hour.Some? && 0 < hour.value <= 24 then Some(SlotLabels[(hour.value - 1) / 2]) else None
  }

  /** The hour a label starts at, read from its first two digits. */
  function LabelStart(slot: string): int
    requires |slot| >= 2
  {
    10 * (slot[0] as int - '0' as int) + (slot[1] as int - '0' as int)
  }

  /**
   * A slot's label names the bin that holds the hour: the hour is above the
   * label's starting hour and at most two hours past it.
   */
  lemma TimeSlotBrackets(h: int)
    requires 0 < h <= 24
    ensures |TimeSlot(Some(h)).value| == 5
    ensures LabelStart(TimeSlot(Some(h)).value) < h <= LabelStart(TimeSlot(Some(h)).value) + 2
  {
    var k := (h - 1) / 2;
    assert 0 <= k < 12;
    assert LabelStart(SlotLabels[k]) == 2 * k by {
      if k == 0 {} else if k == 1 {} else if k == 2 {} else if k == 3 {}
      else if k == 4 {} else if k == 5 {} else if k == 6 {} else if k == 7 {}
      else if k == 8 {} else if k == 9 {} else if k == 10 {} else {}
    }
  }

  /** The boundary cases of the right-closed bins. */
  lemma TimeSlotEdges()
    ensures TimeSlot(Some(8)) == Some("06-08")
    ensures TimeSlot(Some(9)) == Some("08-10")
    ensures TimeSlot(Some(23)) == Some("22-00")
    ensures TimeSlot(Some(0)) == None
    ensures TimeSlot(None) == None
  {
  }

  // ---------------------------------------------------------------------
  // The filter chain
  // ---------------------------------------------------------------------

  /** The nine stages in sidebar order, each with its column and selection. */
  function ActivityStages(sel: ActivitySelection): seq<Stage<ActivityRow>>
  {
    [ Stage((x: ActivityRow) => x.organizationName, sel.organization),
      Stage((x: ActivityRow) => x.cohortName, sel.cohort),
      Stage((x: ActivityRow) => x.programName, sel.program),
      Stage((x: ActivityRow) => x.physicianName, sel.physician),
      Stage((x: ActivityRow) => x.participantGender, sel.gender),
      Stage((x: ActivityRow) => x.ageGroup, sel.ageGroup),
      Stage((x: ActivityRow) => x.ethnicity, sel.ethnicity),
      Stage((x: ActivityRow) => x.city, sel.city),
      Stage((x: ActivityRow) => x.participantName, sel.participant) ]
  }

  /** The table every chart below the sidebar reads. */
  function StepsFiltered(t: seq<ActivityRow>, sel: ActivitySelection): seq<ActivityRow>
  {
    Pipeline(t, ActivityStages(sel))
  }

  /** A row satisfies every one of the nine selections, column by column. */
  predicate MatchesActivity(sel: ActivitySelection, x: ActivityRow)
  {
    && Keeps(sel.organization, x.organizationName)
    && Keeps(sel.cohort, x.cohortName)
    && Keeps(sel.program, x.programName)
    && Keeps(sel.physician, x.physicianName)
    && Keeps(sel.gender, x.participantGender)
    && Keeps(sel.ageGroup, x.ageGroup)
    && Keeps(sel.ethnicity, x.ethnicity)
    && Keeps(sel.city, x.city)
    && Keeps(sel.participant, x.participantName)
  }

  /** Passing the nine stages is matching the nine selections. */
  lemma PassesActivityStages(sel: ActivitySelection, x: ActivityRow)
    ensures PassesAll(ActivityStages(sel), x) <==> MatchesActivity(sel, x)
  {
    var stages := ActivityStages(sel);
    if PassesAll(stages, x) {
      assert Passes(stages[0], x) && Passes(stages[1], x) && Passes(stages[2], x);
      assert Passes(stages[3], x) && Passes(stages[4], x) && Passes(stages[5], x);
      assert Passes(stages[6], x) && Passes(stages[7], x) && Passes(stages[8], x);
    }
    if MatchesActivity(sel, x) {
      forall i | 0 <= i < |stages|
        ensures Passes(stages[i], x)
      {
        if i == 0 {} else if i == 1 {} else if i == 2 {} else if i == 3 {}
        else if i == 4 {} else if i == 5 {} else if i == 6 {} else if i == 7 {}
        else {}
      }
    }
  }

  /**
   * The filtered table holds, in input order, exactly the input rows that
   * satisfy every selection other than "All".
   */
  lemma StepsFilteredRows(t: seq<ActivityRow>, sel: ActivitySelection)
    ensures Subsequence(StepsFiltered(t, sel), t)
    ensures forall x :: x in StepsFiltered(t, sel) <==> x in t && MatchesActivity(sel, x)
  {
    PipelineRows(t, ActivityStages(sel));
    forall x ensures PassesAll(ActivityStages(sel), x) <==> MatchesActivity(sel, x) {
      PassesActivityStages(sel, x);
    }
  }

  /**
   * Both photo lookups are safe when every selection was offered: a
   * physician or participant other than "All" leaves a first row.
   */
  lemma StepsPhotosAreSafe(t: seq<ActivityRow>, sel: ActivitySelection)
    requires Offered(t, ActivityStages(sel))
    ensures PickPhoto(StepsFiltered(t, sel), (x: ActivityRow) => x.physicianPhoto, sel.physician).Ok?
    ensures PickPhoto(StepsFiltered(t, sel), (x: ActivityRow) => x.participantPhotoURL, sel.participant).Ok?
  {
    OfferedPhotoIsSafe(t, ActivityStages(sel), 3, (x: ActivityRow) => x.physicianPhoto);
    OfferedPhotoIsSafe(t, ActivityStages(sel), 8, (x: ActivityRow) => x.participantPhotoURL);
  }

  // ---------------------------------------------------------------------
  // Counts over the filtered table
  // ---------------------------------------------------------------------

  /** `df_filtered["AnomalyType"].value_counts()`. */
  function AnomalyCounts(t: seq<ActivityRow>): seq<Entry>
  {
    ValueCounts(Values(t, (x: ActivityRow) => x.anomalyType))
  }

  /**
   * One entry per anomaly type present, counting the rows of that type,
   * most frequent first; the counts add up to the rows whose type is present.
   */
  lemma AnomalyCountsSpec(t: seq<ActivityRow>)
    ensures NonIncreasing(AnomalyCounts(t)) && DistinctKeys(AnomalyCounts(t))
    ensures forall e :: e in AnomalyCounts(t) ==>
      e.count == |Narrow(t, (x: ActivityRow) => x.anomalyType, e.key)| && e.count > 0
    ensures forall v :: v in Keys(AnomalyCounts(t)) <==> exists i :: 0 <= i < |t| && t[i].anomalyType == Some(v)
    ensures Total(AnomalyCounts(t)) == CountPresent(t, (x: ActivityRow) => x.anomalyType)
  {
    var column := (x: ActivityRow) => x.anomalyType;
    ValueCountsSpec(Values(t, column));
    ValuesMembers(t, column);
    forall e | e in AnomalyCounts(t)
      ensures e.count == |Narrow(t, column, e.key)|
    {
      ValuesCountRows(t, column, e.key);
    }
  }

  /** `df_filtered["ParticipantName"].value_counts().head(10)`. */
  function TopParticipants(t: seq<ActivityRow>): seq<Entry>
  {
    Head(ValueCounts(Values(t, (x: ActivityRow) => x.participantName)), 10)
  }

  /**
   * At most ten participants, most rows first, each with its number of
   * rows; a named participant left out has no more rows than any listed one,
   * and one is left out only when ten are listed.
   */
  lemma TopParticipantsSpec(t: seq<ActivityRow>)
    ensures |TopParticipants(t)| <= 10
    ensures NonIncreasing(TopParticipants(t)) && DistinctKeys(TopParticipants(t))
    ensures forall e :: e in TopParticipants(t) ==>
      e.count == |Narrow(t, (x: ActivityRow) => x.participantName, e.key)| && e.count > 0
    ensures forall i, v :: 0 <= i < |TopParticipants(t)| && v !in Keys(TopParticipants(t)) ==>
      |Narrow(t, (x: ActivityRow) => x.participantName, v)| <= TopParticipants(t)[i].count
    ensures |TopParticipants(t)| == 10 ||
      forall v :: (exists i :: 0 <= i < |t| && t[i].participantName == Some(v)) ==> v in Keys(TopParticipants(t))
  {
    var column := (x: ActivityRow) => x.participantName;
    HeadOfValueCounts(Values(t, column), 10);
    ValuesMembers(t, column);
    forall v {
      ValuesCountRows(t, column, v);
    }
  }
}
