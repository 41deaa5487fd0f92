/** `XmlExperimentRepository`: the current repository. It lists the stored
    experiments as domain values, creates experiments, gets or creates a
    user's participation record, and records conversions. Every operation
    loads the whole document, changes the loaded copy, and commits it with
    `Save` only if it gets that far. */
module ExperimentRepository {
  import opened Matching
  import opened Storage

  /** A participation record as the domain sees it. */
  datatype ParticipationRecord = ParticipationRecord(
    userId: string,
    assignedOption: string,
    hasConverted: bool,
    dateConverted: Option<Time>)

  /** An experiment as the domain sees it: the keyword is always present. */
  datatype Experiment = Experiment(
    name: string,
    conversionKeyword: string,
    started: Time,
    ended: Option<Time>,
    participants: seq<ParticipationRecord>)

  /** The record read from a stored participant: a missing `HasConverted`
      reads as false, a missing `DateConverted` as null. */
  function Record(p: ParticipantElement): (r: ParticipationRecord)
    ensures r.userId == p.id && r.assignedOption == p.option
    ensures r.hasConverted <==> p.hasConverted == Some(true)
    ensures r.dateConverted == p.dateConverted
  {
    ParticipationRecord(p.id, p.option, p.hasConverted.GetOr(false), p.dateConverted)
  }

  /** An experiment element as listed: a missing `ConversionKeyword` reads as
      the name, a missing `Participants` element as no participants. */
  function ListExperiment(e: ExperimentElement): (r: Experiment)
    ensures r.name == e.name && r.started == e.started && r.ended == e.ended
    ensures e.conversionKeyword.None? ==> r.conversionKeyword == e.name
    ensures e.conversionKeyword.Some? ==> r.conversionKeyword == e.conversionKeyword.value
    ensures |r.participants| == |ParticipantsOf(e)|
    ensures forall j :: 0 <= j < |r.participants| ==> r.participants[j] == Record(ParticipantsOf(e)[j])
  {
    var ps := ParticipantsOf(e);
    Experiment(e.name, e.conversionKeyword.GetOr(e.name), e.started, e.ended,
               seq(|ps|, j requires 0 <= j < |ps| => Record(ps[j])))
  }

  /** The listing with each participant's own `DateConverted` read (the
      corrected projection; see ListAsWritten). */
  function Listing(doc: Document): (r: seq<Experiment>)
    ensures |r| == |doc|
    ensures forall i :: 0 <= i < |doc| ==> r[i].name == Names(doc)[i] && r[i] == ListExperiment(doc[i])
  {
    seq(|doc|, i requires 0 <= i < |doc| => ListExperiment(doc[i]))
  }

  // ---------------------------------------------------------------------
  // The listing as written
  // ---------------------------------------------------------------------

  /** The projection as written reads a participant's `DateConverted` only
      when the EXPERIMENT element has a `DateConverted` attribute. */
  function RecordAsWritten(e: ExperimentElement, p: ParticipantElement): ParticipationRecord {
    ParticipationRecord(p.id, p.option, p.hasConverted.GetOr(false),
                        if e.dateConverted.None? then None else p.dateConverted)
  }

  function ExperimentAsWritten(e: ExperimentElement): Experiment {
    var ps := ParticipantsOf(e);
    Experiment(e.name, e.conversionKeyword.GetOr(e.name), e.started, e.ended,
               seq(|ps|, j requires 0 <= j < |ps| => RecordAsWritten(e, ps[j])))
  }

  /** The projection as written dereferences a participant's missing
      `DateConverted` when its experiment carries one. */
  predicate ListingFaults(doc: Document) {
    exists i, j :: 0 <= i < |doc| && doc[i].dateConverted.Some? &&
      0 <= j < |ParticipantsOf(doc[i])| && ParticipantsOf(doc[i])[j].dateConverted.None?
  }

  /** FindAllExperiments as written: it throws exactly when some experiment
      carries a `DateConverted` and one of its participants does not;
      otherwise it lists what the corrected listing lists, except that a
      participant's `DateConverted` is null whenever its experiment element
      has none. */
  function ListAsWritten(doc: Document): (r: Result<seq<Experiment>>)
    ensures r.Err? <==> ListingFaults(doc)
    ensures r.Err? ==> r.error == MissingAttribute
    ensures r.Ok? ==> var fixed := Listing(doc);
      && |r.value| == |doc|
      && forall i :: 0 <= i < |doc| ==>
           && r.value[i].(participants := []) == fixed[i].(participants := [])
           && |r.value[i].participants| == |fixed[i].participants|
           && forall j :: 0 <= j < |r.value[i].participants| ==>
                r.value[i].participants[j] ==
                  if doc[i].dateConverted.None? then fixed[i].participants[j].(dateConverted := None)
                  else fixed[i].participants[j]
  {
    if ListingFaults(doc) then Err(MissingAttribute)
    else Ok(seq(|doc|, i requires 0 <= i < |doc| => ExperimentAsWritten(doc[i])))
  }

  /** On every document the repositories write (none carries an
      experiment-level `DateConverted`) the listing as written succeeds and
      agrees with the corrected listing except that every `DateConverted` is
      null. */
  lemma ListAsWrittenDropsDates(doc: Document)
    requires forall i :: 0 <= i < |doc| ==> doc[i].dateConverted.None?
    ensures ListAsWritten(doc).Ok?
    ensures var listed, fixed := ListAsWritten(doc).value, Listing(doc);
      && |listed| == |fixed| == |doc|
      && forall i :: 0 <= i < |doc| ==>
           && listed[i].(participants := []) == fixed[i].(participants := [])
           && |listed[i].participants| == |fixed[i].participants|
           && forall j :: 0 <= j < |listed[i].participants| ==>
                listed[i].participants[j] == fixed[i].participants[j].(dateConverted := None)
  {
  }

  /** The discrepancy on a concrete store: after Convert marks alice in
      "signup" at instant 5, the listing as written reports her converted
      with no conversion date; the corrected listing reports the date. */
  lemma ConversionDateLostAsWritten()
    ensures var doc := [ExperimentElement("signup", None, 0, None, None,
                                          Some([ParticipantElement("alice", "B", None, None)]))];
            var converted := [ExperimentElement("signup", None, 0, None, None,
                                                Some([ParticipantElement("alice", "B", Some(true), Some(5))]))];
            && ConvertAll(doc, "signup", "alice", 5) == Ok(converted)
            && ListAsWritten(converted) ==
                 Ok([Experiment("signup", "signup", 0, None, [ParticipationRecord("alice", "B", true, None)])])
            && Listing(converted) ==
                 [Experiment("signup", "signup", 0, None, [ParticipationRecord("alice", "B", true, Some(5))])]
  {
    var p := ParticipantElement("alice", "B", None, None);
    var e := ExperimentElement("signup", None, 0, None, None, Some([p]));
    assert Ids([p]) == ["alice"];
    assert Single(["alice"], "alice") == OneMatch(0) by {
      assert ["alice"][..0] == [];
    }
    var marked := Mark(p, 5);
    var e' := e.(participants := Some([marked]));
    assert [p][0 := marked] == [marked];
    assert ConvertStep(e, "signup", "alice", 5) == Ok(e');
    assert [e][..0] == [];
    assert ConvertAll([], "signup", "alice", 5) == Ok([]);
    assert [] + [e'] == [e'];
    assert ConvertAll([e], "signup", "alice", 5) == Ok([e']);
    assert marked == ParticipantElement("alice", "B", Some(true), Some(5));
    assert ListExperiment(e').participants == [Record(marked)];
    assert ExperimentAsWritten(e').participants == [RecordAsWritten(e', marked)];
    assert Listing([e']) == [ListExperiment(e')];
    assert !ListingFaults([e']);
    assert ListAsWritten([e']).value == [ExperimentAsWritten(e')];
  }

  /** The corrected listing shows a conversion: in a store the repositories
      wrote, after Convert every matched experiment lists the user's record as
      converted with a conversion date, and with this call's date when it was
      not converted before. */
  lemma ListingShowsConversion(doc: Document, keyword: string, userId: string, now: Time, i: int)
    requires Wellformed(doc) && ConvertAll(doc, keyword, userId, now).Ok?
    requires 0 <= i < |doc| && Matches(doc[i], keyword)
    ensures var listed := Listing(ConvertAll(doc, keyword, userId, now).value)[i].participants;
      exists j :: 0 <= j < |listed| && listed[j].userId == userId && listed[j].hasConverted &&
        listed[j].dateConverted.Some? &&
        (ParticipantsOf(doc[i])[j].hasConverted.None? ==> listed[j].dateConverted == Some(now))
  {
    var d := ConvertAll(doc, keyword, userId, now).value;
    ConvertTouchesOnlyMatches(doc, keyword, userId, now);
    ConvertPreservesWellformed(doc, keyword, userId, now);
    var j :| SoleMatch(Ids(ParticipantsOf(doc[i])), userId, j) &&
             ParticipantsOf(d[i])[j] == Mark(ParticipantsOf(doc[i])[j], now);
    assert ParticipantsOf(doc[i])[j] in ParticipantsOf(doc[i]);
    assert ParticipantsOf(d[i])[j] in ParticipantsOf(d[i]);
    assert WrittenExperiment(d[i]);
    var listed := Listing(d)[i].participants;
    assert listed[j] == Record(ParticipantsOf(d[i])[j]);
  }

  /** Convert's filter picks out exactly the experiments that the listing
      shows with the keyword as their name or as their conversion keyword. */
  lemma ListedKeywordMatches(e: ExperimentElement, keyword: string)
    ensures Matches(e, keyword) <==>
      ListExperiment(e).name == keyword || ListExperiment(e).conversionKeyword == keyword
  {
  }

  /** Creating a new name lists exactly what was asked for, at the end of the
      listing: the keyword given (the name, for the one-argument overload),
      `Started` = now, no end, no participants; earlier experiments are listed
      as before. */
  lemma CreateThenList(doc: Document, name: string, keyword: string, now: Time)
    requires name !in Names(doc)
    ensures Listing(Create(doc, name, keyword, now)) == Listing(doc) + [Experiment(name, keyword, now, None, [])]
  {
    var r := Create(doc, name, keyword, now);
    var e := NewExperiment(name, keyword, now);
    assert r == doc + [e];
    assert ListExperiment(e) == Experiment(name, keyword, now, None, []);
    assert Listing(r) == Listing(doc) + [ListExperiment(e)];
  }

  /** Convert followed by GetOrCreateParticipationRecord for the same
      experiment and user: the lookup ends at the same record, and the record
      returned reports the conversion with its date. */
  lemma GetOrCreateAfterConvert(doc: Document, experimentName: string, userId: string, now: Time)
    requires Wellformed(doc) && ConvertAll(doc, experimentName, userId, now).Ok?
    requires FindParticipation(doc, experimentName, userId).Ok?
    ensures var d := ConvertAll(doc, experimentName, userId, now).value;
      && FindParticipation(d, experimentName, userId) == FindParticipation(doc, experimentName, userId)
      && FindParticipation(d, experimentName, userId).value.Existing?
      && var at, slot := FindParticipation(d, experimentName, userId).value.at,
                         FindParticipation(d, experimentName, userId).value.slot;
         Record(ParticipantsOf(d[at])[slot]).hasConverted &&
         Record(ParticipantsOf(d[at])[slot]).dateConverted.Some?
  {
    var d := ConvertAll(doc, experimentName, userId, now).value;
    ConvertKeepsLookup(doc, experimentName, userId, now, experimentName, userId);
    ConvertTouchesOnlyMatches(doc, experimentName, userId, now);
    ConvertPreservesWellformed(doc, experimentName, userId, now);
    var at := FindParticipation(doc, experimentName, userId).value.at;
    assert doc[at].name == experimentName by { assert Names(doc)[at] == experimentName; }
    var j :| SoleMatch(Ids(ParticipantsOf(doc[at])), userId, j) &&
             ParticipantsOf(d[at])[j] == Mark(ParticipantsOf(doc[at])[j], now);
    var f := FindParticipation(doc, experimentName, userId).value;
    assert f.Existing? && f.slot == j;
    assert ParticipantsOf(doc[at])[j] in ParticipantsOf(doc[at]);
    assert ParticipantsOf(d[at])[j] in ParticipantsOf(d[at]);
    assert WrittenExperiment(d[at]);
  }

  // ---------------------------------------------------------------------
  // The repository
  // ---------------------------------------------------------------------

  class XmlExperimentRepository {
    /** The backing file's document; None while the file does not exist. */
    var file: Option<Document>
    /** How many times an operation has called the option chooser. */
    ghost var chooserCalls: nat

    /** A repository over a path whose file holds `stored` (None: no file). */
    constructor (stored: Option<Document>)
      ensures file == stored && chooserCalls == 0
    {
      file := stored;
      chooserCalls := 0;
    }

    /** Lists every experiment of the loaded document in storage order. */
    method FindAllExperiments() returns (experiments: seq<Experiment>)
      ensures experiments == Listing(Load(file))
    {
      var xml := Load(file);
      experiments := Listing(xml);
    }

    /** The one-argument overload: the keyword is the name. */
    method CreateExperiment(experimentName: string, utcNow: Time)
      modifies this`file
      ensures experimentName in Names(old(Load(file))) ==> file == old(file)
      ensures experimentName !in Names(old(Load(file))) ==>
                file == Some(Create(old(Load(file)), experimentName, experimentName, utcNow))
      ensures Wellformed(old(Load(file))) ==> Wellformed(Load(file))
    {
      CreateExperimentWithKeyword(experimentName, experimentName, utcNow);
    }

    /** Adds an experiment unless one with that name exists; an existing name
        returns before `Save`, so nothing is committed. */
    method CreateExperimentWithKeyword(experimentName: string, conversionKeyword: string, utcNow: Time)
      modifies this`file
      ensures experimentName in Names(old(Load(file))) ==> file == old(file)
      ensures experimentName !in Names(old(Load(file))) ==>
                file == Some(Create(old(Load(file)), experimentName, conversionKeyword, utcNow))
      ensures Wellformed(old(Load(file))) ==> Wellformed(Load(file))
    {
      var xml := Load(file);
      if experimentName in Names(xml) {
        return;
      }
      var exp := ExperimentElement(experimentName, None, utcNow, None, None, None);
      if experimentName != conversionKeyword {
        exp := exp.(conversionKeyword := Some(conversionKeyword));
      }
      assert exp == NewExperiment(experimentName, conversionKeyword, utcNow);
      if Wellformed(xml) {
        CreatePreservesWellformed(xml, experimentName, conversionKeyword, utcNow);
      }
      xml := xml + [exp];
      file := Some(xml);
    }

    /** Returns the user's record in the named experiment. An existing
        record is returned as stored, without calling the chooser or
        committing; otherwise the chooser is called once and the new,
        unconverted record is committed and returned. */
    method GetOrCreateParticipationRecord(experimentName: string, chooseAnOptionForUser: () -> string, userId: string)
      returns (r: Result<ParticipationRecord>)
      modifies this
      ensures match FindParticipation(old(Load(file)), experimentName, userId)
        case Err(e) =>
          r == Err(e) && file == old(file) && chooserCalls == old(chooserCalls)
        case Ok(Existing(at, slot)) =>
          && r == Ok(Record(ParticipantsOf(old(Load(file))[at])[slot]))
          && file == old(file) && chooserCalls == old(chooserCalls)
        case Ok(Absent(at)) =>
          var option := chooseAnOptionForUser();
          && r == Ok(ParticipationRecord(userId, option, false, None))
          && file == Some(Enroll(old(Load(file)), at, userId, option))
          && chooserCalls == old(chooserCalls) + 1
      ensures Wellformed(old(Load(file))) ==> Wellformed(Load(file))
    {
      var xml := Load(file);
      var found := Single(Names(xml), experimentName);
      if found.NoMatch? {
        return Err(NoSuchExperiment);
      } else if found.ManyMatches? {
        return Err(DuplicateExperiment);
      }
      var experiment := xml[found.index];
      if experiment.participants.None? {
        experiment := experiment.(participants := Some([]));
      }
      var participants := experiment.participants.value;
      var existing := Single(Ids(participants), userId);
      if existing.ManyMatches? {
        return Err(DuplicateParticipant);
      } else if existing.OneMatch? {
        return Ok(Record(participants[existing.index]));
      }
      var assignedOption := chooseAnOptionForUser();
      chooserCalls := chooserCalls + 1;
      experiment := experiment.(participants := Some(participants + [ParticipantElement(userId, assignedOption, None, None)]));
      if Wellformed(xml) {
        EnrollPreservesWellformed(xml, experimentName, userId, assignedOption);
      }
      xml := xml[found.index := experiment];
      file := Some(xml);
      r := Ok(ParticipationRecord(userId, assignedOption, false, None));
    }

    /** Marks the user converted in every experiment the keyword matches,
        all or nothing: any exception in the loop leaves the file as it
        was. */
    method Convert(conversionKeyword: string, userId: string, utcNow: Time) returns (r: Result<()>)
      modifies this`file
      ensures match ConvertAll(old(Load(file)), conversionKeyword, userId, utcNow)
        case Err(e) => r == Err(e) && file == old(file)
        case Ok(d) => r == Ok(()) && file == Some(d)
      ensures Wellformed(old(Load(file))) ==> Wellformed(Load(file))
    {
      var xml := Load(file);
      var converted := ConvertDocument(xml, conversionKeyword, userId, utcNow);
      if converted.Err? {
        return Err(converted.error);
      }
      if Wellformed(xml) {
        ConvertPreservesWellformed(xml, conversionKeyword, userId, utcNow);
      }
      file := Some(converted.value);
      r := Ok(());
    }
  }
}
