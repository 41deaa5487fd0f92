/** `XmlExpirementRepository`: the older repository, with the domain term
    spelt "Expirement". It performs the same document changes as
    `XmlExperimentRepository` (under other element names), has no listing, and
    returns a differently shaped participation record that never reports a
    conversion. */
module ExpirementRepository {
  import opened Matching
  import opened Storage

  /** The record this repository returns: no conversion date, and the
      experiment's name. */
  datatype ParticipationRecord = ParticipationRecord(
    expirementName: string,
    userIdentifier: string,
    assignedOption: string,
    hasConverted: bool)

  /** The record returned for a stored participant: the `HasConverted`
      attribute is not read. */
  function Report(expirementName: string, p: ParticipantElement): (r: ParticipationRecord)
    ensures r.expirementName == expirementName && r.userIdentifier == p.id && r.assignedOption == p.option
    ensures !r.hasConverted
  {
    ParticipationRecord(expirementName, p.id, p.option, false)
  }

  /** After Convert marks a participant, GetOrCreateParticipationRecord in
      this repository finds that record (stored with `HasConverted = true`) and
      still reports it unconverted, where XmlExperimentRepository reports the
      conversion. */
  lemma ConvertedYetReportedUnconverted(doc: Document, expirementName: string, userId: string, now: Time)
    requires Wellformed(doc) && ConvertAll(doc, expirementName, userId, now).Ok?
    requires FindParticipation(doc, expirementName, userId).Ok?
    ensures var d := ConvertAll(doc, expirementName, userId, now).value;
      && FindParticipation(d, expirementName, userId) == FindParticipation(doc, expirementName, userId)
      && FindParticipation(d, expirementName, userId).value.Existing?
      && var at, slot := FindParticipation(d, expirementName, userId).value.at,
                         FindParticipation(d, expirementName, userId).value.slot;
         && ParticipantsOf(d[at])[slot].hasConverted == Some(true)
         && Report(expirementName, ParticipantsOf(d[at])[slot]) ==
              ParticipationRecord(expirementName, userId, ParticipantsOf(doc[at])[slot].option, false)
  {
    var d := ConvertAll(doc, expirementName, userId, now).value;
    ConvertKeepsLookup(doc, expirementName, userId, now, expirementName, userId);
    ConvertTouchesOnlyMatches(doc, expirementName, userId, now);
    var at := FindParticipation(doc, expirementName, userId).value.at;
    assert doc[at].name == expirementName by { assert Names(doc)[at] == expirementName; }
    var j :| SoleMatch(Ids(ParticipantsOf(doc[at])), userId, j) &&
             ParticipantsOf(d[at])[j] == Mark(ParticipantsOf(doc[at])[j], now);
    assert FindParticipation(doc, expirementName, userId).value == Existing(at, j);
    assert ParticipantsOf(doc[at])[j] in ParticipantsOf(doc[at]);
    assert Ids(ParticipantsOf(doc[at]))[j] == userId;
  }

  class XmlExpirementRepository {
    /** The backing file's document; None while the file does not exist. */
    var file: Option<Document>
    /** How many times an operation has called the option chooser. */
    ghost var chooserCalls: nat

    /** A repository over a path whose file holds `stored` (None: no file). */
    constructor (stored: Option<Document>)
      ensures file == stored && chooserCalls == 0
    {
      file := stored;
      chooserCalls := 0;
    }

    /** The one-argument overload: the keyword is the name. */
    method CreateExpirement(expirementName: string, utcNow: Time)
      modifies this`file
      ensures expirementName in Names(old(Load(file))) ==> file == old(file)
      ensures expirementName !in Names(old(Load(file))) ==>
                file == Some(Create(old(Load(file)), expirementName, expirementName, utcNow))
      ensures Wellformed(old(Load(file))) ==> Wellformed(Load(file))
    {
      CreateExpirementWithKeyword(expirementName, expirementName, utcNow);
    }

    /** Adds an experiment unless one with that name exists; an existing name
        returns before `Save`, so nothing is committed. */
    method CreateExpirementWithKeyword(expirementName: string, conversionKeyword: string, utcNow: Time)
      modifies this`file
      ensures expirementName in Names(old(Load(file))) ==> file == old(file)
      ensures expirementName !in Names(old(Load(file))) ==>
                file == Some(Create(old(Load(file)), expirementName, conversionKeyword, utcNow))
      ensures Wellformed(old(Load(file))) ==> Wellformed(Load(file))
    {
      var xml := Load(file);
      if expirementName in Names(xml) {
        return;
      }
      var exp := ExperimentElement(expirementName, None, utcNow, None, None, None);
      if expirementName != conversionKeyword {
        exp := exp.(conversionKeyword := Some(conversionKeyword));
      }
      assert exp == NewExperiment(expirementName, conversionKeyword, utcNow);
      if Wellformed(xml) {
        CreatePreservesWellformed(xml, expirementName, conversionKeyword, utcNow);
      }
      xml := xml + [exp];
      file := Some(xml);
    }

    /** Returns the user's record in the named experiment. An existing
        record is reported unconverted whatever is stored, without calling
        the chooser or committing; otherwise the chooser is called once and
        the new, unconverted record is committed and returned. */
    method GetOrCreateParticipationRecord(expirementName: string, chooseAnOptionForUser: () -> string, userId: string)
      returns (r: Result<ParticipationRecord>)
      modifies this
      ensures match FindParticipation(old(Load(file)), expirementName, userId)
        case Err(e) =>
          r == Err(e) && file == old(file) && chooserCalls == old(chooserCalls)
        case Ok(Existing(at, slot)) =>
          && r == Ok(ParticipationRecord(expirementName, userId, ParticipantsOf(old(Load(file))[at])[slot].option, false))
          && file == old(file) && chooserCalls == old(chooserCalls)
        case Ok(Absent(at)) =>
          var option := chooseAnOptionForUser();
          && r == Ok(ParticipationRecord(expirementName, userId, option, false))
          && file == Some(Enroll(old(Load(file)), at, userId, option))
          && chooserCalls == old(chooserCalls) + 1
      ensures Wellformed(old(Load(file))) ==> Wellformed(Load(file))
    {
      var xml := Load(file);
      var found := Single(Names(xml), expirementName);
      if found.NoMatch? {
        return Err(NoSuchExperiment);
      } else if found.ManyMatches? {
        return Err(DuplicateExperiment);
      }
      var expirement := xml[found.index];
      if expirement.participants.None? {
        expirement := expirement.(participants := Some([]));
      }
      var participants := expirement.participants.value;
      var existing := Single(Ids(participants), userId);
      if existing.ManyMatches? {
        return Err(DuplicateParticipant);
      } else if existing.OneMatch? {
        assert Ids(participants)[existing.index] == userId;
        return Ok(Report(expirementName, participants[existing.index]));
      }
      var assignedOption := chooseAnOptionForUser();
      chooserCalls := chooserCalls + 1;
      expirement := expirement.(participants := Some(participants + [ParticipantElement(userId, assignedOption, None, None)]));
      if Wellformed(xml) {
        EnrollPreservesWellformed(xml, expirementName, userId, assignedOption);
      }
      xml := xml[found.index := expirement];
      file := Some(xml);
      r := Ok(ParticipationRecord(expirementName, userId, assignedOption, false));
    }

    /** Marks the user converted in every experiment the keyword matches,
        all or nothing: any exception in the loop leaves the file as it
        was. */
    method Convert(conversionKeyword: string, userId: string, utcNow: Time) returns (r: Result<()>)
      modifies this`file
      ensures match ConvertAll(old(Load(file)), conversionKeyword, userId, utcNow)
        case Err(e) => r == Err(e) && file == old(file)
        case Ok(d) => r == Ok(()) && file == Some(d)
      ensures Wellformed(old(Load(file))) ==> Wellformed(Load(file))
    {
      var xml := Load(file);
      var converted := ConvertDocument(xml, conversionKeyword, userId, utcNow);
      if converted.Err? {
        return Err(converted.error);
      }
      if Wellformed(xml) {
        ConvertPreservesWellformed(xml, conversionKeyword, userId, utcNow);
      }
      file := Some(converted.value);
      r := Ok(());
    }
  }
}
