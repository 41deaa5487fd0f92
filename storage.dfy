/** The experiment store's document, shared by both repositories: the
    operations each of them performs on the loaded document before it is saved
    back, and the facts proved about those operations.

    The repositories differ only in element names, which this model does not
    represent, so the document and its transformations are defined once here.
    An attribute that may be absent is an `Option`; every other attribute is
    always present. */
module Storage {
  import opened Matching

  /** An instant as written by `UtcNow` and read back by `DateTime.Parse`. */
  type Time = int

  datatype Option<T> = None | Some(value: T) {
    function GetOr(default: T): T {
      match this
      case Some(v) => v
      case None => default
    }
  }

  /** A `Participant` element: its `Id` attribute, its text (the assigned
      option) and the two attributes that a conversion adds. */
  datatype ParticipantElement = ParticipantElement(
    id: string,
    option: string,
    hasConverted: Option<bool>,
    dateConverted: Option<Time>)

  /** An experiment element. `dateConverted` is an attribute on the experiment
      itself: the repositories never write it, but the listing reads it. */
  datatype ExperimentElement = ExperimentElement(
    name: string,
    conversionKeyword: Option<string>,
    started: Time,
    ended: Option<Time>,
    dateConverted: Option<Time>,
    participants: Option<seq<ParticipantElement>>)

  /** The experiment elements under the root, in document order. */
  type Document = seq<ExperimentElement>

  /** The exceptions an operation can raise; each one aborts the operation
      before `Save`, so nothing is committed. */
  datatype Error =
    | NoSuchExperiment       // `Single` on the experiment name found none
    | DuplicateExperiment    // `Single` on the experiment name found several
    | NoSuchParticipant      // `Single` on the user id found none
    | DuplicateParticipant   // `Single`/`SingleOrDefault` on the user id found several
    | MissingParticipants    // a matched experiment has no `Participants` element
    | DuplicateAttribute     // `Add` of a `DateConverted` the participant already has
    | MissingAttribute       // `.Value` of an attribute that is absent

  datatype Result<T> = Ok(value: T) | Err(error: Error)

  /** `Load`: the stored document, or an empty root when the file is absent.
      What `Save` committed last is what the next operation loads. */
  function Load(file: Option<Document>): (doc: Document)
    ensures file.Some? ==> doc == file.value
    ensures file.None? ==> doc == []
  {
    file.GetOr([])
  }

  function Names(doc: Document): seq<string> {
    seq(|doc|, i requires 0 <= i < |doc| => doc[i].name)
  }

  function Ids(ps: seq<ParticipantElement>): seq<string> {
    seq(|ps|, i requires 0 <= i < |ps| => ps[i].id)
  }

  /** The participants of an experiment; a missing `Participants` element has
      none. */
  function ParticipantsOf(e: ExperimentElement): seq<ParticipantElement> {
    e.participants.GetOr([])
  }

  // ---------------------------------------------------------------------
  // Invariant of every document the repositories write
  // ---------------------------------------------------------------------

  /** A participant as the repositories write it: either untouched by a
      conversion, or carrying both attributes Convert adds. */
  predicate WrittenParticipant(p: ParticipantElement) {
    || (p.hasConverted == None && p.dateConverted == None)
    || (p.hasConverted == Some(true) && p.dateConverted.Some?)
  }

  /** An experiment as the repositories write it: no experiment-level
      `DateConverted`, a `ConversionKeyword` only when it differs from the
      name, unique participant ids. */
  predicate WrittenExperiment(e: ExperimentElement) {
    && e.dateConverted == None
    && e.conversionKeyword != Some(e.name)
    && UniqueKeys(Ids(ParticipantsOf(e)))
    && forall p :: p in ParticipantsOf(e) ==> WrittenParticipant(p)
  }

  /** Experiment names are unique and every element is as written. */
  predicate Wellformed(doc: Document) {
    && UniqueKeys(Names(doc))
    && forall i :: 0 <= i < |doc| ==> WrittenExperiment(doc[i])
  }

  /** An absent file loads as the empty document, which is well formed. */
  lemma AbsentFileIsEmptyStore()
    ensures Load(None) == [] && Wellformed(Load(None))
  {
  }

  // ---------------------------------------------------------------------
  // CreateExperiment
  // ---------------------------------------------------------------------

  /** The element CreateExperiment builds: `Started` = now, no `Ended`, no
      participants, and a `ConversionKeyword` only when it differs from the
      name. */
  function NewExperiment(name: string, keyword: string, now: Time): (e: ExperimentElement)
    ensures e.name == name && e.started == now && e.ended == None && e.participants == None
    ensures e.conversionKeyword.GetOr(name) == keyword
    ensures WrittenExperiment(e)
  {
    ExperimentElement(name, if name != keyword then Some(keyword) else None, now, None, None, None)
  }

  /** The document CreateExperiment commits when the name is new: the
      original document with one experiment appended. */
  function Create(doc: Document, name: string, keyword: string, now: Time): (r: Document)
    requires name !in Names(doc)
    ensures |r| == |doc| + 1 && r[..|doc|] == doc
    ensures r[|doc|] == NewExperiment(name, keyword, now)
    ensures Names(r) == Names(doc) + [name]
  {
    var r := doc + [NewExperiment(name, keyword, now)];
    assert Names(r) == Names(doc) + [name];
    r
  }

  /** The created name is present afterwards, so a second CreateExperiment
      with the same name (any keyword, any clock) takes the early return and
      commits nothing: creation is idempotent. */
  lemma CreateRegistersName(doc: Document, name: string, keyword: string, now: Time)
    requires name !in Names(doc)
    ensures name in Names(Create(doc, name, keyword, now))
  {
  }

  /** After CreateExperiment exactly one experiment carries the name, and the
      written invariant still holds. */
  lemma CreatePreservesWellformed(doc: Document, name: string, keyword: string, now: Time)
    requires Wellformed(doc) && name !in Names(doc)
    ensures Wellformed(Create(doc, name, keyword, now))
    ensures Single(Names(Create(doc, name, keyword, now)), name) == OneMatch(|doc|)
  {
  }

  // ---------------------------------------------------------------------
  // GetOrCreateParticipationRecord
  // ---------------------------------------------------------------------

  /** Where the lookup of GetOrCreateParticipationRecord ends: an existing
      record (experiment index, participant index), or the experiment to
      which a new record must be added. */
  datatype Participation = Existing(at: nat, slot: nat) | Absent(at: nat)

  /** The lookup of GetOrCreateParticipationRecord: `Single` on the
      experiment name, then `SingleOrDefault` on the user id. */
  function FindParticipation(doc: Document, experimentName: string, userId: string): (r: Result<Participation>)
    ensures r == Err(NoSuchExperiment) <==> experimentName !in Names(doc)
    ensures r == Err(DuplicateExperiment) ==> Repeated(Names(doc), experimentName)
    ensures r == Err(DuplicateParticipant) ==>
      exists i :: SoleMatch(Names(doc), experimentName, i) && Repeated(Ids(ParticipantsOf(doc[i])), userId)
    ensures r.Err? ==> r.error in {NoSuchExperiment, DuplicateExperiment, DuplicateParticipant}
    ensures r.Ok? ==> SoleMatch(Names(doc), experimentName, r.value.at)
    ensures r.Ok? && r.value.Absent? ==> userId !in Ids(ParticipantsOf(doc[r.value.at]))
    ensures r.Ok? && r.value.Existing? ==> SoleMatch(Ids(ParticipantsOf(doc[r.value.at])), userId, r.value.slot)
  {
    match Single(Names(doc), experimentName)
    case NoMatch => Err(NoSuchExperiment)
    case ManyMatches => Err(DuplicateExperiment)
    case OneMatch(i) =>
      match Single(Ids(ParticipantsOf(doc[i])), userId)
      case NoMatch => Ok(Absent(i))
      case OneMatch(j) => Ok(Existing(i, j))
      case ManyMatches => Err(DuplicateParticipant)
  }

  /** The document GetOrCreateParticipationRecord commits for a new user:
      one participant (id, option, unconverted) appended to the experiment,
      its `Participants` element created first when missing. */
  function Enroll(doc: Document, at: nat, userId: string, option: string): (r: Document)
    requires at < |doc|
    ensures |r| == |doc| && Names(r) == Names(doc)
    ensures forall i :: 0 <= i < |doc| && i != at ==> r[i] == doc[i]
    ensures r[at] == doc[at].(participants := r[at].participants)
    ensures ParticipantsOf(r[at]) == ParticipantsOf(doc[at]) + [ParticipantElement(userId, option, None, None)]
  {
    var ps := ParticipantsOf(doc[at]) + [ParticipantElement(userId, option, None, None)];
    var r := doc[at := doc[at].(participants := Some(ps))];
    assert Names(r) == Names(doc);
    r
  }

  /** A second GetOrCreateParticipationRecord for the same experiment and
      user finds the record the first one created: it returns the same option
      and does not ask the chooser again. */
  lemma GetOrCreateTwice(doc: Document, experimentName: string, userId: string, option: string)
    requires FindParticipation(doc, experimentName, userId).Ok?
    requires FindParticipation(doc, experimentName, userId).value.Absent?
    ensures var at := FindParticipation(doc, experimentName, userId).value.at;
            var after := Enroll(doc, at, userId, option);
            && FindParticipation(after, experimentName, userId) == Ok(Existing(at, |ParticipantsOf(doc[at])|))
            && ParticipantsOf(after[at])[|ParticipantsOf(doc[at])|] == ParticipantElement(userId, option, None, None)
  {
    var at := FindParticipation(doc, experimentName, userId).value.at;
    var after := Enroll(doc, at, userId, option);
    var ps := ParticipantsOf(doc[at]);
    var qs := ParticipantsOf(after[at]);
    assert Ids(qs) == Ids(ps) + [userId];
    assert Ids(qs)[..|ps|] == Ids(ps);
  }

  /** In a well-formed store the lookup fails only for an unknown
      experiment, and enrolling a new user keeps the store well formed (so
      participant ids stay unique). */
  lemma EnrollPreservesWellformed(doc: Document, experimentName: string, userId: string, option: string)
    requires Wellformed(doc)
    ensures FindParticipation(doc, experimentName, userId).Ok? <==> experimentName in Names(doc)
    ensures FindParticipation(doc, experimentName, userId).Ok? && FindParticipation(doc, experimentName, userId).value.Absent? ==>
              Wellformed(Enroll(doc, FindParticipation(doc, experimentName, userId).value.at, userId, option))
  {
    SingleOfUnique(Names(doc), experimentName);
    var r := FindParticipation(doc, experimentName, userId);
    if r.Ok? {
      var at := r.value.at;
      SingleOfUnique(Ids(ParticipantsOf(doc[at])), userId);
      if r.value.Absent? {
        var after := Enroll(doc, at, userId, option);
        var ps := ParticipantsOf(doc[at]);
        assert Ids(ParticipantsOf(after[at])) == Ids(ps) + [userId];
        AppendFresh(Ids(ps), userId);
        assert WrittenExperiment(after[at]);
        forall i | 0 <= i < |after| ensures WrittenExperiment(after[i]) {
        }
      }
    } else {
      assert r.error != DuplicateParticipant;
    }
  }

  // ---------------------------------------------------------------------
  // Convert
  // ---------------------------------------------------------------------

  /** Convert's filter: the experiment's `Name`, or its `ConversionKeyword`
      attribute when it has one, equals the keyword. */
  predicate Matches(e: ExperimentElement, keyword: string) {
    e.name == keyword || e.conversionKeyword == Some(keyword)
  }

  /** A record is marked only when it has no `HasConverted` yet; marking adds
      `HasConverted = true` and `DateConverted = now`. */
  function Mark(p: ParticipantElement, now: Time): (r: ParticipantElement)
    ensures r.id == p.id && r.option == p.option && r.hasConverted.Some?
    ensures p.hasConverted.Some? ==> r == p
    ensures p.hasConverted.None? ==> r.hasConverted == Some(true) && r.dateConverted == Some(now)
    ensures WrittenParticipant(p) ==> WrittenParticipant(r)
  {
    if p.hasConverted.Some? then p else p.(hasConverted := Some(true), dateConverted := Some(now))
  }

  /** Marking does not throw: either the record is skipped, or it has no
      `DateConverted` for `Add` to collide with. */
  predicate Markable(p: ParticipantElement) {
    p.hasConverted.Some? || p.dateConverted.None?
  }

  /** One matched experiment in Convert's loop: `Single` on the user id among
      its participants, then the mark. */
  function ConvertIn(e: ExperimentElement, userId: string, now: Time): (r: Result<ExperimentElement>)
    ensures r.Ok? <==>
      e.participants.Some? &&
      exists j :: SoleMatch(Ids(e.participants.value), userId, j) && Markable(e.participants.value[j])
    ensures r.Ok? ==> r.value.participants.Some? && r.value == e.(participants := r.value.participants)
    ensures r.Ok? ==>
      var ps, qs := e.participants.value, r.value.participants.value;
      && |qs| == |ps|
      && forall j :: 0 <= j < |ps| ==> qs[j] == if ps[j].id == userId then Mark(ps[j], now) else ps[j]
  {
    match e.participants
    case None => Err(MissingParticipants)
    case Some(ps) =>
      match Single(Ids(ps), userId)
      case NoMatch => Err(NoSuchParticipant)
      case ManyMatches => Err(DuplicateParticipant)
      case OneMatch(j) =>
        assert forall k :: 0 <= k < |ps| && ps[k].id == userId ==> k == j by {
          forall k | 0 <= k < |ps| && ps[k].id == userId ensures k == j {
            assert Ids(ps)[k] == userId;
          }
        }
        if ps[j].hasConverted.Some? then Ok(e)
        else if ps[j].dateConverted.Some? then Err(DuplicateAttribute)
        else Ok(e.(participants := Some(ps[j := Mark(ps[j], now)])))
  }

  /** What Convert's loop does to one experiment element. */
  function ConvertStep(e: ExperimentElement, keyword: string, userId: string, now: Time): Result<ExperimentElement> {
    if Matches(e, keyword) then ConvertIn(e, userId, now) else Ok(e)
  }

  /** The document Convert commits, or the first exception its loop raises:
      all or nothing, experiments in document order, one shared `now`. */
  function ConvertAll(doc: Document, keyword: string, userId: string, now: Time): (r: Result<Document>)
    ensures r.Ok? <==> forall i :: 0 <= i < |doc| ==> ConvertStep(doc[i], keyword, userId, now).Ok?
    ensures r.Ok? ==>
      && |r.value| == |doc|
      && forall i :: 0 <= i < |doc| ==> r.value[i] == ConvertStep(doc[i], keyword, userId, now).value
    ensures r.Err? ==>
      exists k :: 0 <= k < |doc| && ConvertStep(doc[k], keyword, userId, now) == Err(r.error) &&
        forall i :: 0 <= i < k ==> ConvertStep(doc[i], keyword, userId, now).Ok?
    decreases |doc|
  {
    if |doc| == 0 then Ok([])
    else
      var last := |doc| - 1;
      var init := doc[..last];
      assert forall i :: 0 <= i < last ==> init[i] == doc[i];
      match ConvertAll(init, keyword, userId, now)
      case Err(e) => Err(e)
      case Ok(done) =>
        match ConvertStep(doc[last], keyword, userId, now)
        case Err(e) => Err(e)
        case Ok(x) => Ok(done + [x])
  }

  /** Once a prefix of the document fails, the whole conversion fails with
      the same exception. */
  lemma {:induction false} PrefixFailureAborts(doc: Document, keyword: string, userId: string, now: Time, n: nat)
    requires n <= |doc| && ConvertAll(doc[..n], keyword, userId, now).Err?
    ensures ConvertAll(doc, keyword, userId, now) == ConvertAll(doc[..n], keyword, userId, now)
    decreases |doc| - n
  {
    if n < |doc| {
      var init := doc[..|doc| - 1];
      assert init[..n] == doc[..n];
      PrefixFailureAborts(init, keyword, userId, now, n);
    } else {
      assert doc[..n] == doc;
    }
  }

  /** The body of Convert's loop for one matched experiment, run on its
      element in the loaded copy; `ConvertIn` is its specification. What the
      method adds is the order of the steps: `HasConverted` is added to the
      record before the `DateConverted` that collides. In the repository that
      leaves a half-marked record in the loaded copy; the copy is abandoned
      with the exception, so nothing of it is committed. */
  method MarkParticipant(e: ExperimentElement, userId: string, utcNow: Time) returns (r: Result<ExperimentElement>)
    ensures r == ConvertIn(e, userId, utcNow)
  {
    if e.participants.None? {
      return Err(MissingParticipants);
    }
    var ps := e.participants.value;
    var m := Single(Ids(ps), userId);
    if m.NoMatch? {
      return Err(NoSuchParticipant);
    } else if m.ManyMatches? {
      return Err(DuplicateParticipant);
    }
    var participant := ps[m.index];
    if participant.hasConverted.Some? {
      return Ok(e);
    }
    participant := participant.(hasConverted := Some(true));
    if participant.dateConverted.Some? {
      return Err(DuplicateAttribute);
    }
    participant := participant.(dateConverted := Some(utcNow));
    r := Ok(e.(participants := Some(ps[m.index := participant])));
  }

  /** One more experiment converted: the prefix result grows by that
      experiment's step. */
  lemma ConvertPrefixStep(doc: Document, keyword: string, userId: string, now: Time,
                          i: nat, done: Document, x: ExperimentElement)
    requires i < |doc| && ConvertAll(doc[..i], keyword, userId, now) == Ok(done)
    requires ConvertStep(doc[i], keyword, userId, now) == Ok(x)
    ensures ConvertAll(doc[..i + 1], keyword, userId, now) == Ok(done + [x])
  {
    assert doc[..i + 1][..i] == doc[..i];
  }

  /** Replacing position `i` of a copy whose suffix from `i` is the
      original's keeps the suffix from `i + 1` and extends the prefix by the
      new element. */
  lemma SpliceAt(xml: Document, doc: Document, i: nat, x: ExperimentElement)
    requires i < |xml| == |doc| && xml[i..] == doc[i..]
    ensures xml[i := x][..i + 1] == xml[..i] + [x]
    ensures xml[i := x][i + 1..] == doc[i + 1..]
  {
    assert xml[i + 1..] == xml[i..][1..];
    assert doc[i + 1..] == doc[i..][1..];
  }

  /** Convert's loop, on the loaded copy `doc`: every experiment the keyword
      matches has the user's record marked. Any exception abandons the copy. */
  method ConvertDocument(doc: Document, keyword: string, userId: string, utcNow: Time) returns (r: Result<Document>)
    ensures r == ConvertAll(doc, keyword, userId, utcNow)
  {
    var xml := doc;
    var i := 0;
    while i < |xml|
      invariant 0 <= i <= |xml| == |doc|
      invariant ConvertAll(doc[..i], keyword, userId, utcNow) == Ok(xml[..i])
      invariant xml[i..] == doc[i..]
    {
      var e := xml[i];
      assert e == doc[i] by { assert xml[i..][0] == doc[i..][0]; }
      assert doc[..i + 1][..i] == doc[..i];
      if Matches(e, keyword) {
        var marked := MarkParticipant(e, userId, utcNow);
        if marked.Err? {
          PrefixFailureAborts(doc, keyword, userId, utcNow, i + 1);
          return Err(marked.error);
        }
        ConvertPrefixStep(doc, keyword, userId, utcNow, i, xml[..i], marked.value);
        SpliceAt(xml, doc, i, marked.value);
        xml := xml[i := marked.value];
      } else {
        ConvertPrefixStep(doc, keyword, userId, utcNow, i, xml[..i], e);
        SpliceAt(xml, doc, i, e);
        assert xml[i := e] == xml;
      }
      i := i + 1;
    }
    assert doc[..i] == doc && xml[..i] == xml;
    r := Ok(xml);
  }

  /** The experiments Convert touches: every experiment it matches has the
      user's record marked, and nothing else changes. A keyword that matches
      nothing leaves the document as it was. */
  lemma ConvertTouchesOnlyMatches(doc: Document, keyword: string, userId: string, now: Time)
    requires ConvertAll(doc, keyword, userId, now).Ok?
    ensures var d := ConvertAll(doc, keyword, userId, now).value;
      && Names(d) == Names(doc)
      && (forall i :: 0 <= i < |doc| && !Matches(doc[i], keyword) ==> d[i] == doc[i])
      && (forall i :: 0 <= i < |doc| && Matches(doc[i], keyword) ==>
            exists j :: SoleMatch(Ids(ParticipantsOf(doc[i])), userId, j) &&
              ParticipantsOf(d[i])[j] == Mark(ParticipantsOf(doc[i])[j], now))
      && ((forall i :: 0 <= i < |doc| ==> !Matches(doc[i], keyword)) ==> d == doc)
  {
    var d := ConvertAll(doc, keyword, userId, now).value;
    assert Names(d) == Names(doc) by {
      forall i | 0 <= i < |doc| ensures d[i].name == doc[i].name {
        assert ConvertStep(doc[i], keyword, userId, now).Ok?;
      }
    }
    forall i | 0 <= i < |doc| && Matches(doc[i], keyword)
      ensures exists j :: SoleMatch(Ids(ParticipantsOf(doc[i])), userId, j) &&
                ParticipantsOf(d[i])[j] == Mark(ParticipantsOf(doc[i])[j], now)
    {
      assert ConvertIn(doc[i], userId, now).Ok?;
      var j :| SoleMatch(Ids(doc[i].participants.value), userId, j) && Markable(doc[i].participants.value[j]);
      assert Ids(ParticipantsOf(doc[i]))[j] == userId;
    }
  }

  /** Convert changes no name and no id, so every later lookup of
      GetOrCreateParticipationRecord ends where it ended before. */
  lemma ConvertKeepsLookup(doc: Document, keyword: string, userId: string, now: Time,
                           experimentName: string, user: string)
    requires ConvertAll(doc, keyword, userId, now).Ok?
    ensures FindParticipation(ConvertAll(doc, keyword, userId, now).value, experimentName, user)
            == FindParticipation(doc, experimentName, user)
  {
    var d := ConvertAll(doc, keyword, userId, now).value;
    ConvertTouchesOnlyMatches(doc, keyword, userId, now);
    forall i | 0 <= i < |doc| ensures Ids(ParticipantsOf(d[i])) == Ids(ParticipantsOf(doc[i])) {
      assert ConvertStep(doc[i], keyword, userId, now).Ok?;
    }
  }

  /** A marked record keeps its id, and marking twice is marking once. */
  lemma ConvertInIdempotent(e: ExperimentElement, userId: string, now: Time, later: Time)
    requires ConvertIn(e, userId, now).Ok?
    ensures ConvertIn(ConvertIn(e, userId, now).value, userId, later) == ConvertIn(e, userId, now)
  {
  }

  /** Convert is idempotent: on the document it committed, a second Convert
      with the same keyword and user (at any later instant) succeeds and
      changes nothing, so each record is converted at most once and keeps its
      first `DateConverted`. */
  lemma ConvertIdempotent(doc: Document, keyword: string, userId: string, now: Time, later: Time)
    requires ConvertAll(doc, keyword, userId, now).Ok?
    ensures ConvertAll(ConvertAll(doc, keyword, userId, now).value, keyword, userId, later)
            == ConvertAll(doc, keyword, userId, now)
  {
    var d := ConvertAll(doc, keyword, userId, now).value;
    forall i | 0 <= i < |d|
      ensures ConvertStep(d[i], keyword, userId, later) == Ok(d[i])
    {
      assert ConvertStep(doc[i], keyword, userId, now).Ok?;
      if Matches(doc[i], keyword) {
        ConvertInIdempotent(doc[i], userId, now, later);
      }
    }
    var d2 := ConvertAll(d, keyword, userId, later).value;
    assert d2 == d;
  }

  /** A written experiment stays written once marked, and marking it throws
      only when it has no `Participants` element or no record for the user. */
  lemma ConvertInPreservesWritten(e: ExperimentElement, userId: string, now: Time)
    requires WrittenExperiment(e)
    ensures ConvertIn(e, userId, now).Err? ==> ConvertIn(e, userId, now).error in {MissingParticipants, NoSuchParticipant}
    ensures ConvertIn(e, userId, now).Ok? ==> WrittenExperiment(ConvertIn(e, userId, now).value)
  {
    if e.participants.Some? {
      var ps := e.participants.value;
      SingleOfUnique(Ids(ps), userId);
      match Single(Ids(ps), userId)
      case NoMatch =>
      case ManyMatches =>
      case OneMatch(j) =>
        assert ps[j] in ParticipantsOf(e);
        var qs := ConvertIn(e, userId, now).value.participants.value;
        assert Ids(qs) == Ids(ps);
        forall q | q in qs ensures WrittenParticipant(q) {
          var k :| 0 <= k < |qs| && qs[k] == q;
          assert ps[k] in ParticipantsOf(e);
        }
    }
  }

  /** In a well-formed store Convert fails only when a matched experiment has
      no `Participants` element or no record for the user; when it succeeds
      the store stays well formed. */
  lemma ConvertPreservesWellformed(doc: Document, keyword: string, userId: string, now: Time)
    requires Wellformed(doc)
    ensures ConvertAll(doc, keyword, userId, now).Err? ==>
      ConvertAll(doc, keyword, userId, now).error in {MissingParticipants, NoSuchParticipant}
    ensures ConvertAll(doc, keyword, userId, now).Ok? ==> Wellformed(ConvertAll(doc, keyword, userId, now).value)
  {
    var r := ConvertAll(doc, keyword, userId, now);
    if r.Err? {
      var k :| 0 <= k < |doc| && ConvertStep(doc[k], keyword, userId, now) == Err(r.error);
      ConvertInPreservesWritten(doc[k], userId, now);
    } else {
      var d := r.value;
      ConvertTouchesOnlyMatches(doc, keyword, userId, now);
      forall i | 0 <= i < |d| ensures WrittenExperiment(d[i]) {
        ConvertInPreservesWritten(doc[i], userId, now);
      }
    }
  }
}
