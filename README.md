# ABsoluteMaybe experiment store, modelled in Dafny

ABsoluteMaybe is an A/B-testing library. It keeps its experiments in an XML file. Each experiment has:
- a unique name;
- an optional conversion keyword;
- a start time and an optional end time;
- a list of participants. Each participant has a user id, an assigned option and, once converted, `HasConverted` and `DateConverted` attributes.

Two repository classes hold the same logic:
- `XmlExperimentRepository` is the current one;
- `XmlExpirementRepository` is an older copy with a misspelt domain term.

Each operation that changes the store (`CreateExperiment`, `GetOrCreateParticipationRecord` and `Convert`, and their `Expirement` counterparts) does three steps. It loads the whole document. It changes the loaded copy in place. It writes the copy back with `Save`, but only if it reaches that call. An exception, for instance from LINQ's `Single`, therefore commits nothing. `FindAllExperiments` only loads the document and projects it; it never calls `Save`.

The model has four modules:
- `Matching` (`matching.dfy`) models LINQ's `Single` and `SingleOrDefault` on key equality. `Single` has three outcomes: none, one, or several matches. LINQ's `Any` on a name is modelled as membership in the list of names, which `Single`'s contract relates to its outcomes.
- `Storage` (`storage.dfy`) holds the document and the changes both classes make to it:
  - the document is a sequence of experiment elements, each with optional participants;
  - `Create` is experiment creation;
  - `FindParticipation` and `Enroll` are the lookup and append of get-or-create;
  - `ConvertAll` specifies the conversion loop, and `ConvertDocument` runs it on the loaded copy.

  It also defines the invariant that every document the classes write keeps (`Wellformed`), and it holds the lemmas about these operations.
- `ExperimentRepository` (`experiment_repository.dfy`) holds class `XmlExperimentRepository`, its domain `Experiment` and `ParticipationRecord` values, and its listing.
- `ExpirementRepository` (`expirement_repository.dfy`) holds class `XmlExpirementRepository` and its differently shaped `ParticipationRecord`.

Each class has:
- a field `file: Option<Document>`, where `None` means the backing file does not exist and `Load` reads that as an empty store;
- a ghost counter `chooserCalls` that counts calls to the option chooser.

The methods work on a local copy and assign `file` only where the source calls `Save`.

The following are parameters:
- the clock, `UtcNow`, is an argument `utcNow`;
- the chooser is a function value `() -> string`.

Exceptions become `Err` results that commit nothing:
- `Single` finding no match or several;
- dereferencing a missing `Participants` element;
- adding a `DateConverted` attribute that already exists;
- reading a missing attribute in the listing.

Behaviour of the code that a reader might not expect. The model follows the code in each of the first three points; for the fourth it models both the code and the evident intent:
- Convert skips a record whenever it has a `HasConverted` attribute, whatever its value. A stored `HasConverted="false"` is never converted.
- `XmlExpirementRepository.GetOrCreateParticipationRecord` reports an existing record as unconverted even when it has been converted.
- Convert calls `Save` even when no experiment matches, so it creates the file when the file is absent.
- The listing reads a participant's `DateConverted` only when the experiment element carries that attribute. `ListAsWritten` models this, and `FindAllExperiments` returns the corrected listing (see Findings and Left out).

## Model

| member | source | states |
|---|---|---|
| `Matching.Single` | src/ABsoluteMaybe/Persistence/XmlExperimentRepository.cs:87-92 | `Single`/`SingleOrDefault` on a key: no match exactly when the key is absent; one match at an index that holds the key and no other index does; several matches only when the key occurs twice |
| `Matching.SingleOfUnique` | src/ABsoluteMaybe/Persistence/XmlExperimentRepository.cs:87 | among unique keys `Single` finds a sole match exactly when the key is present |
| `Matching.AppendFresh` | src/ABsoluteMaybe/Persistence/XmlExperimentRepository.cs:92-108 | appending an absent id keeps ids unique and makes the new record the sole match |
| `Storage.Load` | src/ABsoluteMaybe/Persistence/XmlExperimentRepository.cs:137-142 | what `Save` committed last is exactly what the next operation loads; an absent file loads as an empty root |
| `Storage.AbsentFileIsEmptyStore` | src/ABsoluteMaybe/Persistence/XmlExpirementRepository.cs:107-111 | a missing backing file loads as the empty experiment list, which satisfies the store invariant |
| `Storage.NewExperiment` | src/ABsoluteMaybe/Persistence/XmlExperimentRepository.cs:70-75 | the new element has the given name, Started = now, no Ended and no participants; the keyword read back from it is the one given (stored only when it differs from the name), so the element is as the classes write it |
| `Storage.Create` | src/ABsoluteMaybe/Persistence/XmlExperimentRepository.cs:70-76 | creating a new name appends exactly one experiment at the end, the element `NewExperiment` builds (Started = now, no Ended, no participants); earlier experiments are unchanged; the names become the old names plus the new one |
| `Storage.CreateRegistersName` | src/ABsoluteMaybe/Persistence/XmlExperimentRepository.cs:67-68 | after creation the name exists, so a repeated create takes the early return and commits nothing (idempotent insert) |
| `Storage.CreatePreservesWellformed` | src/ABsoluteMaybe/Persistence/XmlExperimentRepository.cs:67-76 | creation keeps experiment names unique (the new name has exactly one match) and keeps the written-document invariant |
| `Storage.FindParticipation` | src/ABsoluteMaybe/Persistence/XmlExperimentRepository.cs:87-93 | the lookup fails with NoSuchExperiment exactly when no experiment has the name; otherwise it fails only when the name or the user id occurs twice; on success the experiment is the sole one with the name, and the user either has no record or has the sole record with that id |
| `Storage.Enroll` | src/ABsoluteMaybe/Persistence/XmlExperimentRepository.cs:105-108 | enrolling appends exactly one unconverted record (id, option) to that experiment, creating its Participants element first when missing (lines 88-89); names and every other experiment are unchanged |
| `Storage.GetOrCreateTwice` | src/ABsoluteMaybe/Persistence/XmlExperimentRepository.cs:92-111 | after a new user is enrolled, the next lookup for the same experiment and user finds that record with the same option, so the chooser is not called again |
| `Storage.EnrollPreservesWellformed` | src/ABsoluteMaybe/Persistence/XmlExperimentRepository.cs:87-111 | in a store as written, the lookup succeeds exactly when the experiment exists, and enrolling keeps participant ids unique and the invariant intact |
| `ExperimentRepository.ListedKeywordMatches` | src/ABsoluteMaybe/Persistence/XmlExperimentRepository.cs:120-123 | Convert's filter (`Storage.Matches`) selects exactly the experiments that the listing shows with the keyword as their name or as their conversion keyword |
| `Storage.Mark` | src/ABsoluteMaybe/Persistence/XmlExperimentRepository.cs:127-130 | marking keeps the id and the option and always leaves a HasConverted; a record without HasConverted gets HasConverted = true and DateConverted = now; a record that has one is unchanged; paired conversion attributes stay paired |
| `Storage.ConvertIn` | src/ABsoluteMaybe/Persistence/XmlExperimentRepository.cs:124-131 | in one matched experiment, the step succeeds exactly when a Participants element exists, the user has exactly one record, and that record can be marked; then only that record changes: if it had no HasConverted it gets HasConverted = true and DateConverted = now, otherwise it is unchanged |
| `Storage.ConvertAll` | src/ABsoluteMaybe/Persistence/XmlExperimentRepository.cs:117-132 | all or nothing: conversion succeeds exactly when every experiment's step succeeds, and the result is each step's result in document order; a failure carries the first failing experiment's error |
| `Storage.PrefixFailureAborts` | src/ABsoluteMaybe/Persistence/XmlExperimentRepository.cs:124-132 | an exception for any experiment aborts the whole conversion with that exception |
| `Storage.MarkParticipant` | src/ABsoluteMaybe/Persistence/XmlExperimentRepository.cs:126-131 | the loop body for one matched experiment (Single on the id, then the two attribute adds) computes the conversion step |
| `Storage.ConvertDocument` | src/ABsoluteMaybe/Persistence/XmlExperimentRepository.cs:119-131 | the foreach loop on the loaded copy yields exactly the all-or-nothing conversion |
| `Storage.ConvertTouchesOnlyMatches` | src/ABsoluteMaybe/Persistence/XmlExperimentRepository.cs:120-131 | after conversion, names are unchanged and experiments that do not match are unchanged; in every matched experiment (by Name or by ConversionKeyword) the user's sole record is marked; a keyword that matches nothing leaves the store unchanged |
| `Storage.ConvertKeepsLookup` | src/ABsoluteMaybe/Persistence/XmlExperimentRepository.cs:120-131 | conversion changes no name and no id, so every get-or-create lookup ends where it did before |
| `Storage.ConvertInIdempotent` | src/ABsoluteMaybe/Persistence/XmlExperimentRepository.cs:127-130 | marking an experiment twice equals marking it once, at any later instant |
| `Storage.ConvertIdempotent` | src/ABsoluteMaybe/Persistence/XmlExperimentRepository.cs:119-131 | a second Convert on the committed document succeeds and changes nothing, so a record converts at most once and keeps its first DateConverted |
| `Storage.ConvertInPreservesWritten` | src/ABsoluteMaybe/Persistence/XmlExperimentRepository.cs:124-131 | for an experiment as written, the step fails only for a missing Participants element or a missing user; a successful step keeps the experiment as written |
| `Storage.ConvertPreservesWellformed` | src/ABsoluteMaybe/Persistence/XmlExperimentRepository.cs:119-132 | in a store as written, Convert fails only for a missing Participants element or a missing user, and the committed store stays as written (unique names and ids, paired conversion attributes) |
| `ExperimentRepository.Record` | src/ABsoluteMaybe/Persistence/XmlExperimentRepository.cs:94-103 | a stored participant is returned with its id and option; it reads as converted exactly when HasConverted is stored as true; its date is the stored DateConverted, or null |
| `ExperimentRepository.Listing` | src/ABsoluteMaybe/Persistence/XmlExperimentRepository.cs:30-55 | the corrected listing: one experiment per element in storage order, each with its own name, and each participant read as `Record` reads it, with its own DateConverted |
| `ExperimentRepository.ListAsWritten` | src/ABsoluteMaybe/Persistence/XmlExperimentRepository.cs:30-55 | the listing as written: it throws exactly when an experiment carrying DateConverted has a participant without one; otherwise it agrees with the corrected listing, except that a participant's date is null whenever its experiment element has no DateConverted |
| `ExperimentRepository.ListAsWrittenDropsDates` | src/ABsoluteMaybe/Persistence/XmlExperimentRepository.cs:30-55 | when no experiment element has a DateConverted attribute (always true for stores these classes write), the listing as written succeeds; it matches the corrected listing field for field, except that every DateConverted is null |
| `ExperimentRepository.ConversionDateLostAsWritten` | src/ABsoluteMaybe/Persistence/XmlExperimentRepository.cs:50-53 | concrete store: after Convert, the listing as written shows the user converted with a null date, while the corrected listing shows the conversion instant |
| `ExperimentRepository.ListingShowsConversion` | src/ABsoluteMaybe/Persistence/XmlExperimentRepository.cs:44-54 | corrected listing: after Convert, every matched experiment lists the user's record as converted with a date; the date is this call's instant when the record was unconverted before |
| `ExperimentRepository.CreateThenList` | src/ABsoluteMaybe/Persistence/XmlExperimentRepository.cs:33-35 | listing after creating a new name yields the old listing plus one experiment at the end: the given keyword (whether it was stored or defaulted to the name), Started = now, no end, no participants |
| `ExperimentRepository.GetOrCreateAfterConvert` | src/ABsoluteMaybe/Persistence/XmlExperimentRepository.cs:93-103 | after Convert, get-or-create finds the same record and returns it with HasConverted = true and a DateConverted |
| `ExperimentRepository.XmlExperimentRepository.constructor` | src/ABsoluteMaybe/Persistence/XmlExperimentRepository.cs:14-17 | the repository starts over whatever the file at its path holds; the chooser has not been called |
| `ExperimentRepository.XmlExperimentRepository.FindAllExperiments` | src/ABsoluteMaybe/Persistence/XmlExperimentRepository.cs:26-56 | returns the corrected listing of the loaded document, in storage order, and commits nothing (see Left out: the code as written is `ListAsWritten`) |
| `ExperimentRepository.XmlExperimentRepository.CreateExperiment` | src/ABsoluteMaybe/Persistence/XmlExperimentRepository.cs:58-61 | behaves as the two-argument form with the name as keyword |
| `ExperimentRepository.XmlExperimentRepository.CreateExperimentWithKeyword` | src/ABsoluteMaybe/Persistence/XmlExperimentRepository.cs:63-79 | an existing name leaves the file untouched; otherwise the store with the new experiment appended is committed; the store invariant is preserved |
| `ExperimentRepository.XmlExperimentRepository.GetOrCreateParticipationRecord` | src/ABsoluteMaybe/Persistence/XmlExperimentRepository.cs:81-112 | a failed lookup returns its error and commits nothing; an existing record is returned with its stored fields, with no chooser call and no commit; otherwise the chooser is called exactly once, the enrolled store is committed, and (userId, option, false, null) is returned |
| `ExperimentRepository.XmlExperimentRepository.Convert` | src/ABsoluteMaybe/Persistence/XmlExperimentRepository.cs:114-133 | commits the converted store when the loop succeeds; otherwise returns the exception and leaves the file as it was |
| `ExpirementRepository.Report` | src/ABsoluteMaybe/Persistence/XmlExpirementRepository.cs:60-67 | an existing record is returned with the experiment's name, the stored id and option, and HasConverted = false whatever is stored |
| `ExpirementRepository.ConvertedYetReportedUnconverted` | src/ABsoluteMaybe/Persistence/XmlExpirementRepository.cs:59-67 | after Convert, the older class finds the same record, stored with HasConverted = true, and still returns it with HasConverted = false |
| `ExpirementRepository.XmlExpirementRepository.constructor` | src/ABsoluteMaybe/Persistence/XmlExpirementRepository.cs:13-16 | the repository starts over whatever the file at its path holds; the chooser has not been called |
| `ExpirementRepository.XmlExpirementRepository.CreateExpirement` | src/ABsoluteMaybe/Persistence/XmlExpirementRepository.cs:25-28 | behaves as the two-argument form with the name as keyword |
| `ExpirementRepository.XmlExpirementRepository.CreateExpirementWithKeyword` | src/ABsoluteMaybe/Persistence/XmlExpirementRepository.cs:30-46 | an existing name leaves the file untouched; otherwise one experiment is appended and committed, with a ConversionKeyword only when it differs from the name; the invariant is preserved |
| `ExpirementRepository.XmlExpirementRepository.GetOrCreateParticipationRecord` | src/ABsoluteMaybe/Persistence/XmlExpirementRepository.cs:48-82 | a failed lookup returns its error and commits nothing; an existing record returns (name, id, stored option, false) with no chooser call and no commit; otherwise the chooser is called once, the enrolled store is committed, and (name, id, option, false) is returned |
| `ExpirementRepository.XmlExpirementRepository.Convert` | src/ABsoluteMaybe/Persistence/XmlExpirementRepository.cs:84-103 | commits the converted store when the loop succeeds; otherwise returns the exception and leaves the file as it was |

## Left out

- XML layout and serialisation are not modelled: element and root names, CDATA, `XDocument.Load`/`Save` and the file system. The document is an abstract value, and `Save` is the assignment to `file`.
- The two classes use different element names. A file written by one class therefore holds nothing for the other. Each class is modelled over its own file.
- Timestamp formatting and `DateTime.Parse` are not modelled. An instant is an `int` that round-trips unchanged, so a change of `DateTimeKind` on re-reading is not captured.
- Malformed files are not representable:
  - a missing `Name`, `Started` or `Id` attribute;
  - an unparsable `HasConverted` or date;
  - a second `Participants` element (the model keeps at most one).
- `ExperimentRepository.XmlExperimentRepository.FindAllExperiments`: returns the corrected listing (`Listing`), not what the code computes. The code, modelled as `ListAsWritten`, lists every DateConverted as null in any store these classes write, and throws when an experiment element carries DateConverted and one of its participants does not. The class uses the corrected listing so that the listing is a faithful view of the store (see Findings).
- `ExperimentRepository.XmlExperimentRepository.FindAllExperiments`: the source returns a lazy sequence, so an exception surfaces only when a caller enumerates it. The model evaluates the listing eagerly, and the listing as written reports such an exception for the whole listing.
- Concurrency is not modelled: two callers doing load/modify/save at once lose updates, and the model runs one operation at a time.
- The chooser is modelled as a total function value. A chooser that throws, or that has side effects, is not modelled.
- The source of the `Experiment` and `ParticipationRecord` domain types and of the repository interface is not shown. They are modelled as plain datatypes with the fields their constructors and initialisers imply.

## Findings

| source | as written | input that shows it | evidently intended | confidence | as-written member | corrected member |
|---|---|---|---|---|---|---|
| src/ABsoluteMaybe/Persistence/XmlExperimentRepository.cs:50-53 | a participant's `DateConverted` is read only when the experiment element (`exp`) has a `DateConverted` attribute; the classes never write one | experiment "signup" with unconverted participant "alice"; `Convert("signup", "alice")` at instant 5; then `FindAllExperiments` lists alice with HasConverted = true and DateConverted = null | test the participant's own attribute (`p.Attribute("DateConverted")`), so a converted record lists its conversion date | high (not executed) | `ExperimentRepository.ConversionDateLostAsWritten` | `ExperimentRepository.ListingShowsConversion` |
