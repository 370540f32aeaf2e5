# Face-recognition voting kiosk: a Dafny model

This project models the single-ballot logic of the `FaceRecognitionApp` kiosk
(`minor-project2-main/main.py`). A webcam capture is handed to a face matcher.
The matcher answers with ranked groups of gallery file paths. The kiosk reads a
voter name off each path, with `os.path.splitext(os.path.basename(path))[0]`,
and takes the first name that is on the roster (`person_data`). It then checks
that voter's record in the ballot ledger (`voted_faces`):

- a person with no record is enrolled (has_voted=0, party NULL) and may vote;
- a person whose record says has_voted=0 may vote;
- a person whose record says has_voted=1 is refused, and Submit is disabled.

Pressing Submit with a party selected marks that voter's record as voted for
that party and disables Submit. At start-up the roster is loaded from a CSV
file, but only while `person_data` is empty.

Modules:

- `Wrappers` holds `Option`.
- `PathNames` implements Python's POSIX `basename` and `splitext`. Its lemmas
  give what a name is in terms of the path.
- `VoterTables` holds the two tables as sequences of rows in row-id order, and the
  SQL statements the kiosk runs on them:
  - a `SELECT … fetchone()` is the first row of that name;
  - the `UPDATE` hits every row of that name;
  - the `INSERT` appends a row.

  It also holds the consistency invariant of the tables. The schema has no
  UNIQUE constraint on `name`, so "one record per name" is a proved invariant
  rather than an assumption.
- `IdentityResolver` finds the first rostered candidate in the matcher's ranked
  answer.
- `Voting` is the state machine as functions of a `State`:
  - the roster, the ledger, `self.name` and whether Submit is enabled;
  - one capture (`Recognize`) and one press of Submit (`Press` / `Submit`);
  - runs of such events, with the invariants a run keeps.
- `Kiosk` is the program itself:
  - the database as an object with two mutable table fields;
  - the start-up `CreateDatabase`;
  - the `FaceRecognitionApp` class. Its `RecognizeFace` runs the source's nested
    loops with a `found_match` flag. Its `SubmitVote` performs the update.

  `RecognizeFace`, `AdmitCandidate` and `SubmitVote` are each proved to have
  exactly the effect of the `Voting` function that specifies them (`Recognize`,
  `Admit` and `Submit`); `RecognizeFace` and `SubmitVote` are also proved to keep
  the invariant. `CreateDatabase` is proved to leave the roster as
  `VoterTables.LoadRoster` specifies and the ledger unchanged; that `LoadRoster`
  keeps the invariant is the lemma `LoadRosterKeepsConsistent`.
- `Findings` works through an enrol / vote / refused re-scan scenario. It also
  holds the one defect found, together with its correction.

Points of the code the model follows exactly:

- candidates whose name is not rostered are skipped, and the first rostered one is acted on (166-221);
- the `image` BLOB holds the matched gallery file, not the capture (207);
- Submit is disabled after a vote, so a second press does nothing (246);
- `name` is not UNIQUE in the schema (30-35), so the roster lookup takes the first row of that name.

## Model

| member | source | states |
|---|---|---|
| VoterTables.Parties | minor-project2-main/main.py:17 | the ballot offers exactly "Party A" to "Party D", in that order; `PartyIndex` is a position in that list |
| PathNames.Basename | minor-project2-main/main.py:173 | `os.path.basename`; no ensures of its own; stated by `PathNames.BasenameIsLastComponent` and `PathNames.BasenameAfterDir` |
| PathNames.SplitExtRoot | minor-project2-main/main.py:173 | `os.path.splitext(...)[0]`; no ensures of its own; stated by `PathNames.SplitExtRootIsPrefix`, `PathNames.RootOfStemDotExt`, `PathNames.NameOfHiddenFile` and `PathNames.NameOfDotsOnlyFile` |
| PathNames.NameFromPath | minor-project2-main/main.py:173 | the voter name read off a matcher path; no ensures of its own; stated by `PathNames.NameFromPathIsPiece`, `PathNames.NameOfGalleryFile`, `PathNames.NameOfFileWithoutExtension`, `PathNames.NameOfHiddenFile` and `PathNames.NameOfDotsOnlyFile` |
| VoterTables.FindPerson | minor-project2-main/main.py:176-177 | the roster `SELECT … fetchone()`; no ensures of its own; stated by `VoterTables.FindPersonIsFirst` |
| VoterTables.MarkVoted | minor-project2-main/main.py:241 | the `UPDATE` of every row of the voter's name; no ensures of its own; stated by `VoterTables.MarkVotedEffect` |
| VoterTables.LoadRoster | minor-project2-main/main.py:49-52 | the conditional roster load; no ensures of its own; stated by `VoterTables.LoadRosterIdempotent` and `VoterTables.LoadRosterKeepsConsistent` |
| IdentityResolver.GroupNames | minor-project2-main/main.py:169-173 | the names of one group's candidates: one per row (length ensured); each name is stated by `IdentityResolver.GroupNameAt` |
| IdentityResolver.CandidateNames | minor-project2-main/main.py:166-173 | the names of all candidates, with the answer's shape (lengths ensured); each name is stated by `IdentityResolver.CandidateNameAt` |
| Voting.Admit | minor-project2-main/main.py:187-216 | the ledger check and enrolment of a resolved candidate; no ensures of its own; stated by `Voting.FirstEnrolment`, `Voting.RescanWhileEligible`, `Voting.AlreadyVotedRefused` and `Voting.AdmitKeepsConsistent` |
| Voting.Recognize | minor-project2-main/main.py:142-229 | `recognize_face` on the matcher's answer; no ensures of its own; stated by `Voting.MatcherFailureChangesNothing`, `Voting.NoMatchChangesNothing`, `Voting.CaptureAdmitsFirstRostered`, `Voting.RescanIdempotent`, `Voting.CaptureAnnouncesState` and `Voting.RecognizeKeepsConsistent` |
| Voting.Submit | minor-project2-main/main.py:232-249 | `submit_vote` with the list box's selection; no ensures of its own; stated by `Voting.SubmitEffect` |
| Voting.Press | minor-project2-main/main.py:97-249 | a press of the Submit button, which runs `submit_vote` only while the button is enabled (set at 97, 196, 203, 215 and 246); no ensures of its own; stated by `Voting.SecondPressChangesNothing` and `Voting.CastOnlyUnvoted` |
| Voting.Step | minor-project2-main/main.py:142-249 | the kiosk after one capture or one press; no ensures of its own; stated by `Voting.StepKeepsConsistent` |
| Voting.Run | minor-project2-main/main.py:142-249 | the kiosk after a sequence of captures and presses; no ensures of its own; stated by `Voting.RunKeepsConsistent` and `Voting.VotedStaysVoted` |
| Voting.Cast | minor-project2-main/main.py:232-249 | the name whose vote one event submits; no ensures of its own; stated by `Voting.CastOnlyUnvoted` |
| Voting.Ballots | minor-project2-main/main.py:142-249 | the names whose votes a run submits, in order; no ensures of its own; stated by `Voting.BallotsOncePerVoter` |
| PathNames.RFindIsLast | minor-project2-main/main.py:173 | the helper behind `basename` and `splitext` finds the last occurrence of a character: the result holds it and nothing after it does |
| PathNames.BasenameIsLastComponent | minor-project2-main/main.py:173 | `os.path.basename` is the tail of the path after its last '/', and holds no '/' |
| PathNames.SplitExtRootIsPrefix | minor-project2-main/main.py:173 | `splitext(...)[0]` is a prefix of the base name; what it drops starts at a '.', holds no other '.' and no '/' |
| PathNames.NameFromPathIsPiece | minor-project2-main/main.py:173 | a voter name never holds a '/' and is the start of the path's last component |
| PathNames.BasenameAfterDir | minor-project2-main/main.py:173 | the base name of `dir/file` is `file` for any directory part ending in '/' |
| PathNames.RootOfStemDotExt | minor-project2-main/main.py:173 | `splitext("stem.ext")[0]` is `stem` when the stem is not made only of dots and the extension has no dot |
| PathNames.NameOfGalleryFile | minor-project2-main/main.py:173 | a gallery file `dir/stem.ext` yields the voter name `stem` (round trip from the name the gallery file was saved under) |
| PathNames.NameOfFileWithoutExtension | minor-project2-main/main.py:173 | a gallery file without a dot yields its whole file name |
| PathNames.NameOfDotsOnlyFile | minor-project2-main/main.py:173 | a file named only by dots (such as "..") keeps all of them |
| PathNames.NameOfHiddenFile | minor-project2-main/main.py:173 | a hidden file `dir/dots.ext` (such as "faces/.jpg") keeps its whole file name, because Python's `splitext` finds no extension when only dots precede the last dot |
| PathNames.RFindAfter | minor-project2-main/main.py:173 | the last `c` of `s + c + t` is the middle one when `t` has none |
| PathNames.RFindAbsent | minor-project2-main/main.py:173 | a string without `c` has no `c` to find (-1) |
| VoterTables.FindPersonIsFirst | minor-project2-main/main.py:176-177 | the roster lookup returns the first row with that name, and nothing exactly when no row has it |
| VoterTables.FindBallot | minor-project2-main/main.py:188-189 | the ledger lookup returns the first record with that name; earlier records have other names; none exactly when no record has it |
| VoterTables.MarkVotedEffect | minor-project2-main/main.py:241 | updating an eligible voter in a consistent ledger changes only that voter's record: has_voted=1, the chosen party, others untouched; the tables stay consistent and the change is frozen |
| VoterTables.FindBallotAppend | minor-project2-main/main.py:208-209 | inserting a record for a name with none makes it that name's record and keeps names unique |
| VoterTables.FindBallotAppendOther | minor-project2-main/main.py:208-209 | inserting a record leaves every other name's lookup unchanged |
| VoterTables.EnrolKeepsConsistent | minor-project2-main/main.py:205-210 | enrolling a rostered name that has no record (has_voted=0, party NULL) keeps the tables consistent |
| VoterTables.FrozenTransitive | minor-project2-main/main.py:188-249 | two ledger changes that each keep existing records and cast votes compose into one that does |
| VoterTables.FindBallotFrozen | minor-project2-main/main.py:188-189 | such a change leaves each name's first record at the same position |
| VoterTables.VotedFrozen | minor-project2-main/main.py:193-196 | once a name has voted, such a change keeps it voted, with the same record and party |
| VoterTables.LoadRosterIdempotent | minor-project2-main/main.py:49-52 | loading the roster twice is the same as loading it once |
| VoterTables.LoadRosterKeepsConsistent | minor-project2-main/main.py:49-52 | a roster with rows is never reloaded, and loading keeps the tables consistent |
| Kiosk.CreateDatabase | minor-project2-main/main.py:49-52 | the CSV rows are appended to `person_data` exactly when it is empty; `voted_faces` is untouched |
| Kiosk.VoterDatabase.constructor | minor-project2-main/main.py:29-46 | a new database has two empty tables |
| IdentityResolver.GroupNameAt | minor-project2-main/main.py:169-173 | the name at each row of a matcher group is the one read off that row's path |
| IdentityResolver.CandidateNameAt | minor-project2-main/main.py:166-173 | the name at each (group, row) of the matcher's answer is the one read off that path |
| IdentityResolver.FirstRostered | minor-project2-main/main.py:169-179 | within one group: the first row whose name is rostered; earlier rows are not rostered; none exactly when no row is |
| IdentityResolver.Resolve | minor-project2-main/main.py:164-218 | over all groups: the first candidate in group-then-row order whose name is rostered; every earlier one is not; none exactly when no candidate is |
| IdentityResolver.ResolveAt | minor-project2-main/main.py:164-218 | the candidate at (g, j) is the one acted on if and only if it is rostered and no earlier candidate is |
| Voting.RecognizeAtHit | minor-project2-main/main.py:179-218 | once a candidate is resolved, the capture's outcome is the ledger check and enrolment of that candidate's name and path |
| Voting.MatcherFailureChangesNothing | minor-project2-main/main.py:143-154 | when the matcher raises `ValueError`, an error is reported and nothing changes |
| Voting.NoMatchChangesNothing | minor-project2-main/main.py:164-226 | "No vote allowed." is the outcome if and only if no candidate's name is rostered (an empty answer included), and then the state is unchanged |
| Voting.CaptureAdmitsFirstRostered | minor-project2-main/main.py:164-218 | a capture acts on the first rostered candidate in group-then-row order |
| Voting.FirstEnrolment | minor-project2-main/main.py:205-216 | a rostered name with no record gets one new record (has_voted=0, party NULL, the matched file's bytes); the session takes the name; Submit is enabled |
| Voting.RescanWhileEligible | minor-project2-main/main.py:197-204 | re-scanning a voter who has not voted inserts and updates nothing; the session takes the name; Submit is enabled |
| Voting.AlreadyVotedRefused | minor-project2-main/main.py:193-196 | a voter who has voted is refused: the ledger and the session name stay, and Submit is disabled |
| Voting.RescanIdempotent | minor-project2-main/main.py:164-218 | a second capture with the same matcher answer inserts nothing and ends exactly like the first |
| Voting.CaptureAnnouncesState | minor-project2-main/main.py:191-226 | "you may vote" leaves Submit enabled for the announced name; "already voted" leaves it disabled and the ledger unchanged; the refusals that change nothing leave the state as it was |
| Voting.AdmitKeepsConsistent | minor-project2-main/main.py:187-216 | admitting a rostered name keeps the invariant, and changes the ledger only by appending |
| Voting.RecognizeKeepsConsistent | minor-project2-main/main.py:142-229 | a capture keeps the invariant, never alters a ledger record and never changes the roster |
| Voting.SubmitEffect | minor-project2-main/main.py:232-249 | with a party selected, the session voter's record is marked voted for that party; no other record or lookup changes; Submit is disabled; the invariant holds. With nothing selected, nothing changes |
| Voting.SecondPressChangesNothing | minor-project2-main/main.py:246 | after a vote is submitted, a second press of Submit does nothing |
| Voting.CastOnlyUnvoted | minor-project2-main/main.py:232-249 | an event submits at most one vote, only for a name that had not voted, and that name has voted afterwards |
| Voting.StepKeepsConsistent | minor-project2-main/main.py:142-249 | every capture or press keeps the invariant and never alters a cast vote |
| Voting.RunKeepsConsistent | minor-project2-main/main.py:142-249 | over any sequence of captures and presses: one record per name, a party exactly on voted records, has_voted never reverts to 0, and a cast party never changes |
| Voting.VotedStaysVoted | minor-project2-main/main.py:193-196 | a voter who has voted stays voted, with the same record, over any run |
| Voting.BallotsOncePerVoter | minor-project2-main/main.py:142-249 | in any run, every vote submitted is for a name that had not voted at the start, and no name has a vote submitted twice |
| Kiosk.FaceRecognitionApp.constructor | minor-project2-main/main.py:58-101 | a new window has no recognised name and Submit disabled, and the invariant holds |
| Kiosk.FaceRecognitionApp.RecognizeFace | minor-project2-main/main.py:142-229 | the nested scan with `found_match` leaves the database, `self.name` and the Submit button exactly as `Recognize` specifies, and returns its status; the invariant is kept |
| Kiosk.FaceRecognitionApp.AdmitCandidate | minor-project2-main/main.py:187-216 | the ledger check and enrolment of a resolved candidate has exactly the effect `Admit` specifies |
| Kiosk.FaceRecognitionApp.SubmitVote | minor-project2-main/main.py:232-249 | the Submit handler has exactly the effect `Submit` specifies, and keeps the invariant |
| Findings.AliceName | minor-project2-main/main.py:173 | "faces/alice.jpg" is read as the voter name "alice" |
| Findings.BobName | minor-project2-main/main.py:173 | "faces/bob.jpg" is read as the voter name "bob" |
| Findings.AliceFirstCapture | minor-project2-main/main.py:205-216 | Alice's first capture enrols her with has_voted=0 and opens the ballot for her |
| Findings.AliceVotesForB | minor-project2-main/main.py:232-249 | choosing "Party B" records Alice as voted for "Party B" and disables Submit |
| Findings.AliceRescanRefused | minor-project2-main/main.py:193-196 | after voting, Alice's next capture says she has already voted and leaves everything unchanged |
| Findings.BobNotRostered | minor-project2-main/main.py:219-226 | a capture of a person not on the roster gives "No vote allowed." and changes nothing |
| Findings.AliceVotesOnce | minor-project2-main/main.py:142-249 | the whole scenario: enrol, vote "Party B", refused re-scan, a second press that does nothing, party unchanged; Bob gets no record |
| Findings.StrangerCastsPreviousVote | minor-project2-main/main.py:223-226 | counterexample: after Alice is admitted, Bob is told "No vote allowed.", yet Submit stays enabled and a press casts Alice's vote |
| Findings.RecognizeStrict | minor-project2-main/main.py:223-226 | the corrected capture handler: it disables Submit when it answers "No vote allowed." and otherwise behaves as `Recognize` |
| Findings.StrictRefusalClosesBallot | minor-project2-main/main.py:223-226 | with the correction, after "No vote allowed." a press of Submit does nothing |
| Findings.StrictCaptureKeepsConsistent | minor-project2-main/main.py:142-229 | with the correction, Submit is enabled after a capture only for the name it announced (or unchanged after a matcher error), and the invariant and frozen ledger are kept |

## Left out

- The tkinter window, its labels and message boxes, the webcam, frame capture and image conversion are not modelled. The text shown to the voter (`info_text`, the message-box strings) is reduced to the status values `VoteStatus` and `SubmitStatus`.
- The face matcher (`DeepFace.find`) is outside code. Its answer is an input (`MatchResult`): either a `ValueError` or ranked groups of file paths. Distances and thresholds are not modelled.
- The bytes of the gallery file stored in the `image` BLOB are represented by the file's path (`FileBytes`). File reading is I/O.
- The SQLite connection, commits and closing are not modelled. A `SELECT … fetchone()` is taken to return rows in row-id order, which is what SQLite does for these unindexed queries.
- Several kiosks sharing one database file are not modelled. The `UPDATE` at line 241 does not check `has_voted`, so once-per-voter holds for one kiosk process only.
- Exceptions other than the `ValueError` the capture handler catches are not modelled: a missing gallery file, a database error, or `submit_vote` before `self.name` exists. The last of these is the `NameUnbound` status, and the invariant rules it out.
- Paths follow Python's POSIX rules (separator '/'). Windows separators are not modelled.
- `to_update_databse_from_csv.py` is not part of this model. It replaces `person_data` with the CSV rows, so it can leave ledger records for names no longer on the roster; that breaks the roster clause of `TablesConsistent`, which the `FaceRecognitionApp` constructor requires, and nothing proved here covers a database in that state.
- The functions that define the operations (`PathNames.Basename`, `PathNames.SplitExtRoot`, `PathNames.NameFromPath`, `VoterTables.FindPerson`, `VoterTables.MarkVoted`, `VoterTables.LoadRoster`, `Voting.Admit`, `Voting.Recognize`, `Voting.Submit`, `Voting.Press`, `Voting.Step`, `Voting.Run`, `Voting.Cast`, `Voting.Ballots`) carry no `ensures` of their own, so that proofs which unfold them stay cheap. Their properties are the lemmas named in their rows.
- `Kiosk.FaceRecognitionApp.RecognizeFace` follows the code as written, including the defect below. The corrected `Findings.RecognizeStrict` is specified and proved as a function only.

## Findings

| source | as written | input that shows it | evidently intended | confidence | as-written member | corrected member |
|---|---|---|---|---|---|---|
| minor-project2-main/main.py:223-226 | when no candidate is rostered, the handler says "No vote allowed." but leaves the Submit button and `self.name` as the previous capture left them | roster holds alice; capture "faces/alice.jpg" (may vote); then capture "faces/bob.jpg" (not rostered: "No vote allowed."); press Submit with "Party A" selected: alice's record is marked voted for "Party A" | a capture that allows no vote also disables Submit, so only the person last told "you may vote" can cast a ballot | not executed | Findings.StrangerCastsPreviousVote | Findings.RecognizeStrict |
