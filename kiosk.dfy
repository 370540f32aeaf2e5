/**
 * The kiosk program itself: the database file with its two tables, the
 * start-up roster load, and the application object whose capture handler scans
 * the matcher's answer with nested loops and whose Submit handler records the vote.
 */
module Kiosk {
  import opened Wrappers
  import opened PathNames
  import opened VoterTables
  import opened IdentityResolver
  import opened Voting

  /** The SQLite database file: `person_data` and `voted_faces`, rows in row-id order. */
  class VoterDatabase {
    var personData: seq<Person>
    var votedFaces: seq<BallotRow>

    /** A new database file, just after its two `CREATE TABLE IF NOT EXISTS`. */
    constructor ()
      ensures personData == [] && votedFaces == []
    {
      personData := [];
      votedFaces := [];
    }
  }

  /** `create_database`: append the CSV rows to `person_data` only if it has none. */
  method CreateDatabase(db: VoterDatabase, csv: seq<Person>)
    modifies db
    ensures db.personData == LoadRoster(old(db.personData), csv)
    ensures db.votedFaces == old(db.votedFaces)
  {
    var count := |db.personData|;
    if count == 0 {
      db.personData := db.personData + csv;
    }
  }

  /** The application: its database, `self.name` and the Submit button's state. */
  class FaceRecognitionApp {
    const db: VoterDatabase
    var name: Option<string>
    var submitEnabled: bool

    /** The whole state the voting logic works on. */
    function Snap(): (s: State)
      reads this, db
    {
      State(db.personData, db.votedFaces, name, submitEnabled)
    }

    /** A new window: no one recognised yet, Submit disabled. */
    constructor (db: VoterDatabase)
      requires TablesConsistent(db.personData, db.votedFaces)
      ensures this.db == db && name == None && !submitEnabled
      ensures Consistent(Snap())
    {
      this.db := db;
      name := None;
      submitEnabled := false;
    }

    /**
     * `recognize_face`: scan the groups, and the rows of each, for the first
     * name on the roster; classify it against the ledger and enrol it if new.
     */
    method RecognizeFace(result: MatchResult) returns (status: VoteStatus)
      requires Consistent(Snap())
      modifies this, db
      ensures Recognition(Snap(), status) == Recognize(old(Snap()), result)
      ensures Consistent(Snap())
    {
      ghost var s0 := Snap();
      if result.DetectionFailed? {
        return DetectionError;
      }
      var groups := result.groups;
      ghost var names := CandidateNames(groups);
      var foundMatch := false;
      status := NoVoteAllowed;
      var g := 0;
      while g < |groups|
        invariant 0 <= g <= |groups|
        invariant !foundMatch ==> Snap() == s0 && status == NoVoteAllowed
        invariant !foundMatch ==> forall g', k :: 0 <= g' < g && 0 <= k < |names[g']| ==> !Rostered(s0.roster, names[g'][k])
        invariant foundMatch ==> Recognition(Snap(), status) == Recognize(s0, result)
      {
        if foundMatch {
          break;
        }
        var df := groups[g];
        ghost var dfNames := names[g];
        var row := 0;
        while row < |df|
          invariant 0 <= row <= |df|
          invariant !foundMatch && Snap() == s0 && status == NoVoteAllowed
          invariant forall k :: 0 <= k < row ==> !Rostered(s0.roster, dfNames[k])
        {
          var filePath := df[row];
          var candidate := NameFromPath(filePath);
          CandidateNameAt(groups, g, row);
          assert db.personData == s0.roster;
          var person := FindPerson(db.personData, candidate);
          if person.Some? {
            ResolveAt(s0.roster, names, g, row);
            RecognizeAtHit(s0, groups, g, row);
            status := AdmitCandidate(filePath, candidate);
            foundMatch := true;
            break;
          }
          assert !Rostered(s0.roster, dfNames[row]);
          row := row + 1;
        }
        g := g + 1;
      }
      if !foundMatch {
        assert Resolve(s0.roster, names).None?;
      }
      RecognizeKeepsConsistent(s0, result);
    }

    /**
     * The body of the scan once `candidate` (read off `filePath`) is on the
     * roster: refuse it if its record says has_voted=1, re-open the ballot if the
     * record says has_voted=0, and otherwise insert its record and open the ballot.
     */
    method AdmitCandidate(filePath: string, candidate: string) returns (status: VoteStatus)
      modifies this, db
      ensures Recognition(Snap(), status) == Admit(old(Snap()), filePath, candidate)
    {
      var votedFace := FindBallot(db.votedFaces, candidate);
      if votedFace.Some? {
        if db.votedFaces[votedFace.value].hasVoted {
          submitEnabled := false;
          status := AlreadyVoted(candidate);
        } else {
          name := Some(candidate);
          submitEnabled := true;
          status := MayVote(candidate);
        }
      } else {
        db.votedFaces := db.votedFaces + [BallotRow(candidate, FileBytes(filePath), false, None)];
        name := Some(candidate);
        submitEnabled := true;
        status := MayVote(candidate);
      }
    }

    /**
     * `submit_vote`, run by the enabled Submit button: with a party selected,
     * mark the session name voted for it and disable the button.
     */
    method SubmitVote(selection: Option<PartyIndex>) returns (status: SubmitStatus)
      requires Consistent(Snap()) && submitEnabled
      modifies this, db
      ensures Submission(Snap(), status) == Submit(old(Snap()), selection)
      ensures Consistent(Snap())
    {
      SubmitEffect(Snap(), selection);
      if selection.None? {
        return NothingSelected;
      }
      var selectedParty := Parties[selection.value];
      if name.None? {
        return NameUnbound;
      }
      db.votedFaces := MarkVoted(db.votedFaces, name.value, selectedParty);
      submitEnabled := false;
      status := VoteSubmitted(name.value, selectedParty);
    }
  }
}
