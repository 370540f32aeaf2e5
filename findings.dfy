/**
 * Scenarios, and one discrepancy between what the capture handler does and
 * what its "No vote allowed." message announces.
 */
module Findings {
  import opened Wrappers
  import opened PathNames
  import opened VoterTables
  import opened IdentityResolver
  import opened Voting

  const Alice := Person("alice", 30, "F")
  const AlicePhoto := "faces/alice.jpg"
  const BobPhoto := "faces/bob.jpg"

  lemma AliceName()
    ensures NameFromPath(AlicePhoto) == "alice"
  {
    assert AlicePhoto == "faces/" + "alice" + "." + "jpg";
    assert "alice"[0] != '.';
    NameOfGalleryFile("faces/", "alice", "jpg");
  }

  lemma BobName()
    ensures NameFromPath(BobPhoto) == "bob"
  {
    assert BobPhoto == "faces/" + "bob" + "." + "jpg";
    assert "bob"[0] != '.';
    NameOfGalleryFile("faces/", "bob", "jpg");
  }

  /** The kiosk before anyone is scanned, with Alice on the roster. */
  const Start := State([Alice], [], None, false)
  /** After Alice's first capture: her record is enrolled and the ballot is open. */
  const AliceAdmitted := State([Alice], [BallotRow("alice", FileBytes(AlicePhoto), false, None)], Some("alice"), true)
  /** After Alice votes for "Party B". */
  const AliceVotedB := State([Alice], [BallotRow("alice", FileBytes(AlicePhoto), true, Some("Party B"))], Some("alice"), false)

  lemma AliceFirstCapture()
    ensures Recognize(Start, Matches([[AlicePhoto]])) == Recognition(AliceAdmitted, MayVote("alice"))
  {
    AliceName();
    assert Rostered([Alice], NameFromPath(AlicePhoto));
    CaptureAdmitsFirstRostered(Start, [[AlicePhoto]], 0, 0);
  }

  lemma AliceVotesForB()
    ensures Press(AliceAdmitted, Some(1)) == Submission(AliceVotedB, VoteSubmitted("alice", "Party B"))
  {
    assert MarkVoted(AliceAdmitted.ledger, "alice", "Party B") == AliceVotedB.ledger;
  }

  lemma AliceRescanRefused()
    ensures Recognize(AliceVotedB, Matches([[AlicePhoto]])) == Recognition(AliceVotedB, AlreadyVoted("alice"))
  {
    AliceName();
    assert Rostered([Alice], NameFromPath(AlicePhoto));
    CaptureAdmitsFirstRostered(AliceVotedB, [[AlicePhoto]], 0, 0);
    assert FindBallot(AliceVotedB.ledger, "alice") == Some(0);
  }

  lemma BobNotRostered(s: State)
    requires s.roster == [Alice]
    ensures Recognize(s, Matches([[BobPhoto]])) == Recognition(s, NoVoteAllowed)
  {
    BobName();
    assert FindPerson([Alice], "bob") == None;
    NoMatchChangesNothing(s, [[BobPhoto]]);
  }

  /**
   * Alice on the roster: her first capture enrols her and opens the ballot; she
   * votes for "Party B"; her next capture is refused and Submit stays disabled,
   * so her party cannot change. A capture of Bob, who is not on the roster,
   * creates no record.
   */
  lemma AliceVotesOnce()
    ensures var r1 := Recognize(Start, Matches([[AlicePhoto]]));
      var p1 := Press(r1.after, Some(1));
      var r2 := Recognize(p1.after, Matches([[AlicePhoto]]));
      var p2 := Press(r2.after, Some(2));
      && r1.status == MayVote("alice")
      && r1.after.ledger == [BallotRow("alice", FileBytes(AlicePhoto), false, None)]
      && p1.status == VoteSubmitted("alice", "Party B")
      && p1.after.ledger == [BallotRow("alice", FileBytes(AlicePhoto), true, Some("Party B"))]
      && r2.status == AlreadyVoted("alice")
      && p2.status == ButtonDisabled
      && p2.after.ledger == p1.after.ledger
      && Recognize(Start, Matches([[BobPhoto]])) == Recognition(Start, NoVoteAllowed)
  {
    AliceFirstCapture();
    AliceVotesForB();
    AliceRescanRefused();
    BobNotRostered(Start);
  }

  /**
   * As written, a capture that ends in "No vote allowed." leaves Submit as it
   * was: after Alice is allowed to vote and walks away, Bob (not on the roster)
   * is told he may not vote, yet pressing Submit casts Alice's ballot.
   */
  lemma StrangerCastsPreviousVote()
    ensures var r1 := Recognize(Start, Matches([[AlicePhoto]]));
      var r2 := Recognize(r1.after, Matches([[BobPhoto]]));
      var p := Press(r2.after, Some(0));
      && r2.status == NoVoteAllowed
      && r2.after.submitEnabled
      && p.status == VoteSubmitted("alice", "Party A")
      && Voted(p.after.ledger, "alice")
  {
    AliceFirstCapture();
    BobNotRostered(AliceAdmitted);
    assert MarkVoted(AliceAdmitted.ledger, "alice", "Party A")
      == [BallotRow("alice", FileBytes(AlicePhoto), true, Some("Party A"))];
  }

  /** The capture handler with submission disabled whenever it answers "No vote allowed." */
  function RecognizeStrict(s: State, result: MatchResult): (rec: Recognition)
    ensures rec.status == NoVoteAllowed ==> rec.after == s.(submitEnabled := false)
    ensures rec.status != NoVoteAllowed ==> rec == Recognize(s, result)
  {
    var rec := Recognize(s, result);
    if rec.status == NoVoteAllowed then Recognition(s.(submitEnabled := false), NoVoteAllowed) else rec
  }

  /** With the correction, a capture that allows no vote leaves nothing to submit. */
  lemma StrictRefusalClosesBallot(s: State, result: MatchResult, selection: Option<PartyIndex>)
    ensures var rec := RecognizeStrict(s, result);
      rec.status == NoVoteAllowed ==> Press(rec.after, selection) == Submission(rec.after, ButtonDisabled)
  {
  }

  /**
   * The correction keeps what the capture handler promises otherwise: the ballot
   * opens only for the name announced, and the ledger invariants hold as before.
   */
  lemma StrictCaptureKeepsConsistent(s: State, result: MatchResult)
    requires Consistent(s)
    ensures var rec := RecognizeStrict(s, result);
      && (rec.after.submitEnabled ==>
            (rec.status.MayVote? && rec.after.name == Some(rec.status.name))
            || (rec.status == DetectionError && rec.after == s))
      && Consistent(rec.after) && Frozen(s.ledger, rec.after.ledger) && rec.after.roster == s.roster
  {
    RecognizeKeepsConsistent(s, result);
    CaptureAnnouncesState(s, result);
  }
}
