/**
 * The kiosk's voting logic as functions on its whole state: the two tables and
 * the session (the name last allowed to vote and whether Submit is enabled).
 * `Recognize` is what one face capture does, `Submit` what the Submit button
 * does; the lemmas say what a run of such events can and cannot do.
 */
module Voting {
  import opened Wrappers
  import opened PathNames
  import opened VoterTables
  import opened IdentityResolver

  /** The roster, the ledger, `self.name` (unbound until someone may vote) and the Submit button's state. */
  datatype State = State(roster: seq<Person>, ledger: seq<BallotRow>, name: Option<string>, submitEnabled: bool)

  /** The message a capture ends with. */
  datatype VoteStatus =
    | DetectionError          // "Error during face detection"
    | NoVoteAllowed           // "No vote allowed."
    | AlreadyVoted(name: string)
    | MayVote(name: string)

  datatype Recognition = Recognition(after: State, status: VoteStatus)

  /** How a press of Submit ends. */
  datatype SubmitStatus =
    | ButtonDisabled           // a disabled button runs no command
    | NothingSelected          // no party selected in the list box
    | NameUnbound              // `self.name` was never set; the callback fails before the UPDATE
    | VoteSubmitted(name: string, party: string)

  datatype Submission = Submission(after: State, status: SubmitStatus)

  /** The session invariant: Submit is enabled only for a named voter whose record says has_voted=0. */
  predicate Consistent(s: State)
  {
    && TablesConsistent(s.roster, s.ledger)
    && (s.submitEnabled ==> s.name.Some? && Eligible(s.ledger, s.name.value))
  }

  /** What happens once candidate `path` resolved to a rostered `name`. */
  function Admit(s: State, path: string, name: string): (rec: Recognition)
  {
    match FindBallot(s.ledger, name)
    case None =>
      var row := BallotRow(name, FileBytes(path), false, None);
      Recognition(s.(ledger := s.ledger + [row], name := Some(name), submitEnabled := true), MayVote(name))
    case Some(k) =>
      if s.ledger[k].hasVoted then Recognition(s.(submitEnabled := false), AlreadyVoted(name))
      else Recognition(s.(name := Some(name), submitEnabled := true), MayVote(name))
  }

  /** `recognize_face` on a matcher result. */
  function Recognize(s: State, result: MatchResult): (rec: Recognition)
  {
    match result
    case DetectionFailed => Recognition(s, DetectionError)
    case Matches(groups) =>
      match Resolve(s.roster, CandidateNames(groups))
      case None => Recognition(s, NoVoteAllowed)
      case Some(h) =>
        var path := groups[h.group][h.row];
        Admit(s, path, NameFromPath(path))
  }

  /** `submit_vote` with the list box's selection. */
  function Submit(s: State, selection: Option<PartyIndex>): (sub: Submission)
  {
    match selection
    case None => Submission(s, NothingSelected)
    case Some(i) =>
      match s.name
      case None => Submission(s, NameUnbound)
      case Some(n) =>
        Submission(s.(ledger := MarkVoted(s.ledger, n, Parties[i]), submitEnabled := false), VoteSubmitted(n, Parties[i]))
  }

  /** When the candidate at (g, row) is the resolved one, the capture admits it. */
  lemma RecognizeAtHit(s: State, groups: seq<seq<string>>, g: nat, row: nat)
    requires g < |groups| && row < |groups[g]|
    requires Resolve(s.roster, CandidateNames(groups)) == Some(Hit(g, row))
    ensures Recognize(s, Matches(groups)) == Admit(s, groups[g][row], NameFromPath(groups[g][row]))
  {
  }

  /** A press of the Submit button: tkinter runs `submit_vote` only while the button is enabled. */
  function Press(s: State, selection: Option<PartyIndex>): (sub: Submission)
  {
    if s.submitEnabled then Submit(s, selection) else Submission(s, ButtonDisabled)
  }

  /** A matcher failure returns before the database is touched: nothing changes. */
  lemma MatcherFailureChangesNothing(s: State)
    ensures Recognize(s, DetectionFailed) == Recognition(s, DetectionError)
  {
  }

  /**
   * "No vote allowed." is the outcome exactly when no candidate's name is on
   * the roster (an empty answer included), and then nothing changes.
   */
  lemma NoMatchChangesNothing(s: State, groups: seq<seq<string>>)
    ensures (forall g, k :: 0 <= g < |groups| && 0 <= k < |groups[g]| ==> !Rostered(s.roster, NameFromPath(groups[g][k])))
      <==> Recognize(s, Matches(groups)).status == NoVoteAllowed
    ensures Recognize(s, Matches(groups)).status == NoVoteAllowed ==> Recognize(s, Matches(groups)).after == s
  {
    var names := CandidateNames(groups);
    forall g, k | 0 <= g < |groups| && 0 <= k < |groups[g]|
      ensures names[g][k] == NameFromPath(groups[g][k])
    {
      CandidateNameAt(groups, g, k);
    }
  }

  /**
   * Resolution order: the capture acts on the candidate at (g, j), scanning
   * groups and then rows, when its name is on the roster and no earlier one is.
   */
  lemma CaptureAdmitsFirstRostered(s: State, groups: seq<seq<string>>, g: nat, j: nat)
    requires g < |groups| && j < |groups[g]|
    requires Rostered(s.roster, NameFromPath(groups[g][j]))
    requires forall g', k :: 0 <= g' < g && 0 <= k < |groups[g']| ==> !Rostered(s.roster, NameFromPath(groups[g'][k]))
    requires forall k :: 0 <= k < j ==> !Rostered(s.roster, NameFromPath(groups[g][k]))
    ensures Recognize(s, Matches(groups)) == Admit(s, groups[g][j], NameFromPath(groups[g][j]))
  {
    var names := CandidateNames(groups);
    forall g', k | 0 <= g' <= g && 0 <= k < |groups[g']|
      ensures names[g'][k] == NameFromPath(groups[g'][k])
    {
      CandidateNameAt(groups, g', k);
    }
    ResolveAt(s.roster, names, g, j);
  }

  /**
   * First enrolment: a rostered name with no record gets exactly one new record,
   * has_voted=0 and party NULL, holding the matched file's bytes; the session
   * takes its name and Submit is enabled.
   */
  lemma FirstEnrolment(s: State, path: string, name: string)
    requires FindBallot(s.ledger, name).None?
    ensures Admit(s, path, name) == Recognition(
      s.(ledger := s.ledger + [BallotRow(name, FileBytes(path), false, None)], name := Some(name), submitEnabled := true),
      MayVote(name))
    ensures FindBallot(Admit(s, path, name).after.ledger, name) == Some(|s.ledger|)
    ensures Eligible(Admit(s, path, name).after.ledger, name)
  {
    FindBallotAppend(s.ledger, BallotRow(name, FileBytes(path), false, None));
  }

  /** Re-scan while eligible: no insert, no update; the session takes the name and Submit is enabled. */
  lemma RescanWhileEligible(s: State, path: string, name: string)
    requires Eligible(s.ledger, name)
    ensures Admit(s, path, name) == Recognition(s.(name := Some(name), submitEnabled := true), MayVote(name))
  {
  }

  /** Already voted: the ledger and the session name stay, and Submit is disabled. */
  lemma AlreadyVotedRefused(s: State, path: string, name: string)
    requires Voted(s.ledger, name)
    ensures Admit(s, path, name) == Recognition(s.(submitEnabled := false), AlreadyVoted(name))
  {
  }

  /**
   * Repeated scans are idempotent: a second capture with the same matcher answer
   * inserts nothing, updates nothing and ends the same way as the first.
   */
  lemma RescanIdempotent(s: State, result: MatchResult)
    ensures Recognize(Recognize(s, result).after, result) == Recognize(s, result)
  {
    if result.Matches? {
      var h := Resolve(s.roster, CandidateNames(result.groups));
      if h.Some? {
        var path := result.groups[h.value.group][h.value.row];
        var name := NameFromPath(path);
        if FindBallot(s.ledger, name).None? {
          FindBallotAppend(s.ledger, BallotRow(name, FileBytes(path), false, None));
        }
      }
    }
  }

  /** Admitting a rostered name keeps the invariant and changes the ledger only by appending. */
  lemma AdmitKeepsConsistent(s: State, path: string, name: string)
    requires Consistent(s) && Rostered(s.roster, name)
    ensures Consistent(Admit(s, path, name).after)
    ensures Frozen(s.ledger, Admit(s, path, name).after.ledger)
    ensures Admit(s, path, name).after.roster == s.roster
  {
    if FindBallot(s.ledger, name).None? {
      var row := BallotRow(name, FileBytes(path), false, None);
      EnrolKeepsConsistent(s.roster, s.ledger, row);
      FindBallotAppend(s.ledger, row);
      if s.submitEnabled && s.name.value != name {
        FindBallotAppendOther(s.ledger, row, s.name.value);
      }
    }
  }

  /**
   * What a capture announces is what it leaves behind: "you may vote" opens the
   * ballot for the announced name, "already voted" closes it, and the two
   * refusals that change nothing leave the kiosk as it was.
   */
  lemma CaptureAnnouncesState(s: State, result: MatchResult)
    ensures var rec := Recognize(s, result);
      && (rec.status.MayVote? ==> rec.after.submitEnabled && rec.after.name == Some(rec.status.name))
      && (rec.status.AlreadyVoted? ==> !rec.after.submitEnabled && rec.after.ledger == s.ledger)
      && (rec.status == NoVoteAllowed || rec.status == DetectionError ==> rec.after == s)
  {
    if result.Matches? {
      var h := Resolve(s.roster, CandidateNames(result.groups));
      if h.Some? {
        RecognizeAtHit(s, result.groups, h.value.group, h.value.row);
      }
    }
  }

  /** A capture keeps the invariant, and never alters or removes a ledger record. */
  lemma RecognizeKeepsConsistent(s: State, result: MatchResult)
    requires Consistent(s)
    ensures Consistent(Recognize(s, result).after)
    ensures Frozen(s.ledger, Recognize(s, result).after.ledger)
    ensures Recognize(s, result).after.roster == s.roster
  {
    if result.Matches? {
      var h := Resolve(s.roster, CandidateNames(result.groups));
      if h.Some? {
        var path := result.groups[h.value.group][h.value.row];
        CandidateNameAt(result.groups, h.value.group, h.value.row);
        AdmitKeepsConsistent(s, path, NameFromPath(path));
      }
    }
  }

  /**
   * A submitted vote: with a selection, the session name's record says
   * has_voted=1 with the chosen party from `Parties`, nothing else in the ledger
   * changes, and Submit is disabled; without one, nothing changes.
   */
  lemma SubmitEffect(s: State, selection: Option<PartyIndex>)
    requires Consistent(s) && s.submitEnabled
    ensures var sub := Submit(s, selection);
      && Consistent(sub.after)
      && Frozen(s.ledger, sub.after.ledger)
      && sub.after.roster == s.roster && sub.after.name == s.name
      && (selection.None? ==> sub == Submission(s, NothingSelected))
      && (selection.Some? ==>
            && sub.status == VoteSubmitted(s.name.value, Parties[selection.value])
            && Parties[selection.value] in Parties
            && !sub.after.submitEnabled
            && Voted(sub.after.ledger, s.name.value)
            && sub.after.ledger[FindBallot(sub.after.ledger, s.name.value).value].party == Some(Parties[selection.value])
            && (forall n :: n != s.name.value ==> FindBallot(sub.after.ledger, n) == FindBallot(s.ledger, n))
            && (forall i :: 0 <= i < |s.ledger| && s.ledger[i].name != s.name.value ==> sub.after.ledger[i] == s.ledger[i]))
  {
    if selection.Some? {
      var n := s.name.value;
      var party := Parties[selection.value];
      MarkVotedEffect(s.roster, s.ledger, n, party);
      var after := MarkVoted(s.ledger, n, party);
      forall m | m != n ensures FindBallot(after, m) == FindBallot(s.ledger, m) {
        if FindBallot(s.ledger, m).Some? {
          FindBallotFrozen(s.ledger, after, m);
        }
      }
    }
  }

  /** After a vote the button is disabled, so a second press changes nothing. */
  lemma SecondPressChangesNothing(s: State, first: Option<PartyIndex>, second: Option<PartyIndex>)
    requires Consistent(s) && s.submitEnabled && first.Some?
    ensures var after := Press(s, first).after;
      Press(after, second) == Submission(after, ButtonDisabled)
  {
  }

  /** One kiosk event: a face capture or a press of Submit. */
  datatype Event = Capture(result: MatchResult) | PressSubmit(selection: Option<PartyIndex>)

  /** The kiosk after one event. */
  function Step(s: State, e: Event): (after: State)
  {
    match e
    case Capture(result) => Recognize(s, result).after
    case PressSubmit(selection) => Press(s, selection).after
  }

  /** The kiosk after a sequence of events, in order. */
  function Run(s: State, events: seq<Event>): (after: State)
    decreases |events|
  {
    if events == [] then s else Run(Step(s, events[0]), events[1..])
  }

  /** The name whose vote one event submits, if any. */
  function Cast(s: State, e: Event): (names: seq<string>)
  {
    match e
    case Capture(_) => []
    case PressSubmit(selection) =>
      match Press(s, selection).status
      case VoteSubmitted(n, _) => [n]
      case _ => []
  }

  /** The names whose vote a run of events submits, in order. */
  function Ballots(s: State, events: seq<Event>): (names: seq<string>)
    decreases |events|
  {
    if events == [] then [] else Cast(s, events[0]) + Ballots(Step(s, events[0]), events[1..])
  }

  /** An event submits a vote only for a name that had not voted, and that name has voted afterwards. */
  lemma CastOnlyUnvoted(s: State, e: Event)
    requires Consistent(s)
    ensures |Cast(s, e)| <= 1
    ensures |Cast(s, e)| == 1 ==> !Voted(s.ledger, Cast(s, e)[0]) && Voted(Step(s, e).ledger, Cast(s, e)[0])
  {
    if e.PressSubmit? && s.submitEnabled {
      SubmitEffect(s, e.selection);
    }
  }

  /** Every event keeps the invariant, and never undoes or alters a cast vote. */
  lemma StepKeepsConsistent(s: State, e: Event)
    requires Consistent(s)
    ensures Consistent(Step(s, e)) && Frozen(s.ledger, Step(s, e).ledger)
    ensures Step(s, e).roster == s.roster
  {
    match e
    case Capture(result) => RecognizeKeepsConsistent(s, result);
    case PressSubmit(selection) =>
      if s.submitEnabled {
        SubmitEffect(s, selection);
      }
  }

  /**
   * Over any run: the tables stay consistent (one record per name, a party
   * exactly on voted records), no record is deleted or renamed, has_voted
   * never goes back to 0, and a cast party never changes.
   */
  lemma {:induction false} RunKeepsConsistent(s: State, events: seq<Event>)
    requires Consistent(s)
    ensures Consistent(Run(s, events)) && Frozen(s.ledger, Run(s, events).ledger)
    decreases |events|
  {
    if events != [] {
      var s1 := Step(s, events[0]);
      StepKeepsConsistent(s, events[0]);
      RunKeepsConsistent(s1, events[1..]);
      FrozenTransitive(s.ledger, s1.ledger, Run(s1, events[1..]).ledger);
    }
  }

  /** A name that has voted stays voted, with the same record, over any run. */
  lemma VotedStaysVoted(s: State, events: seq<Event>, name: string)
    requires Consistent(s) && Voted(s.ledger, name)
    ensures Voted(Run(s, events).ledger, name)
    ensures Run(s, events).ledger[FindBallot(Run(s, events).ledger, name).value] == s.ledger[FindBallot(s.ledger, name).value]
  {
    RunKeepsConsistent(s, events);
    VotedFrozen(s.ledger, Run(s, events).ledger, name);
  }

  /**
   * One ballot per identity: in any run from a consistent state, no name has its
   * vote submitted twice, and none whose record already said has_voted=1.
   */
  lemma {:induction false} BallotsOncePerVoter(s: State, events: seq<Event>)
    requires Consistent(s)
    ensures forall i :: 0 <= i < |Ballots(s, events)| ==> !Voted(s.ledger, Ballots(s, events)[i])
    ensures forall i, j :: 0 <= i < j < |Ballots(s, events)| ==> Ballots(s, events)[i] != Ballots(s, events)[j]
    decreases |events|
  {
    if events != [] {
      var e := events[0];
      var s1 := Step(s, e);
      StepKeepsConsistent(s, e);
      CastOnlyUnvoted(s, e);
      BallotsOncePerVoter(s1, events[1..]);
      var head := Cast(s, e);
      var rest := Ballots(s1, events[1..]);
      assert Ballots(s, events) == head + rest;
      forall i | 0 <= i < |rest| ensures !Voted(s.ledger, rest[i]) {
        if Voted(s.ledger, rest[i]) {
          VotedFrozen(s.ledger, s1.ledger, rest[i]);
        }
      }
    }
  }
}
