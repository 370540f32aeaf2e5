/**
 * The two SQLite tables of the voter database, as sequences of rows in row-id
 * order: `person_data` (the roster) and `voted_faces` (the ballot ledger), and
 * the queries the kiosk runs against them.
 */
module VoterTables {
  import opened Wrappers

  /** The fixed list of parties shown in the ballot list box. */
  const Parties: seq<string> := ["Party A", "Party B", "Party C", "Party D"]

  /** A position in the party list box; the box always lists exactly `Parties`. */
  type PartyIndex = i: nat | i < |Parties|

  /** A `person_data` row (its integer id is the row's position). */
  datatype Person = Person(name: string, age: int, gender: string)

  /** The `image` column: the bytes of the file at `path`. */
  datatype Blob = FileBytes(path: string)

  /** A `voted_faces` row; `party` is NULL until the vote is cast. */
  datatype BallotRow = BallotRow(name: string, image: Blob, hasVoted: bool, party: Option<string>)

  /** `SELECT * FROM person_data WHERE name=?` then `fetchone()`: the first matching row. */
  function FindPerson(personData: seq<Person>, name: string): (r: Option<nat>)
  {
    if personData == [] then None
    else if personData[0].name == name then Some(0)
    else match FindPerson(personData[1..], name)
      case None => None
      case Some(k) => Some(k + 1)
  }

  /**
   * The roster lookup finds the first row of that name, and finds nothing only
   * when no row has it. (Stated apart from `FindPerson`, whose callers rarely need it.)
   */
  lemma {:induction false} FindPersonIsFirst(personData: seq<Person>, name: string)
    ensures var r := FindPerson(personData, name);
      && (r.Some? ==> r.value < |personData| && personData[r.value].name == name)
      && (r.Some? ==> forall k :: 0 <= k < r.value ==> personData[k].name != name)
      && (r.None? <==> forall k :: 0 <= k < |personData| ==> personData[k].name != name)
  {
    if personData != [] && personData[0].name != name {
      FindPersonIsFirst(personData[1..], name);
    }
  }

  /** `SELECT has_voted FROM voted_faces WHERE name=?` then `fetchone()`: the first matching row. */
  function FindBallot(votedFaces: seq<BallotRow>, name: string): (r: Option<nat>)
    ensures r.Some? ==> r.value < |votedFaces| && votedFaces[r.value].name == name
    ensures r.Some? ==> forall k :: 0 <= k < r.value ==> votedFaces[k].name != name
    ensures r.None? <==> forall k :: 0 <= k < |votedFaces| ==> votedFaces[k].name != name
  {
    if votedFaces == [] then None
    else if votedFaces[0].name == name then Some(0)
    else match FindBallot(votedFaces[1..], name)
      case None => None
      case Some(k) => Some(k + 1)
  }

  /** The ledger has a record for `name` and it says has_voted=0. */
  predicate Eligible(votedFaces: seq<BallotRow>, name: string)
  {
    var k := FindBallot(votedFaces, name);
    k.Some? && !votedFaces[k.value].hasVoted
  }

  /** The ledger has a record for `name` and it says has_voted=1. */
  predicate Voted(votedFaces: seq<BallotRow>, name: string)
  {
    var k := FindBallot(votedFaces, name);
    k.Some? && votedFaces[k.value].hasVoted
  }

  /** `UPDATE voted_faces SET has_voted=1, party=? WHERE name=?`: every row of that name. */
  function MarkVoted(votedFaces: seq<BallotRow>, name: string, party: string): (r: seq<BallotRow>)
  {
    seq(|votedFaces|, i requires 0 <= i < |votedFaces| =>
      if votedFaces[i].name == name then votedFaces[i].(hasVoted := true, party := Some(party))
      else votedFaces[i])
  }

  /** `create_database`: the CSV rows are appended only while `person_data` is empty. */
  function LoadRoster(personData: seq<Person>, csv: seq<Person>): (r: seq<Person>)
  {
    if |personData| == 0 then csv else personData
  }

  /** At most one ledger record per name. */
  predicate UniqueNames(votedFaces: seq<BallotRow>)
  {
    forall i, j :: 0 <= i < j < |votedFaces| ==> votedFaces[i].name != votedFaces[j].name
  }

  /**
   * What the kiosk keeps true of its two tables: one record per name, a party
   * exactly on the records that have voted, always one of `Parties`, and records
   * only for people on the roster.
   */
  predicate TablesConsistent(personData: seq<Person>, votedFaces: seq<BallotRow>)
  {
    && UniqueNames(votedFaces)
    && (forall i :: 0 <= i < |votedFaces| ==> (votedFaces[i].party.Some? <==> votedFaces[i].hasVoted))
    && (forall i :: 0 <= i < |votedFaces| && votedFaces[i].party.Some? ==> votedFaces[i].party.value in Parties)
    && (forall i :: 0 <= i < |votedFaces| ==> FindPerson(personData, votedFaces[i].name).Some?)
  }

  /**
   * `after` keeps every record of `before` in place under the same name, may add
   * records at the end, and leaves a record that has voted exactly as it was.
   */
  predicate Frozen(before: seq<BallotRow>, after: seq<BallotRow>)
  {
    && |before| <= |after|
    && (forall i :: 0 <= i < |before| ==> after[i].name == before[i].name)
    && (forall i :: 0 <= i < |before| && before[i].hasVoted ==> after[i] == before[i])
  }

  lemma FrozenTransitive(a: seq<BallotRow>, b: seq<BallotRow>, c: seq<BallotRow>)
    requires Frozen(a, b) && Frozen(b, c)
    ensures Frozen(a, c)
  {
  }

  /** A record found before a frozen change is still the first one of its name after it. */
  lemma FindBallotFrozen(before: seq<BallotRow>, after: seq<BallotRow>, name: string)
    requires Frozen(before, after) && FindBallot(before, name).Some?
    ensures FindBallot(after, name) == FindBallot(before, name)
  {
    var k := FindBallot(before, name).value;
    assert after[k].name == name;
  }

  /** Once a name has voted, every frozen change keeps it voted, with the same party. */
  lemma VotedFrozen(before: seq<BallotRow>, after: seq<BallotRow>, name: string)
    requires Frozen(before, after) && Voted(before, name)
    ensures Voted(after, name)
    ensures after[FindBallot(after, name).value] == before[FindBallot(before, name).value]
  {
    FindBallotFrozen(before, after, name);
  }

  /** Appending a record for a name the ledger does not yet hold makes it that name's record. */
  lemma FindBallotAppend(votedFaces: seq<BallotRow>, row: BallotRow)
    requires FindBallot(votedFaces, row.name).None?
    ensures FindBallot(votedFaces + [row], row.name) == Some(|votedFaces|)
    ensures UniqueNames(votedFaces) ==> UniqueNames(votedFaces + [row])
  {
    var r := FindBallot(votedFaces + [row], row.name);
    assert (votedFaces + [row])[|votedFaces|] == row;
    assert forall k :: 0 <= k < |votedFaces| ==> (votedFaces + [row])[k] == votedFaces[k];
  }

  /**
   * Enrolling a rostered name that has no record (has_voted=0, party NULL) keeps
   * the tables consistent.
   */
  lemma EnrolKeepsConsistent(personData: seq<Person>, votedFaces: seq<BallotRow>, row: BallotRow)
    requires TablesConsistent(personData, votedFaces)
    requires FindBallot(votedFaces, row.name).None? && FindPerson(personData, row.name).Some?
    requires !row.hasVoted && row.party.None?
    ensures TablesConsistent(personData, votedFaces + [row])
  {
    FindBallotAppend(votedFaces, row);
    assert forall i :: 0 <= i < |votedFaces| ==> (votedFaces + [row])[i] == votedFaces[i];
  }

  /** Appending leaves the first record of any other name where it was. */
  lemma FindBallotAppendOther(votedFaces: seq<BallotRow>, row: BallotRow, name: string)
    requires row.name != name
    ensures FindBallot(votedFaces + [row], name) == FindBallot(votedFaces, name)
  {
    assert forall k :: 0 <= k < |votedFaces| ==> (votedFaces + [row])[k] == votedFaces[k];
  }

  /**
   * Marking an eligible name voted in a consistent ledger: only that name's record
   * changes, it now says has_voted=1 with the chosen party, and the change is frozen.
   */
  lemma MarkVotedEffect(personData: seq<Person>, votedFaces: seq<BallotRow>, name: string, party: string)
    requires TablesConsistent(personData, votedFaces) && Eligible(votedFaces, name) && party in Parties
    ensures var after := MarkVoted(votedFaces, name, party);
      && Frozen(votedFaces, after)
      && FindBallot(after, name) == FindBallot(votedFaces, name)
      && after[FindBallot(after, name).value] == votedFaces[FindBallot(votedFaces, name).value].(hasVoted := true, party := Some(party))
      && (forall i :: 0 <= i < |votedFaces| && i != FindBallot(votedFaces, name).value ==> after[i] == votedFaces[i])
      && TablesConsistent(personData, after)
  {
    var k := FindBallot(votedFaces, name).value;
    var after := MarkVoted(votedFaces, name, party);
    assert forall i :: 0 <= i < |votedFaces| && i != k ==> votedFaces[i].name != name;
    assert Frozen(votedFaces, after);
    FindBallotFrozen(votedFaces, after, name);
  }

  /** Loading the roster twice loads it once. */
  lemma LoadRosterIdempotent(personData: seq<Person>, csv: seq<Person>)
    ensures LoadRoster(LoadRoster(personData, csv), csv) == LoadRoster(personData, csv)
  {
  }

  /** A roster that already has rows is never reloaded, and loading keeps the tables consistent. */
  lemma LoadRosterKeepsConsistent(personData: seq<Person>, votedFaces: seq<BallotRow>, csv: seq<Person>)
    requires TablesConsistent(personData, votedFaces)
    ensures |personData| > 0 ==> LoadRoster(personData, csv) == personData
    ensures TablesConsistent(LoadRoster(personData, csv), votedFaces)
  {
    if |votedFaces| > 0 {
      assert FindPerson(personData, votedFaces[0].name).Some?;
    }
  }
}
