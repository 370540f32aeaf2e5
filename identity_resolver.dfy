/**
 * Identity resolution: the face matcher's ranked answer, and the first candidate
 * in it whose extracted name is on the roster.
 */
module IdentityResolver {
  import opened Wrappers
  import opened PathNames
  import opened VoterTables

  /**
   * What `DeepFace.find` gives back: a failure (it raised ValueError), or one
   * group of candidate file paths per detected face, each in the matcher's row order.
   */
  datatype MatchResult = DetectionFailed | Matches(groups: seq<seq<string>>)

  /** A candidate's position: row `row` of group `group`. */
  datatype Hit = Hit(group: nat, row: nat)

  /** `name` has a `person_data` row. */
  predicate Rostered(personData: seq<Person>, name: string)
  {
    FindPerson(personData, name).Some?
  }

  /** The name of every candidate of one group, row by row. */
  function GroupNames(paths: seq<string>): (names: seq<string>)
    ensures |names| == |paths|
  {
    if paths == [] then [] else [NameFromPath(paths[0])] + GroupNames(paths[1..])
  }

  /** The name of every candidate, group by group and row by row. */
  function CandidateNames(groups: seq<seq<string>>): (names: seq<seq<string>>)
    ensures |names| == |groups|
    ensures forall g :: 0 <= g < |groups| ==> |names[g]| == |groups[g]|
  {
    if groups == [] then [] else [GroupNames(groups[0])] + CandidateNames(groups[1..])
  }

  /** The name at a row is the one read off its path. */
  lemma {:induction false} GroupNameAt(paths: seq<string>, k: nat)
    requires k < |paths|
    ensures GroupNames(paths)[k] == NameFromPath(paths[k])
    decreases k
  {
    if k > 0 {
      GroupNameAt(paths[1..], k - 1);
    }
  }

  /** The name at a candidate's position is the one read off its path. */
  lemma {:induction false} CandidateNameAt(groups: seq<seq<string>>, g: nat, k: nat)
    requires g < |groups| && k < |groups[g]|
    ensures CandidateNames(groups)[g][k] == NameFromPath(groups[g][k])
    decreases g
  {
    if g > 0 {
      CandidateNameAt(groups[1..], g - 1, k);
    } else {
      GroupNameAt(groups[0], k);
    }
  }

  /** The first rostered name of one group, by row. */
  function FirstRostered(personData: seq<Person>, names: seq<string>): (r: Option<nat>)
    ensures r.Some? ==> r.value < |names| && Rostered(personData, names[r.value])
    ensures r.Some? ==> forall k :: 0 <= k < r.value ==> !Rostered(personData, names[k])
    ensures r.None? <==> forall k :: 0 <= k < |names| ==> !Rostered(personData, names[k])
  {
    if names == [] then None
    else if Rostered(personData, names[0]) then Some(0)
    else match FirstRostered(personData, names[1..])
      case None => None
      case Some(k) => Some(k + 1)
  }

  /**
   * The resolved candidate: scanning groups in order and rows in order, the first
   * name that is on the roster. Everything before it is skipped; nothing
   * after it is looked at.
   */
  function Resolve(personData: seq<Person>, names: seq<seq<string>>): (r: Option<Hit>)
    ensures r.Some? ==> r.value.group < |names| && r.value.row < |names[r.value.group]|
    ensures r.Some? ==> Rostered(personData, names[r.value.group][r.value.row])
    ensures r.Some? ==> forall g, k :: 0 <= g < r.value.group && 0 <= k < |names[g]| ==> !Rostered(personData, names[g][k])
    ensures r.Some? ==> forall k :: 0 <= k < r.value.row ==> !Rostered(personData, names[r.value.group][k])
    ensures r.None? <==> forall g, k :: 0 <= g < |names| && 0 <= k < |names[g]| ==> !Rostered(personData, names[g][k])
  {
    if names == [] then None
    else match FirstRostered(personData, names[0])
      case Some(k) => Some(Hit(0, k))
      case None =>
        match Resolve(personData, names[1..])
        case None => None
        case Some(h) => Some(Hit(h.group + 1, h.row))
  }

  /** The candidate at (g, j) is the resolved one exactly when it is rostered and nothing before it is. */
  lemma ResolveAt(personData: seq<Person>, names: seq<seq<string>>, g: nat, j: nat)
    requires g < |names| && j < |names[g]|
    ensures Resolve(personData, names) == Some(Hit(g, j)) <==>
      && Rostered(personData, names[g][j])
      && (forall g', k :: 0 <= g' < g && 0 <= k < |names[g']| ==> !Rostered(personData, names[g'][k]))
      && (forall k :: 0 <= k < j ==> !Rostered(personData, names[g][k]))
  {
    var r := Resolve(personData, names);
    if && Rostered(personData, names[g][j])
       && (forall g', k :: 0 <= g' < g && 0 <= k < |names[g']| ==> !Rostered(personData, names[g'][k]))
       && (forall k :: 0 <= k < j ==> !Rostered(personData, names[g][k]))
    {
      assert r.Some?;
    }
  }
}
