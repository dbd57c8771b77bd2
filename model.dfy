/** The data the allocation game works on: the configuration block and the
    table of players' ballots read from the vote file. Both are immutable for
    the whole run. */
module Model {

  datatype Option<T> = None | Some(value: T)

  type Player = string
  type Project = string

  /** One value of a ballot as the vote file gives it: an integer, or some
      other value (a fraction, a string, ...) that the first rule rejects. */
  datatype Vote = Int(n: int) | NonInteger

  /** How a vote count becomes lottery weight. */
  datatype CountingType = Linear | Quadratic

  datatype Config = Config(
    votesPerPerson: int,
    countingType: CountingType,
    contendedProjects: seq<Project>)

  /** A player's ballot: a dictionary from project to vote, as a list of
      pairs in file order. */
  type Ballot = seq<(Project, Vote)>

  datatype Entry = Entry(player: Player, ballot: Ballot)

  /** The players of the vote file, in file order. */
  type VoteTable = seq<Entry>

  /** The integer a vote stands for; a non-integer contributes nothing. */
  function IntValue(v: Vote): int {
    if v.Int? then v.n else 0
  }

  /** Every player appears once, as the keys of the vote file do. */
  predicate UniquePlayers(table: VoteTable) {
    forall i, j :: 0 <= i < j < |table| ==> table[i].player != table[j].player
  }

  function Names(table: VoteTable): set<Player> {
    set i | 0 <= i < |table| :: table[i].player
  }

  function ProjectSet(config: Config): set<Project> {
    set p | p in config.contendedProjects
  }

  /** The keys of a ballot. */
  function Projects(b: Ballot): set<Project> {
    set j | 0 <= j < |b| :: b[j].0
  }

  predicate NonNegativeBallot(b: Ballot) {
    forall j :: 0 <= j < |b| ==> IntValue(b[j].1) >= 0
  }

  predicate NonNegativeTable(table: VoteTable) {
    forall i :: 0 <= i < |table| ==> NonNegativeBallot(table[i].ballot)
  }

  /** The vote a ballot gives a project (the lookup `v[project]`). A project
      missing from the ballot counts 0; validation rules that case out before
      any lookup happens. */
  function VoteFor(b: Ballot, p: Project): (c: int)
    ensures NonNegativeBallot(b) ==> c >= 0
    ensures p !in Projects(b) ==> c == 0
    ensures p in Projects(b) ==> exists j :: 0 <= j < |b| && b[j].0 == p && c == IntValue(b[j].1)
  {
    if b == [] then 0
    else if b[0].0 == p then IntValue(b[0].1)
    else
      assert forall j :: 1 <= j < |b| ==> b[j] == b[1..][j - 1];
      assert Projects(b) == {b[0].0} + Projects(b[1..]);
      VoteFor(b[1..], p)
  }
}
