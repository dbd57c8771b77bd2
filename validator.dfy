/** The rule checker run before any allocation: every player's ballot must
    hold integers only, no negative vote, exactly the contended projects,
    and exactly the configured number of votes. */
module Validator {
  import opened Model

  datatype Violation =
    | NonIntegerVote(player: Player)
    | NegativeVote(player: Player)
    | ProjectSetMismatch(player: Player)
    | BudgetMismatch(player: Player, actual: int, expected: int)

  /** Rule 1: every vote is an integer. */
  predicate AllInteger(b: Ballot) {
    forall j :: 0 <= j < |b| ==> b[j].1.Int?
  }

  /** Rule 3: the ballot's keys are exactly the contended projects. */
  predicate CoversProjects(config: Config, b: Ballot) {
    Projects(b) == ProjectSet(config)
  }

  /** The number of votes a ballot spends. */
  function BallotSum(b: Ballot): int {
    if b == [] then 0 else BallotSum(b[..|b| - 1]) + IntValue(b[|b| - 1].1)
  }

  /** A player whose ballot passes all four rules. */
  predicate PlayerValid(config: Config, e: Entry) {
    && AllInteger(e.ballot)
    && NonNegativeBallot(e.ballot)
    && CoversProjects(config, e.ballot)
    && BallotSum(e.ballot) == config.votesPerPerson
  }

  predicate Valid(config: Config, table: VoteTable) {
    forall i :: 0 <= i < |table| ==> PlayerValid(config, table[i])
  }

  /** What the rules report for one player: a failed rule 1 or rule 2 ends
      that player's checks; rules 3 and 4 are reported independently. The
      player is reported exactly when the ballot breaks a rule, at most
      twice, and every report names that player. */
  function PlayerViolations(config: Config, e: Entry): (r: seq<Violation>)
    ensures r == [] <==> PlayerValid(config, e)
    ensures |r| <= 2
    ensures forall k :: 0 <= k < |r| ==> r[k].player == e.player
  {
    if !AllInteger(e.ballot) then [NonIntegerVote(e.player)]
    else if !NonNegativeBallot(e.ballot) then [NegativeVote(e.player)]
    else
      (if CoversProjects(config, e.ballot) then [] else [ProjectSetMismatch(e.player)])
      + (if BallotSum(e.ballot) == config.votesPerPerson then []
         else [BudgetMismatch(e.player, BallotSum(e.ballot), config.votesPerPerson)])
  }

  /** Every player's violations, collected in table order: nothing is
      collected exactly when every player passes every rule, and no player
      is reported more than twice. */
  function Violations(config: Config, table: VoteTable): (v: seq<Violation>)
    ensures v == [] <==> Valid(config, table)
    ensures |v| <= 2 * |table|
  {
    if table == [] then []
    else
      var init := table[..|table| - 1];
      assert forall i :: 0 <= i < |init| ==> init[i] == table[i];
      Violations(config, init) + PlayerViolations(config, table[|table| - 1])
  }

  /** The rules as a checker: one pass over the players, appending to the
      list of violations. */
  method CheckViolations(config: Config, table: VoteTable) returns (violations: seq<Violation>)
    ensures violations == Violations(config, table)
    ensures violations == [] <==> Valid(config, table)
    ensures forall k :: 0 <= k < |violations| ==> violations[k].player in Names(table)
  {
    violations := [];
    for i := 0 to |table|
      invariant violations == Violations(config, table[..i])
    {
      assert table[..i + 1][..i] == table[..i];
      var e := table[i];
      if !AllInteger(e.ballot) {
        violations := violations + [NonIntegerVote(e.player)];
        continue;
      }
      if !NonNegativeBallot(e.ballot) {
        violations := violations + [NegativeVote(e.player)];
        continue;
      }
      if !CoversProjects(config, e.ballot) {
        violations := violations + [ProjectSetMismatch(e.player)];
      }
      var total := BallotSum(e.ballot);
      if total != config.votesPerPerson {
        violations := violations + [BudgetMismatch(e.player, total, config.votesPerPerson)];
      }
    }
    assert table[..|table|] == table;
    ViolationsNamePlayers(config, table);
  }

  /** Every reported violation names a player of the table. */
  lemma {:induction false} ViolationsNamePlayers(config: Config, table: VoteTable)
    ensures forall k :: 0 <= k < |Violations(config, table)| ==>
      Violations(config, table)[k].player in Names(table)
  {
    if table != [] {
      var init := table[..|table| - 1];
      ViolationsNamePlayers(config, init);
      assert Names(init) <= Names(table) by {
        forall p | p in Names(init) ensures p in Names(table) {
          var i :| 0 <= i < |init| && init[i].player == p;
          assert table[i].player == p;
        }
      }
      assert table[|table| - 1].player in Names(table);
    }
  }

  /** Rules 1 and 2 short-circuit: a non-integer vote, or else a negative
      one, yields exactly one violation and no later rule is evaluated. */
  lemma EarlyRulesShortCircuit(config: Config, e: Entry)
    ensures !AllInteger(e.ballot) ==> PlayerViolations(config, e) == [NonIntegerVote(e.player)]
    ensures AllInteger(e.ballot) && !NonNegativeBallot(e.ballot) ==>
      PlayerViolations(config, e) == [NegativeVote(e.player)]
  {
  }

  /** For a ballot of non-negative integers, rules 3 and 4 are reported
      independently of each other, and rule 4 demands the budget be spent
      exactly: an under-spent ballot is reported as well as an over-spent one. */
  lemma LaterRulesIndependent(config: Config, e: Entry)
    requires AllInteger(e.ballot) && NonNegativeBallot(e.ballot)
    ensures ProjectSetMismatch(e.player) in PlayerViolations(config, e)
      <==> !CoversProjects(config, e.ballot)
    ensures BudgetMismatch(e.player, BallotSum(e.ballot), config.votesPerPerson) in PlayerViolations(config, e)
      <==> BallotSum(e.ballot) != config.votesPerPerson
    ensures |PlayerViolations(config, e)| ==
      (if CoversProjects(config, e.ballot) then 0 else 1)
      + (if BallotSum(e.ballot) == config.votesPerPerson then 0 else 1)
  {
  }

  /** A ballot that passes validation holds only non-negative votes, so the
      lottery can use them as weights. */
  lemma {:induction false} ValidNonNegative(config: Config, table: VoteTable)
    requires Valid(config, table)
    ensures NonNegativeTable(table)
  {
    forall i | 0 <= i < |table| ensures NonNegativeBallot(table[i].ballot) {
      assert PlayerValid(config, table[i]);
    }
  }
}
