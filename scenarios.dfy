/** Two complete games, worked through the model for every generator output. */
module Scenarios {
  import opened Model
  import opened Validator
  import opened Lottery
  import opened Allocator

  function TwoProjects(): Config {
    Config(10, Linear, ["A", "B"])
  }

  function SplitVoters(): VoteTable {
    [Entry("P1", [("A", Int(10)), ("B", Int(0))]),
     Entry("P2", [("A", Int(0)), ("B", Int(10))])]
  }

  lemma SplitVotersValid()
    ensures Valid(TwoProjects(), SplitVoters())
  {
    var config, table := TwoProjects(), SplitVoters();
    assert "A" != "B";
    assert "A" in ProjectSet(config) && "B" in ProjectSet(config);
    assert ProjectSet(config) == {"A", "B"};
    assert table[0].ballot[0].0 in Projects(table[0].ballot) && table[0].ballot[1].0 in Projects(table[0].ballot);
    assert table[1].ballot[0].0 in Projects(table[1].ballot) && table[1].ballot[1].0 in Projects(table[1].ballot);
    assert Projects(table[0].ballot) == {"A", "B"};
    assert Projects(table[1].ballot) == {"A", "B"};
    assert BallotSum(table[0].ballot) == 10 by {
      assert table[0].ballot[..1] == [("A", Int(10))];
    }
    assert BallotSum(table[1].ballot) == 10 by {
      assert table[1].ballot[..1] == [("A", Int(0))];
    }
  }

  /** Both projects total 10 votes: the tie keeps the listed order. */
  lemma SplitVotersOrder()
    ensures ProcessingOrder(TwoProjects(), SplitVoters()) == ["A", "B"]
  {
    var table := SplitVoters();
    var key := TotalKey(table);
    assert "A" != "B";
    assert table[..1] == [table[0]] && table[..1][..0] == [];
    assert ProjectTotal(table, "A") == 10 && ProjectTotal(table, "B") == 10;
    assert key("A") == 10 && key("B") == 10;
    assert SortDesc(["B"], key) == ["B"];
  }

  /** With everyone eligible, P1 is A's only voter with weight and wins it
      whatever the draw. */
  lemma SplitVotersFirstRound(raw: nat)
    ensures NonNegativeTable(SplitVoters())
    ensures Resolve(Linear, EligibleVotes(SplitVoters(), map[], "A"), raw) == Some("P1")
  {
    var table := SplitVoters();
    SplitVotersValid();
    ValidNonNegative(TwoProjects(), table);
    var votes := EligibleVotes(table, map[], "A");
    assert "A" != "B";
    assert votes == [("P1", 10), ("P2", 0)];
    IntervalsShape(Linear, votes);
    assert votes[..1] == [("P1", 10)] && votes[..1][..0] == [];
    assert SumCounts(votes[..1]) == 10;
    assert SumCounts(votes) == 10;
    var iv := Intervals(Linear, votes);
    assert iv == [0, 10, 10];
    LowerBoundUnique(iv, Draw(10, raw), 1);
  }

  /** Once P1 has won, P2 is the only eligible player and wins B. */
  lemma SplitVotersSecondRound(raw: nat)
    ensures NonNegativeTable(SplitVoters())
    ensures Resolve(Linear, EligibleVotes(SplitVoters(), map["P1" := "A"], "B"), raw) == Some("P2")
  {
    var table := SplitVoters();
    SplitVotersValid();
    ValidNonNegative(TwoProjects(), table);
    var votes := EligibleVotes(table, map["P1" := "A"], "B");
    assert "A" != "B" && "P1" != "P2";
    assert votes == [("P2", 10)];
    IntervalsShape(Linear, votes);
    var iv := Intervals(Linear, votes);
    assert iv == [0, 10];
    LowerBoundUnique(iv, Draw(10, raw), 1);
  }

  /** P1 wins A and P2 wins B, whatever the draws. */
  lemma {:induction false} SplitVotersAllocation(raws: seq<nat>)
    requires |raws| >= 2
    ensures Valid(TwoProjects(), SplitVoters())
    ensures Allocate(TwoProjects(), SplitVoters(), raws) == map["P1" := "A", "P2" := "B"]
  {
    var config, table := TwoProjects(), SplitVoters();
    SplitVotersValid();
    SplitVotersOrder();
    var order := ProcessingOrder(config, table);
    SplitVotersFirstRound(raws[0]);
    AllocateFromCons(Linear, table, order, raws, map[]);
    SplitVotersSecondRound(raws[1..][0]);
    AllocateFromCons(Linear, table, order[1..], raws[1..], map["P1" := "A"]);
    assert order[1..][1..] == [];
  }

  /** The players and projects of the game. */
  lemma SplitVotersSets()
    ensures Names(SplitVoters()) == {"P1", "P2"}
    ensures ProjectSet(TwoProjects()) == {"A", "B"}
  {
    var table := SplitVoters();
    assert table[0].player in Names(table) && table[1].player in Names(table);
  }

  /** P1 wins A and P2 wins B whatever the draws, so nobody and nothing is
      left unallocated. */
  lemma {:induction false} SplitVotersOutcome(raws: seq<nat>)
    requires |raws| >= 2
    ensures Valid(TwoProjects(), SplitVoters())
    ensures Allocate(TwoProjects(), SplitVoters(), raws) == map["P1" := "A", "P2" := "B"]
    ensures Names(SplitVoters()) - Allocate(TwoProjects(), SplitVoters(), raws).Keys == {}
    ensures ProjectSet(TwoProjects()) - Allocate(TwoProjects(), SplitVoters(), raws).Values == {}
  {
    SplitVotersAllocation(raws);
    SplitVotersSets();
    NothingLeft(map["P1" := "A", "P2" := "B"]);
  }

  lemma NothingLeft(winners: map<Player, Project>)
    requires winners == map["P1" := "A", "P2" := "B"]
    ensures winners.Keys == {"P1", "P2"} && winners.Values == {"A", "B"}
  {
    assert winners["P1"] == "A" && winners["P2"] == "B";
  }

  function OneProject(): Config {
    Config(0, Quadratic, ["A"])
  }

  function Abstainers(): VoteTable {
    [Entry("P1", [("A", Int(0))]), Entry("P2", [("A", Int(0))])]
  }

  lemma AbstainersValid()
    ensures Valid(OneProject(), Abstainers()) && NonNegativeTable(Abstainers())
    ensures Names(Abstainers()) == {"P1", "P2"} && ProjectSet(OneProject()) == {"A"}
  {
    var config, table := OneProject(), Abstainers();
    assert "A" in ProjectSet(config);
    assert table[0].ballot[0].0 in Projects(table[0].ballot);
    assert table[1].ballot[0].0 in Projects(table[1].ballot);
    assert Projects(table[0].ballot) == {"A"};
    assert Projects(table[1].ballot) == {"A"};
    assert BallotSum(table[0].ballot) == 0 && BallotSum(table[1].ballot) == 0;
    assert Valid(config, table);
    ValidNonNegative(config, table);
    assert table[0].player in Names(table) && table[1].player in Names(table);
  }

  /** A has no support, so it is skipped whatever the generator gives. */
  lemma AbstainersSkipped(raw: nat)
    ensures NonNegativeTable(Abstainers())
    ensures Resolve(Quadratic, EligibleVotes(Abstainers(), map[], "A"), raw).None?
  {
    AbstainersValid();
    var votes := EligibleVotes(Abstainers(), map[], "A");
    assert votes == [("P1", 0), ("P2", 0)];
    assert votes[..1] == [("P1", 0)] && votes[..1][..0] == [];
    assert SumCounts(votes[..1]) == 0;
    assert SumCounts(votes) == 0;
    ResolveOutcome(Quadratic, votes, raw);
  }

  /** Nobody put a vote on A, so it is skipped whatever the generator gives:
      it has no winner, and both players and the project stay unallocated. */
  lemma {:induction false} AbstainersOutcome(raws: seq<nat>)
    requires |raws| >= 1
    ensures Valid(OneProject(), Abstainers()) && NonNegativeTable(Abstainers())
    ensures forall raw :: Resolve(Quadratic, EligibleVotes(Abstainers(), map[], "A"), raw).None?
    ensures Allocate(OneProject(), Abstainers(), raws) == map[]
    ensures Names(Abstainers()) - Allocate(OneProject(), Abstainers(), raws).Keys == {"P1", "P2"}
    ensures ProjectSet(OneProject()) - Allocate(OneProject(), Abstainers(), raws).Values == {"A"}
  {
    var config, table := OneProject(), Abstainers();
    AbstainersValid();
    forall raw ensures Resolve(Quadratic, EligibleVotes(table, map[], "A"), raw).None? {
      AbstainersSkipped(raw);
    }
    var order := ProcessingOrder(config, table);
    assert order == ["A"];
    AllocateFromCons(Quadratic, table, order, raws, map[]);
  }
}
