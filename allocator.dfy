/** The game itself: projects are resolved one after another, most-voted
    first, each among the players who have not won anything yet. */
module Allocator {
  import opened Model
  import opened Validator
  import opened Lottery

  /** The votes a project received from every player of the table (winners
      included): the key of the processing order. */
  function ProjectTotal(table: VoteTable, p: Project): int {
    if table == [] then 0
    else ProjectTotal(table[..|table| - 1], p) + VoteFor(table[|table| - 1].ballot, p)
  }

  /** With no negative vote, a project's total is at least each player's own
      vote for it; a project nobody listed totals 0. */
  lemma {:induction false} ProjectTotalBounds(table: VoteTable, p: Project)
    ensures NonNegativeTable(table) ==>
      forall i :: 0 <= i < |table| ==> ProjectTotal(table, p) >= VoteFor(table[i].ballot, p) >= 0
    ensures (forall i :: 0 <= i < |table| ==> p !in Projects(table[i].ballot)) ==> ProjectTotal(table, p) == 0
  {
    if table != [] {
      var init := table[..|table| - 1];
      assert forall i :: 0 <= i < |init| ==> init[i] == table[i];
      ProjectTotalBounds(init, p);
    }
  }

  function TotalKey(table: VoteTable): Project -> int {
    p => ProjectTotal(table, p)
  }

  predicate NonIncreasing(s: seq<Project>, key: Project -> int) {
    forall i, j :: 0 <= i < j < |s| ==> key(s[i]) >= key(s[j])
  }

  /** The elements of s whose key is k, in the order of s. */
  function WithKey(s: seq<Project>, key: Project -> int, k: int): seq<Project> {
    if s == [] then []
    else (if key(s[0]) == k then [s[0]] else []) + WithKey(s[1..], key, k)
  }

  /** Puts x in front of the first element of s with a smaller key, so that
      x stays ahead of the elements whose key equals its own. */
  function InsertDesc(x: Project, s: seq<Project>, key: Project -> int): (r: seq<Project>)
    ensures multiset(r) == multiset(s) + multiset{x}
    ensures |r| == |s| + 1
  {
    if s == [] || key(x) >= key(s[0]) then [x] + s
    else
      assert s == [s[0]] + s[1..];
      [s[0]] + InsertDesc(x, s[1..], key)
  }

  lemma {:induction false} InsertDescOrdered(x: Project, s: seq<Project>, key: Project -> int)
    requires NonIncreasing(s, key)
    ensures NonIncreasing(InsertDesc(x, s, key), key)
    ensures InsertDesc(x, s, key)[0] == x || (s != [] && InsertDesc(x, s, key)[0] == s[0])
  {
    if s != [] && key(x) < key(s[0]) {
      var t := InsertDesc(x, s[1..], key);
      InsertDescOrdered(x, s[1..], key);
      assert key(s[0]) >= key(t[0]);
      assert forall j :: 0 <= j < |t| ==> key(t[0]) >= key(t[j]);
      assert InsertDesc(x, s, key) == [s[0]] + t;
    }
  }

  lemma {:induction false} InsertDescStable(x: Project, s: seq<Project>, key: Project -> int, k: int)
    ensures WithKey(InsertDesc(x, s, key), key, k) ==
      (if key(x) == k then [x] + WithKey(s, key, k) else WithKey(s, key, k))
  {
    if s == [] || key(x) >= key(s[0]) {
      assert ([x] + s)[1..] == s;
    } else {
      var t := InsertDesc(x, s[1..], key);
      InsertDescStable(x, s[1..], key, k);
      assert ([s[0]] + t)[1..] == t;
      assert WithKey([s[0]] + t, key, k) == (if key(s[0]) == k then [s[0]] else []) + WithKey(t, key, k);
    }
  }

  /** `sorted(projects, key, reverse=True)`: a stable sort on descending key. */
  function SortDesc(s: seq<Project>, key: Project -> int): (r: seq<Project>)
    ensures multiset(r) == multiset(s)
    ensures |r| == |s|
  {
    if s == [] then []
    else
      assert s == [s[0]] + s[1..];
      InsertDesc(s[0], SortDesc(s[1..], key), key)
  }

  /** The sorted list is in descending key order, and the elements that
      share a key keep their original relative order. */
  lemma {:induction false} SortDescOrderedStable(s: seq<Project>, key: Project -> int)
    ensures NonIncreasing(SortDesc(s, key), key)
    ensures forall k :: WithKey(SortDesc(s, key), key, k) == WithKey(s, key, k)
  {
    if s != [] {
      var t := SortDesc(s[1..], key);
      SortDescOrderedStable(s[1..], key);
      InsertDescOrdered(s[0], t, key);
      forall k ensures WithKey(SortDesc(s, key), key, k) == WithKey(s, key, k) {
        InsertDescStable(s[0], t, key, k);
      }
    }
  }

  /** The order in which projects are resolved: descending total votes over
      all players, ties in the order of the configuration. */
  function ProcessingOrder(config: Config, table: VoteTable): seq<Project> {
    SortDesc(config.contendedProjects, TotalKey(table))
  }

  /** The players not yet in `winners`, in table order, with their votes for
      project p. */
  function EligibleVotes(table: VoteTable, winners: map<Player, Project>, p: Project): (votes: Votes)
    ensures NonNegativeTable(table) ==> NonNegativeCounts(votes)
  {
    if table == [] then []
    else
      var rest := EligibleVotes(table[1..], winners, p);
      assert NonNegativeTable(table) ==> NonNegativeTable(table[1..]) by {
        assert forall i :: 1 <= i < |table| ==> table[i] == table[1..][i - 1];
      }
      var e := table[0];
      if e.player in winners then rest
      else [(e.player, VoteFor(e.ballot, p))] + rest
  }

  /** The pair is some player's own vote for project p. */
  predicate IsVoteOf(table: VoteTable, v: (Player, int), p: Project) {
    exists i :: 0 <= i < |table| && table[i].player == v.0 && v.1 == VoteFor(table[i].ballot, p)
  }

  /** The eligible list holds exactly the players who have not won yet,
      each with their own vote for the project. */
  lemma {:induction false} EligibleVotesExactly(table: VoteTable, winners: map<Player, Project>, p: Project)
    ensures forall k :: 0 <= k < |EligibleVotes(table, winners, p)| ==>
      EligibleVotes(table, winners, p)[k].0 !in winners
    ensures forall k :: 0 <= k < |EligibleVotes(table, winners, p)| ==>
      IsVoteOf(table, EligibleVotes(table, winners, p)[k], p)
    ensures forall i :: 0 <= i < |table| && table[i].player !in winners ==>
      (table[i].player, VoteFor(table[i].ballot, p)) in EligibleVotes(table, winners, p)
  {
    EligibleVotesSound(table, winners, p);
    EligibleVotesComplete(table, winners, p);
  }

  /** Every entry of the eligible list is the own vote of a player who has
      not won yet. */
  lemma {:induction false} EligibleVotesSound(table: VoteTable, winners: map<Player, Project>, p: Project)
    ensures forall k :: 0 <= k < |EligibleVotes(table, winners, p)| ==>
      EligibleVotes(table, winners, p)[k].0 !in winners
      && IsVoteOf(table, EligibleVotes(table, winners, p)[k], p)
  {
    if table != [] {
      var votes := EligibleVotes(table, winners, p);
      var rest := EligibleVotes(table[1..], winners, p);
      EligibleVotesSound(table[1..], winners, p);
      var e := table[0];
      var head := if e.player in winners then [] else [(e.player, VoteFor(e.ballot, p))];
      assert votes == head + rest;
      forall k | 0 <= k < |votes|
        ensures votes[k].0 !in winners && IsVoteOf(table, votes[k], p)
      {
        if k < |head| {
          assert votes[k] == (e.player, VoteFor(e.ballot, p));
          assert table[0] == e;
        } else {
          assert votes[k] == rest[k - |head|];
          assert IsVoteOf(table[1..], rest[k - |head|], p);
          var i :| 0 <= i < |table[1..]| && table[1..][i].player == votes[k].0
            && votes[k].1 == VoteFor(table[1..][i].ballot, p);
          assert table[i + 1] == table[1..][i];
        }
      }
    }
  }

  /** Every player who has not won yet is in the eligible list with their
      own vote. */
  lemma {:induction false} EligibleVotesComplete(table: VoteTable, winners: map<Player, Project>, p: Project)
    ensures forall i :: 0 <= i < |table| && table[i].player !in winners ==>
      (table[i].player, VoteFor(table[i].ballot, p)) in EligibleVotes(table, winners, p)
  {
    if table != [] {
      var votes := EligibleVotes(table, winners, p);
      var rest := EligibleVotes(table[1..], winners, p);
      EligibleVotesComplete(table[1..], winners, p);
      var e := table[0];
      var head := if e.player in winners then [] else [(e.player, VoteFor(e.ballot, p))];
      assert votes == head + rest;
      forall i | 0 <= i < |table| && table[i].player !in winners
        ensures (table[i].player, VoteFor(table[i].ballot, p)) in votes
      {
        if i > 0 {
          assert table[i] == table[1..][i - 1];
        }
      }
    }
  }

  /** The players of a non-empty table: its first player and those of the
      rest, the first of them not repeated when every player is unique. */
  lemma NamesCons(table: VoteTable)
    requires table != []
    ensures Names(table) == {table[0].player} + Names(table[1..])
    ensures UniquePlayers(table) ==>
      UniquePlayers(table[1..]) && table[0].player !in Names(table[1..])
  {
    var tail := table[1..];
    assert forall i :: 0 <= i < |tail| ==> tail[i] == table[i + 1];
    forall x | x in Names(table) ensures x in {table[0].player} + Names(tail) {
      var i :| 0 <= i < |table| && table[i].player == x;
      if i > 0 {
        assert tail[i - 1].player == x;
      }
    }
  }

  /** Every entry of the eligible list names a player of the table. */
  lemma EligibleVotersAreNames(table: VoteTable, winners: map<Player, Project>, p: Project)
    ensures forall k :: 0 <= k < |EligibleVotes(table, winners, p)| ==>
      EligibleVotes(table, winners, p)[k].0 in Names(table)
  {
    var votes := EligibleVotes(table, winners, p);
    EligibleVotesExactly(table, winners, p);
    forall k | 0 <= k < |votes| ensures votes[k].0 in Names(table) {
      assert IsVoteOf(table, votes[k], p);
    }
  }

  /** With every player listed once in the table, no player appears twice
      in the eligible list. */
  lemma {:induction false} EligibleVotesDistinct(table: VoteTable, winners: map<Player, Project>, p: Project)
    requires UniquePlayers(table)
    ensures DistinctVoters(EligibleVotes(table, winners, p))
  {
    if table != [] && table[0].player !in winners {
      var tail := table[1..];
      NamesCons(table);
      EligibleVotesDistinct(tail, winners, p);
      EligibleVotersAreNames(tail, winners, p);
      var rest := EligibleVotes(tail, winners, p);
      var votes := EligibleVotes(table, winners, p);
      assert votes == [(table[0].player, VoteFor(table[0].ballot, p))] + rest;
      forall j, k | 0 <= j < k < |votes| ensures votes[j].0 != votes[k].0 {
        assert votes[k] == rest[k - 1];
        if j > 0 {
          assert votes[j] == rest[j - 1];
        }
      }
    } else if table != [] {
      NamesCons(table);
      EligibleVotesDistinct(table[1..], winners, p);
    }
  }

  /** With every player listed once in the table, the eligible list has one
      entry per player who has not won yet. */
  lemma {:induction false} EligibleVotesCount(table: VoteTable, winners: map<Player, Project>, p: Project)
    requires UniquePlayers(table)
    ensures |EligibleVotes(table, winners, p)| == |Names(table) - winners.Keys|
  {
    if table != [] {
      NamesCons(table);
      EligibleVotesCount(table[1..], winners, p);
      EligibleLengthStep(table, winners, p);
      UnwonStep(table, winners);
    }
  }

  lemma EligibleLengthStep(table: VoteTable, winners: map<Player, Project>, p: Project)
    requires table != []
    ensures |EligibleVotes(table, winners, p)| ==
      (if table[0].player in winners then 0 else 1) + |EligibleVotes(table[1..], winners, p)|
  {
  }

  lemma {:induction false} UnwonStep(table: VoteTable, winners: map<Player, Project>)
    requires table != [] && UniquePlayers(table)
    ensures |Names(table) - winners.Keys| ==
      (if table[0].player in winners then 0 else 1) + |Names(table[1..]) - winners.Keys|
  {
    UnwonSplit(table, winners);
    if table[0].player !in winners {
      AddFresh(table[0].player, Names(table[1..]) - winners.Keys);
    }
  }

  /** The players of a table who have not won: the first one if it has not
      won, and those of the rest. */
  lemma UnwonSplit(table: VoteTable, winners: map<Player, Project>)
    requires table != [] && UniquePlayers(table)
    ensures table[0].player in winners ==>
      Names(table) - winners.Keys == Names(table[1..]) - winners.Keys
    ensures table[0].player !in winners ==>
      && Names(table) - winners.Keys == {table[0].player} + (Names(table[1..]) - winners.Keys)
      && table[0].player !in Names(table[1..]) - winners.Keys
  {
    NamesCons(table);
  }

  /** The winners after resolving `order` in turn, starting from `winners`
      and taking one generator output from `raws` per drawn project. */
  function AllocateFrom(
    kind: CountingType, table: VoteTable, order: seq<Project>, raws: seq<nat>,
    winners: map<Player, Project>): map<Player, Project>
    requires NonNegativeTable(table)
    requires |raws| >= |order|
    decreases |order|
  {
    if order == [] then winners
    else
      match Resolve(kind, EligibleVotes(table, winners, order[0]), raws[0])
      case None => AllocateFrom(kind, table, order[1..], raws, winners)
      case Some(w) => AllocateFrom(kind, table, order[1..], raws[1..], winners[w := order[0]])
  }

  /** The winner map of a validated game. */
  function Allocate(config: Config, table: VoteTable, raws: seq<nat>): map<Player, Project>
    requires Valid(config, table)
    requires |raws| >= |config.contendedProjects|
  {
    ValidNonNegative(config, table);
    AllocateFrom(config.countingType, table, ProcessingOrder(config, table), raws, map[])
  }

  predicate Injective(m: map<Player, Project>) {
    forall a, b :: a in m && b in m && a != b ==> m[a] != m[b]
  }

  predicate NoDuplicates(s: seq<Project>) {
    forall i, j :: 0 <= i < j < |s| ==> s[i] != s[j]
  }

  /** A player who won a project while eligible voted for it. */
  predicate VotedFor(table: VoteTable, w: Player, p: Project) {
    exists i :: 0 <= i < |table| && table[i].player == w && VoteFor(table[i].ballot, p) > 0
  }

  /** The first round of AllocateFrom: resolve the first project, record a
      winner if there is one, and go on with the rest. */
  lemma AllocateFromCons(
    kind: CountingType, table: VoteTable, order: seq<Project>, raws: seq<nat>,
    winners: map<Player, Project>)
    requires NonNegativeTable(table)
    requires |raws| >= |order| > 0
    ensures var res := Resolve(kind, EligibleVotes(table, winners, order[0]), raws[0]);
      AllocateFrom(kind, table, order, raws, winners) ==
        if res.None? then AllocateFrom(kind, table, order[1..], raws, winners)
        else AllocateFrom(kind, table, order[1..], raws[1..], winners[res.value := order[0]])
  {
  }

  /** One round: a project's winner is a player of the table, not yet a
      winner, who voted for the project. */
  lemma RoundWinner(kind: CountingType, table: VoteTable, winners: map<Player, Project>, p: Project, raw: nat)
    requires NonNegativeTable(table)
    ensures var res := Resolve(kind, EligibleVotes(table, winners, p), raw);
      res.Some? ==> res.value !in winners && res.value in Names(table) && VotedFor(table, res.value, p)
  {
    var votes := EligibleVotes(table, winners, p);
    ResolveOutcome(kind, votes, raw);
    EligibleVotesExactly(table, winners, p);
    var res := Resolve(kind, votes, raw);
    if res.Some? {
      var k :| 0 <= k < |votes| && votes[k].0 == res.value && votes[k].1 > 0;
      assert IsVoteOf(table, votes[k], p);
      var i :| 0 <= i < |table| && table[i].player == res.value && votes[k].1 == VoteFor(table[i].ballot, p);
      assert table[i].player in Names(table);
    }
  }

  /** A round's winner is not a winner already. */
  lemma RoundWinnerFresh(kind: CountingType, table: VoteTable, winners: map<Player, Project>, p: Project, raw: nat)
    requires NonNegativeTable(table)
    ensures var res := Resolve(kind, EligibleVotes(table, winners, p), raw);
      res.Some? ==> res.value !in winners
  {
    RoundWinner(kind, table, winners, p, raw);
  }

  /** What resolving the projects of `order` did to `winners` to give
      `result`: earlier awards stay as they are, new keys are players of
      the table who voted for the project they won, new values are
      projects of `order`, and each project adds at most one entry. */
  predicate Extends(result: map<Player, Project>, winners: map<Player, Project>, table: VoteTable, order: seq<Project>) {
    && (forall w :: w in winners ==> w in result && result[w] == winners[w])
    && (forall w :: w in result && w !in winners ==> w in Names(table) && VotedFor(table, w, result[w]))
    && (forall w :: w in result && w !in winners ==> result[w] in order)
    && |result| <= |winners| + |order|
  }

  /** Resolving the remaining projects only extends the winner map (a
      winner is never eligible again). */
  lemma {:induction false} AllocateFromGrows(
    kind: CountingType, table: VoteTable, order: seq<Project>, raws: seq<nat>,
    winners: map<Player, Project>)
    requires NonNegativeTable(table)
    requires |raws| >= |order|
    ensures Extends(AllocateFrom(kind, table, order, raws, winners), winners, table, order)
    decreases |order|
  {
    if order != [] {
      var res := Resolve(kind, EligibleVotes(table, winners, order[0]), raws[0]);
      RoundWinner(kind, table, winners, order[0], raws[0]);
      AllocateFromCons(kind, table, order, raws, winners);
      if res.None? {
        AllocateFromGrows(kind, table, order[1..], raws, winners);
        ExtendsSkip(AllocateFrom(kind, table, order, raws, winners), winners, table, order);
      } else {
        var next := winners[res.value := order[0]];
        AllocateFromGrows(kind, table, order[1..], raws[1..], next);
        ExtendsWin(AllocateFrom(kind, table, order, raws, winners), winners, table, order, res.value);
      }
    }
  }

  /** A first project with no winner: what extends the map over the rest
      extends it over the whole order. */
  lemma ExtendsSkip(result: map<Player, Project>, winners: map<Player, Project>, table: VoteTable, order: seq<Project>)
    requires order != []
    requires Extends(result, winners, table, order[1..])
    ensures Extends(result, winners, table, order)
  {
    assert forall p :: p in order[1..] ==> p in order;
  }

  /** A first project won by `w`, a new winner who voted for it: what
      extends the map with that award over the rest extends the map over
      the whole order. */
  lemma ExtendsWin(result: map<Player, Project>, winners: map<Player, Project>, table: VoteTable, order: seq<Project>, w: Player)
    requires order != []
    requires w !in winners && w in Names(table) && VotedFor(table, w, order[0])
    requires Extends(result, winners[w := order[0]], table, order[1..])
    ensures Extends(result, winners, table, order)
  {
    var next := winners[w := order[0]];
    assert |next| == |winners| + 1;
    assert forall p :: p in order[1..] ==> p in order;
    forall u | u in result && u !in winners
      ensures u in Names(table) && VotedFor(table, u, result[u]) && result[u] in order
    {
      if u == w {
        assert result[u] == order[0];
      }
    }
  }

  /** One generator output per awarded project and none for a skipped one:
      the result takes n = |result| - |winners| outputs, and depends on the
      first n of them only. */
  lemma {:induction false} AllocateFromDrawsUsed(
    kind: CountingType, table: VoteTable, order: seq<Project>, raws: seq<nat>, raws': seq<nat>,
    winners: map<Player, Project>)
    requires NonNegativeTable(table)
    requires |raws| >= |order| && |raws'| >= |order|
    ensures ReadsFirst(AllocateFrom(kind, table, order, raws, winners), AllocateFrom(kind, table, order, raws', winners),
      winners, raws, raws', |order|)
    decreases |order|, 1
  {
    if order != [] {
      if Resolve(kind, EligibleVotes(table, winners, order[0]), raws[0]).None? {
        SkipStep(kind, table, order, raws, raws', winners);
        AllocateFromDrawsUsed(kind, table, order[1..], raws, raws', winners);
      } else {
        var next := WinStep(kind, table, order, raws, raws', winners);
        DrawsUsedWin(kind, table, order, raws, raws', winners, next);
      }
    }
  }

  /** AllocateFromDrawsUsed for a first project that finds a winner and
      turns `winners` into `next`. */
  lemma {:induction false} DrawsUsedWin(
    kind: CountingType, table: VoteTable, order: seq<Project>, raws: seq<nat>, raws': seq<nat>,
    winners: map<Player, Project>, next: map<Player, Project>)
    requires NonNegativeTable(table)
    requires |raws| >= |order| > 0 && |raws'| >= |order|
    requires |next| == |winners| + 1
    requires AllocateFrom(kind, table, order, raws, winners) == AllocateFrom(kind, table, order[1..], raws[1..], next)
    requires raws[0] == raws'[0] ==>
      AllocateFrom(kind, table, order, raws', winners) == AllocateFrom(kind, table, order[1..], raws'[1..], next)
    ensures ReadsFirst(AllocateFrom(kind, table, order, raws, winners), AllocateFrom(kind, table, order, raws', winners),
      winners, raws, raws', |order|)
    decreases |order|, 0
  {
    AllocateFromDrawsUsed(kind, table, order[1..], raws[1..], raws'[1..], next);
    DrawsUsedAfterWin(raws, raws', |order[1..]|, winners, next,
      AllocateFrom(kind, table, order, raws, winners), AllocateFrom(kind, table, order, raws', winners),
      AllocateFrom(kind, table, order[1..], raws[1..], next), AllocateFrom(kind, table, order[1..], raws'[1..], next));
  }

  /** A round whose project has no support: it finds no winner whatever
      the output, and the rest of the game goes on with the same outputs. */
  lemma SkipStep(
    kind: CountingType, table: VoteTable, order: seq<Project>, raws: seq<nat>, raws': seq<nat>,
    winners: map<Player, Project>)
    requires NonNegativeTable(table)
    requires |raws| >= |order| > 0 && |raws'| >= |order|
    requires Resolve(kind, EligibleVotes(table, winners, order[0]), raws[0]).None?
    ensures AllocateFrom(kind, table, order, raws, winners) == AllocateFrom(kind, table, order[1..], raws, winners)
    ensures AllocateFrom(kind, table, order, raws', winners) == AllocateFrom(kind, table, order[1..], raws', winners)
  {
    var votes := EligibleVotes(table, winners, order[0]);
    ResolveOutcome(kind, votes, raws[0]);
    ResolveOutcome(kind, votes, raws'[0]);
    AllocateFromCons(kind, table, order, raws, winners);
    AllocateFromCons(kind, table, order, raws', winners);
  }

  /** Playing `rounds` rounds from `winners` gave `result` with outputs
      `raws` and `result'` with outputs `raws'`: the game took
      n = |result| - |winners| outputs, at most one per round, and outputs
      that agree on the first n give the same result. */
  predicate ReadsFirst(
    result: map<Player, Project>, result': map<Player, Project>, winners: map<Player, Project>,
    raws: seq<nat>, raws': seq<nat>, rounds: nat)
  {
    var n := |result| - |winners|;
    0 <= n <= rounds && (AgreeOn(raws, raws', n) ==> result' == result)
  }

  /** The counting step of AllocateFromDrawsUsed for a project that finds
      a winner: `result` is the game's winner map and `rest` the map after
      the first round, which added one winner and took the first output,
      with `later` rounds still to play; `result'` and `rest'` are the same
      with outputs `raws'`. */
  lemma DrawsUsedAfterWin(
    raws: seq<nat>, raws': seq<nat>, later: nat,
    winners: map<Player, Project>, next: map<Player, Project>,
    result: map<Player, Project>, result': map<Player, Project>,
    rest: map<Player, Project>, rest': map<Player, Project>)
    requires |raws| > later && |raws'| > later
    requires |next| == |winners| + 1 && result == rest
    requires raws[0] == raws'[0] ==> result' == rest'
    requires ReadsFirst(rest, rest', next, raws[1..], raws'[1..], later)
    ensures ReadsFirst(result, result', winners, raws, raws', later + 1)
  {
    var n := |result| - |winners|;
    if AgreeOn(raws, raws', n) {
      SamePrefixTail(raws, raws', n);
    }
  }

  /** A round whose project finds a winner: the winner is new, and the
      rest of the game goes on with the next output; with the same first
      output, the same player wins. */
  lemma WinStep(
    kind: CountingType, table: VoteTable, order: seq<Project>, raws: seq<nat>, raws': seq<nat>,
    winners: map<Player, Project>) returns (next: map<Player, Project>)
    requires NonNegativeTable(table)
    requires |raws| >= |order| > 0 && |raws'| >= |order|
    requires Resolve(kind, EligibleVotes(table, winners, order[0]), raws[0]).Some?
    ensures |next| == |winners| + 1
    ensures AllocateFrom(kind, table, order, raws, winners) == AllocateFrom(kind, table, order[1..], raws[1..], next)
    ensures raws[0] == raws'[0] ==>
      AllocateFrom(kind, table, order, raws', winners) == AllocateFrom(kind, table, order[1..], raws'[1..], next)
  {
    var w := Resolve(kind, EligibleVotes(table, winners, order[0]), raws[0]).value;
    next := winners[w := order[0]];
    AllocateFromCons(kind, table, order, raws, winners);
    AllocateFromCons(kind, table, order, raws', winners);
    RoundWinnerFresh(kind, table, winners, order[0], raws[0]);
  }

  /** Two output sequences agree on their first n outputs. */
  predicate AgreeOn(a: seq<nat>, b: seq<nat>, n: nat) {
    n <= |a| && n <= |b| && forall i :: 0 <= i < n ==> a[i] == b[i]
  }

  lemma SamePrefixTail(a: seq<nat>, b: seq<nat>, n: nat)
    requires 1 <= n && AgreeOn(a, b, n)
    ensures a[0] == b[0] && AgreeOn(a[1..], b[1..], n - 1)
  {
    assert forall i :: 0 <= i < n - 1 ==> a[1..][i] == a[i + 1] && b[1..][i] == b[i + 1];
  }

  /** With projects listed once each, none of them already awarded, every
      project is awarded at most once. */
  lemma {:induction false} AllocateFromInjective(
    kind: CountingType, table: VoteTable, order: seq<Project>, raws: seq<nat>,
    winners: map<Player, Project>)
    requires NonNegativeTable(table)
    requires |raws| >= |order|
    requires Injective(winners)
    requires NoDuplicates(order)
    requires forall j, u :: 0 <= j < |order| && u in winners ==> winners[u] != order[j]
    ensures Injective(AllocateFrom(kind, table, order, raws, winners))
    decreases |order|
  {
    if order != [] {
      var res := Resolve(kind, EligibleVotes(table, winners, order[0]), raws[0]);
      AllocateFromCons(kind, table, order, raws, winners);
      if res.None? {
        AwardFirst(winners, order, None);
        AllocateFromInjective(kind, table, order[1..], raws, winners);
      } else {
        AwardFirst(winners, order, res);
        AllocateFromInjective(kind, table, order[1..], raws[1..], winners[res.value := order[0]]);
      }
    }
  }

  /** The first round of AllocateFromInjective, over the maps: recording
      the first project against a player (or nobody) keeps the map
      injective and keeps the remaining projects unawarded. */
  lemma AwardFirst(winners: map<Player, Project>, order: seq<Project>, res: Option<Player>)
    requires |order| > 0
    requires Injective(winners)
    requires NoDuplicates(order)
    requires forall j, u :: 0 <= j < |order| && u in winners ==> winners[u] != order[j]
    ensures var next := if res.None? then winners else winners[res.value := order[0]];
      && Injective(next)
      && NoDuplicates(order[1..])
      && forall j, u :: 0 <= j < |order[1..]| && u in next ==> next[u] != order[1..][j]
  {
    var next := if res.None? then winners else winners[res.value := order[0]];
    assert forall j :: 0 <= j < |order[1..]| ==> order[1..][j] == order[j + 1];
    forall a, b | a in next && b in next && a != b ensures next[a] != next[b] {
      if res.Some? && a != res.value && b != res.value {
        assert next[a] == winners[a] && next[b] == winners[b];
      }
    }
    forall j, u | 0 <= j < |order[1..]| && u in next ensures next[u] != order[1..][j] {
      if res.None? || u != res.value {
        assert next[u] == winners[u];
      }
    }
  }

  /** The invariants of the final winner map: every key is a player, every
      value a contended project, every winner voted for what they won, there
      are no more winners than players or projects, and with a duplicate-free
      project list no project is awarded twice. */
  lemma AllocationProperties(config: Config, table: VoteTable, raws: seq<nat>)
    requires Valid(config, table)
    requires |raws| >= |config.contendedProjects|
    ensures var winners := Allocate(config, table, raws);
      && winners.Keys <= Names(table)
      && winners.Values <= ProjectSet(config)
      && (forall w :: w in winners ==> VotedFor(table, w, winners[w]))
      && |winners| <= |Names(table)|
      && |winners| <= |config.contendedProjects|
      && (NoDuplicates(config.contendedProjects) ==> Injective(winners))
  {
    ValidNonNegative(config, table);
    var order := ProcessingOrder(config, table);
    var winners := Allocate(config, table, raws);
    AllocateFromGrows(config.countingType, table, order, raws, map[]);
    forall p | p in winners.Values ensures p in ProjectSet(config) {
      var w :| w in winners && winners[w] == p;
      assert p in multiset(order);
    }
    assert |winners.Keys| <= |Names(table)| by {
      SubsetSize(winners.Keys, Names(table));
    }
    if NoDuplicates(config.contendedProjects) {
      SortedNoDuplicates(config.contendedProjects, order);
      AllocateFromInjective(config.countingType, table, order, raws, map[]);
    }
  }

  lemma SplitByDifference<T>(a: set<T>, b: set<T>)
    requires a <= b
    ensures a !! (b - a) && a + (b - a) == b
  {
  }

  lemma AddFresh<T>(x: T, a: set<T>)
    requires x !in a
    ensures |{x} + a| == |a| + 1
  {
  }

  lemma SubsetSize<T>(a: set<T>, b: set<T>)
    requires a <= b
    ensures |a| <= |b|
  {
    assert b == a + (b - a);
  }

  /** A permutation of a duplicate-free list is duplicate-free. */
  lemma SortedNoDuplicates(s: seq<Project>, r: seq<Project>)
    requires NoDuplicates(s)
    requires multiset(r) == multiset(s)
    ensures NoDuplicates(r)
  {
    forall i, j | 0 <= i < j < |r| ensures r[i] != r[j] {
      if r[i] == r[j] {
        assert multiset(r)[r[i]] >= 2 by {
          assert multiset{r[i], r[j]} <= multiset(r) by {
            assert r == r[..i] + [r[i]] + r[i + 1..j] + [r[j]] + r[j + 1..];
          }
        }
        MultiplicityAtMostOne(s, r[i]);
      }
    }
  }

  lemma {:induction false} MultiplicityAtMostOne(s: seq<Project>, x: Project)
    requires NoDuplicates(s)
    ensures multiset(s)[x] <= 1
  {
    if s != [] {
      assert s == [s[0]] + s[1..];
      assert NoDuplicates(s[1..]) by {
        forall i, j | 0 <= i < j < |s[1..]| ensures s[1..][i] != s[1..][j] {
          assert s[1..][i] == s[i + 1] && s[1..][j] == s[j + 1];
        }
      }
      MultiplicityAtMostOne(s[1..], x);
      if s[0] == x {
        assert x !in s[1..] by {
          forall j | 0 <= j < |s[1..]| ensures s[1..][j] != x {
            assert s[1..][j] == s[j + 1];
          }
        }
      }
    }
  }

  /** One turn of the loop of `play`, at project i with `used` outputs
      taken: the project's winner, if any, is new, and the rest of the game
      goes on from the updated map and the next unused output. */
  lemma ResolveStep(
    kind: CountingType, table: VoteTable, order: seq<Project>, raws: seq<nat>,
    winners: map<Player, Project>, i: nat, used: nat)
    requires NonNegativeTable(table)
    requires used <= i < |order| && |raws| >= |order|
    ensures var res := Resolve(kind, EligibleVotes(table, winners, order[i]), raws[used]);
      && (res.Some? ==> res.value !in winners)
      && AllocateFrom(kind, table, order[i..], raws[used..], winners) ==
        if res.None? then AllocateFrom(kind, table, order[i + 1..], raws[used..], winners)
        else AllocateFrom(kind, table, order[i + 1..], raws[used + 1..], winners[res.value := order[i]])
  {
    AllocateFromCons(kind, table, order[i..], raws[used..], winners);
    assert order[i..][0] == order[i] && order[i..][1..] == order[i + 1..];
    assert raws[used..][0] == raws[used] && raws[used..][1..] == raws[used + 1..];
    RoundWinnerFresh(kind, table, winners, order[i], raws[used]);
  }

  /** The loop of `play`: resolve each project of `order` in turn among the
      players who have not won yet, recording each winner. One generator
      output is taken per project that finds a winner. */
  method ResolveInOrder(kind: CountingType, table: VoteTable, order: seq<Project>, raws: seq<nat>)
    returns (winners: map<Player, Project>, draws: nat)
    requires NonNegativeTable(table)
    requires |raws| >= |order|
    ensures winners == AllocateFrom(kind, table, order, raws, map[])
    ensures draws == |winners| && draws <= |order|
  {
    winners := map[];
    draws := 0;
    for i := 0 to |order|
      invariant draws <= i && draws == |winners|
      invariant AllocateFrom(kind, table, order[i..], raws[draws..], winners)
        == AllocateFrom(kind, table, order, raws, map[])
    {
      var project := order[i];
      var votes := EligibleVotes(table, winners, project);
      var winner := ResolveProject(kind, votes, raws[draws]);
      ResolveStep(kind, table, order, raws, winners, i, draws);
      if winner.Some? {
        winners := winners[winner.value := project];
        draws := draws + 1;
      }
    }
    assert order[|order|..] == [] && raws[0..] == raws;
  }

  /** `play`: resolve the projects in processing order, recording each
      winner, then report who and what was left without a match. */
  method Play(config: Config, table: VoteTable, raws: seq<nat>)
    returns (winners: map<Player, Project>, order: seq<Project>,
             unallocatedPlayers: set<Player>, unallocatedProjects: set<Project>, draws: nat)
    requires Valid(config, table)
    requires |raws| >= |config.contendedProjects|
    ensures order == ProcessingOrder(config, table)
    ensures multiset(order) == multiset(config.contendedProjects)
    ensures NonIncreasing(order, TotalKey(table))
    ensures forall k :: WithKey(order, TotalKey(table), k) == WithKey(config.contendedProjects, TotalKey(table), k)
    ensures winners == Allocate(config, table, raws)
    ensures winners.Keys <= Names(table) && winners.Values <= ProjectSet(config)
    ensures |winners| <= |Names(table)| && |winners| <= |config.contendedProjects|
    ensures NoDuplicates(config.contendedProjects) ==> Injective(winners)
    ensures winners.Keys !! unallocatedPlayers && winners.Keys + unallocatedPlayers == Names(table)
    ensures winners.Values !! unallocatedProjects && winners.Values + unallocatedProjects == ProjectSet(config)
    ensures draws == |winners|
  {
    ValidNonNegative(config, table);
    order := ProcessingOrder(config, table);
    winners, draws := ResolveInOrder(config.countingType, table, order, raws);
    SortDescOrderedStable(config.contendedProjects, TotalKey(table));
    AllocationProperties(config, table, raws);
    unallocatedPlayers := Names(table) - winners.Keys;
    unallocatedProjects := ProjectSet(config) - winners.Values;
    SplitByDifference(winners.Keys, Names(table));
    SplitByDifference(winners.Values, ProjectSet(config));
  }

  /** The two ways a run ends: the whole list of violations, or the result
      of the game. */
  datatype Outcome =
    | Rejected(violations: seq<Violation>)
    | Allocated(winners: map<Player, Project>, order: seq<Project>,
                unallocatedPlayers: set<Player>, unallocatedProjects: set<Project>)

  /** A run: validate first, and play only when no rule is violated. */
  method Run(config: Config, table: VoteTable, raws: seq<nat>) returns (outcome: Outcome)
    requires |raws| >= |config.contendedProjects|
    ensures outcome.Rejected? <==> !Valid(config, table)
    ensures outcome.Rejected? ==>
      outcome.violations == Violations(config, table) && outcome.violations != []
    ensures outcome.Allocated? ==>
      && Valid(config, table)
      && outcome.winners == Allocate(config, table, raws)
      && outcome.order == ProcessingOrder(config, table)
      && outcome.unallocatedPlayers == Names(table) - outcome.winners.Keys
      && outcome.unallocatedProjects == ProjectSet(config) - outcome.winners.Values
  {
    var violations := CheckViolations(config, table);
    if violations != [] {
      return Rejected(violations);
    }
    var winners, order, players, projects, _ := Play(config, table, raws);
    outcome := Allocated(winners, order, players, projects);
  }
}
