# Weighted-lottery project allocation, in Dafny

This project models the allocation game of `game.py`. Each player spreads a
fixed budget of votes over a list of contended projects. The run then does
two things:

1. **Validation** (`check_violations`). Every player's ballot must contain
   integers only and no negative vote. Its keys must be exactly the
   contended projects, and its votes must sum to exactly `votes_per_person`.
   Any violation stops the run before allocation.
2. **Allocation** (`play`). Projects are taken in descending order of total
   votes over all players, with ties kept in listed order. Each project is
   given by weighted lottery (`resolve_project`) to one player who has not
   won anything yet. A player's weight is their vote count (linear counting)
   or its square (quadratic counting). The lottery builds a cumulative
   interval list starting at 0, draws `r` in `[1, total]`, and picks the
   entry just before `bisect_left(intervals, r)`.

Files:

- `model.dfy` (module `Model`): configuration, ballots, the vote table and
  the vote lookup.
- `validator.dfy` (module `Validator`): the four rules and the checker loop.
- `lottery.dfy` (module `Lottery`): cumulative weights, the draw,
  `bisect_left` as a binary search, and one project's resolution.
- `allocator.dfy` (module `Allocator`): the processing order (a stable
  descending sort), the eligible list, the allocation loop, and the
  validate-then-play entry point.
- `scenarios.dfy` (module `Scenarios`): two complete games, proved for
  every generator output.

Modelling choices:

- The player dictionary becomes a sequence of entries in file order. This
  order decides the order of the violations and the order of the eligible
  list, and so which slice of the interval list each player owns.
- A ballot is a list of (project, vote) pairs. A vote is `Int(n)` or
  `NonInteger`, so the first rule can still be checked.
- The counting type is an enumeration. This is what the check at
  game.py:140 ensures before anything runs.
- The pseudo-random generator is not modelled. Its outputs are a parameter
  `raws: seq<nat>`, and `random.randint(1, total)` becomes
  `Draw(total, raw) = 1 + raw % total`. `DrawCovers` shows that this reaches
  every value of `[1, total]`. As in the source, one output is used for each
  project that has positive support, and none for a skipped project.
- `sys.exit(1)` becomes the `Rejected` case of `Allocator.Outcome`, which
  carries the full list of violations.

Where the written description and the code differ, the model follows the
code:

- The docstring of `check_violations` says the votes must "not exceed" the
  budget. The code demands equality, and so does the model.
- The second rule's message says "Non positive vote", but the code rejects
  only negative votes, so zero is allowed. The model calls this violation
  `NegativeVote`.
- In the all-abstain example, every player puts 0 on the only project. The
  code accepts that table only with a budget of 0, so the `Abstainers`
  scenario uses a budget of 0.

## Model

| member | source | states |
|---|---|---|
| `Model.VoteFor` | game.py:118 | Looking up a project on a ballot: the result is the ballot's own integer for that project. It is never negative on a ballot without negative votes, and a project missing from the ballot counts 0. |
| `Validator.CheckViolations` | game.py:30-66 | The checker loop returns exactly the per-player violations in player order. The list is empty iff every player passes all four rules. Every violation names a player of the table. |
| `Validator.PlayerViolations` | game.py:43-56 | The four rules for one player, with rules 1 and 2 ending the checks. The player is reported iff the ballot breaks a rule. There are at most two reports, and each names that player. |
| `Validator.Violations` | game.py:41-56 | The reports of all players, collected in table order. Nothing is collected iff every player's ballot has integer, non-negative votes, covers exactly the contended projects and sums to the budget. There are at most two reports per player. |
| `Validator.ViolationsNamePlayers` | game.py:42-56 | Every collected violation is attributed to a player of the table. |
| `Validator.EarlyRulesShortCircuit` | game.py:43-50 | A non-integer vote yields exactly one `NonIntegerVote` and nothing else. An all-integer ballot with a negative vote yields exactly one `NegativeVote`. |
| `Validator.LaterRulesIndependent` | game.py:51-56 | For non-negative integer ballots, the set check and the budget check are reported independently: each is reported iff it fails, and both can be. The budget must be spent exactly, so an under-spent ballot is reported. |
| `Validator.ValidNonNegative` | game.py:47-50 | A validated table has no negative vote, so every count the allocator uses is non-negative. |
| `Lottery.LowerBound` | game.py:99 | The result is the first position whose value reaches the draw: every earlier value is below it, and the value at the result reaches it. |
| `Lottery.BisectLeft` | game.py:99 | On a sorted list, the binary search returns `LowerBound`. All values before the result are below the draw, and all from the result on reach it. |
| `Lottery.Draw` | game.py:98 | The draw lies in `[1, total]`. |
| `Lottery.DrawCovers` | game.py:98 | Every value of `[1, total]` is the draw of some generator output. |
| `Lottery.Intervals` | game.py:88-94 | The cumulative weights: position i holds the total weight of the first i entries, so the list has one more position than there are entries. |
| `Lottery.IntervalsShape` | game.py:88-94 | The interval list has N+1 entries and starts at 0. It ends at the sum of the weights (count or count squared), grows by each entry's weight, and is sorted when no count is negative. |
| `Lottery.WeightNonNegative` | game.py:91-94 | The weight of a non-negative count is non-negative, and positive iff the count is positive. |
| `Lottery.WeightDominatesCount` | game.py:83-94 | The total weight is at least the raw vote sum, and equals it under linear counting. |
| `Lottery.SupportGivesWeight` | game.py:83-98 | A project with positive raw support has a positive last interval, so the draw range is never empty. |
| `Lottery.SelectionBounds` | game.py:97-100 | For a draw in `[1, total]`, the lower bound i satisfies 1 ≤ i ≤ N. So `votes[i-1]` is a valid index whose slice `(iv[i-1], iv[i]]` holds the draw. The chosen player has positive weight and a positive count, so a zero-vote player is never chosen. |
| `Lottery.SliceSize` | game.py:97-100 | On a sorted list starting at 0, the draws whose lower bound is k+1 number exactly `a[k+1] - a[k]`. |
| `Lottery.WinningDraws` | game.py:88-100 | Exactly the draws in `(iv[k], iv[k+1]]` select entry k, and their number equals entry k's weight. With a uniform draw, entry k wins with probability weight/total. |
| `Lottery.Resolve` | game.py:82-100 | The definition of one resolution. With support ≤ 0 there is no winner and no draw. Otherwise it builds the intervals, draws `r` in `[1, total]`, and returns the name at position `LowerBound(iv, r) - 1`. Its properties are in `ResolveOutcome`, `SelectionBounds`, `WinningDraws` and `PlayerWinsOnSlice`. |
| `Lottery.ResolveOutcome` | game.py:82-107 | The resolver returns no winner iff the raw support is ≤ 0. Any winner is an entry with a positive count. |
| `Lottery.ResolveSelects` | game.py:97-100 | With positive support, the draw range is non-empty. The lower bound of the draw lies in `[1, N]`, and the winner is the name of the entry just before it. |
| `Lottery.PlayerWinsOnSlice` | game.py:88-100 | When no player is listed twice, the player of entry k wins iff the draw falls in `(iv[k], iv[k+1]]`. With `WinningDraws`, a player wins on exactly weight-many of the `total` equally likely draws. |
| `Lottery.ResolveProject` | game.py:69-107 | The loop that builds the intervals, the draw and the binary search together compute `Resolve`. There is no winner iff support ≤ 0, and any winner is an eligible player with a positive vote for the project. |
| `Allocator.ProjectTotal` | game.py:118 | The sort key: a project's votes summed over every player of the table, winners included. |
| `Allocator.ProjectTotalBounds` | game.py:118 | With no negative vote, a project's total is at least each player's own vote for it. A project that no ballot lists totals 0. |
| `Allocator.InsertDesc` | game.py:116-120 | Inserting an element yields a permutation of the list plus that element. |
| `Allocator.InsertDescOrdered` | game.py:116-120 | Insertion keeps a list in non-increasing key order. |
| `Allocator.InsertDescStable` | game.py:116-120 | Insertion puts the new element ahead of the existing elements that share its key, and changes the order of no key class. |
| `Allocator.SortDesc` | game.py:116-120 | The processing order is a permutation of the contended projects. |
| `Allocator.SortDescOrderedStable` | game.py:116-120 | The processing order is in non-increasing total and is stable: projects with equal totals keep their listed order. |
| `Allocator.ProcessingOrder` | game.py:116-120 | The definition of the processing order: the contended projects sorted by `ProjectTotal`, highest first. `SortDesc` and `SortDescOrderedStable` state what it is, and `Play` restates it. |
| `Allocator.EligibleVotes` | game.py:123 | The eligible list has no negative count when the table has none. |
| `Allocator.EligibleVotesExactly` | game.py:123 | The eligible list holds only players who have not won yet, each with their own vote for the project. Every player who has not won yet is in it. |
| `Allocator.EligibleVotesDistinct` | game.py:123 | When every player of the table is listed once, as dictionary keys are, no player appears twice in the eligible list. |
| `Allocator.EligibleVotesCount` | game.py:123 | When every player is listed once, the eligible list has exactly as many entries as there are players who have not won yet. So there is one entry per such player. |
| `Allocator.AllocateFrom` | game.py:122-126 | The definition of the allocation loop as a recursion over the remaining projects. Each project is resolved among the players not yet in the map, and its winner, if any, is recorded against it. One generator output is taken per project that finds a winner. |
| `Allocator.Allocate` | game.py:115-126 | The definition of a validated game's winner map: `AllocateFrom` over the processing order from an empty map. Its properties are in `AllocationProperties` and `Play`. |
| `Allocator.RoundWinner` | game.py:123-126 | A round's winner is a player of the table who had not won before and who voted for the project. |
| `Allocator.AllocateFromGrows` | game.py:122-126 | Earlier awards are never overwritten. Each new winner is a player who voted for the project they won, and each new award is one of the remaining projects. Each project adds at most one winner. |
| `Allocator.AllocateFromDrawsUsed` | game.py:83-126 | A project with no support takes no generator output, and one with a winner takes one. The result takes n = (new winners) outputs, with 0 ≤ n ≤ the number of projects, and two output sequences that agree on their first n give the same winner map. |
| `Allocator.AllocateFromInjective` | game.py:122-126 | When the remaining projects are distinct and none is awarded yet, no project is awarded twice. |
| `Allocator.AllocationProperties` | game.py:115-135 | In the final winner map, keys are players and values are contended projects. Every winner voted for their project. The map has at most as many entries as there are players and as there are projects. No project is awarded twice when the project list is duplicate-free. |
| `Allocator.ResolveInOrder` | game.py:122-126 | The `for` loop over the projects computes `AllocateFrom` from an empty map. The number of generator outputs it takes equals the number of winners. |
| `Allocator.Play` | game.py:110-135 | `play` computes `Allocate` in the stable descending-total order. The unallocated players and projects are exactly the complements of the winner keys and values, and the map keeps the invariants of `AllocationProperties`. One generator output is taken per winner. |
| `Allocator.Run` | game.py:138-142 | The run is rejected, with the full violation list, iff some player breaks a rule. Otherwise it is the allocation of `Play`. Nothing is allocated after a violation. |
| `Scenarios.SplitVotersOrder` | game.py:116-120 | Two projects that tie at 10 votes are processed in listed order. |
| `Scenarios.SplitVotersOutcome` | game.py:110-135 | With P1 = {A:10, B:0} and P2 = {A:0, B:10} under linear counting, P1 wins A and P2 wins B for every generator output. No player and no project is left unallocated. |
| `Scenarios.AbstainersSkipped` | game.py:82-86 | With only zero votes on the single project, it has no winner whatever the generator gives. |
| `Scenarios.AbstainersOutcome` | game.py:82-135 | With only zero votes on the single project under quadratic counting: the project is skipped for every generator output and nobody wins. Players P1 and P2 and project A stay unallocated. |

## Left out

- Reading `votes.yaml` (game.py:8-15) is I/O. The configuration and the vote table are input values.
- The SHA-256 seed and `random.seed` (game.py:11-12, 16) are library code. `random.randint` (game.py:98) is replaced by the explicit generator outputs `raws` and `Lottery.Draw`. The model proves facts for every output sequence but does not reproduce Python's generator.
- `preamble` and every `print` (game.py:18-28 and throughout) are presentation only. Violation messages are a datatype, not formatted text.
- `sys.exit(1)` (game.py:66) becomes the `Rejected` outcome, not process termination.
- `if winner:` (game.py:125) also skips a winner whose name is the empty string. The model records every winner the resolver returns.
- Python's `isinstance(x, int)` also accepts `True`/`False`. The model's `Vote` distinguishes only integers from everything else.
- Dictionary keys are unique in the source. The model's sequences are not required to be duplicate-free. The properties that need uniqueness assume it: unique players (`UniquePlayers`) for the one-entry-per-player lemmas, and a duplicate-free project list for the no-project-twice property.
- Model.VoteFor: a project missing from a ballot counts 0 instead of raising `KeyError`. Only tables that fail validation have such a ballot, and `Play` is never run on them.
- `bisect_left` on an unsorted list is not modelled. The interval list is sorted because validated counts are non-negative.
- `sorted` is modelled as a stable insertion sort. Python's Timsort is not modelled; only the result it promises (stable, descending) matters here.
