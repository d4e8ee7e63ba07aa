/**
 * Closing a voting round (src/commands/vote.rs): the ballots are counted per
 * nominee, and the counts decide a clear winner or a tie.
 */
module VoteTally {
  import opened GameState

  /** Number of ballots naming `nominee`. */
  function Count(ballots: map<UserId, UserId>, nominee: UserId): nat {
    |set voter | voter in ballots && ballots[voter] == nominee|
  }

  /** The per-nominee vote counts of a round. */
  function Tally(ballots: map<UserId, UserId>): map<UserId, int> {
    map nominee | nominee in ballots.Values :: Count(ballots, nominee)
  }

  /** The ballots cast by the voters in `seen`. */
  function Restrict(ballots: map<UserId, UserId>, seen: set<UserId>): map<UserId, UserId> {
    map voter | voter in ballots && voter in seen :: ballots[voter]
  }

  /** A nominee is counted exactly when some ballot names them, and then at least once. */
  lemma {:induction false} CountPositive(ballots: map<UserId, UserId>, nominee: UserId)
    ensures nominee in Tally(ballots) <==> Count(ballots, nominee) > 0
    ensures nominee in Tally(ballots) ==> Tally(ballots)[nominee] >= 1
  {
    var named := set voter | voter in ballots && ballots[voter] == nominee;
    if nominee in ballots.Values {
      var voter :| voter in ballots && ballots[voter] == nominee;
      assert voter in named;
    } else {
      assert named == {};
    }
  }

  /** One more ballot for `nominee` adds one to that nominee's count only. */
  lemma {:induction false} CountAdd(ballots: map<UserId, UserId>, voter: UserId, nominee: UserId, other: UserId)
    requires voter !in ballots
    ensures Count(ballots[voter := nominee], other) == Count(ballots, other) + if other == nominee then 1 else 0
  {
    var b := ballots[voter := nominee];
    var before := set v | v in ballots && ballots[v] == other;
    var after := set v | v in b && b[v] == other;
    if other == nominee {
      assert after == before + {voter};
    } else {
      assert after == before;
    }
  }

  /** Counting one more ballot: the step of the counting loop. */
  lemma {:induction false} TallyAdd(ballots: map<UserId, UserId>, voter: UserId, nominee: UserId)
    requires voter !in ballots
    ensures Tally(ballots[voter := nominee]) ==
              if nominee in Tally(ballots) then Tally(ballots)[nominee := Tally(ballots)[nominee] + 1]
              else Tally(ballots)[nominee := 1]
  {
    var b := ballots[voter := nominee];
    var t := Tally(ballots);
    var expected := if nominee in t then t[nominee := t[nominee] + 1] else t[nominee := 1];
    assert b.Values == ballots.Values + {nominee} by {
      forall n | n in ballots.Values ensures n in b.Values {
        var v :| v in ballots && ballots[v] == n;
        assert b[v] == n;
      }
      assert b[voter] == nominee;
    }
    forall n | n in b.Values ensures Tally(b)[n] == expected[n] {
      CountAdd(ballots, voter, nominee, n);
      if n == nominee && nominee !in t {
        CountPositive(ballots, nominee);
      }
    }
    assert Tally(b) == expected;
  }

  /**
   * The counting loop of end-voting: for every ballot, add one to its
   * nominee's count, inserting the nominee with one vote the first time.
   */
  method CountVotes(ballots: map<UserId, UserId>) returns (votes: map<UserId, int>)
    ensures votes == Tally(ballots)
  {
    votes := map[];
    var pending := ballots.Keys;
    ghost var seen: set<UserId> := {};
    while pending != {}
      invariant pending !! seen && pending + seen == ballots.Keys
      invariant votes == Tally(Restrict(ballots, seen))
      decreases pending
    {
      var voter :| voter in pending;
      var voted := ballots[voter];
      votes := if voted in votes then votes[voted := votes[voted] + 1] else votes[voted := 1];
      TallyAdd(Restrict(ballots, seen), voter, voted);
      assert Restrict(ballots, seen + {voter}) == Restrict(ballots, seen)[voter := voted];
      pending := pending - {voter};
      seen := seen + {voter};
    }
    assert Restrict(ballots, seen) == ballots;
  }

  /** Some key of a non-empty count map. */
  ghost function Pick(votes: map<UserId, int>): UserId
    requires votes != map[]
  {
    var u :| u in votes; u
  }

  /** The sum of all counts. */
  ghost function Total(votes: map<UserId, int>): int
    decreases votes.Keys
  {
    if votes == map[] then 0
    else var u := Pick(votes); votes[u] + Total(votes - {u})
  }

  /** The sum does not depend on which key is taken first. */
  lemma {:induction false} TotalRemove(votes: map<UserId, int>, u: UserId)
    requires u in votes
    ensures Total(votes) == votes[u] + Total(votes - {u})
    decreases votes.Keys
  {
    var p := Pick(votes);
    if p != u {
      TotalRemove(votes - {p}, u);
      TotalRemove(votes - {u}, p);
      assert votes - {p} - {u} == votes - {u} - {p};
    }
  }

  /** Setting one count changes the sum by the difference. */
  lemma TotalUpdate(votes: map<UserId, int>, u: UserId, n: int)
    ensures Total(votes[u := n]) == Total(votes) + n - if u in votes then votes[u] else 0
  {
    TotalRemove(votes[u := n], u);
    assert votes[u := n] - {u} == votes - {u};
    if u in votes {
      TotalRemove(votes, u);
    } else {
      assert votes - {u} == votes;
    }
  }

  /** The counts add up to the number of ballots: every ballot is counted once. */
  lemma {:induction false} TallyTotal(ballots: map<UserId, UserId>)
    ensures Total(Tally(ballots)) == |ballots|
    decreases ballots.Keys
  {
    if ballots == map[] {
      assert Tally(ballots) == map[];
    } else {
      var voter :| voter in ballots;
      var rest := ballots - {voter};
      var nominee := ballots[voter];
      assert ballots == rest[voter := nominee];
      assert rest.Keys == ballots.Keys - {voter};
      TallyTotal(rest);
      TallyAdd(rest, voter, nominee);
      var t := Tally(rest);
      if nominee in t {
        TotalUpdate(t, nominee, t[nominee] + 1);
      } else {
        TotalUpdate(t, nominee, 1);
      }
    }
  }

  /** `u` has a count no other nominee exceeds. */
  ghost predicate IsTop(votes: map<UserId, int>, u: UserId) {
    u in votes && forall w | w in votes :: votes[w] <= votes[u]
  }

  /** A non-empty count map has a nominee with the largest count. */
  lemma {:induction false} TopExists(votes: map<UserId, int>)
    requires votes != map[]
    ensures exists u :: IsTop(votes, u)
    decreases votes.Keys
  {
    var u := Pick(votes);
    var rest := votes - {u};
    if rest == map[] {
      forall w | w in votes ensures votes[w] <= votes[u] {
        assert w !in rest;
      }
      assert IsTop(votes, u);
    } else {
      TopExists(rest);
      var t :| IsTop(rest, t);
      var top := if rest[t] < votes[u] then u else t;
      forall w | w in votes ensures votes[w] <= votes[top] {
        if w != u {
          assert w in rest;
        }
      }
      assert IsTop(votes, top);
    }
  }

  lemma MaxValueExists(votes: map<UserId, int>)
    requires votes != map[]
    ensures exists m :: m in votes.Values && forall u | u in votes :: votes[u] <= m
  {
    TopExists(votes);
    var u :| IsTop(votes, u);
    assert votes[u] in votes.Values;
  }

  /** The largest count (`max_by_key` over the values, unwrapped). */
  function MaxVotes(votes: map<UserId, int>): (max: int)
    requires votes != map[]
    ensures max in votes.Values
    ensures forall u | u in votes :: votes[u] <= max
  {
    MaxValueExists(votes);
    var m :| m in votes.Values && forall u | u in votes :: votes[u] <= m;
    m
  }

  /** The nominees that reach `count` votes. */
  function TopScorers(votes: map<UserId, int>, count: int): set<UserId> {
    set u | u in votes && votes[u] == count
  }

  /** At most one nominee reaching `count` means the nominees reaching it are all the same. */
  lemma UniqueTopScorer(votes: map<UserId, int>, count: int)
    requires |TopScorers(votes, count)| <= 1
    ensures forall a, b | a in votes && votes[a] == count && b in votes && votes[b] == count :: a == b
  {
    var top := TopScorers(votes, count);
    forall a, b | a in votes && votes[a] == count && b in votes && votes[b] == count ensures a == b {
      assert a in top && b in top;
      if a != b {
        assert {a, b} <= top;
        CardinalityOfSubset({a, b}, top);
      }
    }
  }

  lemma {:induction false} CardinalityOfSubset(small: set<UserId>, large: set<UserId>)
    requires small <= large
    ensures |small| <= |large|
    decreases small
  {
    if small != {} {
      var x :| x in small;
      CardinalityOfSubset(small - {x}, large - {x});
    }
  }

  /** How a round ends: a single nominee with the most votes, or a tie at the top. */
  datatype VoteOutcome =
    | NoClearWinner(membersWithEqualVotes: int, maxVoteCount: int)
    | ClearWinner(user: UserId, numVotes: int)

  /**
   * Decides a round from its counts. Several nominees sharing the top count
   * is a tie; otherwise the single top nominee wins. The counts must not be
   * empty (the source unwraps the maximum).
   */
  function EvaluateVotes(votes: map<UserId, int>): (r: VoteOutcome)
    requires votes != map[]
    ensures r.ClearWinner? ==>
              && r.user in votes && votes[r.user] == r.numVotes
              && forall u | u in votes && u != r.user :: votes[u] < r.numVotes
    ensures r.NoClearWinner? ==>
              && r.maxVoteCount in votes.Values
              && (forall u | u in votes :: votes[u] <= r.maxVoteCount)
              && r.membersWithEqualVotes == |TopScorers(votes, r.maxVoteCount)| > 1
  {
    var max := MaxVotes(votes);
    var n := |TopScorers(votes, max)|;
    if n > 1 then
      NoClearWinner(n, max)
    else
      UniqueTopScorer(votes, max);
      var user :| user in votes && votes[user] == max;
      ClearWinner(user, max)
  }

  /**
   * `max_by_key` over the count entries in the map's iteration order `order`:
   * among several equal maxima the last one is returned.
   */
  function MaxByKey(order: seq<UserId>, votes: map<UserId, int>): (best: UserId)
    requires |order| > 0 && forall i | 0 <= i < |order| :: order[i] in votes
    ensures best in order
    ensures forall i | 0 <= i < |order| :: votes[order[i]] <= votes[best]
    ensures exists k | 0 <= k < |order| && order[k] == best ::
              forall j | k < j < |order| :: votes[order[j]] < votes[best]
  {
    if |order| == 1 then order[0]
    else
      var best := MaxByKey(order[..|order| - 1], votes);
      var last := order[|order| - 1];
      if votes[best] <= votes[last] then last else best
  }

  /**
   * When a round has a clear winner, `max_by_key` finds that winner whatever
   * order the count map is iterated in: the outcome depends on the counts only.
   */
  lemma ClearWinnerIndependentOfOrder(votes: map<UserId, int>, order: seq<UserId>)
    requires votes != map[] && EvaluateVotes(votes).ClearWinner?
    requires forall i | 0 <= i < |order| :: order[i] in votes
    requires forall u | u in votes :: u in order
    ensures |order| > 0 && MaxByKey(order, votes) == EvaluateVotes(votes).user
  {
    var winner := EvaluateVotes(votes).user;
    assert winner in order;
  }

  /** Two ballots for `x` and one for `y` make `x` the clear winner with two votes. */
  lemma PluralityExample(a: UserId, b: UserId, c: UserId, x: UserId, y: UserId)
    requires a != b && b != c && a != c && x != y
    ensures Tally(map[a := x, b := x, c := y]) == map[x := 2, y := 1]
    ensures var votes := map[x := 2, y := 1]; x in votes && EvaluateVotes(votes) == ClearWinner(x, 2)
  {
    var ballots := map[a := x, b := x, c := y];
    assert ballots.Values == {x, y} by {
      assert ballots[a] == x && ballots[c] == y;
    }
    assert (set v | v in ballots && ballots[v] == x) == {a, b};
    assert (set v | v in ballots && ballots[v] == y) == {c};
    var votes := map[x := 2, y := 1];
    assert votes.Values == {2, 1} by {
      assert votes[x] == 2 && votes[y] == 1;
    }
    assert TopScorers(votes, 2) == {x};
  }

  /** One ballot each for two nominees is a tie of two at one vote. */
  lemma TieExample(a: UserId, b: UserId, x: UserId, y: UserId)
    requires a != b && x != y
    ensures Tally(map[a := x, b := y]) == map[x := 1, y := 1]
    ensures var votes := map[x := 1, y := 1]; x in votes && EvaluateVotes(votes) == NoClearWinner(2, 1)
  {
    var ballots := map[a := x, b := y];
    assert ballots.Values == {x, y} by {
      assert ballots[a] == x && ballots[b] == y;
    }
    assert (set v | v in ballots && ballots[v] == x) == {a};
    assert (set v | v in ballots && ballots[v] == y) == {b};
    var votes := map[x := 1, y := 1];
    assert votes.Values == {1} by {
      assert votes[x] == 1;
    }
    assert TopScorers(votes, 1) == {x, y};
  }

  /** Two ballots for the same nominee make them the clear winner with two votes. */
  lemma UnanimousExample(a: UserId, b: UserId, x: UserId)
    requires a != b
    ensures Tally(map[a := x, b := x]) == map[x := 2]
    ensures var votes := map[x := 2]; x in votes && EvaluateVotes(votes) == ClearWinner(x, 2)
  {
    var ballots := map[a := x, b := x];
    assert ballots.Values == {x} by {
      assert ballots[a] == x;
    }
    assert (set v | v in ballots && ballots[v] == x) == {a, b};
    var votes := map[x := 2];
    assert votes.Values == {2} by {
      assert votes[x] == 2;
    }
    assert TopScorers(votes, 2) == {x};
  }
}
