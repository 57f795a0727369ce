/**
 * The assignment generator (utils/matchingLogic.ts): a Fisher–Yates shuffle of a
 * copy of the roster, then one cyclic chain over the shuffled order. The random
 * number source is replaced by `draws`: `draws[i]` is the index the shuffle picks
 * when its loop is at position `i`.
 */
module MatchingLogic {
  import opened Wrappers
  import opened Types

  /** One draw per position, each in [0, i], as `Math.floor(Math.random() * (i + 1))` yields. */
  predicate ValidDraws(draws: seq<nat>, n: nat)
  {
    |draws| == n && forall i :: 0 <= i < n ==> draws[i] <= i
  }

  /** The position after `k` on a circle of `n`: `(k + 1) % n` without the remainder. */
  lemma NextOnCircle(k: nat, n: nat)
    requires k < n
    ensures (k + 1) % n == if k + 1 == n then 0 else k + 1
  {
  }

  /** Exchanges the elements at `i` and `j`, leaving the rest in place. */
  function Swap(s: seq<Participant>, i: nat, j: nat): (r: seq<Participant>)
    requires i < |s| && j < |s|
    ensures |r| == |s| && r[i] == s[j] && r[j] == s[i]
    ensures forall k :: 0 <= k < |s| && k != i && k != j ==> r[k] == s[k]
  {
    s[i := s[j]][j := s[i]]
  }

  /** A swap keeps the same people, and keeps their ids distinct. */
  lemma SwapKeepsRoster(s: seq<Participant>, i: nat, j: nat)
    requires i < |s| && j < |s|
    ensures multiset(Swap(s, i, j)) == multiset(s)
    ensures DistinctIds(s) ==> DistinctIds(Swap(s, i, j))
  {
    var r := Swap(s, i, j);
    if DistinctIds(s) {
      forall a, b | 0 <= a < |r| && 0 <= b < |r| && a != b
        ensures r[a].id != r[b].id
      {
        var pa := if a == i then j else if a == j then i else a;
        var pb := if b == i then j else if b == j then i else b;
        assert r[a] == s[pa] && r[b] == s[pb];
      }
    }
  }

  /**
   * The Fisher–Yates loop from position `i` down to 1: swap position `i` with
   * `draws[i]`, then carry on at `i - 1`.
   */
  function ShuffleFrom(s: seq<Participant>, draws: seq<nat>, i: nat): (r: seq<Participant>)
    requires i < |s| && ValidDraws(draws, |s|)
    ensures |r| == |s|
    decreases i
  {
    if i == 0 then s else ShuffleFrom(Swap(s, i, draws[i]), draws, i - 1)
  }

  /** The shuffle from `i` down keeps the same people. */
  lemma {:induction false} ShuffleKeepsMultiset(s: seq<Participant>, draws: seq<nat>, i: nat)
    requires i < |s| && ValidDraws(draws, |s|)
    ensures multiset(ShuffleFrom(s, draws, i)) == multiset(s)
    decreases i
  {
    if i > 0 {
      var swapped := Swap(s, i, draws[i]);
      assert ShuffleFrom(s, draws, i) == ShuffleFrom(swapped, draws, i - 1);
      SwapKeepsRoster(s, i, draws[i]);
      ShuffleKeepsMultiset(swapped, draws, i - 1);
    }
  }

  /** The shuffle from `i` down keeps ids distinct. */
  lemma {:induction false} ShuffleKeepsIdsDistinct(s: seq<Participant>, draws: seq<nat>, i: nat)
    requires i < |s| && ValidDraws(draws, |s|) && DistinctIds(s)
    ensures DistinctIds(ShuffleFrom(s, draws, i))
    decreases i
  {
    if i > 0 {
      var swapped := Swap(s, i, draws[i]);
      assert ShuffleFrom(s, draws, i) == ShuffleFrom(swapped, draws, i - 1);
      SwapKeepsRoster(s, i, draws[i]);
      ShuffleKeepsIdsDistinct(swapped, draws, i - 1);
    }
  }

  /** The shuffle is a permutation of the roster and keeps ids distinct. */
  lemma ShuffleKeepsRoster(s: seq<Participant>, draws: seq<nat>, i: nat)
    requires i < |s| && ValidDraws(draws, |s|)
    ensures multiset(ShuffleFrom(s, draws, i)) == multiset(s)
    ensures DistinctIds(s) ==> DistinctIds(ShuffleFrom(s, draws, i))
  {
    ShuffleKeepsMultiset(s, draws, i);
    if DistinctIds(s) {
      ShuffleKeepsIdsDistinct(s, draws, i);
    }
  }

  /** One round of the loop: swapping at `i` leaves the rounds from `i - 1` down to do. */
  lemma ShuffleStep(s: seq<Participant>, draws: seq<nat>, i: nat)
    requires 0 < i < |s| && ValidDraws(draws, |s|)
    ensures ShuffleFrom(Swap(s, i, draws[i]), draws, i - 1) == ShuffleFrom(s, draws, i)
  {
  }

  /** The whole shuffle of a non-empty roster, from the last position down. */
  function Shuffle(s: seq<Participant>, draws: seq<nat>): (r: seq<Participant>)
    requires |s| > 0 && ValidDraws(draws, |s|)
    ensures |r| == |s|
  {
    ShuffleFrom(s, draws, |s| - 1)
  }

  /** The cyclic chain over a shuffled order: match k is shuffled[k] -> shuffled[(k + 1) % n]. */
  function Chain(shuffled: seq<Participant>): (r: seq<Match>)
    ensures |r| == |shuffled|
    ensures forall k :: 0 <= k < |r| ==> !r[k].isRevealed
  {
    seq(|shuffled|, k requires 0 <= k < |shuffled| =>
      Match(shuffled[k], shuffled[(k + 1) % |shuffled|], false))
  }

  /** What `generateMatches` returns: nothing for fewer than two people, else the chain over the shuffle. */
  function Assignment(participants: seq<Participant>, draws: seq<nat>): (r: seq<Match>)
    requires ValidDraws(draws, |participants|)
    ensures |participants| < 2 ==> r == []
    ensures |participants| >= 2 ==> |r| == |participants|
  {
    if |participants| < 2 then [] else Chain(Shuffle(participants, draws))
  }

  /**
   * `generateMatches`: shuffles a fresh array copy of the roster in place, then
   * builds the chain. The roster itself is a value and is left as it was.
   */
  method GenerateMatches(participants: seq<Participant>, draws: seq<nat>) returns (matches: seq<Match>)
    requires ValidDraws(draws, |participants|)
    ensures matches == Assignment(participants, draws)
    ensures |participants| < 2 ==> matches == []
    ensures |participants| >= 2 ==> |matches| == |participants|
  {
    if |participants| < 2 {
      return [];
    }
    var n := |participants|;
    var shuffled := new Participant[n](k requires 0 <= k < n => participants[k]);
    ghost var target := Shuffle(participants, draws);
    assert shuffled[..] == participants;
    var i := n - 1;
    while i > 0
      invariant 0 <= i < n
      invariant ShuffleFrom(shuffled[..], draws, i) == target
    {
      var j := draws[i];
      ghost var before := shuffled[..];
      ShuffleStep(before, draws, i);
      var tmp := shuffled[i];
      shuffled[i] := shuffled[j];
      shuffled[j] := tmp;
      assert shuffled[..] == Swap(before, i, j);
      i := i - 1;
    }
    matches := Chain(shuffled[..]);
  }

  // ---------------------------------------------------------------------------
  // What the result promises

  function Santas(matches: seq<Match>): seq<Participant>
  {
    seq(|matches|, k requires 0 <= k < |matches| => matches[k].santa)
  }

  function Receivers(matches: seq<Match>): seq<Participant>
  {
    seq(|matches|, k requires 0 <= k < |matches| => matches[k].receiver)
  }

  /**
   * For two or more people the result has one match per person; match k joins
   * position k of a permutation of the roster to position k + 1 (wrapping), and
   * no match starts out revealed.
   */
  lemma AssignmentShape(participants: seq<Participant>, draws: seq<nat>)
    requires ValidDraws(draws, |participants|) && |participants| >= 2
    ensures var ms := Assignment(participants, draws);
            var shuffled := Shuffle(participants, draws);
            multiset(shuffled) == multiset(participants) &&
            |ms| == |participants| &&
            forall k :: 0 <= k < |ms| ==>
              ms[k].santa == shuffled[k] &&
              ms[k].receiver == shuffled[if k + 1 == |ms| then 0 else k + 1] &&
              !ms[k].isRevealed
  {
    var n := |participants|;
    var ms := Assignment(participants, draws);
    var shuffled := Shuffle(participants, draws);
    ShuffleKeepsRoster(participants, draws, |participants| - 1);
    forall k | 0 <= k < n
      ensures ms[k].receiver == shuffled[if k + 1 == n then 0 else k + 1]
    {
      NextOnCircle(k, n);
    }
  }

  /** The givers, in order, are the shuffled roster; the receivers are it rotated by one. */
  lemma ChainEnds(shuffled: seq<Participant>)
    requires |shuffled| > 0
    ensures Santas(Chain(shuffled)) == shuffled
    ensures Receivers(Chain(shuffled)) == shuffled[1..] + [shuffled[0]]
  {
    var n := |shuffled|;
    var receivers := Receivers(Chain(shuffled));
    var rotated := shuffled[1..] + [shuffled[0]];
    forall k | 0 <= k < n
      ensures receivers[k] == rotated[k]
    {
      NextOnCircle(k, n);
    }
  }

  /** Everybody on the roster gives exactly as often as they receive and as they appear on it. */
  lemma GiversAndReceiversAreTheRoster(participants: seq<Participant>, draws: seq<nat>)
    requires ValidDraws(draws, |participants|) && |participants| >= 2
    ensures multiset(Santas(Assignment(participants, draws))) == multiset(participants)
    ensures multiset(Receivers(Assignment(participants, draws))) == multiset(participants)
  {
    var shuffled := Shuffle(participants, draws);
    var ms := Assignment(participants, draws);
    assert ms == Chain(shuffled);
    ShuffleKeepsRoster(participants, draws, |participants| - 1);
    ChainEnds(shuffled);
    assert Santas(ms) == shuffled;
    assert Receivers(ms) == shuffled[1..] + [shuffled[0]];
    assert shuffled == [shuffled[0]] + shuffled[1..];
  }

  /** On a roster with distinct ids each participant occurs exactly once. */
  lemma {:induction false} OccursOnce(roster: seq<Participant>, p: Participant)
    requires DistinctIds(roster) && p in roster
    ensures multiset(roster)[p] == 1
  {
    if roster[0] == p {
      forall k | 0 <= k < |roster| - 1
        ensures roster[1..][k] != p
      {
        assert roster[k + 1].id != roster[0].id;
      }
      assert p !in roster[1..];
    } else {
      OccursOnce(roster[1..], p);
    }
    assert roster == [roster[0]] + roster[1..];
  }

  /** Everyone gives exactly one gift and receives exactly one gift. */
  lemma EveryoneGivesOnceAndReceivesOnce(participants: seq<Participant>, draws: seq<nat>)
    requires ValidDraws(draws, |participants|) && |participants| >= 2
    requires DistinctIds(participants)
    ensures forall p :: p in participants ==>
              multiset(Santas(Assignment(participants, draws)))[p] == 1 &&
              multiset(Receivers(Assignment(participants, draws)))[p] == 1
  {
    GiversAndReceiversAreTheRoster(participants, draws);
    forall p | p in participants
      ensures multiset(participants)[p] == 1
    {
      OccursOnce(participants, p);
    }
  }

  /** In a chain over two or more distinct ids, no match links a person to themselves. */
  lemma ChainHasNoSelfMatch(shuffled: seq<Participant>)
    requires |shuffled| >= 2 && DistinctIds(shuffled)
    ensures forall m :: m in Chain(shuffled) ==> m.santa.id != m.receiver.id
  {
    var ms := Chain(shuffled);
    var n := |shuffled|;
    forall m | m in ms
      ensures m.santa.id != m.receiver.id
    {
      var k :| 0 <= k < n && ms[k] == m;
      NextOnCircle(k, n);
      var next := if k + 1 == n then 0 else k + 1;
      assert m.santa == shuffled[k] && m.receiver == shuffled[next];
    }
  }

  /** Nobody is their own Secret Santa. */
  lemma NoOneDrawsThemselves(participants: seq<Participant>, draws: seq<nat>)
    requires ValidDraws(draws, |participants|) && |participants| >= 2
    requires DistinctIds(participants)
    ensures forall m :: m in Assignment(participants, draws) ==> m.santa.id != m.receiver.id
  {
    var shuffled := Shuffle(participants, draws);
    assert DistinctIds(shuffled) by {
      ShuffleKeepsRoster(participants, draws, |participants| - 1);
    }
    assert Assignment(participants, draws) == Chain(shuffled);
    ChainHasNoSelfMatch(shuffled);
  }

  // ---------------------------------------------------------------------------
  // Following receiver links

  /** The receiver of the first match whose giver has `p`'s id. */
  function ReceiverOf(matches: seq<Match>, p: Participant): Option<Participant>
  {
    if matches == [] then None
    else if matches[0].santa.id == p.id then Some(matches[0].receiver)
    else ReceiverOf(matches[1..], p)
  }

  /** Where `k` receiver links lead from `p`, if the links go on that far. */
  function Follow(matches: seq<Match>, p: Participant, k: nat): Option<Participant>
    decreases k
  {
    if k == 0 then Some(p)
    else match ReceiverOf(matches, p)
      case None => None
      case Some(q) => Follow(matches, q, k - 1)
  }

  lemma {:induction false} ReceiverOfFirst(matches: seq<Match>, p: Participant, i: nat)
    requires i < |matches| && matches[i].santa.id == p.id
    requires forall j :: 0 <= j < i ==> matches[j].santa.id != p.id
    ensures ReceiverOf(matches, p) == Some(matches[i].receiver)
  {
    if i > 0 {
      ReceiverOfFirst(matches[1..], p, i - 1);
    }
  }

  /** In a chain over distinct ids, position i gives to position i + 1, wrapping at the end. */
  lemma ChainStep(shuffled: seq<Participant>, i: nat)
    requires DistinctIds(shuffled) && i < |shuffled|
    ensures ReceiverOf(Chain(shuffled), shuffled[i]) == Some(shuffled[(i + 1) % |shuffled|])
  {
    ReceiverOfFirst(Chain(shuffled), shuffled[i], i);
  }

  /** Position `x` on a circle of `n` places, counted from 0 (that is, `x % n`). */
  function Around(x: nat, n: nat): (r: nat)
    requires n > 0
    ensures r < n
  {
    if x < n then x else Around(x - n, n)
  }

  /** k links from position i of the chain lead to position i + k, counted around the circle. */
  lemma {:induction false} ChainFollow(shuffled: seq<Participant>, i: nat, k: nat)
    requires DistinctIds(shuffled) && i < |shuffled|
    ensures Follow(Chain(shuffled), shuffled[i], k) == Some(shuffled[Around(i + k, |shuffled|)])
    decreases k
  {
    var n := |shuffled|;
    if k > 0 {
      ChainStep(shuffled, i);
      NextOnCircle(i, n);
      var next := if i + 1 == n then 0 else i + 1;
      ChainFollow(shuffled, next, k - 1);
      if i + 1 == n {
        assert Around(i + k, n) == Around(k - 1, n);
      }
    }
  }

  /**
   * From `p`, following receiver links reaches every member of `roster` within
   * |roster| steps, is back at `p` after |roster| steps, and not before.
   */
  predicate OneCycleFrom(matches: seq<Match>, roster: seq<Participant>, p: Participant)
  {
    Follow(matches, p, |roster|) == Some(p) &&
    (forall k :: 0 < k < |roster| ==> Follow(matches, p, k) != Some(p)) &&
    (forall q :: q in roster ==> exists k :: 0 <= k < |roster| && Follow(matches, p, k) == Some(q))
  }

  /** The walk from position i of a chain passes through position j after fewer than n steps. */
  lemma ChainReaches(shuffled: seq<Participant>, i: nat, j: nat)
    requires DistinctIds(shuffled) && i < |shuffled| && j < |shuffled|
    ensures exists k :: 0 <= k < |shuffled| && Follow(Chain(shuffled), shuffled[i], k) == Some(shuffled[j])
  {
    var n := |shuffled|;
    var k := if i <= j then j - i else j + n - i;
    ChainFollow(shuffled, i, k);
    assert Around(i + k, n) == j;
  }

  /** The walk from position i of a chain comes back to it only after n steps. */
  lemma ChainReturns(shuffled: seq<Participant>, i: nat)
    requires DistinctIds(shuffled) && i < |shuffled|
    ensures Follow(Chain(shuffled), shuffled[i], |shuffled|) == Some(shuffled[i])
    ensures forall k :: 0 < k < |shuffled| ==> Follow(Chain(shuffled), shuffled[i], k) != Some(shuffled[i])
  {
    var n := |shuffled|;
    ChainFollow(shuffled, i, n);
    assert Around(i + n, n) == i;
    forall k | 0 < k < n
      ensures Follow(Chain(shuffled), shuffled[i], k) != Some(shuffled[i])
    {
      ChainFollow(shuffled, i, k);
      var at := if i + k < n then i + k else i + k - n;
      assert Around(i + k, n) == at;
      assert shuffled[at].id != shuffled[i].id;
    }
  }

  /**
   * The receiver links form one cycle through the whole roster: from anyone,
   * every participant is reached within n steps, and the walk is back at its
   * start after n steps and not before.
   */
  lemma ReceiverLinksFormOneCycle(participants: seq<Participant>, draws: seq<nat>, p: Participant)
    requires ValidDraws(draws, |participants|) && |participants| >= 2
    requires DistinctIds(participants) && p in participants
    ensures OneCycleFrom(Assignment(participants, draws), participants, p)
  {
    var n := |participants|;
    var shuffled := Shuffle(participants, draws);
    ShuffleKeepsRoster(participants, draws, n - 1);
    var ms := Chain(shuffled);
    assert p in multiset(shuffled);
    var i :| 0 <= i < n && shuffled[i] == p;
    ChainReturns(shuffled, i);
    forall q | q in participants
      ensures exists k :: 0 <= k < n && Follow(ms, p, k) == Some(q)
    {
      assert q in multiset(shuffled);
      var j :| 0 <= j < n && shuffled[j] == q;
      ChainReaches(shuffled, i, j);
    }
    assert OneCycleFrom(ms, participants, p);
  }

  /** With two people the chain is the mutual pair: each gives to the other. */
  lemma TwoMakeAMutualPair(participants: seq<Participant>, draws: seq<nat>)
    requires ValidDraws(draws, 2) && |participants| == 2 && DistinctIds(participants)
    ensures ReceiverOf(Assignment(participants, draws), participants[0]) == Some(participants[1])
    ensures ReceiverOf(Assignment(participants, draws), participants[1]) == Some(participants[0])
  {
    var shuffled := Shuffle(participants, draws);
    ShuffleKeepsRoster(participants, draws, |participants| - 1);
    assert participants[0] in multiset(shuffled) && participants[1] in multiset(shuffled);
    ChainStep(shuffled, 0);
    ChainStep(shuffled, 1);
    assert shuffled[0] != shuffled[1] by { assert shuffled[0].id != shuffled[1].id; }
  }

  /**
   * Alice, Bob and Carol, with draws that shuffle them to Bob, Carol, Alice:
   * Bob gives to Carol, Carol to Alice, Alice to Bob.
   */
  lemma ThreeFriendsScenario(alice: Participant, bob: Participant, carol: Participant)
    ensures Shuffle([alice, bob, carol], [0, 0, 0]) == [bob, carol, alice]
    ensures Assignment([alice, bob, carol], [0, 0, 0]) ==
              [Match(bob, carol, false), Match(carol, alice, false), Match(alice, bob, false)]
  {
    var roster := [alice, bob, carol];
    assert Swap(roster, 2, 0) == [carol, bob, alice];
    assert Swap([carol, bob, alice], 1, 0) == [bob, carol, alice];
    assert Shuffle(roster, [0, 0, 0]) == [bob, carol, alice];
    NextOnCircle(0, 3);
    NextOnCircle(1, 3);
    NextOnCircle(2, 3);
  }
}
