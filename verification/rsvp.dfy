/**
 * RSVP polls and the vote transaction: a poll keeps running `yes`/`no`
 * counters next to its map of votes; a vote first takes the voter's old
 * choice off its counter (never below zero) and then adds the new one.
 */
module Rsvp {

  import opened Base

  datatype Choice = Yes | No

  /** A vote document: the choice and the name fixed at voting time. */
  datatype Vote = Vote(choice: Choice, name: string)

  /** The check-in flag and the numbers the closing wrote. */
  datatype CheckinState = CheckinOpen | CheckinClosed(closedBy: string, arrived: int, noshow: int)

  /** A poll document with its `votes` sub-collection. Missing numeric
      fields read as 0 and missing text fields as "". */
  datatype Poll = Poll(
    qRu: string,
    qDe: string,
    dt: string,
    topicKey: string,
    chatMembers: int,
    yes: int,
    no: int,
    votes: map<string, Vote>,
    checkin: CheckinState)

  type Polls = map<string, Poll>

  function Voters(p: Poll, c: Choice): set<string> {
    set u | u in p.votes && p.votes[u].choice == c
  }

  /** The counters agree with the vote records. */
  predicate Consistent(p: Poll) {
    p.yes == |Voters(p, Yes)| && p.no == |Voters(p, No)|
  }

  function Max(a: int, b: int): int {
    if a >= b then a else b
  }

  datatype VoteOutcome = PollNotFound | Voted(polls: Polls)

  /** `rsvpVote_`: the transaction fails when the poll is missing;
      otherwise the old choice's counter drops by one (clamped at 0), the
      new choice's counter grows by one and the vote record is replaced. */
  function CastVote(polls: Polls, pollId: string, uid: string, choice: Choice, name: string): (r: VoteOutcome)
    ensures r.PollNotFound? <==> pollId !in polls
    ensures r.Voted? ==> r.polls.Keys == polls.Keys
    ensures r.Voted? ==> forall id :: id in polls && id != pollId ==> r.polls[id] == polls[id]
    ensures r.Voted? ==>
              var p := polls[pollId];
              var q := r.polls[pollId];
              && q.votes == p.votes[uid := Vote(choice, name)]
              && q == p.(yes := q.yes, no := q.no, votes := q.votes)
  {
    if pollId !in polls then PollNotFound
    else
      var p := polls[pollId];
      var prev := if uid in p.votes then Some(p.votes[uid].choice) else None;
      var yes1 := if prev == Some(Yes) then Max(0, p.yes - 1) else p.yes;
      var no1 := if prev == Some(No) then Max(0, p.no - 1) else p.no;
      var yes2 := if choice == Yes then yes1 + 1 else yes1;
      var no2 := if choice == No then no1 + 1 else no1;
      Voted(polls[pollId := p.(yes := yes2, no := no2, votes := p.votes[uid := Vote(choice, name)])])
  }

  /** The opposite choice. */
  function Other(c: Choice): Choice {
    if c == Yes then No else Yes
  }

  function Count(p: Poll, c: Choice): int {
    if c == Yes then p.yes else p.no
  }

  /** Re-voting the same choice leaves both counters as they were, as long
      as the counter of that choice is not already 0. */
  lemma RevoteUnchanged(polls: Polls, pollId: string, uid: string, c: Choice, name: string)
    requires pollId in polls && uid in polls[pollId].votes
    requires polls[pollId].votes[uid].choice == c && Count(polls[pollId], c) >= 1
    ensures var q := CastVote(polls, pollId, uid, c, name).polls[pollId];
            q.yes == polls[pollId].yes && q.no == polls[pollId].no
  {
  }

  /** Switching moves one vote from the old counter to the new one. */
  lemma SwitchMovesOne(polls: Polls, pollId: string, uid: string, c: Choice, name: string)
    requires pollId in polls && uid in polls[pollId].votes
    requires polls[pollId].votes[uid].choice == Other(c) && Count(polls[pollId], Other(c)) >= 1
    ensures var q := CastVote(polls, pollId, uid, c, name).polls[pollId];
            Count(q, c) == Count(polls[pollId], c) + 1 && Count(q, Other(c)) == Count(polls[pollId], Other(c)) - 1
  {
  }

  /** The clamp: a switch away from a counter that is already 0 leaves it
      at 0. */
  lemma SwitchFromZero(polls: Polls, pollId: string, uid: string, c: Choice, name: string)
    requires pollId in polls && uid in polls[pollId].votes
    requires polls[pollId].votes[uid].choice == Other(c) && Count(polls[pollId], Other(c)) <= 0
    ensures var q := CastVote(polls, pollId, uid, c, name).polls[pollId];
            Count(q, c) == Count(polls[pollId], c) + 1 && Count(q, Other(c)) == 0
  {
  }

  /** A first vote adds one to its own counter and nothing else. */
  lemma FirstVoteAddsOne(polls: Polls, pollId: string, uid: string, c: Choice, name: string)
    requires pollId in polls && uid !in polls[pollId].votes
    ensures var q := CastVote(polls, pollId, uid, c, name).polls[pollId];
            Count(q, c) == Count(polls[pollId], c) + 1 && Count(q, Other(c)) == Count(polls[pollId], Other(c))
  {
  }

  /** How a vote changes the set of voters for each choice. */
  lemma VotersAfter(p: Poll, uid: string, choice: Choice, name: string, c: Choice)
    ensures Voters(p.(votes := p.votes[uid := Vote(choice, name)]), c) ==
            if c == choice then Voters(p, c) + {uid} else Voters(p, c) - {uid}
  {
  }

  /** One counter after a vote, from the counters alone. */
  lemma CountAfter(polls: Polls, pollId: string, uid: string, choice: Choice, name: string, c: Choice)
    requires pollId in polls
    ensures var p := polls[pollId];
            var q := CastVote(polls, pollId, uid, choice, name).polls[pollId];
            Count(q, c) == (if uid in p.votes && p.votes[uid].choice == c then Max(0, Count(p, c) - 1) else Count(p, c))
                           + (if choice == c then 1 else 0)
  {
  }

  /** The voters of each choice after a vote. */
  lemma VotersAfterCast(polls: Polls, pollId: string, uid: string, choice: Choice, name: string, c: Choice)
    requires pollId in polls
    ensures var q := CastVote(polls, pollId, uid, choice, name).polls[pollId];
            Voters(q, c) == if c == choice then Voters(polls[pollId], c) + {uid} else Voters(polls[pollId], c) - {uid}
  {
    var p := polls[pollId];
    var q := CastVote(polls, pollId, uid, choice, name).polls[pollId];
    assert q.votes == p.votes[uid := Vote(choice, name)];
    VotersAfter(p, uid, choice, name, c);
  }

  /** The size of a set after adding or removing one element. */
  lemma CardinalityStep(v: set<string>, u: string, add: bool)
    ensures add ==> |v + {u}| == if u in v then |v| else |v| + 1
    ensures !add ==> |v - {u}| == if u in v then |v| - 1 else |v|
  {
  }

  /** One counter after a vote, when it agreed with its voters before. */
  lemma CounterAfter(polls: Polls, pollId: string, uid: string, choice: Choice, name: string, c: Choice)
    requires pollId in polls && Count(polls[pollId], c) == |Voters(polls[pollId], c)|
    ensures var q := CastVote(polls, pollId, uid, choice, name).polls[pollId];
            Count(q, c) == |Voters(q, c)|
  {
    var p := polls[pollId];
    var v := Voters(p, c);
    CountAfter(polls, pollId, uid, choice, name, c);
    VotersAfterCast(polls, pollId, uid, choice, name, c);
    CardinalityStep(v, uid, c == choice);
    assert uid in v <==> uid in p.votes && p.votes[uid].choice == c;
  }

  /** Counters that agree with the vote records keep agreeing after any
      vote. */
  lemma CastVoteKeepsConsistent(polls: Polls, pollId: string, uid: string, choice: Choice, name: string)
    requires pollId in polls && Consistent(polls[pollId])
    ensures Consistent(CastVote(polls, pollId, uid, choice, name).polls[pollId])
  {
    CounterAfter(polls, pollId, uid, choice, name, Yes);
    CounterAfter(polls, pollId, uid, choice, name, No);
  }

  /** With consistent counters, re-voting never changes them. */
  lemma ConsistentRevote(polls: Polls, pollId: string, uid: string, c: Choice, name: string)
    requires pollId in polls && Consistent(polls[pollId])
    requires uid in polls[pollId].votes && polls[pollId].votes[uid].choice == c
    ensures var q := CastVote(polls, pollId, uid, c, name).polls[pollId];
            q.yes == polls[pollId].yes && q.no == polls[pollId].no
  {
    var p := polls[pollId];
    assert uid in Voters(p, c);
    RevoteUnchanged(polls, pollId, uid, c, name);
  }

  /** `getRsvpCounts_`: the counters, or 0/0 for a missing poll. */
  function RsvpCounts(polls: Polls, pollId: string): (int, int) {
    if pollId in polls then (polls[pollId].yes, polls[pollId].no) else (0, 0)
  }
}
