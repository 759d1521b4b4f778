/**
 * The group-side RSVP button handler: the results button always opens
 * the private chat; YES/NO presses are refused from the event day on
 * (the card then loses its vote buttons) and are otherwise recorded and
 * the card redrawn. "Today" is read twice, before and after the vote,
 * so both dates are parameters.
 */
module RsvpFlow {

  import opened Base
  import opened Strings
  import opened EventDate
  import opened Rsvp
  import opened Callbacks
  import opened Card

  /** What the bot does in answer to a press. */
  datatype Reply =
    | NoReply
    | OpenChat(url: string)
    | VotingClosed(text: string, kb: Keyboard)
    | CardUpdated(text: string, kb: Keyboard)

  /** The deep link to the private results view of a poll. */
  function ResultsUrl(botUsername: string, pollId: string): string {
    "https://t.me/" + botUsername + "?start=" + ("results_" + pollId)
  }

  /** The `/start` payload handler's reading of a results link: trimmed,
      and when it starts with `results_`, the rest trimmed again. */
  function StartResultsPollId(payload: string): (r: Option<string>)
    ensures r.Some? ==> Trimmed(r.value)
  {
    var p := Trim(payload);
    if |p| >= 8 && p[..8] == "results_" then
      TrimIdempotent(p[8..]);
      Some(Trim(p[8..]))
    else None
  }

  /** The payload of a results link leads back to its poll. */
  lemma StartPayloadRoundTrip(pollId: string)
    requires PollIdShape(pollId)
    ensures StartResultsPollId("results_" + pollId) == Some(pollId)
  {
    var p := "results_" + pollId;
    assert !IsWhite(p[0]) && !IsWhite(p[|p| - 1]);
    TrimOfTrimmed(p);
    assert p[8..] == pollId;
    assert !IsWhite(pollId[0]) && !IsWhite(pollId[|pollId| - 1]);
    TrimOfTrimmed(pollId);
  }

  /** The handler for `rsvp_<action>_<pollId>`, pressed by `uid` whose
      display name is `name`. */
  function RsvpCallback(polls: Polls, a: RsvpAction, pollId: string, uid: string, name: string,
                        botUsername: string, today: string, todayAfter: string): (res: (Reply, Polls))
    ensures pollId !in polls ==> res == (NoReply, polls)
    ensures pollId in polls && a == ShowResults ==> res == (OpenChat(ResultsUrl(botUsername, pollId)), polls)
  {
    if pollId !in polls then (NoReply, polls)
    else
      var poll := polls[pollId];
      if a == ShowResults then (OpenChat(ResultsUrl(botUsername, pollId)), polls)
      else if IsLocked(poll.dt, today) then
        (VotingClosed(CardText(poll, poll.yes, poll.no), ResultsOnlyKeyboard(pollId)), polls)
      else
        var choice := if a == VoteYes then Yes else No;
        var after := CastVote(polls, pollId, uid, choice, name).polls;
        var (yes, no) := RsvpCounts(after, pollId);
        var kb := if IsLocked(poll.dt, todayAfter) then ResultsOnlyKeyboard(pollId) else VoteKeyboard(pollId, yes, no);
        (CardUpdated(CardText(poll, yes, no), kb), after)
  }

  /** A locked poll records nothing: the voter gets the closed notice and
      the card is redrawn from the stored counters with the results button
      alone. */
  lemma LockedRecordsNothing(polls: Polls, a: RsvpAction, pollId: string, uid: string, name: string,
                             botUsername: string, today: string, todayAfter: string)
    requires pollId in polls && a != ShowResults && IsLocked(polls[pollId].dt, today)
    ensures var (reply, after) := RsvpCallback(polls, a, pollId, uid, name, botUsername, today, todayAfter);
            && after == polls
            && reply == VotingClosed(CardText(polls[pollId], polls[pollId].yes, polls[pollId].no), ResultsOnlyKeyboard(pollId))
            && !HasVoteButton(reply.kb)
  {
    ResultsOnlyCannotVote(pollId);
  }

  /** An open poll records the press as the voter's vote and redraws the
      card with the counters after the vote. */
  lemma OpenRecordsVote(polls: Polls, a: RsvpAction, pollId: string, uid: string, name: string,
                        botUsername: string, today: string, todayAfter: string)
    requires pollId in polls && a != ShowResults && !IsLocked(polls[pollId].dt, today)
    ensures var (reply, after) := RsvpCallback(polls, a, pollId, uid, name, botUsername, today, todayAfter);
            var choice := if a == VoteYes then Yes else No;
            && after == CastVote(polls, pollId, uid, choice, name).polls
            && after[pollId].votes[uid] == Vote(choice, name)
            && reply.CardUpdated?
            && reply.text == CardText(polls[pollId], after[pollId].yes, after[pollId].no)
  {
  }

  /** After a vote the card keeps its vote buttons exactly when the event
      day has not come by the time the card is redrawn. */
  lemma KeyboardAfterVote(polls: Polls, a: RsvpAction, pollId: string, uid: string, name: string,
                          botUsername: string, today: string, todayAfter: string)
    requires pollId in polls && a != ShowResults && !IsLocked(polls[pollId].dt, today)
    ensures var reply := RsvpCallback(polls, a, pollId, uid, name, botUsername, today, todayAfter).0;
            reply.kb == ResultsOnlyKeyboard(pollId) <==> IsLocked(polls[pollId].dt, todayAfter)
  {
    var reply := RsvpCallback(polls, a, pollId, uid, name, botUsername, today, todayAfter).0;
    if !IsLocked(polls[pollId].dt, todayAfter) {
      assert |reply.kb| == 2;
    }
  }

  /** With consistent counters before, the counters on the redrawn card
      are the numbers of YES and NO votes on record. */
  lemma CardCountsVotes(polls: Polls, a: RsvpAction, pollId: string, uid: string, name: string,
                        botUsername: string, today: string, todayAfter: string)
    requires pollId in polls && a != ShowResults && !IsLocked(polls[pollId].dt, today)
    requires Consistent(polls[pollId])
    ensures var after := RsvpCallback(polls, a, pollId, uid, name, botUsername, today, todayAfter).1;
            Consistent(after[pollId])
  {
    var choice := if a == VoteYes then Yes else No;
    CastVoteKeepsConsistent(polls, pollId, uid, choice, name);
  }

  /** The lock only ever closes: a press refused on one day is refused on
      every later day. */
  lemma RefusedStaysRefused(polls: Polls, a: RsvpAction, pollId: string, uid: string, name: string,
                            botUsername: string, today: string, later: string, todayAfter: string)
    requires pollId in polls && a != ShowResults && IsLocked(polls[pollId].dt, today) && LexLe(today, later)
    ensures RsvpCallback(polls, a, pollId, uid, name, botUsername, later, todayAfter).0.VotingClosed?
  {
    LockIsMonotone(polls[pollId].dt, today, later);
  }

  /** The event of "21.02.2026, 14:00" takes votes until 20 February 2026
      and refuses them from 21 February on. */
  lemma ExampleLockDay(polls: Polls, a: RsvpAction, pollId: string, uid: string, name: string, botUsername: string)
    requires pollId in polls && polls[pollId].dt == "21.02.2026, 14:00" && a != ShowResults
    ensures var day := FormatYmd(Ymd(2026, 2, 20));
            RsvpCallback(polls, a, pollId, uid, name, botUsername, day, day).0.CardUpdated?
    ensures var day := FormatYmd(Ymd(2026, 2, 21));
            RsvpCallback(polls, a, pollId, uid, name, botUsername, day, day).0.VotingClosed?
  {
    ExampleLock(Ymd(2026, 2, 20));
    ExampleLock(Ymd(2026, 2, 21));
  }
}
