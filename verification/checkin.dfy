/**
 * Check-in: an admin's in-memory session marks which YES voters came;
 * closing it settles the poll once — every YES voter who came gets the
 * topic's points, every other YES voter a penalty of 5 — and sets the
 * poll's closed flag, which is the only guard against settling twice.
 */
module Checkin {

  import opened Base
  import opened Strings
  import opened Points
  import opened Rsvp
  import opened Leaderboard

  /** The name fields of a user document. */
  datatype Profile = Profile(displayName: string, firstName: string, lastName: string)

  datatype Source = FromCheckin | FromPenalty

  /** Ledger document ids: `ci_<poll>_<uid>` for an award, `ns_<poll>_<uid>`
      for a penalty, any other id for documents written elsewhere. */
  datatype LedgerKey = ArrivedKey(pollId: string, uid: string) | NoShowKey(pollId: string, uid: string) | OtherKey(docId: string)

  /** A ledger document: the entry the leaderboards read plus where it
      came from. */
  datatype LedgerDoc = LedgerDoc(entry: Entry, source: Source, pollId: string, topicKey: string)

  /** The persistent state the transactions read and write. */
  datatype Store = Store(polls: Polls, ledger: map<LedgerKey, LedgerDoc>, profiles: map<string, Profile>)

  /** An admin's check-in session. */
  datatype Session = Session(pollId: string, present: set<string>, page: nat)

  type Sessions = map<string, Session>

  const Penalty: int := -5

  // ---------------------------------------------------------------------
  // Ledger document ids
  // ---------------------------------------------------------------------

  function DocId(k: LedgerKey): string {
    match k
    case ArrivedKey(p, u) => "ci_" + p + "_" + u
    case NoShowKey(p, u) => "ns_" + p + "_" + u
    case OtherKey(id) => id
  }

  predicate NoUnderscore(s: string) {
    forall i :: 0 <= i < |s| ==> s[i] != '_'
  }

  /** `p + "_" + u` determines `p` and `u` when `u` has no underscore. */
  lemma JoinUnderscoreInjective(p1: string, u1: string, p2: string, u2: string)
    requires NoUnderscore(u1) && NoUnderscore(u2)
    requires p1 + "_" + u1 == p2 + "_" + u2
    ensures p1 == p2 && u1 == u2
  {
    var s := p1 + "_" + u1;
    var i, j := |p1|, |p2|;
    assert s[i] == '_' && s[j] == '_';
    assert forall k :: i < k < |s| ==> s[k] == u1[k - i - 1];
    assert forall k :: j < k < |s| ==> s[k] == u2[k - j - 1];
    assert i == j;
    assert p1 == s[..i] == p2;
    assert u1 == s[i + 1..] == u2;
  }

  /** Award and penalty ids never clash while user ids (decimal Telegram
      ids) contain no underscore. */
  lemma DocIdInjective(k1: LedgerKey, k2: LedgerKey)
    requires !k1.OtherKey? && !k2.OtherKey?
    requires NoUnderscore(k1.uid) && NoUnderscore(k2.uid)
    requires DocId(k1) == DocId(k2)
    ensures k1 == k2
  {
    var s := DocId(k1);
    assert s[0] == (if k1.ArrivedKey? then 'c' else 'n');
    assert DocId(k2)[0] == (if k2.ArrivedKey? then 'c' else 'n');
    assert s[3..] == k1.pollId + "_" + k1.uid;
    assert DocId(k2)[3..] == k2.pollId + "_" + k2.uid;
    JoinUnderscoreInjective(k1.pollId, k1.uid, k2.pollId, k2.uid);
  }

  /** With an underscore in a user id two awards share one document id,
      and the later write would overwrite the earlier. */
  lemma DocIdClash()
    ensures DocId(ArrivedKey("a", "b_c")) == DocId(ArrivedKey("a_b", "c"))
  {
  }

  // ---------------------------------------------------------------------
  // Names
  // ---------------------------------------------------------------------

  /** The profile name: the trimmed display name, else the trimmed
      "first last". */
  function ProfileName(pr: Profile): string {
    var dn := Trim(pr.displayName);
    if dn != "" then dn
    else Trim(pr.firstName + (if pr.lastName != "" then " " + pr.lastName else ""))
  }

  /** The name an award or penalty carries: the profile name when there
      is one, else the trimmed vote name, else "Без имени". */
  function SettledName(profiles: map<string, Profile>, uid: string, v: Vote): (n: string)
    ensures n != ""
    ensures uid in profiles && ProfileName(profiles[uid]) != "" ==> n == ProfileName(profiles[uid])
  {
    var fromVote := if Trim(v.name) != "" then Trim(v.name) else NoName;
    if uid in profiles && ProfileName(profiles[uid]) != "" then ProfileName(profiles[uid]) else fromVote
  }

  // ---------------------------------------------------------------------
  // Closing
  // ---------------------------------------------------------------------

  /** The YES voters marked present, and the rest of the YES voters. */
  function ArrivedSet(p: Poll, present: set<string>): set<string> {
    Voters(p, Yes) * present
  }

  function NoShowSet(p: Poll, present: set<string>): set<string> {
    Voters(p, Yes) - present
  }

  /** The outcome of `closeCheckinTx_`. */
  datatype CloseResult =
    | NoSession
    | NoPoll
    | AlreadyClosed(arrived: int, noshow: int)
    | Settled(arrived: int, noshow: int, pts: Score, penalty: int)
  {
    predicate Ok() { AlreadyClosed? || Settled? }
  }

  function AwardDocs(s: Store, pollId: string, p: Poll, arrived: set<string>, now: int): map<LedgerKey, LedgerDoc>
    requires forall u :: u in arrived ==> u in p.votes
  {
    map u | u in arrived :: ArrivedKey(pollId, u) :=
      LedgerDoc(Entry(u, SettledName(s.profiles, u, p.votes[u]), PointsForTopic(p.topicKey).OrZero(), now), FromCheckin, pollId, p.topicKey)
  }

  function PenaltyDocs(s: Store, pollId: string, p: Poll, noshow: set<string>, now: int): map<LedgerKey, LedgerDoc>
    requires forall u :: u in noshow ==> u in p.votes
  {
    map u | u in noshow :: NoShowKey(pollId, u) :=
      LedgerDoc(Entry(u, SettledName(s.profiles, u, p.votes[u]), Penalty, now), FromPenalty, pollId, p.topicKey)
  }

  /** `closeCheckinTx_`: the session must be for this poll and the poll
      must exist; a closed poll reports the numbers stored at its closing
      and writes nothing; otherwise every YES voter gets an award or a
      penalty document (overwriting one with the same id) and the poll is
      marked closed with the two counts. */
  function CloseCheckinTx(s: Store, sessions: Sessions, admin: string, pollId: string, now: int): (res: (CloseResult, Store))
    ensures res.0.NoSession? <==> admin !in sessions || sessions[admin].pollId != pollId
    ensures res.0.NoPoll? <==> admin in sessions && sessions[admin].pollId == pollId && pollId !in s.polls
    ensures res.0.AlreadyClosed? <==> !res.0.NoSession? && pollId in s.polls && s.polls[pollId].checkin.CheckinClosed?
    ensures !res.0.Settled? ==> res.1 == s
    ensures res.0.AlreadyClosed? ==>
              res.0.arrived == s.polls[pollId].checkin.arrived && res.0.noshow == s.polls[pollId].checkin.noshow
  {
    if admin !in sessions || sessions[admin].pollId != pollId then (NoSession, s)
    else if pollId !in s.polls then (NoPoll, s)
    else
      var p := s.polls[pollId];
      match p.checkin
      case CheckinClosed(_, a, n) => (AlreadyClosed(a, n), s)
      case CheckinOpen =>
        var present := sessions[admin].present;
        (Settled(|ArrivedSet(p, present)|, |NoShowSet(p, present)|, PointsForTopic(p.topicKey), Penalty),
         Settle(s, admin, pollId, present, now))
  }

  /** The writes of a settlement: the award and penalty documents and the
      poll's closed flag with the two counts. */
  function Settle(s: Store, admin: string, pollId: string, present: set<string>, now: int): Store
    requires pollId in s.polls
  {
    var p := s.polls[pollId];
    var arrived := ArrivedSet(p, present);
    var noshow := NoShowSet(p, present);
    var ledger := s.ledger + AwardDocs(s, pollId, p, arrived, now) + PenaltyDocs(s, pollId, p, noshow, now);
    var closed := p.(checkin := CheckinClosed(admin, |arrived|, |noshow|));
    s.(polls := s.polls[pollId := closed], ledger := ledger)
  }

  /** Present and absent YES voters split the YES voters exactly. */
  lemma Partition(v: set<string>, present: set<string>)
    ensures (v * present) * (v - present) == {}
    ensures (v * present) + (v - present) == v
    ensures |v * present| + |v - present| == |v|
  {
    assert v == (v * present) + (v - present);
  }

  /** The admin's session is for this poll, and the poll exists and has
      not been closed. */
  predicate CanSettle(s: Store, sessions: Sessions, admin: string, pollId: string) {
    admin in sessions && sessions[admin].pollId == pollId && pollId in s.polls && s.polls[pollId].checkin.CheckinOpen?
  }

  /** Settling splits the YES voters exactly: arrived are the YES voters
      marked present, no-shows the others, so the counts add up to the
      number of YES voters; the poll is marked closed with those counts and
      nothing else about any poll changes. */
  lemma SettlePartition(s: Store, sessions: Sessions, admin: string, pollId: string, now: int)
    requires CanSettle(s, sessions, admin, pollId)
    ensures var (r, s') := CloseCheckinTx(s, sessions, admin, pollId, now);
            var p := s.polls[pollId];
            var present := sessions[admin].present;
            && ArrivedSet(p, present) * NoShowSet(p, present) == {}
            && ArrivedSet(p, present) + NoShowSet(p, present) == Voters(p, Yes)
            && r.arrived == |ArrivedSet(p, present)| && r.noshow == |NoShowSet(p, present)|
            && r.arrived + r.noshow == |Voters(p, Yes)|
            && r.pts == PointsForTopic(p.topicKey) && r.penalty == -5
            && s'.polls == s.polls[pollId := p.(checkin := CheckinClosed(admin, r.arrived, r.noshow))]
            && s'.profiles == s.profiles
  {
    Partition(Voters(s.polls[pollId], Yes), sessions[admin].present);
  }

  /** A close settles exactly when the admin's session is for this poll
      and the poll exists and is still open, and then it writes the
      settlement of the session's marks. */
  lemma CloseSettles(s: Store, sessions: Sessions, admin: string, pollId: string, now: int)
    ensures CloseCheckinTx(s, sessions, admin, pollId, now).0.Settled? <==> CanSettle(s, sessions, admin, pollId)
    ensures CanSettle(s, sessions, admin, pollId) ==>
              CloseCheckinTx(s, sessions, admin, pollId, now).1 == Settle(s, admin, pollId, sessions[admin].present, now)
  {
  }

  /** Each YES voter marked present gets an award document with the
      topic's points, stamped `now`. */
  lemma SettleAwards(s: Store, admin: string, pollId: string, present: set<string>, now: int, u: string)
    requires pollId in s.polls && u in ArrivedSet(s.polls[pollId], present)
    ensures var l := Settle(s, admin, pollId, present, now).ledger;
            var p := s.polls[pollId];
            && ArrivedKey(pollId, u) in l
            && l[ArrivedKey(pollId, u)] ==
               LedgerDoc(Entry(u, SettledName(s.profiles, u, p.votes[u]), PointsForTopic(p.topicKey).OrZero(), now), FromCheckin, pollId, p.topicKey)
  {
    var p := s.polls[pollId];
    var k := ArrivedKey(pollId, u);
    var aw := AwardDocs(s, pollId, p, ArrivedSet(p, present), now);
    var pe := PenaltyDocs(s, pollId, p, NoShowSet(p, present), now);
    assert k in aw;
    assert k !in pe;
    assert Settle(s, admin, pollId, present, now).ledger == s.ledger + aw + pe;
  }

  /** Each YES voter not marked present gets a penalty document of −5. */
  lemma SettlePenalties(s: Store, admin: string, pollId: string, present: set<string>, now: int, u: string)
    requires pollId in s.polls && u in NoShowSet(s.polls[pollId], present)
    ensures var l := Settle(s, admin, pollId, present, now).ledger;
            var p := s.polls[pollId];
            && NoShowKey(pollId, u) in l
            && l[NoShowKey(pollId, u)] ==
               LedgerDoc(Entry(u, SettledName(s.profiles, u, p.votes[u]), -5, now), FromPenalty, pollId, p.topicKey)
  {
    var p := s.polls[pollId];
    var aw := AwardDocs(s, pollId, p, ArrivedSet(p, present), now);
    var pe := PenaltyDocs(s, pollId, p, NoShowSet(p, present), now);
    assert NoShowKey(pollId, u) in pe;
    assert Settle(s, admin, pollId, present, now).ledger == s.ledger + aw + pe;
  }

  /** Every other document is untouched: those of other polls, documents
      written elsewhere, and anything about users who did not vote YES,
      whether marked present or not. */
  lemma SettleKeepsOthers(s: Store, admin: string, pollId: string, present: set<string>, now: int, k: LedgerKey)
    requires pollId in s.polls
    requires k.OtherKey? || k.pollId != pollId || k.uid !in Voters(s.polls[pollId], Yes)
    ensures var l := Settle(s, admin, pollId, present, now).ledger;
            (k in l <==> k in s.ledger) && (k in l ==> l[k] == s.ledger[k])
  {
  }

  /** Settling writes exactly one document per YES voter of the poll. */
  lemma SettleWritesYesVotersOnly(s: Store, admin: string, pollId: string, present: set<string>, now: int, k: LedgerKey)
    requires pollId in s.polls && k !in s.ledger
    requires k in Settle(s, admin, pollId, present, now).ledger
    ensures !k.OtherKey? && k.pollId == pollId && k.uid in Voters(s.polls[pollId], Yes)
    ensures k.ArrivedKey? <==> k.uid in present
  {
  }

  /** Closing is idempotent: once settled, closing again with the same
      session reports the same counts and changes nothing. */
  lemma CloseIdempotent(s: Store, sessions: Sessions, admin: string, pollId: string, now1: int, now2: int)
    requires CanSettle(s, sessions, admin, pollId)
    ensures var (r1, s1) := CloseCheckinTx(s, sessions, admin, pollId, now1);
            var (r2, s2) := CloseCheckinTx(s1, sessions, admin, pollId, now2);
            r2 == AlreadyClosed(r1.arrived, r1.noshow) && s2 == s1
  {
    SettlePartition(s, sessions, admin, pollId, now1);
  }

  /** The `ci_done` step: close, and on success drop the session. */
  function CheckinDone(s: Store, sessions: Sessions, admin: string, pollId: string, now: int): (res: (CloseResult, Store, Sessions))
    ensures res.0.Ok() ==> res.2 == sessions - {admin}
    ensures !res.0.Ok() ==> res.2 == sessions
  {
    var (r, s') := CloseCheckinTx(s, sessions, admin, pollId, now);
    (r, s', if r.Ok() then sessions - {admin} else sessions)
  }

  /** Pressing "done" twice: the first press settles, the second finds no
      session and changes nothing. */
  lemma DoneTwice(s: Store, sessions: Sessions, admin: string, pollId: string, now1: int, now2: int)
    requires CanSettle(s, sessions, admin, pollId)
    ensures var (r1, s1, ss1) := CheckinDone(s, sessions, admin, pollId, now1);
            var (r2, s2, ss2) := CheckinDone(s1, ss1, admin, pollId, now2);
            r2 == NoSession && s2 == s1 && ss2 == ss1
  {
  }

  // ---------------------------------------------------------------------
  // Session mutations
  // ---------------------------------------------------------------------

  /** `getYesUsers_` as a set of ids: none for a missing poll. */
  function YesIds(polls: Polls, pollId: string): (ids: set<string>)
    ensures pollId in polls ==> ids == Voters(polls[pollId], Yes)
    ensures pollId !in polls ==> ids == {}
    ensures forall u :: u in ids ==> pollId in polls && u in polls[pollId].votes && polls[pollId].votes[u].choice == Yes
  {
    if pollId in polls then Voters(polls[pollId], Yes) else {}
  }

  /** The admin's session, or a fresh empty one for `pollId`. */
  function SessionOr(sessions: Sessions, admin: string, pollId: string): Session {
    if admin in sessions then sessions[admin] else Session(pollId, {}, 0)
  }

  /** `showCheckinPeople_`'s effect on the session: nothing when the poll
      is missing; otherwise the session (created if absent) moves to this
      poll and page and keeps its marks. */
  function ShowPeople(polls: Polls, sessions: Sessions, admin: string, pollId: string, page: nat): (r: Sessions)
    ensures pollId !in polls ==> r == sessions
    ensures pollId in polls ==>
              r == sessions[admin := Session(pollId, SessionOr(sessions, admin, pollId).present, page)]
  {
    if pollId !in polls then sessions
    else
      var cur := SessionOr(sessions, admin, pollId);
      sessions[admin := cur.(pollId := pollId, page := page)]
  }

  /** `ci_pick_<poll>`: a fresh session with no marks. */
  function Pick(polls: Polls, sessions: Sessions, admin: string, pollId: string): (r: Sessions)
    ensures admin in r && r[admin] == Session(pollId, {}, 0)
    ensures forall a :: a != admin ==> (a in r <==> a in sessions) && (a in r ==> r[a] == sessions[a])
  {
    ShowPeople(polls, sessions[admin := Session(pollId, {}, 0)], admin, pollId, 0)
  }

  /** The marks after a button press, before the screen is redrawn. */
  function Marked(sessions: Sessions, admin: string, pollId: string, present: set<string>): Sessions {
    var cur := SessionOr(sessions, admin, pollId);
    sessions[admin := cur.(present := present)]
  }

  /** `ci_t_<poll>_<uid>_<page>`: flip one mark. */
  function Toggle(polls: Polls, sessions: Sessions, admin: string, pollId: string, uid: string, page: nat): Sessions {
    var cur := SessionOr(sessions, admin, pollId).present;
    var flipped := if uid in cur then cur - {uid} else cur + {uid};
    ShowPeople(polls, Marked(sessions, admin, pollId, flipped), admin, pollId, page)
  }

  /** `ci_all_<poll>_<page>`: mark exactly the YES voters. */
  function MarkAll(polls: Polls, sessions: Sessions, admin: string, pollId: string, page: nat): (r: Sessions)
    ensures admin in r && r[admin].present == YesIds(polls, pollId)
  {
    ShowPeople(polls, Marked(sessions, admin, pollId, YesIds(polls, pollId)), admin, pollId, page)
  }

  /** `ci_none_<poll>_<page>`: clear every mark. */
  function MarkNone(polls: Polls, sessions: Sessions, admin: string, pollId: string, page: nat): (r: Sessions)
    ensures admin in r && r[admin].present == {}
  {
    ShowPeople(polls, Marked(sessions, admin, pollId, {}), admin, pollId, page)
  }

  function Present(sessions: Sessions, admin: string): set<string> {
    if admin in sessions then sessions[admin].present else {}
  }

  /** A toggle flips the mark of `uid` and no other. */
  lemma ToggleFlips(polls: Polls, sessions: Sessions, admin: string, pollId: string, uid: string, page: nat)
    ensures var r := Toggle(polls, sessions, admin, pollId, uid, page);
            admin in r
            && (uid in r[admin].present <==> uid !in Present(sessions, admin))
            && forall v :: v != uid ==> (v in r[admin].present <==> v in Present(sessions, admin))
  {
  }

  /** Toggling the same id twice restores the marks. */
  lemma ToggleTwice(polls: Polls, sessions: Sessions, admin: string, pollId: string, uid: string, page1: nat, page2: nat)
    ensures var r := Toggle(polls, Toggle(polls, sessions, admin, pollId, uid, page1), admin, pollId, uid, page2);
            admin in r && r[admin].present == Present(sessions, admin)
  {
    ToggleFlips(polls, sessions, admin, pollId, uid, page1);
    var r1 := Toggle(polls, sessions, admin, pollId, uid, page1);
    ToggleFlips(polls, r1, admin, pollId, uid, page2);
  }

  /** A toggle from another poll's screen keeps the marks of the session's
      poll and moves the session to the other poll, so those marks take
      part when that poll is closed. */
  lemma ToggleKeepsForeignMarks(polls: Polls, sessions: Sessions, admin: string, pollA: string, pollB: string, uid: string, page: nat)
    requires admin in sessions && sessions[admin].pollId == pollA && pollB in polls
    requires uid !in sessions[admin].present
    ensures var r := Toggle(polls, sessions, admin, pollB, uid, page);
            r[admin].pollId == pollB && r[admin].present == sessions[admin].present + {uid}
  {
  }

  /** Every mark-all is honoured at closing: with all YES voters marked,
      nobody is a no-show. */
  lemma MarkAllThenClose(s: Store, sessions: Sessions, admin: string, pollId: string, page: nat, now: int)
    requires pollId in s.polls && s.polls[pollId].checkin.CheckinOpen?
    ensures var ss := MarkAll(s.polls, sessions, admin, pollId, page);
            var (r, _) := CloseCheckinTx(s, ss, admin, pollId, now);
            r.Settled? && r.noshow == 0 && r.arrived == |Voters(s.polls[pollId], Yes)|
  {
    var ss := MarkAll(s.polls, sessions, admin, pollId, page);
    var p := s.polls[pollId];
    assert ss[admin].pollId == pollId;
    assert ArrivedSet(p, ss[admin].present) == Voters(p, Yes);
    assert NoShowSet(p, ss[admin].present) == {};
  }

  /** "Mark none" then closing settles with every YES voter absent. */
  lemma MarkNoneThenClose(s: Store, sessions: Sessions, admin: string, pollId: string, page: nat, now: int)
    requires pollId in s.polls && s.polls[pollId].checkin.CheckinOpen?
    ensures var ss := MarkNone(s.polls, sessions, admin, pollId, page);
            var (r, _) := CloseCheckinTx(s, ss, admin, pollId, now);
            r.Settled? && r.arrived == 0 && r.noshow == |Voters(s.polls[pollId], Yes)|
  {
    var ss := MarkNone(s.polls, sessions, admin, pollId, page);
    var p := s.polls[pollId];
    assert ss[admin].pollId == pollId;
    assert ArrivedSet(p, ss[admin].present) == {};
    assert NoShowSet(p, ss[admin].present) == Voters(p, Yes);
  }

  // ---------------------------------------------------------------------
  // A worked settlement
  // ---------------------------------------------------------------------

  /** A running event: A and B said yes, C said no; the admin marked A
      and D. */
  const ExamplePoll: Poll :=
    Poll("q", "q", "21.02.2026", "бег", 0, 2, 1,
         map["A" := Vote(Yes, "A"), "B" := Vote(Yes, "B"), "C" := Vote(No, "C")], CheckinOpen)

  const ExampleSessions: Sessions := map["admin" := Session("e", {"A", "D"}, 0)]

  lemma ExampleSplit()
    ensures Voters(ExamplePoll, Yes) == {"A", "B"}
    ensures ArrivedSet(ExamplePoll, {"A", "D"}) == {"A"}
    ensures NoShowSet(ExamplePoll, {"A", "D"}) == {"B"}
  {
    assert "C" !in Voters(ExamplePoll, Yes);
  }

  const ExampleStore: Store := Store(map["e" := ExamplePoll], map[], map[])

  /** One arrival worth 30 points and one no-show. */
  lemma ExampleRunResult(now: int)
    ensures CloseCheckinTx(ExampleStore, ExampleSessions, "admin", "e", now).0 == Settled(1, 1, Pts(30), -5)
  {
    ExampleSplit();
    ExampleRun();
  }

  /** The documents a settlement adds are keyed by exactly the arrived
      and the no-show voters. */
  lemma SettleKeys(s: Store, admin: string, pollId: string, present: set<string>, now: int)
    requires pollId in s.polls
    ensures var p := s.polls[pollId];
            Settle(s, admin, pollId, present, now).ledger.Keys ==
              s.ledger.Keys
              + (set u | u in ArrivedSet(p, present) :: ArrivedKey(pollId, u))
              + (set u | u in NoShowSet(p, present) :: NoShowKey(pollId, u))
  {
    var p := s.polls[pollId];
    var aw := AwardDocs(s, pollId, p, ArrivedSet(p, present), now);
    var pe := PenaltyDocs(s, pollId, p, NoShowSet(p, present), now);
    AwardDocsKeys(s, pollId, p, ArrivedSet(p, present), now);
    PenaltyDocsKeys(s, pollId, p, NoShowSet(p, present), now);
    UnionKeys(s.ledger, aw);
    UnionKeys(s.ledger + aw, pe);
  }

  lemma UnionKeys(m: map<LedgerKey, LedgerDoc>, n: map<LedgerKey, LedgerDoc>)
    ensures (m + n).Keys == m.Keys + n.Keys
  {
  }

  lemma AwardDocsKeys(s: Store, pollId: string, p: Poll, arrived: set<string>, now: int)
    requires forall u :: u in arrived ==> u in p.votes
    ensures AwardDocs(s, pollId, p, arrived, now).Keys == set u | u in arrived :: ArrivedKey(pollId, u)
  {
  }

  lemma PenaltyDocsKeys(s: Store, pollId: string, p: Poll, noshow: set<string>, now: int)
    requires forall u :: u in noshow ==> u in p.votes
    ensures PenaltyDocs(s, pollId, p, noshow, now).Keys == set u | u in noshow :: NoShowKey(pollId, u)
  {
  }

  /** Only A and B get a document: C voted no and D never voted yes. */
  lemma ExampleRunKeys(now: int)
    ensures Settle(ExampleStore, "admin", "e", {"A", "D"}, now).ledger.Keys == {ArrivedKey("e", "A"), NoShowKey("e", "B")}
  {
    var p := ExampleStore.polls["e"];
    ExampleSplit();
    SettleKeys(ExampleStore, "admin", "e", {"A", "D"}, now);
    assert ExampleStore.ledger.Keys == {};
    KeysOneEach(Settle(ExampleStore, "admin", "e", {"A", "D"}, now).ledger.Keys, "e",
                ArrivedSet(p, {"A", "D"}), NoShowSet(p, {"A", "D"}), "A", "B");
  }

  /** The keys a settlement with one arrived voter and one no-show
      writes into an empty ledger. */
  lemma KeysOneEach(keys: set<LedgerKey>, pollId: string, xs: set<string>, ys: set<string>, a: string, b: string)
    requires keys == {} + (set u | u in xs :: ArrivedKey(pollId, u)) + (set u | u in ys :: NoShowKey(pollId, u))
    requires xs == {a} && ys == {b}
    ensures keys == {ArrivedKey(pollId, a), NoShowKey(pollId, b)}
  {
    ArrivedImageOne(pollId, xs, a);
    NoShowImageOne(pollId, ys, b);
  }

  lemma ArrivedImageOne(pollId: string, xs: set<string>, a: string)
    requires xs == {a}
    ensures (set u | u in xs :: ArrivedKey(pollId, u)) == {ArrivedKey(pollId, a)}
  {
  }

  lemma NoShowImageOne(pollId: string, xs: set<string>, b: string)
    requires xs == {b}
    ensures (set u | u in xs :: NoShowKey(pollId, u)) == {NoShowKey(pollId, b)}
  {
  }

  /** A gets 30 and B gets −5. */
  lemma ExampleRunLedger(now: int)
    ensures var l := Settle(ExampleStore, "admin", "e", {"A", "D"}, now).ledger;
            && ArrivedKey("e", "A") in l && l[ArrivedKey("e", "A")].entry.points == 30
            && NoShowKey("e", "B") in l && l[NoShowKey("e", "B")].entry.points == -5
  {
    ExampleSplit();
    ExampleRun();
    SettleAwards(ExampleStore, "admin", "e", {"A", "D"}, now, "A");
    SettlePenalties(ExampleStore, "admin", "e", {"A", "D"}, now, "B");
  }
}
