/**
 * The RSVP card: the message the group sees under a poll. Up to three
 * header lines (Russian and German question, date) and, once somebody
 * has voted, a YES bar and a NO bar of ten cells with their percentages,
 * followed by the vote keyboard or, once voting is locked, the results
 * button alone.
 */
module Card {

  import opened Base
  import opened Strings
  import opened Rsvp
  import opened Callbacks

  // ---------------------------------------------------------------------
  // Arithmetic of `Math.round`
  // ---------------------------------------------------------------------

  /** `r` is `n / d` rounded to the nearest integer, halves up. */
  predicate Rounds(r: int, n: int, d: int) {
    2 * d * r - d <= 2 * n < 2 * d * r + d
  }

  /** `Math.round(n / d)` on exact rationals. */
  function RoundDiv(n: int, d: int): (r: int)
    requires d > 0
    ensures Rounds(r, n, d)
  {
    (2 * n + d) / (2 * d)
  }

  lemma MulLe(k: int, x: int, y: int)
    requires k >= 0 && x <= y
    ensures k * x <= k * y
  {
  }

  lemma MulLtCancel(k: int, x: int, y: int)
    requires k > 0 && k * x < k * y
    ensures x < y
  {
  }

  /** At most one integer rounds a quotient. */
  lemma RoundsUnique(r1: int, r2: int, n: int, d: int)
    requires d > 0 && Rounds(r1, n, d) && Rounds(r2, n, d)
    ensures r1 == r2
  {
    assert (2 * d) * r1 < (2 * d) * (r2 + 1);
    MulLtCancel(2 * d, r1, r2 + 1);
    assert (2 * d) * r2 < (2 * d) * (r1 + 1);
    MulLtCancel(2 * d, r2, r1 + 1);
  }

  /** Rounding is monotone in the numerator. */
  lemma RoundDivMonotone(a: int, b: int, d: int)
    requires d > 0 && a <= b
    ensures RoundDiv(a, d) <= RoundDiv(b, d)
  {
    var ra, rb := RoundDiv(a, d), RoundDiv(b, d);
    assert (2 * d) * ra < (2 * d) * (rb + 1);
    MulLtCancel(2 * d, ra, rb + 1);
  }

  /** Scaling numerator and denominator together does not change the
      rounded quotient. */
  lemma RoundDivScale(n: int, d: int, k: int)
    requires d > 0 && k > 0
    ensures RoundDiv(n * k, d * k) == RoundDiv(n, d)
  {
    var r := RoundDiv(n * k, d * k);
    assert k * (2 * d * r - d) <= k * (2 * n);
    assert k * (2 * n) < k * (2 * d * r + d);
    MulLtCancel(k, 2 * n, 2 * d * r + d);
    MulLtCancel(k, 2 * d * r - d, 2 * n + 1);
    RoundsUnique(r, RoundDiv(n, d), n, d);
  }

  function Clamp(n: int, lo: int, hi: int): int {
    if n < lo then lo else if n > hi then hi else n
  }

  // ---------------------------------------------------------------------
  // Bars
  // ---------------------------------------------------------------------

  const FullCell: char := '\U{25B0}'
  const EmptyCell: char := '\U{25B1}'

  /** Cells a percentage fills out of `total`, before clamping. */
  function FilledCells(pct: int, total: nat): int {
    RoundDiv(pct * total, 100)
  }

  /** `barSegments`: the filled cells, clamped to the bar, then the empty
      ones. */
  function BarSegments(pct: int, total: nat): (r: string)
    ensures |r| == total
  {
    var filled := FilledCells(pct, total);
    Repeat(FullCell, Clamp(filled, 0, total)) + Repeat(EmptyCell, Clamp(total - filled, 0, total))
  }

  /** A bar of `total` cells whose first `k` are full. */
  predicate BarOf(r: string, total: nat, k: nat) {
    |r| == total && k <= total
    && (forall i :: 0 <= i < k ==> r[i] == FullCell)
    && (forall i :: k <= i < total ==> r[i] == EmptyCell)
  }

  /** A bar is always `total` cells: the clamped number of full cells,
      then empty cells. */
  lemma BarShape(pct: int, total: nat)
    ensures BarOf(BarSegments(pct, total), total, Clamp(FilledCells(pct, total), 0, total))
  {
  }

  /** More percent never means fewer full cells. */
  lemma BarMonotone(p1: int, p2: int, total: nat)
    requires p1 <= p2
    ensures Clamp(FilledCells(p1, total), 0, total) <= Clamp(FilledCells(p2, total), 0, total)
  {
    RoundDivMonotone(p1 * total, p2 * total, 100);
  }

  /** `ratingBar10`: ten cells, clamped, wrapped in `<code>`. The cells
      filled are the tenth of the share rounded, none below 5 % and all
      from 95 %. */
  function RatingBar10(pct: int): (r: string)
    ensures |r| == 10 + |"<code>"| + |"</code>"|
    ensures r[..6] == "<code>" && r[16..] == "</code>"
    ensures forall k :: 0 <= k <= 10 && Rounds(k, pct, 10) ==> BarOf(r[6..16], 10, k)
    ensures pct < 5 ==> BarOf(r[6..16], 10, 0)
    ensures pct >= 95 ==> BarOf(r[6..16], 10, 10)
  {
    var filled := Clamp(RoundDiv(pct, 10), 0, 10);
    var bar := Repeat(FullCell, filled) + Repeat(EmptyCell, 10 - filled);
    RatingFilled(pct);
    assert BarOf(bar, 10, filled);
    var r := "<code>" + bar + "</code>";
    assert r[..6] == "<code>" && r[6..16] == bar && r[16..] == "</code>";
    r
  }

  /** The clamped count of the rating bar is the rounded tenth whenever
      that lies in the bar, 0 below 5 % and 10 from 95 %. */
  lemma RatingFilled(pct: int)
    ensures forall k :: 0 <= k <= 10 && Rounds(k, pct, 10) ==> k == Clamp(RoundDiv(pct, 10), 0, 10)
    ensures pct < 5 ==> Clamp(RoundDiv(pct, 10), 0, 10) == 0
    ensures pct >= 95 ==> Clamp(RoundDiv(pct, 10), 0, 10) == 10
  {
  }

  /** `ratingBar10` draws the same ten cells as `barSegments(pct, 10)`. */
  lemma RatingBarIsSegments(pct: int)
    ensures RatingBar10(pct) == "<code>" + BarSegments(pct, 10) + "</code>"
  {
    RoundDivScale(pct, 10, 10);
    assert FilledCells(pct, 10) == RoundDiv(pct, 10);
  }

  /** Full cells of the rating bar: none at or below 4 percent, all at or
      above 95, otherwise the percentage rounded to tens. */
  lemma RatingBarCells(pct: int)
    ensures pct <= 4 ==> Clamp(RoundDiv(pct, 10), 0, 10) == 0
    ensures pct >= 95 ==> Clamp(RoundDiv(pct, 10), 0, 10) == 10
    ensures 0 <= pct <= 100 ==> Clamp(RoundDiv(pct, 10), 0, 10) == RoundDiv(pct, 10)
  {
  }

  // ---------------------------------------------------------------------
  // Percentages
  // ---------------------------------------------------------------------

  /** The percentage of one side: of the chat's members when that count is
      known, else of the votes, else 0. */
  function Pct(part: int, members: int, votes: int): (r: int)
    ensures members > 0 ==> Rounds(r, 100 * part, members)
    ensures members <= 0 && votes > 0 ==> Rounds(r, 100 * part, votes)
    ensures members <= 0 && votes <= 0 ==> r == 0
  {
    if members > 0 then RoundDiv(100 * part, members)
    else if votes > 0 then RoundDiv(100 * part, votes)
    else 0
  }

  /** A rounded share of a whole lies in 0..100 percent. */
  lemma ShareBounds(r: int, part: int, whole: int)
    requires 0 <= part <= whole && whole > 0 && Rounds(r, 100 * part, whole)
    ensures 0 <= r <= 100
  {
    assert (2 * whole) * r < (2 * whole) * 101;
    MulLtCancel(2 * whole, r, 101);
    assert (2 * whole) * (-1) < (2 * whole) * r;
    MulLtCancel(2 * whole, -1, r);
  }

  /** Out of the votes, each side's percentage lies in 0..100 and the two
      add up to 100 or, when both round up from a half, 101. */
  lemma PctOfVotes(yes: int, no: int)
    requires yes >= 0 && no >= 0 && yes + no > 0
    ensures 0 <= Pct(yes, 0, yes + no) <= 100 && 0 <= Pct(no, 0, yes + no) <= 100
    ensures 100 <= Pct(yes, 0, yes + no) + Pct(no, 0, yes + no) <= 101
  {
    var v := yes + no;
    var py, pn := Pct(yes, 0, v), Pct(no, 0, v);
    ShareBounds(py, yes, v);
    ShareBounds(pn, no, v);
    assert (2 * v) * (py + pn) - 2 * v <= 200 * v < (2 * v) * (py + pn) + 2 * v;
    assert (2 * v) * (py + pn) < (2 * v) * 102;
    MulLtCancel(2 * v, py + pn, 102);
    assert (2 * v) * 99 < (2 * v) * (py + pn);
    MulLtCancel(2 * v, 99, py + pn);
  }

  /** Out of the chat's members, a side that is no larger than the chat is
      at most 100 percent. */
  lemma PctOfMembers(part: int, members: int, votes: int)
    requires 0 <= part <= members && members > 0
    ensures 0 <= Pct(part, members, votes) <= 100
  {
    ShareBounds(Pct(part, members, votes), part, members);
  }

  /** `String(n)` for any integer. */
  function IntToString(n: int): (r: string)
    ensures r != [] && (r[0] == '-' <==> n < 0)
  {
    if n < 0 then "-" + NatToString(-n) else NatToString(n)
  }

  // ---------------------------------------------------------------------
  // Topic emoji
  // ---------------------------------------------------------------------

  /** `s.includes(sub)`. */
  predicate Contains(s: string, sub: string)
    decreases |s|
  {
    (|sub| <= |s| && s[..|sub|] == sub) || (|s| > 0 && Contains(s[1..], sub))
  }

  lemma ContainsAt(s: string, sub: string, k: nat)
    requires k + |sub| <= |s| && s[k..k + |sub|] == sub
    ensures Contains(s, sub)
    decreases k
  {
    if k > 0 {
      assert s[1..][k - 1..k - 1 + |sub|] == sub;
      ContainsAt(s[1..], sub, k - 1);
    }
  }

  lemma ContainsSelf(s: string)
    ensures Contains(s, s)
  {
  }

  /** A string cannot contain a longer one, nor one whose first character
      it lacks. */
  lemma {:induction false} NotContains(s: string, sub: string)
    requires |sub| > |s| || (|sub| > 0 && sub[0] !in s)
    ensures !Contains(s, sub)
    decreases |s|
  {
    if |s| > 0 {
      assert forall c :: c in s[1..] ==> c in s;
      NotContains(s[1..], sub);
    }
  }

  const DefaultEmoji: string := "\U{26A1}\U{FE0F}"

  /** `topicEmoji_`: the first group of keywords the lower-cased key
      contains picks the emoji. */
  function TopicEmoji(topicKey: string): (e: string)
    ensures e != ""
  {
    var k := Lower(topicKey);
    if Contains(k, "бег") || Contains(k, "run") then "\U{1F3C3}"
    else if Contains(k, "волейбол") || Contains(k, "volley") then "\U{1F93E}"
    else if Contains(k, "вело") || Contains(k, "bike") || Contains(k, "rad") then "\U{1F6B4}"
    else if Contains(k, "поход") || Contains(k, "hike") then "\U{1F6B6}"
    else if Contains(k, "плав") || Contains(k, "swim") then "\U{1F3CA}"
    else if Contains(k, "event") || Contains(k, "меропр") then "\U{1F3AA}"
    else DefaultEmoji
  }

  /** A key holding a keyword of running, in any case, gets the runner,
      whatever else it contains. */
  lemma RunnerFirst(k: string, i: nat)
    requires i + 3 <= |k|
    requires Lower(k[i..i + 3]) == "бег" || Lower(k[i..i + 3]) == "run"
    ensures TopicEmoji(k) == "\U{1F3C3}"
  {
    var w := Lower(k[i..i + 3]);
    assert Lower(k)[i..i + 3] == w;
    ContainsAt(Lower(k), w, i);
  }

  lemma ExampleEmojiCycling()
    ensures TopicEmoji("вело") == "\U{1F6B4}"
  {
    assert Lower("вело") == "вело";
    ContainsSelf("вело");
    NotContains("вело", "бег");
    NotContains("вело", "run");
    NotContains("вело", "волейбол");
    NotContains("вело", "volley");
  }

  // ---------------------------------------------------------------------
  // The card text
  // ---------------------------------------------------------------------

  /** `.filter(Boolean)` on strings. */
  function NonEmpty(lines: seq<string>): (r: seq<string>)
    ensures forall i :: 0 <= i < |r| ==> r[i] != ""
    ensures |r| <= |lines|
  {
    if lines == [] then []
    else if lines[0] == "" then NonEmpty(lines[1..])
    else [lines[0]] + NonEmpty(lines[1..])
  }

  lemma {:induction false} NonEmptyAppend(a: seq<string>, b: seq<string>)
    ensures NonEmpty(a + b) == NonEmpty(a) + NonEmpty(b)
  {
    if a == [] {
      assert a + b == b;
    } else {
      assert (a + b)[0] == a[0];
      assert (a + b)[1..] == a[1..] + b;
      NonEmptyAppend(a[1..], b);
    }
  }

  lemma NonEmptyKeeps(lines: seq<string>)
    requires forall i :: 0 <= i < |lines| ==> lines[i] != ""
    ensures NonEmpty(lines) == lines
  {
  }

  /** The YES line: topic emoji, bar and percentage. */
  function YesLine(p: Poll, yes: int, no: int): (r: string)
    ensures |TopicEmoji(p.topicKey)| < |r| && r[..|TopicEmoji(p.topicKey)|] == TopicEmoji(p.topicKey)
  {
    var pct := Pct(yes, p.chatMembers, yes + no);
    TopicEmoji(p.topicKey) + " " + RatingBar10(pct) + " " + IntToString(pct) + "%"
  }

  /** The NO line: a cross, bar and percentage. */
  function NoLine(p: Poll, yes: int, no: int): (r: string)
    ensures r != "" && r[0] == '\U{2716}'
  {
    var pct := Pct(no, p.chatMembers, yes + no);
    "\U{2716}\U{FE0F} " + RatingBar10(pct) + " " + IntToString(pct) + "%"
  }

  /** The header lines: the two questions and the date, trimmed. */
  function Headers(p: Poll): seq<string> {
    [Trim(p.qRu), Trim(p.qDe), Trim(p.dt)]
  }

  /** `formatRsvpCardText` as lines: the five candidates, empty ones
      dropped. */
  function CardLines(p: Poll, yes: int, no: int): seq<string> {
    var votes := yes + no;
    NonEmpty(Headers(p) + [if votes > 0 then YesLine(p, yes, no) else "",
                           if votes > 0 then NoLine(p, yes, no) else ""])
  }

  function CardText(p: Poll, yes: int, no: int): string {
    Join(CardLines(p, yes, no), "\n")
  }

  /** The candidates `formatRsvpCardText` filters. */
  function Candidates(p: Poll, yes: int, no: int): seq<string> {
    Headers(p) + [if yes + no > 0 then YesLine(p, yes, no) else "",
                  if yes + no > 0 then NoLine(p, yes, no) else ""]
  }

  /** Appending two non-empty lines keeps both. */
  lemma KeepTwo(h: seq<string>, y: string, n: string)
    requires y != "" && n != ""
    ensures NonEmpty(h + [y, n]) == NonEmpty(h) + [y, n]
  {
    NonEmptyAppend(h, [y, n]);
    NonEmptyKeeps([y, n]);
  }

  lemma BarsKept(p: Poll, yes: int, no: int)
    requires yes + no > 0
    ensures NonEmpty(Candidates(p, yes, no)) == NonEmpty(Headers(p)) + [YesLine(p, yes, no), NoLine(p, yes, no)]
  {
    var y, n := YesLine(p, yes, no), NoLine(p, yes, no);
    assert Candidates(p, yes, no) == Headers(p) + [y, n];
    KeepTwo(Headers(p), y, n);
  }

  lemma BarsDropped(p: Poll, yes: int, no: int)
    requires yes + no <= 0
    ensures NonEmpty(Candidates(p, yes, no)) == NonEmpty(Headers(p))
  {
    assert Candidates(p, yes, no) == Headers(p) + ["", ""];
    NonEmptyAppend(Headers(p), ["", ""]);
  }

  /** The bars appear exactly when somebody has voted, after the
      non-empty headers, YES before NO. */
  lemma CardShape(p: Poll, yes: int, no: int)
    ensures CardLines(p, yes, no) ==
            NonEmpty(Headers(p)) + (if yes + no > 0 then [YesLine(p, yes, no), NoLine(p, yes, no)] else [])
  {
    assert CardLines(p, yes, no) == NonEmpty(Candidates(p, yes, no));
    if yes + no > 0 {
      BarsKept(p, yes, no);
    } else {
      BarsDropped(p, yes, no);
    }
  }

  /** A fresh card (no votes) shows the headers and nothing else. */
  lemma FreshCard(p: Poll)
    ensures CardLines(p, 0, 0) == NonEmpty(Headers(p))
    ensures |CardLines(p, 0, 0)| <= 3
  {
    CardShape(p, 0, 0);
  }

  /** With votes the card has the non-empty headers plus two bar lines. */
  lemma VotedCard(p: Poll, yes: int, no: int)
    requires yes + no > 0
    ensures |CardLines(p, yes, no)| == |NonEmpty(Headers(p))| + 2
    ensures CardLines(p, yes, no)[|CardLines(p, yes, no)| - 2] == YesLine(p, yes, no)
    ensures CardLines(p, yes, no)[|CardLines(p, yes, no)| - 1] == NoLine(p, yes, no)
  {
    CardShape(p, yes, no);
  }

  // ---------------------------------------------------------------------
  // Keyboards
  // ---------------------------------------------------------------------

  datatype Button = Button(text: string, data: string)

  type Keyboard = seq<seq<Button>>

  function ResultsButton(pollId: string): Button {
    Button("Результаты / Ergebnisse", RsvpData(ShowResults, pollId))
  }

  /** `rsvpKeyboard`: YES and NO with their counts, then the results
      button. */
  function VoteKeyboard(pollId: string, yes: int, no: int): (kb: Keyboard)
    ensures |kb| == 2 && |kb[0]| == 2 && kb[1] == [ResultsButton(pollId)]
  {
    [[Button("Да / Ja (" + IntToString(yes) + ")", RsvpData(VoteYes, pollId)),
      Button("Нет / Nein (" + IntToString(no) + ")", RsvpData(VoteNo, pollId))],
     [ResultsButton(pollId)]]
  }

  /** `rsvpKeyboardResultsOnly_`. */
  function ResultsOnlyKeyboard(pollId: string): (kb: Keyboard)
    ensures |kb| == 1 && kb[0] == [ResultsButton(pollId)]
  {
    [[ResultsButton(pollId)]]
  }

  /** Can a keyboard cast a vote? */
  predicate HasVoteButton(kb: Keyboard) {
    exists r, c :: 0 <= r < |kb| && 0 <= c < |kb[r]| && ParseRsvp(kb[r][c].data).Some? && ParseRsvp(kb[r][c].data).value.0 != ShowResults
  }

  /** The results-only keyboard cannot cast a vote, whatever the id. */
  lemma ResultsOnlyCannotVote(pollId: string)
    ensures !HasVoteButton(ResultsOnlyKeyboard(pollId))
  {
    RsvpRoundTrip(ShowResults, pollId);
    var kb: Keyboard := ResultsOnlyKeyboard(pollId);
    assert kb[0][0].data == RsvpData(ShowResults, pollId);
  }

  /** The vote keyboard's buttons dispatch to YES, NO and results for this
      poll; the results-only keyboard cannot cast a vote. */
  lemma KeyboardActions(pollId: string, yes: int, no: int)
    requires PollIdShape(pollId)
    ensures var kb := VoteKeyboard(pollId, yes, no);
            && Decode(kb[0][0].data) == Some(RsvpPress(VoteYes, pollId))
            && Decode(kb[0][1].data) == Some(RsvpPress(VoteNo, pollId))
            && Decode(kb[1][0].data) == Some(RsvpPress(ShowResults, pollId))
    ensures HasVoteButton(VoteKeyboard(pollId, yes, no))
    ensures !HasVoteButton(ResultsOnlyKeyboard(pollId))
  {
    DecodeEncode(RsvpPress(VoteYes, pollId));
    DecodeEncode(RsvpPress(VoteNo, pollId));
    DecodeEncode(RsvpPress(ShowResults, pollId));
    AlnumPlain(pollId);
    RsvpRoundTrip(VoteYes, pollId);
    ResultsOnlyCannotVote(pollId);
    var kb: Keyboard := VoteKeyboard(pollId, yes, no);
    assert ParseRsvp(kb[0][0].data) == Some((VoteYes, pollId));
  }
}
