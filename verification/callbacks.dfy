/**
 * Inline-button callback data: the strings the keyboards put on buttons
 * and the regular expressions the callback handler matches them with.
 * Each parser comes with a predicate saying when its regular expression
 * matches, and the encoders round-trip through the parsers for the ids
 * the bot produces (Firestore auto-ids for polls, decimal Telegram ids for
 * users).
 */
module Callbacks {

  import opened Base
  import opened Strings

  // ---------------------------------------------------------------------
  // Regular-expression building blocks
  // ---------------------------------------------------------------------

  /** `(.+)`: at least one character, none of them a line terminator. */
  predicate DotPlus(s: string) {
    s != [] && NoLineTerminator(s)
  }

  /** `(\d+)`. */
  predicate DigitPlus(s: string) {
    s != [] && AllDigits(s)
  }

  /** `[A-Za-z0-9]`. */
  predicate IsAlnum(c: char) {
    ('A' <= c <= 'Z') || ('a' <= c <= 'z') || IsDigit(c)
  }

  /** A Firestore auto-id: a non-empty run of letters and digits. */
  predicate PollIdShape(s: string) {
    s != [] && forall i :: 0 <= i < |s| ==> IsAlnum(s[i])
  }

  /** A Telegram user id as a string: decimal digits. */
  predicate UserIdShape(s: string) {
    DigitPlus(s)
  }

  /** The rest of `s` after the literal prefix `pre`, if `s` starts with it. */
  function After(s: string, pre: string): (r: Option<string>)
    ensures r.Some? <==> |pre| <= |s| && s[..|pre|] == pre
    ensures r.Some? ==> s == pre + r.value
  {
    if |pre| <= |s| && s[..|pre|] == pre then Some(s[|pre|..]) else None
  }

  lemma AfterConcat(pre: string, x: string)
    ensures After(pre + x, pre) == Some(x)
  {
    assert (pre + x)[..|pre|] == pre;
  }

  /** A string that differs from `pre` at position `k` does not start with
      it. */
  lemma AfterMismatch(s: string, pre: string, k: nat)
    requires k < |pre| && k < |s| && s[k] != pre[k]
    ensures After(s, pre) == None
  {
    if |pre| <= |s| {
      assert s[..|pre|][k] == s[k];
    }
  }

  /** The last position of `c` in `s`. */
  function LastIndexOf(s: string, c: char): (i: nat)
    requires c in s
    ensures i < |s| && s[i] == c
    ensures forall j :: i < j < |s| ==> s[j] != c
  {
    if s[|s| - 1] == c then |s| - 1 else LastIndexOf(s[..|s| - 1], c)
  }

  predicate NoUnderscore(s: string) {
    forall i :: 0 <= i < |s| ==> s[i] != '_'
  }

  lemma AlnumPlain(s: string)
    requires PollIdShape(s)
    ensures DotPlus(s) && NoUnderscore(s)
  {
  }

  lemma DigitsPlain(s: string)
    requires DigitPlus(s)
    ensures DotPlus(s) && NoUnderscore(s) && PollIdShape(s)
  {
  }

  /** The last underscore of `x + "_" + d` is the one added, when `d` has
      none. */
  lemma LastUnderscore(x: string, d: string)
    requires NoUnderscore(d)
    ensures LastIndexOf(x + "_" + d, '_') == |x|
  {
    var a := x + "_";
    assert a[|x|] == '_';
    UnderscoreFreeTail(a, d);
    assert x + "_" + d == a + d;
    LastIndexAtLeast(a + d, '_', |x|);
  }

  /** An underscore-free tail adds no underscore after its start. */
  lemma UnderscoreFreeTail(a: string, d: string)
    requires NoUnderscore(d)
    ensures forall j :: |a| <= j < |a + d| ==> (a + d)[j] != '_'
  {
  }

  /** The last occurrence is at or after any occurrence. */
  lemma LastIndexAtLeast(s: string, c: char, k: nat)
    requires k < |s| && s[k] == c
    ensures LastIndexOf(s, c) >= k
  {
  }

  // ---------------------------------------------------------------------
  // `^<prefix>(.+)_(\d+)$`
  // ---------------------------------------------------------------------

  /** The greedy `(.+)_(\d+)` on the text after a prefix: the id ends at
      the last underscore. */
  predicate IdPageMatch(t: string, id: string, digits: string) {
    t == id + "_" + digits && DotPlus(id) && DigitPlus(digits)
  }

  /** The two groups of `(.+)_(\d+)`, if it matches. */
  function IdPage(t: string): (r: Option<(string, string)>)
    ensures r.Some? ==> IdPageMatch(t, r.value.0, r.value.1)
  {
    if '_' !in t then None
    else
      var l := LastIndexOf(t, '_');
      if DotPlus(t[..l]) && DigitPlus(t[l + 1..]) then
        assert t == t[..l] + "_" + t[l + 1..];
        Some((t[..l], t[l + 1..]))
      else None
  }

  /** The pattern matches in one way only, and `IdPage` finds it. */
  lemma IdPageComplete(t: string, id: string, digits: string)
    requires IdPageMatch(t, id, digits)
    ensures IdPage(t) == Some((id, digits))
  {
    LastUnderscore(id, digits);
    assert t[..|id|] == id;
    assert t[|id| + 1..] == digits;
  }

  // ---------------------------------------------------------------------
  // `^rsvp_(yes|no|results)_(.+)$`
  // ---------------------------------------------------------------------

  datatype RsvpAction = VoteYes | VoteNo | ShowResults

  function ActionWord(a: RsvpAction): string {
    match a
    case VoteYes => "yes"
    case VoteNo => "no"
    case ShowResults => "results"
  }

  /** `rsvp_<yes|no|results>_<pollId>`. */
  function RsvpData(a: RsvpAction, pollId: string): string {
    "rsvp_" + ActionWord(a) + "_" + pollId
  }

  function ParseRsvpRest(t: string): (r: Option<(RsvpAction, string)>)
    ensures r.Some? ==> t == ActionWord(r.value.0) + "_" + r.value.1 && DotPlus(r.value.1)
  {
    match After(t, "yes_")
    case Some(id) => if DotPlus(id) then Some((VoteYes, id)) else None
    case None =>
      match After(t, "no_")
      case Some(id) => if DotPlus(id) then Some((VoteNo, id)) else None
      case None =>
        match After(t, "results_")
        case Some(id) => if DotPlus(id) then Some((ShowResults, id)) else None
        case None => None
  }

  /** The action and poll id of an rsvp button, if the pattern matches. */
  function ParseRsvp(data: string): (r: Option<(RsvpAction, string)>)
    ensures r.Some? ==> data == RsvpData(r.value.0, r.value.1) && DotPlus(r.value.1)
  {
    match After(data, "rsvp_")
    case None => None
    case Some(t) => ParseRsvpRest(t)
  }

  /** The rsvp pattern matches exactly the encodings of a non-empty poll id
      without line terminators, and gives back action and id. */
  lemma RsvpRoundTrip(a: RsvpAction, pollId: string)
    ensures ParseRsvp(RsvpData(a, pollId)) == (if DotPlus(pollId) then Some((a, pollId)) else None)
  {
    var t := ActionWord(a) + "_" + pollId;
    assert RsvpData(a, pollId) == "rsvp_" + t;
    AfterConcat("rsvp_", t);
    match a
    case VoteYes => RsvpRestYes(pollId);
    case VoteNo => RsvpRestNo(pollId);
    case ShowResults => RsvpRestResults(pollId);
  }

  lemma RsvpRestYes(id: string)
    ensures ParseRsvpRest("yes" + "_" + id) == (if DotPlus(id) then Some((VoteYes, id)) else None)
  {
    AfterConcat("yes_", id);
  }

  lemma RsvpRestNo(id: string)
    ensures ParseRsvpRest("no" + "_" + id) == (if DotPlus(id) then Some((VoteNo, id)) else None)
  {
    AfterMismatch("no" + "_" + id, "yes_", 0);
    AfterConcat("no_", id);
  }

  lemma RsvpRestResults(id: string)
    ensures ParseRsvpRest("results" + "_" + id) == (if DotPlus(id) then Some((ShowResults, id)) else None)
  {
    var t := "results" + "_" + id;
    AfterMismatch(t, "yes_", 0);
    AfterMismatch(t, "no_", 0);
    AfterConcat("results_", id);
  }

  // ---------------------------------------------------------------------
  // `^res_([A-Za-z0-9]+)_(YES|NO)_(\d+)$`
  // ---------------------------------------------------------------------

  datatype Tab = TabYes | TabNo

  function TabWord(tab: Tab): string {
    if tab == TabYes then "YES" else "NO"
  }

  /** `res_<pollId>_<YES|NO>_<page>`. */
  function ResData(pollId: string, tab: Tab, page: nat): string {
    "res_" + pollId + "_" + TabWord(tab) + "_" + NatToString(page)
  }

  predicate ResMatch(data: string, pollId: string, tab: Tab, digits: string) {
    data == "res_" + pollId + "_" + TabWord(tab) + "_" + digits && PollIdShape(pollId) && DigitPlus(digits)
  }

  function ParseTabPage(u: string): (r: Option<(Tab, string)>)
    ensures r.Some? ==> u == TabWord(r.value.0) + "_" + r.value.1 && DigitPlus(r.value.1)
  {
    match After(u, "YES_")
    case Some(d) => if DigitPlus(d) then Some((TabYes, d)) else None
    case None =>
      match After(u, "NO_")
      case Some(d) => if DigitPlus(d) then Some((TabNo, d)) else None
      case None => None
  }

  /** The three groups of the results pattern, if it matches. */
  function ParseRes(data: string): (r: Option<(string, Tab, string)>)
    ensures r.Some? ==> ResMatch(data, r.value.0, r.value.1, r.value.2)
  {
    match After(data, "res_")
    case None => None
    case Some(t) =>
      var r := ParseResRest(t);
      if r.None? then None
      else
        ResJoin(data, t, r.value.0, TabWord(r.value.1), r.value.2);
        r
  }

  /** The text after `res_`: the poll id ends at the first underscore. */
  function ParseResRest(t: string): (r: Option<(string, Tab, string)>)
    ensures r.Some? ==> t == r.value.0 + "_" + TabWord(r.value.1) + "_" + r.value.2
    ensures r.Some? ==> PollIdShape(r.value.0) && DigitPlus(r.value.2)
  {
    if '_' !in t then None
    else
      var i := IndexOf(t, '_');
      assert t == t[..i] + "_" + t[i + 1..];
      ResSplit(t[..i], t[i + 1..])
  }

  /** The poll id and the tab-and-page part either side of the first
      underscore. */
  function ResSplit(id: string, u: string): (r: Option<(string, Tab, string)>)
    ensures r.Some? ==> id + "_" + u == r.value.0 + "_" + TabWord(r.value.1) + "_" + r.value.2
    ensures r.Some? ==> PollIdShape(r.value.0) && DigitPlus(r.value.2)
  {
    if !PollIdShape(id) then None
    else
      match ParseTabPage(u)
      case None => None
      case Some(tp) =>
        Assoc(id + "_", TabWord(tp.0), "_" + tp.1);
        Assoc(id + "_" + TabWord(tp.0), "_", tp.1);
        Some((id, tp.0, tp.1))
  }

  lemma Assoc(a: string, b: string, c: string)
    ensures a + (b + c) == a + b + c
  {
  }

  /** The pieces the results parser takes apart put back together. */
  lemma ResJoin(data: string, t: string, id: string, w: string, d: string)
    requires data == "res_" + t && t == id + "_" + w + "_" + d
    ensures data == "res_" + id + "_" + w + "_" + d
  {
    Assoc("res_", id + "_" + w + "_", d);
    Assoc("res_", id + "_" + w, "_");
    Assoc("res_", id + "_", w);
    Assoc("res_", id, "_");
  }

  lemma TabPageComplete(tab: Tab, d: string)
    requires DigitPlus(d)
    ensures ParseTabPage(TabWord(tab) + "_" + d) == Some((tab, d))
  {
    var u := TabWord(tab) + "_" + d;
    if tab == TabYes {
      AfterConcat("YES_", d);
    } else {
      AfterMismatch(u, "YES_", 0);
      AfterConcat("NO_", d);
    }
  }

  /** The first underscore of `id + "_" + u` is the one added, when `id`
      has none. */
  lemma FirstUnderscore(id: string, u: string)
    requires NoUnderscore(id)
    ensures '_' in id + "_" + u && IndexOf(id + "_" + u, '_') == |id|
  {
    var t := id + "_" + u;
    assert t[|id|] == '_';
    assert forall j :: 0 <= j < |id| ==> t[j] == id[j];
  }

  /** When the poll id has no underscore, the first one is the
      separator after it. */
  lemma ResRestSplit(id: string, u: string)
    requires NoUnderscore(id)
    ensures ParseResRest(id + "_" + u) == ResSplit(id, u)
  {
    var t := id + "_" + u;
    FirstUnderscore(id, u);
    assert t[..|id|] == id && t[|id| + 1..] == u;
  }

  /** The results pattern matches in one way only, and `ParseRes` finds
      it. */
  lemma ResComplete(data: string, pollId: string, tab: Tab, digits: string)
    requires ResMatch(data, pollId, tab, digits)
    ensures ParseRes(data) == Some((pollId, tab, digits))
  {
    var u := TabWord(tab) + "_" + digits;
    var t := pollId + "_" + u;
    Assoc(pollId + "_", TabWord(tab), "_" + digits);
    Assoc(pollId + "_" + TabWord(tab), "_", digits);
    ResJoin(data, t, pollId, TabWord(tab), digits);
    assert data == "res_" + t;
    AfterConcat("res_", t);
    AlnumPlain(pollId);
    ResRestSplit(pollId, u);
    TabPageComplete(tab, digits);
  }

  /** Results buttons come back as the poll, tab and page they encode. */
  lemma ResRoundTrip(pollId: string, tab: Tab, page: nat)
    requires PollIdShape(pollId)
    ensures ParseRes(ResData(pollId, tab, page)) == Some((pollId, tab, NatToString(page)))
    ensures DigitsValue(NatToString(page)) == page
  {
    ResComplete(ResData(pollId, tab, page), pollId, tab, NatToString(page));
  }

  /** An id with an underscore cannot come back through the results
      pattern. */
  lemma ResUnderscoreId(tab: Tab, page: nat)
    ensures ParseRes(ResData("a_b", tab, page)) == None
  {
    var rest := "b" + "_" + TabWord(tab) + "_" + NatToString(page);
    var t := "a" + "_" + rest;
    assert ResData("a_b", tab, page) == "res_" + t;
    AfterConcat("res_", t);
    ResRestSplit("a", rest);
    AfterMismatch(rest, "YES_", 0);
    AfterMismatch(rest, "NO_", 0);
  }

  // ---------------------------------------------------------------------
  // `^ci_t_(.+)_(.+)_(\d+)$`
  // ---------------------------------------------------------------------

  /** `ci_t_<pollId>_<userId>_<page>`. */
  function ToggleData(pollId: string, uid: string, page: nat): string {
    "ci_t_" + pollId + "_" + uid + "_" + NatToString(page)
  }

  predicate ToggleMatch(t: string, a: string, b: string, d: string) {
    t == a + "_" + b + "_" + d && DotPlus(a) && DotPlus(b) && DigitPlus(d)
  }

  /** The greedy split of the text after `ci_t_`: the page follows the last
      underscore and the first group ends at the last underscore before
      the second group's last character. */
  function ParseToggleRest(t: string): (r: Option<(string, string, string)>)
    ensures r.Some? ==> ToggleMatch(t, r.value.0, r.value.1, r.value.2)
  {
    if '_' !in t then None
    else
      var l := LastIndexOf(t, '_');
      assert t == t[..l] + "_" + t[l + 1..];
      SplitToggle(t[..l], t[l + 1..])
  }

  /** The split of the part before the last underscore into the two
      groups, given the page after it. */
  function SplitToggle(h: string, d: string): (r: Option<(string, string, string)>)
    ensures r.Some? ==> ToggleMatch(h + "_" + d, r.value.0, r.value.1, r.value.2)
  {
    if !(DigitPlus(d) && NoLineTerminator(h) && |h| >= 2 && '_' in h[..|h| - 1]) then None
    else
      var i := LastIndexOf(h[..|h| - 1], '_');
      if i == 0 then None
      else
        assert h == h[..i] + "_" + h[i + 1..];
        Some((h[..i], h[i + 1..], d))
  }

  /** When the page has no underscore, the last one is the separator in
      front of it. */
  lemma ParseToggleRestSplit(h: string, d: string)
    requires NoUnderscore(d)
    ensures ParseToggleRest(h + "_" + d) == SplitToggle(h, d)
  {
    var t := h + "_" + d;
    LastUnderscore(h, d);
    assert t[..|h|] == h && t[|h| + 1..] == d;
  }

  /** The three groups of the toggle pattern, if it matches. */
  function ParseToggle(data: string): (r: Option<(string, string, string)>)
    ensures r.Some? ==> data == "ci_t_" + r.value.0 + "_" + r.value.1 + "_" + r.value.2
    ensures r.Some? ==> ToggleMatch(data[5..], r.value.0, r.value.1, r.value.2)
  {
    match After(data, "ci_t_")
    case None => None
    case Some(t) => ParseToggleRest(t)
  }

  /** Whenever the toggle pattern matches, the parser finds a match with
      the same page and the longest first group, as the greedy regular
      expression does. */
  lemma ToggleComplete(t: string, a: string, b: string, d: string)
    requires ToggleMatch(t, a, b, d)
    ensures ParseToggleRest(t).Some?
    ensures |ParseToggleRest(t).value.0| >= |a|
    ensures ParseToggleRest(t).value.2 == d
  {
    var h := a + "_" + b;
    assert t == h + "_" + d;
    DigitsPlain(d);
    ParseToggleRestSplit(h, d);
    assert NoLineTerminator(h);
    assert h[|a|] == '_';
    SplitToggleAtLeast(h, d, |a|);
  }

  /** An underscore at `k`, before the last character of `h`, bounds the
      first group from below. */
  lemma SplitToggleAtLeast(h: string, d: string, k: nat)
    requires DigitPlus(d) && NoLineTerminator(h)
    requires 0 < k < |h| - 1 && h[k] == '_'
    ensures SplitToggle(h, d).Some?
    ensures |SplitToggle(h, d).value.0| >= k
    ensures SplitToggle(h, d).value.2 == d
  {
    var hh := h[..|h| - 1];
    assert hh[k] == '_';
    LastIndexAtLeast(hh, '_', k);
  }

  /** The parser on `h + "_" + d` with a page `d`, once the last
      underscore of `h` before its last character is known. */
  lemma ToggleRestAt(h: string, d: string, i: nat)
    requires DigitPlus(d) && NoLineTerminator(h) && |h| >= 2
    requires '_' in h[..|h| - 1] && LastIndexOf(h[..|h| - 1], '_') == i && i != 0
    ensures ParseToggleRest(h + "_" + d) == Some((h[..i], h[i + 1..], d))
  {
    DigitsPlain(d);
    ParseToggleRestSplit(h, d);
  }

  /** When the user id has no underscore the toggle pattern splits as
      it was built. */
  lemma ToggleRestExact(pollId: string, uid: string, d: string)
    requires DotPlus(pollId) && DotPlus(uid) && NoUnderscore(uid) && DigitPlus(d)
    ensures ParseToggleRest(pollId + "_" + uid + "_" + d) == Some((pollId, uid, d))
  {
    var h := pollId + "_" + uid;
    assert NoLineTerminator(h);
    var hh := h[..|h| - 1];
    assert hh == pollId + "_" + uid[..|uid| - 1];
    assert hh[|pollId|] == '_';
    LastUnderscore(pollId, uid[..|uid| - 1]);
    ToggleRestAt(h, d, |pollId|);
    assert h[..|pollId|] == pollId && h[|pollId| + 1..] == uid;
    assert pollId + "_" + uid + "_" + d == h + "_" + d;
  }

  /** Encoding and parsing a toggle agree when the user id has no
      underscore (Telegram ids are digits). */
  lemma ToggleRoundTrip(pollId: string, uid: string, page: nat)
    requires DotPlus(pollId) && DotPlus(uid) && NoUnderscore(uid)
    ensures ParseToggle(ToggleData(pollId, uid, page)) == Some((pollId, uid, NatToString(page)))
  {
    var t := pollId + "_" + uid + "_" + NatToString(page);
    assert ToggleData(pollId, uid, page) == "ci_t_" + t;
    AfterConcat("ci_t_", t);
    ToggleRestExact(pollId, uid, NatToString(page));
  }

  /** With an underscore in the user id the greedy first group swallows
      part of it. */
  lemma ToggleUnderscoreUser()
    ensures ParseToggle(ToggleData("a", "b_c", 0)) == Some(("a_b", "c", "0"))
  {
    var h := "a_b" + "_" + "c";
    var t := h + "_" + "0";
    assert ToggleData("a", "b_c", 0) == "ci_t_" + t;
    AfterConcat("ci_t_", t);
    assert h[..|h| - 1] == "a_b" + "_" + "";
    LastUnderscore("a_b", "");
    assert NoLineTerminator(h);
    ToggleRestAt(h, "0", 3);
    assert h[..3] == "a_b" && h[4..] == "c";
  }

  // ---------------------------------------------------------------------
  // The dispatcher
  // ---------------------------------------------------------------------

  /** The buttons whose data the handler parses with a pattern. */
  datatype Callback =
    | RsvpPress(action: RsvpAction, pollId: string)
    | ResultsPage(pollId: string, tab: Tab, page: nat)
    | CiPage(page: nat)
    | CiPick(pollId: string)
    | CiPeople(pollId: string, page: nat)
    | CiToggle(pollId: string, uid: string, page: nat)
    | CiAll(pollId: string, page: nat)
    | CiNone(pollId: string, page: nat)
    | CiDone(pollId: string)
    | EvpPage(page: nat)

  /** The data the keyboards put on each button. */
  function Encode(cb: Callback): string {
    match cb
    case RsvpPress(a, id) => RsvpData(a, id)
    case ResultsPage(id, tab, p) => ResData(id, tab, p)
    case CiPage(p) => "ci_page_" + NatToString(p)
    case CiPick(id) => "ci_pick_" + id
    case CiPeople(id, p) => "ci_people_" + id + "_" + NatToString(p)
    case CiToggle(id, u, p) => ToggleData(id, u, p)
    case CiAll(id, p) => "ci_all_" + id + "_" + NatToString(p)
    case CiNone(id, p) => "ci_none_" + id + "_" + NatToString(p)
    case CiDone(id) => "ci_done_" + id
    case EvpPage(p) => "evp_page_" + NatToString(p)
  }

  /** Poll ids are Firestore auto-ids and user ids are decimal. */
  predicate WellFormed(cb: Callback) {
    match cb
    case CiPage(_) => true
    case EvpPage(_) => true
    case CiToggle(id, u, _) => PollIdShape(id) && UserIdShape(u)
    case _ => PollIdShape(cb.pollId)
  }

  /** `^<pre>(.+)$`. */
  function DotAfter(data: string, pre: string): (r: Option<string>)
    ensures r.Some? ==> data == pre + r.value && DotPlus(r.value)
  {
    match After(data, pre)
    case Some(t) => if DotPlus(t) then Some(t) else None
    case None => None
  }

  /** `^<pre>(\d+)$`, read as a number. */
  function DigitsAfter(data: string, pre: string): (r: Option<nat>)
    ensures r.Some? ==> exists d :: data == pre + d && DigitPlus(d) && DigitsValue(d) == r.value
  {
    match After(data, pre)
    case Some(t) => if DigitPlus(t) then Some(DigitsValue(t)) else None
    case None => None
  }

  /** `^<pre>(.+)_(\d+)$`, the page read as a number. */
  function IdPageAfter(data: string, pre: string): (r: Option<(string, nat)>)
    ensures r.Some? ==> exists d :: data == pre + r.value.0 + "_" + d && DotPlus(r.value.0) && DigitPlus(d) && DigitsValue(d) == r.value.1
  {
    match After(data, pre)
    case Some(t) =>
      (match IdPage(t)
       case Some(g) => Some((g.0, DigitsValue(g.1)))
       case None => None)
    case None => None
  }

  /** The callback handler's patterns in the order it tries them. */
  function Decode(data: string): Option<Callback> {
    var res := ParseRes(data);
    var tog := ParseToggle(data);
    var rsvp := ParseRsvp(data);
    if res.Some? then Some(ResultsPage(res.value.0, res.value.1, DigitsValue(res.value.2)))
    else if DigitsAfter(data, "ci_page_").Some? then Some(CiPage(DigitsAfter(data, "ci_page_").value))
    else if DotAfter(data, "ci_pick_").Some? then Some(CiPick(DotAfter(data, "ci_pick_").value))
    else if IdPageAfter(data, "ci_people_").Some? then
      Some(CiPeople(IdPageAfter(data, "ci_people_").value.0, IdPageAfter(data, "ci_people_").value.1))
    else if tog.Some? then Some(CiToggle(tog.value.0, tog.value.1, DigitsValue(tog.value.2)))
    else if IdPageAfter(data, "ci_all_").Some? then
      Some(CiAll(IdPageAfter(data, "ci_all_").value.0, IdPageAfter(data, "ci_all_").value.1))
    else if IdPageAfter(data, "ci_none_").Some? then
      Some(CiNone(IdPageAfter(data, "ci_none_").value.0, IdPageAfter(data, "ci_none_").value.1))
    else if DotAfter(data, "ci_done_").Some? then Some(CiDone(DotAfter(data, "ci_done_").value))
    else if DigitsAfter(data, "evp_page_").Some? then Some(EvpPage(DigitsAfter(data, "evp_page_").value))
    else if rsvp.Some? then Some(RsvpPress(rsvp.value.0, rsvp.value.1))
    else None
  }

  /** Two literal prefixes that differ at position `k` never both start a
      string. */
  lemma Miss(pre: string, x: string, other: string, k: nat)
    requires k < |pre| && k < |other| && pre[k] != other[k]
    ensures After(pre + x, other) == None
  {
    AfterMismatch(pre + x, other, k);
  }

  lemma DotAfterConcat(pre: string, x: string)
    requires DotPlus(x)
    ensures DotAfter(pre + x, pre) == Some(x)
  {
    AfterConcat(pre, x);
  }

  lemma DigitsAfterConcat(pre: string, p: nat)
    ensures DigitsAfter(pre + NatToString(p), pre) == Some(p)
  {
    AfterConcat(pre, NatToString(p));
  }

  lemma IdPageAfterConcat(pre: string, id: string, p: nat)
    requires DotPlus(id)
    ensures IdPageAfter(pre + id + "_" + NatToString(p), pre) == Some((id, p))
  {
    var t := id + "_" + NatToString(p);
    assert pre + id + "_" + NatToString(p) == pre + t;
    AfterConcat(pre, t);
    IdPageComplete(t, id, NatToString(p));
  }

  lemma DecodeRsvpPress(a: RsvpAction, id: string)
    requires PollIdShape(id)
    ensures Decode(Encode(RsvpPress(a, id))) == Some(RsvpPress(a, id))
  {
    var data := Encode(RsvpPress(a, id));
    var t := ActionWord(a) + "_" + id;
    assert data == "rsvp_" + t;
    AlnumPlain(id);
    RsvpRoundTrip(a, id);
    Miss("rsvp_", t, "res_", 1);
    Miss("rsvp_", t, "ci_t_", 0);
    Miss("rsvp_", t, "ci_page_", 0);
    Miss("rsvp_", t, "ci_pick_", 0);
    Miss("rsvp_", t, "ci_people_", 0);
    Miss("rsvp_", t, "ci_all_", 0);
    Miss("rsvp_", t, "ci_none_", 0);
    Miss("rsvp_", t, "ci_done_", 0);
    Miss("rsvp_", t, "evp_page_", 0);
  }

  lemma DecodeResultsPage(id: string, tab: Tab, p: nat)
    requires PollIdShape(id)
    ensures Decode(Encode(ResultsPage(id, tab, p))) == Some(ResultsPage(id, tab, p))
  {
    var data := Encode(ResultsPage(id, tab, p));
    ResRoundTrip(id, tab, p);
  }

  lemma DecodeCiPage(p: nat)
    ensures Decode(Encode(CiPage(p))) == Some(CiPage(p))
  {
    var data := Encode(CiPage(p));
    Miss("ci_page_", NatToString(p), "res_", 0);
    DigitsAfterConcat("ci_page_", p);
  }

  lemma DecodeCiPick(id: string)
    requires PollIdShape(id)
    ensures Decode(Encode(CiPick(id))) == Some(CiPick(id))
  {
    var data := Encode(CiPick(id));
    AlnumPlain(id);
    Miss("ci_pick_", id, "res_", 0);
    Miss("ci_pick_", id, "ci_page_", 4);
    DotAfterConcat("ci_pick_", id);
  }

  lemma DecodeCiPeople(id: string, p: nat)
    requires PollIdShape(id)
    ensures Decode(Encode(CiPeople(id, p))) == Some(CiPeople(id, p))
  {
    var data := Encode(CiPeople(id, p));
    AlnumPlain(id);
    var x := id + "_" + NatToString(p);
    assert data == "ci_people_" + x;
    Miss("ci_people_", x, "res_", 0);
    Miss("ci_people_", x, "ci_page_", 4);
    Miss("ci_people_", x, "ci_pick_", 4);
    IdPageAfterConcat("ci_people_", id, p);
  }

  lemma DecodeCiToggle(id: string, u: string, p: nat)
    requires PollIdShape(id) && UserIdShape(u)
    ensures Decode(Encode(CiToggle(id, u, p))) == Some(CiToggle(id, u, p))
  {
    var data := Encode(CiToggle(id, u, p));
    AlnumPlain(id);
    DigitsPlain(u);
    var x := id + "_" + u + "_" + NatToString(p);
    assert data == "ci_t_" + x;
    Miss("ci_t_", x, "res_", 0);
    Miss("ci_t_", x, "ci_page_", 3);
    Miss("ci_t_", x, "ci_pick_", 3);
    Miss("ci_t_", x, "ci_people_", 3);
    ToggleRoundTrip(id, u, p);
  }

  lemma DecodeCiAll(id: string, p: nat)
    requires PollIdShape(id)
    ensures Decode(Encode(CiAll(id, p))) == Some(CiAll(id, p))
  {
    var data := Encode(CiAll(id, p));
    AlnumPlain(id);
    var x := id + "_" + NatToString(p);
    assert data == "ci_all_" + x;
    Miss("ci_all_", x, "res_", 0);
    Miss("ci_all_", x, "ci_page_", 3);
    Miss("ci_all_", x, "ci_pick_", 3);
    Miss("ci_all_", x, "ci_people_", 3);
    Miss("ci_all_", x, "ci_t_", 3);
    IdPageAfterConcat("ci_all_", id, p);
  }

  lemma DecodeCiNone(id: string, p: nat)
    requires PollIdShape(id)
    ensures Decode(Encode(CiNone(id, p))) == Some(CiNone(id, p))
  {
    var data := Encode(CiNone(id, p));
    AlnumPlain(id);
    var x := id + "_" + NatToString(p);
    assert data == "ci_none_" + x;
    Miss("ci_none_", x, "res_", 0);
    Miss("ci_none_", x, "ci_page_", 3);
    Miss("ci_none_", x, "ci_pick_", 3);
    Miss("ci_none_", x, "ci_people_", 3);
    Miss("ci_none_", x, "ci_t_", 3);
    Miss("ci_none_", x, "ci_all_", 3);
    IdPageAfterConcat("ci_none_", id, p);
  }

  lemma DecodeCiDone(id: string)
    requires PollIdShape(id)
    ensures Decode(Encode(CiDone(id))) == Some(CiDone(id))
  {
    var data := Encode(CiDone(id));
    AlnumPlain(id);
    Miss("ci_done_", id, "res_", 0);
    Miss("ci_done_", id, "ci_page_", 3);
    Miss("ci_done_", id, "ci_pick_", 3);
    Miss("ci_done_", id, "ci_people_", 3);
    Miss("ci_done_", id, "ci_t_", 3);
    Miss("ci_done_", id, "ci_all_", 3);
    Miss("ci_done_", id, "ci_none_", 3);
    DecodeAfterCheckin(data);
    DotAfterConcat("ci_done_", id);
  }

  lemma DecodeEvpPage(p: nat)
    ensures Decode(Encode(EvpPage(p))) == Some(EvpPage(p))
  {
    var data := Encode(EvpPage(p));
    var x := NatToString(p);
    Miss("evp_page_", x, "res_", 0);
    Miss("evp_page_", x, "ci_t_", 0);
    Miss("evp_page_", x, "ci_page_", 0);
    Miss("evp_page_", x, "ci_pick_", 0);
    Miss("evp_page_", x, "ci_people_", 0);
    Miss("evp_page_", x, "ci_all_", 0);
    Miss("evp_page_", x, "ci_none_", 0);
    Miss("evp_page_", x, "ci_done_", 0);
    DecodeAfterCheckin(data);
    DigitsAfterConcat("evp_page_", p);
  }

  /** When none of the check-in patterns matches, the events-page
      pattern is the next one tried. */
  lemma DecodeAfterCheckin(data: string)
    requires After(data, "res_") == None && After(data, "ci_page_") == None
    requires After(data, "ci_pick_") == None && After(data, "ci_people_") == None
    requires After(data, "ci_t_") == None && After(data, "ci_all_") == None
    requires After(data, "ci_none_") == None
    ensures Decode(data) ==
              if DotAfter(data, "ci_done_").Some? then Some(CiDone(DotAfter(data, "ci_done_").value))
              else if DigitsAfter(data, "evp_page_").Some? then Some(EvpPage(DigitsAfter(data, "evp_page_").value))
              else if ParseRsvp(data).Some? then Some(RsvpPress(ParseRsvp(data).value.0, ParseRsvp(data).value.1))
              else None
  {
    assert ParseRes(data) == None;
    assert ParseToggle(data) == None;
  }

  /** Every button the bot draws is dispatched back to itself. */
  lemma DecodeEncode(cb: Callback)
    requires WellFormed(cb)
    ensures Decode(Encode(cb)) == Some(cb)
  {
    match cb
    case RsvpPress(a, id) => DecodeRsvpPress(a, id);
    case ResultsPage(id, tab, p) => DecodeResultsPage(id, tab, p);
    case CiPage(p) => DecodeCiPage(p);
    case CiPick(id) => DecodeCiPick(id);
    case CiPeople(id, p) => DecodeCiPeople(id, p);
    case CiToggle(id, u, p) => DecodeCiToggle(id, u, p);
    case CiAll(id, p) => DecodeCiAll(id, p);
    case CiNone(id, p) => DecodeCiNone(id, p);
    case CiDone(id) => DecodeCiDone(id);
    case EvpPage(p) => DecodeEvpPage(p);
  }
}
