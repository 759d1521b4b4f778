/**
 * Text helpers for Telegram messages: HTML escaping of user text before it
 * goes into an HTML-formatted message, and the cut of a long text into
 * message-sized chunks.
 */
module Text {

  import opened Paging

  // ---------------------------------------------------------------------
  // `escHtml_`
  // ---------------------------------------------------------------------

  /** `s.replace(/c/g, rep)`. */
  function ReplaceAll(s: string, c: char, rep: string): (r: string)
    ensures c !in rep ==> c !in r
    ensures forall x :: x in r ==> x in s || x in rep
  {
    if s == [] then []
    else (if s[0] == c then rep else [s[0]]) + ReplaceAll(s[1..], c, rep)
  }

  /** `escHtml_`: ampersands first, then the angle brackets. */
  function EscHtml(s: string): string {
    ReplaceAll(ReplaceAll(ReplaceAll(s, '&', "&amp;"), '<', "&lt;"), '>', "&gt;")
  }

  /** The reference: each character on its own. */
  function EscChar(c: char): string {
    if c == '&' then "&amp;"
    else if c == '<' then "&lt;"
    else if c == '>' then "&gt;"
    else [c]
  }

  function EscRef(s: string): string {
    if s == [] then [] else EscChar(s[0]) + EscRef(s[1..])
  }

  lemma {:induction false} ReplaceAllAppend(a: string, b: string, c: char, rep: string)
    ensures ReplaceAll(a + b, c, rep) == ReplaceAll(a, c, rep) + ReplaceAll(b, c, rep)
    decreases |a|
  {
    if a != [] {
      var ab := a + b;
      assert ab[0] == a[0];
      assert ab[1..] == a[1..] + b;
      ReplaceAllAppend(a[1..], b, c, rep);
      var h := if a[0] == c then rep else [a[0]];
      var x, y := ReplaceAll(a[1..], c, rep), ReplaceAll(b, c, rep);
      assert ReplaceAll(ab, c, rep) == h + (x + y);
      assert ReplaceAll(a, c, rep) == h + x;
      assert h + (x + y) == (h + x) + y;
    } else {
      assert a + b == b;
    }
  }

  lemma ReplaceAllOne(x: char, c: char, rep: string)
    ensures ReplaceAll([x], c, rep) == if x == c then rep else [x]
  {
    assert [x][1..] == [];
  }

  lemma ReplaceAllAbsent(s: string, c: char, rep: string)
    requires c !in s
    ensures ReplaceAll(s, c, rep) == s
    decreases |s|
  {
    if s != [] {
      ReplaceAllAbsent(s[1..], c, rep);
    }
  }

  /** Escaping one character with the three passes in their order. */
  lemma EscHtmlChar(c: char)
    ensures EscHtml([c]) == EscChar(c)
  {
    ReplaceAllOne(c, '&', "&amp;");
    if c == '&' {
      EscHtmlAmp(c, ReplaceAll([c], '&', "&amp;"));
    } else {
      ReplaceAllOne(c, '<', "&lt;");
      if c == '<' {
        ReplaceAllAbsent(ReplaceAll([c], '<', "&lt;"), '>', "&gt;");
      } else {
        ReplaceAllOne(c, '>', "&gt;");
      }
    }
  }

  /** The entity the first pass writes survives the other two. */
  lemma EscHtmlAmp(c: char, s1: string)
    requires c == '&' && s1 == ReplaceAll([c], '&', "&amp;") && s1 == "&amp;"
    ensures EscHtml([c]) == s1
  {
    ReplaceAllAbsent(s1, '<', "&lt;");
    ReplaceAllAbsent(s1, '>', "&gt;");
  }

  lemma EscHtmlAppend(a: string, b: string)
    ensures EscHtml(a + b) == EscHtml(a) + EscHtml(b)
  {
    ReplaceAllAppend(a, b, '&', "&amp;");
    var a1, b1 := ReplaceAll(a, '&', "&amp;"), ReplaceAll(b, '&', "&amp;");
    ReplaceAllAppend(a1, b1, '<', "&lt;");
    ReplaceAllAppend(ReplaceAll(a1, '<', "&lt;"), ReplaceAll(b1, '<', "&lt;"), '>', "&gt;");
  }

  /** The three global replacements, ampersands first, escape every
      character on its own: no entity the first pass writes is touched by
      the later ones. */
  lemma {:induction false} EscHtmlIsCharwise(s: string)
    ensures EscHtml(s) == EscRef(s)
    decreases |s|
  {
    if s != [] {
      assert s == [s[0]] + s[1..];
      EscHtmlAppend([s[0]], s[1..]);
      EscHtmlChar(s[0]);
      EscHtmlIsCharwise(s[1..]);
    }
  }

  /** Escaped text has no angle brackets left. */
  lemma EscHtmlNoTags(s: string)
    ensures '<' !in EscHtml(s) && '>' !in EscHtml(s)
  {
  }

  /** Text without the three special characters is left as it is. */
  lemma EscHtmlPlain(s: string)
    requires '&' !in s && '<' !in s && '>' !in s
    ensures EscHtml(s) == s
  {
    ReplaceAllAbsent(s, '&', "&amp;");
    ReplaceAllAbsent(s, '<', "&lt;");
    ReplaceAllAbsent(s, '>', "&gt;");
  }

  /** What a client shows for the escaped text: the three entities read
      back as their characters. */
  function Unescape(t: string): string
    decreases |t|
  {
    if t == [] then []
    else if |t| >= 5 && t[..5] == "&amp;" then "&" + Unescape(t[5..])
    else if |t| >= 4 && t[..4] == "&lt;" then "<" + Unescape(t[4..])
    else if |t| >= 4 && t[..4] == "&gt;" then ">" + Unescape(t[4..])
    else [t[0]] + Unescape(t[1..])
  }

  /** Reading back one of the three entities. */
  lemma UnescapeRef(ref: string, c: char, rest: string)
    requires (ref == "&amp;" && c == '&') || (ref == "&lt;" && c == '<') || (ref == "&gt;" && c == '>')
    ensures Unescape(ref + rest) == [c] + Unescape(rest)
  {
    var t := ref + rest;
    assert t[1] == ref[1];
    assert t[..|ref|] == ref && t[|ref|..] == rest;
  }

  lemma UnescapePlain(c: char, rest: string)
    requires c != '&'
    ensures Unescape([c] + rest) == [c] + Unescape(rest)
  {
    var t := [c] + rest;
    assert t[0] == c && t[1..] == rest;
  }

  /** Reading back one escaped character. */
  lemma UnescapeStep(c: char, rest: string)
    ensures Unescape(EscChar(c) + rest) == [c] + Unescape(rest)
  {
    if c == '&' || c == '<' || c == '>' {
      UnescapeRef(EscChar(c), c, rest);
    } else {
      UnescapePlain(c, rest);
    }
  }

  lemma {:induction false} UnescapeEscRef(s: string)
    ensures Unescape(EscRef(s)) == s
    decreases |s|
  {
    if s != [] {
      UnescapeStep(s[0], EscRef(s[1..]));
      UnescapeEscRef(s[1..]);
    }
  }

  /** The reader sees exactly the text that was escaped. */
  lemma UnescapeEscHtml(s: string)
    ensures Unescape(EscHtml(s)) == s
  {
    EscHtmlIsCharwise(s);
    UnescapeEscRef(s);
  }

  // ---------------------------------------------------------------------
  // `splitText_`
  // ---------------------------------------------------------------------

  /** The chunk size the bot sends long texts with. */
  const MsgLimit: nat := 3900

  /** Chunks of a non-empty text are never empty. */
  lemma {:induction false} ChunksNonEmpty(s: string, n: nat)
    requires n > 0 && s != []
    ensures forall k :: 0 <= k < |Chunks(s, n)| ==> Chunks(s, n)[k] != []
    decreases |s|
  {
    if |s| > n {
      ChunksNonEmpty(s[n..], n);
      assert forall k :: 1 <= k < |Chunks(s, n)| ==> Chunks(s, n)[k] == Chunks(s[n..], n)[k - 1];
    }
  }

  /** One turn of the loop in `splitText_`: the slice at `i` is the first
      page of the rest of the text. */
  lemma ChunkStep(s: string, i: nat, n: nat)
    requires n > 0 && i < |s|
    ensures i + n >= |s| ==> Chunks(s[i..], n) == [Slice(s, i, i + n)]
    ensures i + n < |s| ==> Chunks(s[i..], n) == [Slice(s, i, i + n)] + Chunks(s[i + n..], n)
  {
    var rest := s[i..];
    if i + n < |s| {
      assert rest[..n] == Slice(s, i, i + n);
      assert rest[n..] == s[i + n..];
    } else {
      assert rest == Slice(s, i, i + n);
    }
  }

  /** `splitText_`: an empty text gives no chunks; otherwise slices of
      `maxLen` characters from the start, the last one possibly shorter.
      The chunks are the pages of the text, read in order they give the
      text back, each is non-empty and at most `maxLen` long, and all but
      the last are full. The source needs `maxLen > 0`: with 0 its loop
      would never end. */
  method SplitText(s: string, maxLen: nat) returns (chunks: seq<string>)
    requires maxLen > 0
    ensures s == [] ==> chunks == []
    ensures s != [] ==> chunks == Chunks(s, maxLen)
    ensures Flatten(chunks) == s
    ensures forall k :: 0 <= k < |chunks| ==> 0 < |chunks[k]| <= maxLen
    ensures forall k :: 0 <= k < |chunks| - 1 ==> |chunks[k]| == maxLen
  {
    chunks := [];
    if s == [] {
      return;
    }
    var i: nat := 0;
    while i < |s|
      invariant i < |s| ==> chunks + Chunks(s[i..], maxLen) == Chunks(s, maxLen)
      invariant i >= |s| ==> chunks == Chunks(s, maxLen)
      decreases |s| - i
    {
      var piece := Slice(s, i, i + maxLen);
      ChunkStep(s, i, maxLen);
      if i + maxLen < |s| {
        assert (chunks + [piece]) + Chunks(s[i + maxLen..], maxLen) == chunks + ([piece] + Chunks(s[i + maxLen..], maxLen));
      }
      chunks := chunks + [piece];
      i := i + maxLen;
    }
    ChunksFlatten(s, maxLen);
    ChunksSizes(s, maxLen);
    ChunksNonEmpty(s, maxLen);
  }

  /** With the message limit, `splitText_` cuts a text of more than one
      and at most two limits into the first `MsgLimit` characters and the
      rest. */
  lemma MessageChunks(s: string)
    requires MsgLimit < |s| <= 2 * MsgLimit
    ensures Chunks(s, MsgLimit) == [s[..MsgLimit], s[MsgLimit..]]
  {
    assert Chunks(s[MsgLimit..], MsgLimit) == [s[MsgLimit..]];
  }
}
