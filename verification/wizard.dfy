/**
 * The private-chat text handler of the "create RSVP" wizard at its third
 * step, where the admin sends the question in Russian and German on two
 * lines. Before any step, commands are ignored and "отмена" (any case,
 * surrounding blanks allowed) cancels the wizard.
 */
module Wizard {

  import opened Base
  import opened Strings

  /** The wizard's progress for one admin. */
  datatype Draft = Draft(step: nat, qRu: string, qDe: string)

  /** What the admin sees next. */
  datatype Screen =
    | Unchanged     // no wizard, or a command: the handler returns silently
    | Menu          // the wizard was cancelled and the menu shown
    | AskTwoLines   // step 3 again, with the two-line example
    | AskDate       // step 4: the date prompt

  const Cancel: string := "отмена"

  /** `lines.map(s => s.trim()).filter(Boolean)`. */
  function NonBlankLines(parts: seq<string>): (r: seq<string>)
    ensures |r| <= |parts|
  {
    if parts == [] then []
    else
      var t := Trim(parts[0]);
      if t != [] then [t] + NonBlankLines(parts[1..]) else NonBlankLines(parts[1..])
  }

  /** The kept lines are trimmed and not empty. */
  lemma {:induction false} NonBlankLinesShape(parts: seq<string>)
    ensures forall k :: 0 <= k < |NonBlankLines(parts)| ==> NonBlankLines(parts)[k] != [] && Trimmed(NonBlankLines(parts)[k])
  {
    if parts != [] {
      NonBlankLinesShape(parts[1..]);
      var t := Trim(parts[0]);
      if t != [] {
        assert NonBlankLines(parts) == [t] + NonBlankLines(parts[1..]);
      }
    }
  }

  /** The question lines of a message: its lines trimmed, blank ones
      dropped. */
  function QuestionLines(msg: string): seq<string> {
    NonBlankLines(Split(msg, '\n'))
  }

  /** A message that starts with `/` once trimmed. */
  predicate IsCommand(msg: string) {
    var t := Trim(msg);
    |t| > 0 && t[0] == '/'
  }

  /** A message that reached step 3, for a wizard at that step (`None`
      when the admin has no wizard open). The wizard moves on exactly when
      a non-command message holds at least two question lines, and it then
      takes the first two. */
  function OnStep3Text(w: Option<Draft>, msg: string): (res: (Screen, Option<Draft>))
    requires w.Some? ==> w.value.step == 3
    ensures res.0 == Unchanged ==> res.1 == w
    ensures res.0 == AskTwoLines ==> res.1 == w
    ensures res.0 == Menu ==> res.1 == None
    ensures w.Some? && !IsCommand(msg) ==> (res.0 == AskDate <==> |QuestionLines(msg)| >= 2)
    ensures res.0 == AskDate ==>
              && |QuestionLines(msg)| >= 2
              && w.Some? && res.1 == Some(w.value.(step := 4, qRu := QuestionLines(msg)[0], qDe := QuestionLines(msg)[1]))
              && Trimmed(res.1.value.qRu) && res.1.value.qRu != []
              && Trimmed(res.1.value.qDe) && res.1.value.qDe != []
  {
    if w.None? then (Unchanged, w)
    else
      var text := Trim(msg);
      if |text| > 0 && text[0] == '/' then (Unchanged, w)
      else if Lower(text) == Cancel then
        CancelIsOneLine(msg);
        (Menu, None)
      else
        var lines := QuestionLines(msg);
        NonBlankLinesShape(Split(msg, '\n'));
        if |lines| < 2 then (AskTwoLines, w)
        else (AskDate, Some(w.value.(step := 4, qRu := lines[0], qDe := lines[1])))
  }

  /** Dropping blank lines distributes over concatenation. */
  lemma {:induction false} NonBlankLinesAppend(a: seq<string>, b: seq<string>)
    ensures NonBlankLines(a + b) == NonBlankLines(a) + NonBlankLines(b)
    decreases |a|
  {
    if a == [] {
      assert a + b == b;
    } else {
      assert (a + b)[0] == a[0];
      assert (a + b)[1..] == a[1..] + b;
      NonBlankLinesAppend(a[1..], b);
    }
  }

  /** A line that is not blank is kept, trimmed, ahead of the others. */
  lemma NonBlankLinesCons(x: string, rest: seq<string>)
    requires Trim(x) != []
    ensures NonBlankLines([x] + rest) == [Trim(x)] + NonBlankLines(rest)
  {
    assert ([x] + rest)[1..] == rest;
  }

  /** A blank line is dropped. */
  lemma NonBlankLinesSkip(x: string, rest: seq<string>)
    requires Trim(x) == []
    ensures NonBlankLines([x] + rest) == NonBlankLines(rest)
  {
    assert ([x] + rest)[1..] == rest;
  }

  /** Whitespace-only text holds no question line. */
  lemma {:induction false} WhiteHasNoLines(w: string)
    requires AllWhite(w)
    ensures QuestionLines(w) == []
    decreases |w|
  {
    if '\n' !in w {
      TrimAllWhite(w);
    } else {
      var i := IndexOf(w, '\n');
      var w1, w2 := w[..i], w[i + 1..];
      assert w == w1 + ['\n'] + w2;
      SplitCons(w1, '\n', w2);
      assert AllWhite(w1) && AllWhite(w2);
      TrimAllWhite(w1);
      WhiteHasNoLines(w2);
      NonBlankLinesSkip(w1, Split(w2, '\n'));
    }
  }

  /** Whitespace in front of a message, line breaks included, changes none
      of its question lines. */
  lemma {:induction false} WhitePrefixLines(w: string, s: string)
    requires AllWhite(w)
    ensures QuestionLines(w + s) == QuestionLines(s)
    decreases |w|
  {
    if '\n' !in w {
      SplitFreePrefix(w, '\n', s);
      var p := Split(s, '\n');
      TrimWhitePrefix(w, p[0]);
      assert p == [p[0]] + p[1..];
      assert ([w + p[0]] + p[1..])[1..] == p[1..];
    } else {
      var i := IndexOf(w, '\n');
      var w1, w2 := w[..i], w[i + 1..];
      assert w == w1 + ['\n'] + w2;
      assert w + s == w1 + ['\n'] + (w2 + s);
      SplitCons(w1, '\n', w2 + s);
      assert AllWhite(w1) && AllWhite(w2);
      TrimAllWhite(w1);
      WhitePrefixLines(w2, s);
      NonBlankLinesSkip(w1, Split(w2 + s, '\n'));
    }
  }

  /** The cancel word holds no line break. */
  lemma CancelHasNoBreak(t: string)
    requires Lower(t) == Cancel
    ensures '\n' !in t
  {
    forall i | 0 <= i < |t|
      ensures t[i] != '\n'
    {
      assert LowerChar(t[i]) == Cancel[i];
    }
  }

  /** A cancelling message is a single line: blanks, the cancel word,
      blanks. So it holds at most one question line. */
  lemma CancelIsOneLine(msg: string)
    requires Lower(Trim(msg)) == Cancel
    ensures |QuestionLines(msg)| <= 1
  {
    var t := Trim(msg);
    TrimCutsWhite(msg);
    var a, b :| msg == a + t + b && AllWhite(a) && AllWhite(b);
    CancelHasNoBreak(t);
    assert msg == a + (t + b);
    WhitePrefixLines(a, t + b);
    OneLineThenWhite(t, b);
  }

  /** Text without a line break followed by whitespace holds at most one
      question line. */
  lemma OneLineThenWhite(t: string, b: string)
    requires '\n' !in t && AllWhite(b)
    ensures |QuestionLines(t + b)| <= 1
  {
    SplitFreePrefix(t, '\n', b);
    var pb := Split(b, '\n');
    WhiteHasNoLines(b);
    assert pb == [pb[0]] + pb[1..];
    NonBlankLinesAppend([pb[0]], pb[1..]);
    NonBlankLinesAppend([t + pb[0]], pb[1..]);
  }

  /** A line that is not blank, ended by a line break, is the first
      question line. */
  lemma LeadingLine(x: string, tail: string)
    requires '\n' !in x && Trim(x) != []
    ensures QuestionLines(x + ['\n'] + tail) == [Trim(x)] + QuestionLines(tail)
  {
    SplitCons(x, '\n', tail);
    NonBlankLinesCons(x, Split(tail, '\n'));
  }

  /** A line that is not blank, followed by nothing or a line break, is
      the first question line. */
  lemma LastLeadingLine(x: string, rest: string)
    requires '\n' !in x && Trim(x) != [] && (rest == [] || rest[0] == '\n')
    ensures |QuestionLines(x + rest)| >= 1 && QuestionLines(x + rest)[0] == Trim(x)
  {
    if rest == [] {
      assert x + rest == x;
      SplitNone(x, '\n');
      NonBlankLinesCons(x, []);
    } else {
      assert x + rest == x + ['\n'] + rest[1..];
      LeadingLine(x, rest[1..]);
    }
  }

  /** Blank text, a line, a line break, blank text, a second line, and
      then nothing or a line break and anything: the first two question
      lines are the two lines, trimmed. */
  lemma FirstTwoLines(pre: string, ru: string, mid: string, de: string, rest: string)
    requires AllWhite(pre) && AllWhite(mid) && (rest == [] || rest[0] == '\n')
    requires '\n' !in ru && '\n' !in de && Trim(ru) != [] && Trim(de) != []
    ensures var ls := QuestionLines(pre + ru + "\n" + mid + de + rest);
            |ls| >= 2 && ls[0] == Trim(ru) && ls[1] == Trim(de)
  {
    var tail := mid + (de + rest);
    Regroup(pre, ru, mid, de, rest);
    WhitePrefixLines(pre, ru + ['\n'] + tail);
    LeadingLine(ru, tail);
    WhitePrefixLines(mid, de + rest);
    LastLeadingLine(de, rest);
  }

  lemma Regroup(pre: string, ru: string, mid: string, de: string, rest: string)
    ensures pre + ru + "\n" + mid + de + rest == pre + (ru + ['\n'] + (mid + (de + rest)))
  {
  }

  /** The wizard takes the first two question lines, whatever blank lines
      come before or between them and whatever follows them. */
  lemma FirstTwoLinesTaken(d: Draft, pre: string, ru: string, mid: string, de: string, rest: string)
    requires d.step == 3
    requires AllWhite(pre) && AllWhite(mid) && (rest == [] || rest[0] == '\n')
    requires '\n' !in ru && '\n' !in de && Trim(ru) != [] && Trim(de) != []
    requires Trim(ru)[0] != '/'
    ensures OnStep3Text(Some(d), pre + ru + "\n" + mid + de + rest) == (AskDate, Some(Draft(4, Trim(ru), Trim(de))))
  {
    FirstTwoLines(pre, ru, mid, de, rest);
    LeadsWithLine(pre, ru, mid, de, rest);
  }

  /** Such a message starts, once trimmed, where its first line does. */
  lemma LeadsWithLine(pre: string, ru: string, mid: string, de: string, rest: string)
    requires AllWhite(pre) && Trim(ru) != []
    ensures var t := Trim(pre + ru + "\n" + mid + de + rest);
            t != [] && t[0] == Trim(ru)[0]
  {
    var z := "\n" + mid + de + rest;
    assert pre + ru + "\n" + mid + de + rest == pre + (ru + z);
    TrimWhitePrefix(pre, ru + z);
    TrimHead(ru, z);
  }

  /** "ru", a blank line, "de", then a third line: the first two are
      taken. */
  lemma ExampleExtraLines(d: Draft)
    requires d.step == 3
    ensures OnStep3Text(Some(d), "ru\n\nde\nextra") == (AskDate, Some(Draft(4, "ru", "de")))
  {
    assert "ru\n\nde\nextra" == "" + "ru" + "\n" + "\n" + "de" + "\nextra";
    TrimOfTrimmed("ru");
    TrimOfTrimmed("de");
    FirstTwoLinesTaken(d, "", "ru", "\n", "de", "\nextra");
  }

  /** Without a wizard nothing happens; with one, the wizard is cancelled
      exactly when the trimmed message is the cancel word in any case. */
  lemma CancelledExactly(w: Option<Draft>, msg: string)
    requires w.Some? ==> w.value.step == 3
    ensures w.None? ==> OnStep3Text(w, msg) == (Unchanged, w)
    ensures w.Some? ==> (OnStep3Text(w, msg).0 == Menu <==> Lower(Trim(msg)) == Cancel)
  {
    var t := Trim(msg);
    if |t| > 0 && t[0] == '/' {
      CommandNotCancel(t);
    }
  }

  /** A command is never the cancel word: `/` has no other case. */
  lemma CommandNotCancel(t: string)
    requires |t| > 0 && t[0] == '/'
    ensures Lower(t) != Cancel
  {
    assert Lower(t)[0] == LowerChar('/') == '/';
    assert Cancel[0] != '/';
  }

  /** Text holding a line break is never the cancel word. */
  lemma NewlineNotCancel(s: string, i: nat)
    requires i < |s| && s[i] == '\n'
    ensures Lower(s) != Cancel
  {
    assert Lower(s)[i] == '\n';
    assert forall j :: 0 <= j < |Cancel| ==> Cancel[j] != '\n';
  }

  lemma TwoLinesSplit(ru: string, de: string)
    requires ru != [] && Trimmed(ru) && '\n' !in ru
    requires de != [] && Trimmed(de) && '\n' !in de
    ensures NonBlankLines(Split(ru + "\n" + de, '\n')) == [ru, de]
  {
    assert ru + "\n" + de == ru + ['\n'] + de;
    SplitCons(ru, '\n', de);
    SplitNone(de, '\n');
    TrimOfTrimmed(ru);
    TrimOfTrimmed(de);
    var parts := Split(ru + "\n" + de, '\n');
    assert parts == [ru, de];
    assert parts[1..] == [de];
    assert parts[1..][1..] == [];
  }

  /** Two question lines, each one line of visible text, are taken as the
      Russian and the German question, in that order, and the wizard moves
      on to the date. */
  lemma TwoLinesAccepted(d: Draft, ru: string, de: string)
    requires d.step == 3
    requires ru != [] && Trimmed(ru) && '\n' !in ru && ru[0] != '/'
    requires de != [] && Trimmed(de) && '\n' !in de
    ensures OnStep3Text(Some(d), ru + "\n" + de) == (AskDate, Some(Draft(4, ru, de)))
  {
    var msg := ru + "\n" + de;
    assert msg[0] == ru[0] && msg[|msg| - 1] == de[|de| - 1] && msg[|ru|] == '\n';
    TrimOfTrimmed(msg);
    NewlineNotCancel(msg, |ru|);
    TwoLinesSplit(ru, de);
  }

  /** A single line is not enough: the wizard stays at step 3 and asks
      again. */
  lemma OneLineAsksAgain(d: Draft, line: string)
    requires d.step == 3 && '\n' !in line && Lower(Trim(line)) != Cancel
    requires Trim(line) == [] || Trim(line)[0] != '/'
    ensures OnStep3Text(Some(d), line) == (AskTwoLines, Some(d))
  {
    SplitNone(line, '\n');
    assert Split(line, '\n')[1..] == [];
  }

  /** Commands never change the wizard. */
  lemma CommandsIgnored(w: Option<Draft>, msg: string)
    requires w.Some? ==> w.value.step == 3
    requires IsCommand(msg)
    ensures OnStep3Text(w, msg) == (Unchanged, w)
  {
  }

  /** Blanks around a word are cut off by `trim`. */
  lemma {:induction false} TrimPadded(a: string, w: string, b: string)
    requires AllWhite(a) && AllWhite(b) && w != [] && Trimmed(w)
    ensures Trim(a + w + b) == w
    decreases |a| + |b|
  {
    var s := a + w + b;
    if a != [] {
      assert s[0] == a[0];
      assert s[1..] == a[1..] + w + b;
      TrimPadded(a[1..], w, b);
    } else if b != [] {
      assert s[0] == w[0];
      assert s[|s| - 1] == b[|b| - 1];
      assert s[..|s| - 1] == a + w + b[..|b| - 1];
      TrimPadded(a, w, b[..|b| - 1]);
    } else {
      assert s == w;
    }
  }

  /** The cancel word in any letter case, with blanks around it, cancels. */
  lemma CancelAnyCase(d: Draft, a: string, word: string, b: string)
    requires d.step == 3 && AllWhite(a) && AllWhite(b)
    requires word != [] && Trimmed(word) && Lower(word) == Cancel
    ensures OnStep3Text(Some(d), a + word + b) == (Menu, None)
  {
    TrimPadded(a, word, b);
    assert word[0] != '/' by {
      assert LowerChar(word[0]) == Lower(word)[0] == Cancel[0];
      assert LowerChar('/') == '/' != Cancel[0];
    }
    Step3Cancels(d, a + word + b);
  }

  lemma Step3Cancels(d: Draft, msg: string)
    requires d.step == 3
    requires var t := Trim(msg); t != [] && t[0] != '/' && Lower(t) == Cancel
    ensures OnStep3Text(Some(d), msg) == (Menu, None)
  {
  }

  /** " ОТМЕНА " cancels. */
  lemma ExampleCancel(d: Draft)
    requires d.step == 3
    ensures OnStep3Text(Some(d), " ОТМЕНА ") == (Menu, None)
  {
    var word := "ОТМЕНА";
    assert Lower(word) == Cancel;
    assert " ОТМЕНА " == " " + word + " ";
    CancelAnyCase(d, " ", word, " ");
  }
}
