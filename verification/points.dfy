/**
 * The points rule: a topic key is normalised (trimmed, lower-cased, `ё`
 * folded to `е`, whitespace runs collapsed, two spellings of the cycling
 * topic folded to `вело`) and looked up in a fixed plain object. A key the
 * table lacks is worth 0, except the two keys the object inherits from
 * `Object.prototype`, which give NaN.
 */
module Points {

  import opened Strings

  /** The fixed table of points per normalised topic. */
  const PointsByTopic: map<string, nat> := map[
    "бег" := 30,
    "волейбол" := 20,
    "вело" := 15,
    "поход" := 10,
    "плавание" := 7,
    "мероприятия" := 5
  ]

  /** What `Number(POINTS_BY_TOPIC[k] || 0)` yields: a number of points,
      or NaN. */
  datatype Score = Pts(n: nat) | NaN {
    /** `Number(pts || 0)`, as the award is written: NaN is falsy and
        becomes 0. */
    function OrZero(): (v: nat)
      ensures Pts? ==> v == n
      ensures NaN? ==> v == 0
    {
      if Pts? then n else 0
    }
  }

  /** The members of `Object.prototype` whose names are lower-case and
      free of whitespace, so a normalised key can spell them. Indexing the
      table with one finds an inherited function or object, which is truthy
      and which `Number` turns into NaN. */
  const InheritedKeys: set<string> := {"constructor", "__proto__"}

  /** `.replace(/ё/g, "е")`. */
  function ReplaceYo(s: string): (r: string)
    ensures |r| == |s|
    ensures forall i :: 0 <= i < |s| ==> r[i] == (if s[i] == 'ё' then 'е' else s[i])
  {
    seq(|s|, i requires 0 <= i < |s| => if s[i] == 'ё' then 'е' else s[i])
  }

  /** Only the plain space stands for whitespace, and never twice in a row. */
  predicate SingleSpaced(s: string) {
    && (forall i :: 0 <= i < |s| && IsWhite(s[i]) ==> s[i] == ' ')
    && (forall i :: 0 <= i < |s| - 1 ==> !(IsWhite(s[i]) && IsWhite(s[i + 1])))
  }

  /** `.replace(/\s+/g, " ")`: every maximal run of whitespace becomes one
      space; every other character is kept. */
  function CollapseWs(s: string): (r: string)
    ensures |r| <= |s|
    ensures |s| > 0 ==> |r| > 0 && r[0] == (if IsWhite(s[0]) then ' ' else s[0])
    decreases |s|
  {
    if |s| == 0 then []
    else if IsWhite(s[0]) then [' '] + CollapseWs(TrimStart(s[1..]))
    else [s[0]] + CollapseWs(s[1..])
  }

  /** The result never holds whitespace other than single spaces. */
  lemma {:induction false} CollapseWsSingleSpaced(s: string)
    ensures SingleSpaced(CollapseWs(s))
    decreases |s|
  {
    if |s| > 0 {
      var r := CollapseWs(s);
      if IsWhite(s[0]) {
        var rest := TrimStart(s[1..]);
        CollapseWsSingleSpaced(rest);
        assert r == [' '] + CollapseWs(rest);
      } else {
        CollapseWsSingleSpaced(s[1..]);
        assert r == [s[0]] + CollapseWs(s[1..]);
      }
    }
  }

  /** Every character of the result is a space or comes from the input. */
  lemma {:induction false} CollapseWsChars(s: string)
    ensures forall i :: 0 <= i < |CollapseWs(s)| ==> CollapseWs(s)[i] == ' ' || CollapseWs(s)[i] in s
    decreases |s|
  {
    if |s| > 0 {
      var r := CollapseWs(s);
      if IsWhite(s[0]) {
        var rest := TrimStart(s[1..]);
        CollapseWsChars(rest);
        assert forall c :: c in rest ==> c in s;
        assert r == [' '] + CollapseWs(rest);
      } else {
        CollapseWsChars(s[1..]);
        assert forall c :: c in s[1..] ==> c in s;
        assert r == [s[0]] + CollapseWs(s[1..]);
      }
    }
  }

  /** Leading whitespace is all `TrimStart` removes, so a last character
      that is not whitespace is kept. */
  lemma TrimStartKeepsLast(s: string)
    requires |s| > 0 && !IsWhite(s[|s| - 1])
    ensures |TrimStart(s)| > 0 && TrimStart(s)[|TrimStart(s)| - 1] == s[|s| - 1]
  {
  }

  /** A last character that is not whitespace survives as the last one. */
  lemma {:induction false} CollapseWsLast(s: string)
    requires |s| > 0 && !IsWhite(s[|s| - 1])
    ensures |CollapseWs(s)| > 0 && CollapseWs(s)[|CollapseWs(s)| - 1] == s[|s| - 1]
    decreases |s|
  {
    var r := CollapseWs(s);
    if IsWhite(s[0]) {
      var tail := s[1..];
      assert |tail| > 0 && tail[|tail| - 1] == s[|s| - 1];
      var rest := TrimStart(tail);
      TrimStartKeepsLast(tail);
      CollapseWsLast(rest);
      var t := CollapseWs(rest);
      assert r == [' '] + t;
      assert r[|r| - 1] == t[|t| - 1];
    } else if |s| > 1 {
      var tail := s[1..];
      assert tail[|tail| - 1] == s[|s| - 1];
      CollapseWsLast(tail);
      var t := CollapseWs(tail);
      assert r == [s[0]] + t;
      assert r[|r| - 1] == t[|t| - 1];
    } else {
      assert s[1..] == [];
      assert r == [s[0]];
    }
  }

  /** A string with nothing left for `CollapseWs` to do is returned as is. */
  lemma {:induction false} CollapseWsFixed(s: string)
    requires SingleSpaced(s)
    ensures CollapseWs(s) == s
    decreases |s|
  {
    if |s| > 0 {
      assert SingleSpaced(s[1..]);
      if IsWhite(s[0]) {
        assert |s| == 1 || !IsWhite(s[1]);
        assert TrimStart(s[1..]) == s[1..];
      }
      CollapseWsFixed(s[1..]);
    }
  }

  /** The two alternative spellings folded onto `вело`. */
  predicate IsAlias(k: string) {
    k == "велозаезд" || k == "велозаїзд"
  }

  /** Everything `normTopicKey_` does before the alias step. */
  function Canon(s: string): string {
    CollapseWs(ReplaceYo(Lower(Trim(s))))
  }

  /** `normTopicKey_` (a missing key is the empty string). */
  function NormTopicKey(s: string): (k: string)
    ensures !IsAlias(k)
    ensures k == Canon(s) || k == "вело"
  {
    var c := Canon(s);
    if IsAlias(c) then "вело" else c
  }

  /** A key in canonical form: trimmed, lower-case, without `ё`, single
      spaced. */
  predicate Clean(k: string) {
    && Trimmed(k)
    && (forall i :: 0 <= i < |k| ==> Folded(k[i]))
    && SingleSpaced(k)
  }

  /** A character neither lower-casing nor the `ё` fold changes. */
  predicate Folded(c: char) {
    LowerChar(c) == c && c != 'ё'
  }

  /** Lower-casing and then folding `ё` gives a folded character and keeps
      whiteness. */
  lemma FoldChar(c: char)
    ensures var y := if LowerChar(c) == 'ё' then 'е' else LowerChar(c);
            Folded(y) && (IsWhite(y) <==> IsWhite(c))
  {
    LowerCharIdempotent(c);
  }

  /** The string `CollapseWs` receives inside `Canon`. */
  lemma FoldedTrim(s: string)
    ensures var y := ReplaceYo(Lower(Trim(s)));
            Trimmed(y) && forall i :: 0 <= i < |y| ==> Folded(y[i])
  {
    var t := Trim(s);
    var y := ReplaceYo(Lower(t));
    forall i | 0 <= i < |y|
      ensures Folded(y[i]) && (IsWhite(y[i]) <==> IsWhite(t[i]))
    {
      FoldChar(t[i]);
    }
    if |y| > 0 {
      assert !IsWhite(t[0]) && !IsWhite(t[|t| - 1]);
    }
  }

  /** Collapsing keeps a trimmed string trimmed. */
  lemma CollapseWsTrimmed(y: string)
    requires Trimmed(y)
    ensures Trimmed(CollapseWs(y))
  {
    if |y| > 0 {
      CollapseWsLast(y);
    }
  }

  /** Collapsing a string of folded characters leaves them folded. */
  lemma CollapseWsFolded(y: string)
    requires forall i :: 0 <= i < |y| ==> Folded(y[i])
    ensures forall i :: 0 <= i < |CollapseWs(y)| ==> Folded(CollapseWs(y)[i])
  {
    var c := CollapseWs(y);
    CollapseWsChars(y);
    forall i | 0 <= i < |c|
      ensures Folded(c[i])
    {
      if c[i] != ' ' {
        var j :| 0 <= j < |y| && y[j] == c[i];
      }
    }
  }

  lemma CanonIsClean(s: string)
    ensures Clean(Canon(s))
  {
    var y := ReplaceYo(Lower(Trim(s)));
    FoldedTrim(s);
    CollapseWsTrimmed(y);
    CollapseWsFolded(y);
    CollapseWsSingleSpaced(y);
  }

  lemma CanonFixed(k: string)
    requires Clean(k)
    ensures Canon(k) == k
  {
    TrimOfTrimmed(k);
    assert Lower(k) == k by {
      assert forall i :: 0 <= i < |k| ==> Lower(k)[i] == k[i];
    }
    assert ReplaceYo(k) == k;
    CollapseWsFixed(k);
  }

  /** A key is a normalised one exactly when it is clean and not an alias. */
  predicate Normal(k: string) {
    Clean(k) && !IsAlias(k)
  }

  lemma NormalizedIsNormal(s: string)
    ensures Normal(NormTopicKey(s))
  {
    CanonIsClean(s);
    PlainIsClean("вело");
  }

  /** Normalised keys are exactly the fixed points of `NormTopicKey`. */
  lemma NormalFixed(k: string)
    ensures Normal(k) <==> NormTopicKey(k) == k
  {
    if Normal(k) {
      CanonFixed(k);
    } else if NormTopicKey(k) == k {
      NormalizedIsNormal(k);
    }
  }

  /** Normalising twice is normalising once. */
  lemma NormIdempotent(s: string)
    ensures NormTopicKey(NormTopicKey(s)) == NormTopicKey(s)
  {
    NormalizedIsNormal(s);
    NormalFixed(NormTopicKey(s));
  }

  /** `getPointsForTopic_`: the table value of the normalised key; NaN for
      an inherited member's name; else 0. */
  function PointsForTopic(topic: string): (p: Score)
    ensures p.NaN? <==> NormTopicKey(topic) in InheritedKeys
    ensures NormTopicKey(topic) in PointsByTopic ==> p == Pts(PointsByTopic[NormTopicKey(topic)])
    ensures p.Pts? ==> (p.n > 0 <==> NormTopicKey(topic) in PointsByTopic)
    ensures p.OrZero() in {0, 30, 20, 15, 10, 7, 5}
  {
    var k := NormTopicKey(topic);
    if k in PointsByTopic then Pts(PointsByTopic[k])
    else if k in InheritedKeys then NaN
    else Pts(0)
  }

  /** Lower-case Cyrillic letters other than `ё`. */
  predicate PlainChar(c: char) {
    ('а' <= c <= 'я') || ('ѐ' <= c <= 'џ' && c != 'ё')
  }

  /** A word of plain letters is clean. */
  lemma PlainIsClean(k: string)
    requires forall i :: 0 <= i < |k| ==> PlainChar(k[i])
    ensures Clean(k)
  {
  }

  /** Every table key is already normalised, so each is reachable. */
  lemma TableKeysNormal(k: string)
    requires k in PointsByTopic
    ensures NormTopicKey(k) == k && PointsForTopic(k) == Pts(PointsByTopic[k])
  {
    PlainIsClean(k);
    CanonFixed(k);
  }

  /** Points depend only on the normalised key. */
  lemma PointsInvariant(s: string)
    ensures PointsForTopic(NormTopicKey(s)) == PointsForTopic(s)
  {
    NormIdempotent(s);
  }

  lemma ExampleRun()
    ensures PointsForTopic("бег") == Pts(30)
  {
    TableKeysNormal("бег");
  }

  lemma LowerRun()
    ensures Trim("БЕГ") == "БЕГ" && Lower("БЕГ") == "бег"
  {
    TrimOfTrimmed("БЕГ");
  }

  lemma ExampleUpperCaseRun()
    ensures PointsForTopic("БЕГ") == Pts(30)
  {
    LowerRun();
    PlainIsClean("бег");
    CanonFixed("бег");
  }

  lemma ExampleAliases()
    ensures PointsForTopic("велозаезд") == Pts(15)
    ensures PointsForTopic("велозаїзд") == Pts(15)
  {
    PlainIsClean("велозаезд");
    PlainIsClean("велозаїзд");
    CanonFixed("велозаезд");
    CanonFixed("велозаїзд");
  }

  lemma ExampleUnknownKey(k: string)
    requires forall i :: 0 <= i < |k| ==> PlainChar(k[i])
    requires k !in PointsByTopic && !IsAlias(k)
    ensures PointsForTopic(k) == Pts(0)
  {
    PlainIsClean(k);
    CanonFixed(k);
  }

  lemma ExampleEmpty()
    ensures PointsForTopic("") == Pts(0)
  {
    ExampleUnknownKey("");
  }

  lemma ExampleUnknown()
    ensures PointsForTopic("футбол") == Pts(0)
  {
    ExampleUnknownKey("футбол");
  }

  /** Lower-case Latin letters and the underscore. */
  predicate AsciiKeyChar(c: char) {
    ('a' <= c <= 'z') || c == '_'
  }

  lemma AsciiIsClean(k: string)
    requires forall i :: 0 <= i < |k| ==> AsciiKeyChar(k[i])
    ensures Clean(k)
  {
  }

  /** The inherited names are read as NaN, and the award written for them
      is 0. */
  lemma ExampleInherited(k: string)
    requires k in InheritedKeys
    ensures PointsForTopic(k) == NaN && PointsForTopic(k).OrZero() == 0
  {
    AsciiIsClean(k);
    CanonFixed(k);
  }
}
