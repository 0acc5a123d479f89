/** Prompt assembly for retrieval-augmented translation.

    Given the query sentence, the language pair, the stored examples and one
    similarity score per example, the prompt is either the two-line fallback
    (no examples, or none with a positive score, or a cap of zero) or the
    few-shot form listing the kept examples in ranked order. Lines are joined
    with a single line feed and no trailing one.
 */
module Prompt {
  import Ranking
  import opened Text

  /** A stored translation example. */
  datatype Pair = Pair(sourceLanguage: string, targetLanguage: string, sentence: string, translation: string)

  /** The default number of examples a prompt may show. */
  const DefaultK: nat := 4

  /** The line separator. */
  const NewLine: string := "\n"

  function FallbackHeader(src: string, tgt: string): string
  {
    "Translate the following sentence from " + src + " to " + tgt + ":"
  }

  function FewShotHeader(src: string, tgt: string): string
  {
    "Translate the following sentence from " + src + " to " + tgt + "."
  }

  function QueryLine(src: string, query: string): string
  {
    src + ": " + query
  }

  /** The two lines of the fallback form. */
  function FallbackLines(query: string, src: string, tgt: string): seq<string>
  {
    [FallbackHeader(src, tgt), QueryLine(src, query)]
  }

  /** The three lines one example contributes. */
  function ExampleBlock(src: string, tgt: string, p: Pair): seq<string>
  {
    [src + ": " + p.sentence, tgt + ": " + p.translation, ""]
  }

  /** The example lines for `ps`, in order. */
  function ExampleLines(src: string, tgt: string, ps: seq<Pair>): seq<string>
  {
    if ps == [] then []
    else ExampleLines(src, tgt, ps[..|ps| - 1]) + ExampleBlock(src, tgt, ps[|ps| - 1])
  }

  /** The lines of the few-shot form for the kept examples `top`. */
  function FewShotLines(query: string, src: string, tgt: string, top: seq<Pair>): seq<string>
  {
    [FewShotHeader(src, tgt), "", "Examples:"]
    + ExampleLines(src, tgt, top)
    + ["Sentence to translate:", QueryLine(src, query)]
  }

  /** `top_pairs`: the pairs at the kept positions, in ranked order. */
  function TopPairs(scores: seq<real>, pairs: seq<Pair>, k: nat): seq<Pair>
    requires |scores| == |pairs|
  {
    var kept := Ranking.Kept(scores, k);
    seq(|kept|, a requires 0 <= a < |kept| => pairs[kept[a]])
  }

  /** The lines of the prompt, before they are joined. */
  function PromptLines(query: string, src: string, tgt: string, pairs: seq<Pair>, scores: seq<real>, k: nat): seq<string>
    requires |scores| == |pairs|
  {
    if pairs == [] then FallbackLines(query, src, tgt)
    else
      var top := TopPairs(scores, pairs, k);
      if top == [] then FallbackLines(query, src, tgt)
      else FewShotLines(query, src, tgt, top)
  }

  /** The prompt text. */
  function PromptText(query: string, src: string, tgt: string, pairs: seq<Pair>, scores: seq<real>, k: nat): string
    requires |scores| == |pairs|
  {
    Join(PromptLines(query, src, tgt, pairs, scores, k), NewLine)
  }

  /** `s.split("\n")`: the pieces between line feeds (always at least one). */
  function SplitLines(s: string): (pieces: seq<string>)
    ensures |pieces| >= 1
  {
    if s == [] then [""]
    else
      var rest := SplitLines(s[1..]);
      if s[0] == '\n' then [""] + rest
      else [[s[0]] + rest[0]] + rest[1..]
  }

  /** Builds the prompt: the fallback form when there is nothing to show,
      otherwise the few-shot form, appending the lines one example at a time. */
  method BuildPrompt(query: string, src: string, tgt: string, pairs: seq<Pair>, scores: seq<real>, k: nat)
    returns (prompt: string)
    requires |scores| == |pairs|
    ensures prompt == PromptText(query, src, tgt, pairs, scores, k)
  {
    if pairs == [] {
      prompt := Join(FallbackLines(query, src, tgt), NewLine);
      return;
    }
    var top := TopPairs(scores, pairs, k);
    if top == [] {
      prompt := Join(FallbackLines(query, src, tgt), NewLine);
      return;
    }
    var lines := [FewShotHeader(src, tgt), "", "Examples:"];
    var i := 0;
    ExampleLinesStart(src, tgt, top);
    while i < |top|
      invariant 0 <= i <= |top|
      invariant lines == [FewShotHeader(src, tgt), "", "Examples:"] + ExampleLines(src, tgt, top[..i])
    {
      var p := top[i];
      ExampleLinesStep(src, tgt, top, i);
      lines := lines + [src + ": " + p.sentence];
      lines := lines + [tgt + ": " + p.translation];
      lines := lines + [""];
      i := i + 1;
    }
    assert top[..i] == top;
    lines := lines + ["Sentence to translate:"];
    lines := lines + [QueryLine(src, query)];
    assert lines == FewShotLines(query, src, tgt, top);
    FewShotText(query, src, tgt, pairs, scores, k);
    prompt := Join(lines, NewLine);
  }

  /** With examples to show, the prompt is the joined few-shot lines. */
  lemma FewShotText(query: string, src: string, tgt: string, pairs: seq<Pair>, scores: seq<real>, k: nat)
    requires |scores| == |pairs|
    requires pairs != [] && TopPairs(scores, pairs, k) != []
    ensures PromptText(query, src, tgt, pairs, scores, k) == Join(FewShotLines(query, src, tgt, TopPairs(scores, pairs, k)), NewLine)
  {
  }

  lemma ExampleLinesStart(src: string, tgt: string, ps: seq<Pair>)
    ensures ExampleLines(src, tgt, ps[..0]) == []
  {
    assert ps[..0] == [];
  }

  /** One more example extends the example lines by its block. */
  lemma ExampleLinesStep(src: string, tgt: string, ps: seq<Pair>, i: nat)
    requires i < |ps|
    ensures ExampleLines(src, tgt, ps[..i + 1]) == ExampleLines(src, tgt, ps[..i]) + ExampleBlock(src, tgt, ps[i])
  {
    assert ps[..i + 1][..i] == ps[..i];
  }

  // ---------------------------------------------------------------------------
  // Joining and splitting lines

  lemma {:induction false} SplitSingle(a: string)
    requires '\n' !in a
    ensures SplitLines(a) == [a]
  {
    if a != [] {
      SplitSingle(a[1..]);
      assert [a[0]] + a[1..] == a;
    }
  }

  lemma {:induction false} SplitCons(a: string, b: string)
    requires '\n' !in a
    ensures SplitLines(a + NewLine + b) == [a] + SplitLines(b)
  {
    var s := a + NewLine + b;
    if a == [] {
      assert s[1..] == b;
    } else {
      assert s[1..] == a[1..] + NewLine + b;
      SplitCons(a[1..], b);
      assert [a[0]] + a[1..] == a;
    }
  }

  /** No line holds a line feed. */
  predicate NoBreaks(lines: seq<string>)
  {
    forall l :: l in lines ==> '\n' !in l
  }

  /** Splitting the joined text at line feeds gives back the lines, provided
      no line holds a line feed of its own. */
  lemma {:induction false} SplitJoin(lines: seq<string>)
    requires |lines| >= 1
    requires NoBreaks(lines)
    ensures SplitLines(Join(lines, NewLine)) == lines
    decreases |lines|
  {
    assert lines[0] in lines;
    if |lines| == 1 {
      SplitSingle(lines[0]);
    } else {
      assert forall l :: l in lines[1..] ==> l in lines;
      SplitJoin(lines[1..]);
      SplitCons(lines[0], Join(lines[1..], NewLine));
    }
  }

  // ---------------------------------------------------------------------------
  // The example lines

  lemma {:induction false} ExampleLinesAt(src: string, tgt: string, ps: seq<Pair>)
    ensures |ExampleLines(src, tgt, ps)| == 3 * |ps|
    ensures forall a :: 0 <= a < |ps| ==>
      && ExampleLines(src, tgt, ps)[3 * a] == src + ": " + ps[a].sentence
      && ExampleLines(src, tgt, ps)[3 * a + 1] == tgt + ": " + ps[a].translation
      && ExampleLines(src, tgt, ps)[3 * a + 2] == ""
  {
    if ps != [] {
      var init := ps[..|ps| - 1];
      ExampleLinesAt(src, tgt, init);
      forall a | 0 <= a < |init| ensures ps[a] == init[a] { }
    }
  }

  /** The pairs shown are the pairs at the kept positions: at most `k` of
      them, as many as possible, each with a positive score, best first. */
  lemma TopPairsSpec(scores: seq<real>, pairs: seq<Pair>, k: nat)
    requires |scores| == |pairs|
    ensures var kept := Ranking.Kept(scores, k);
      var n := |Ranking.PositiveSet(scores)|;
      && |TopPairs(scores, pairs, k)| == (if k < n then k else n)
      && forall a :: 0 <= a < |kept| ==>
           TopPairs(scores, pairs, k)[a] == pairs[kept[a]] && scores[kept[a]] > 0.0
  {
    Ranking.KeptCount(scores, k);
    Ranking.KeptPositiveOrdered(scores, k);
  }

  // ---------------------------------------------------------------------------
  // The two forms of the prompt

  /** With no stored examples, the prompt is exactly the two-line fallback,
      whose header ends in a colon. */
  lemma EmptyPairsFallback(query: string, src: string, tgt: string, k: nat)
    ensures PromptText(query, src, tgt, [], [], k)
      == "Translate the following sentence from " + src + " to " + tgt + ":" + "\n" + src + ": " + query
  {
    var lines := FallbackLines(query, src, tgt);
    assert lines[1..] == [QueryLine(src, query)];
    assert Join(lines[1..], NewLine) == QueryLine(src, query);
    assert PromptText(query, src, tgt, [], [], k) == lines[0] + NewLine + QueryLine(src, query);
  }

  /** The fallback form is used exactly when there are no examples, the cap is
      zero, or no example has a positive score. */
  lemma FallbackIff(query: string, src: string, tgt: string, pairs: seq<Pair>, scores: seq<real>, k: nat)
    requires |scores| == |pairs|
    ensures PromptLines(query, src, tgt, pairs, scores, k) == FallbackLines(query, src, tgt)
      <==> pairs == [] || k == 0 || forall i :: 0 <= i < |scores| ==> scores[i] <= 0.0
  {
    if pairs != [] {
      Ranking.KeptEmpty(scores, k);
      var top := TopPairs(scores, pairs, k);
      assert top == [] <==> Ranking.Kept(scores, k) == [];
      if top != [] {
        ExampleLinesAt(src, tgt, top);
        assert |FewShotLines(query, src, tgt, top)| == 5 + 3 * |top|;
      }
    }
  }

  /** Examples that all score zero (or less) give the same text as no examples. */
  lemma NoPositiveFallback(query: string, src: string, tgt: string, pairs: seq<Pair>, scores: seq<real>, k: nat)
    requires |scores| == |pairs|
    requires forall i :: 0 <= i < |scores| ==> scores[i] <= 0.0
    ensures PromptText(query, src, tgt, pairs, scores, k) == PromptText(query, src, tgt, [], [], k)
  {
    Ranking.KeptEmpty(scores, k);
  }

  lemma FewShotLinesAt(query: string, src: string, tgt: string, top: seq<Pair>)
    ensures var lines := FewShotLines(query, src, tgt, top);
      var m := |top|;
      && |lines| == 5 + 3 * m
      && lines[0] == FewShotHeader(src, tgt)
      && lines[1] == ""
      && lines[2] == "Examples:"
      && (forall a :: 0 <= a < m ==>
            && lines[3 + 3 * a] == src + ": " + top[a].sentence
            && lines[4 + 3 * a] == tgt + ": " + top[a].translation
            && lines[5 + 3 * a] == "")
      && lines[3 + 3 * m] == "Sentence to translate:"
      && lines[4 + 3 * m] == QueryLine(src, query)
  {
    var e := ExampleLines(src, tgt, top);
    ExampleLinesAt(src, tgt, top);
    var lines := FewShotLines(query, src, tgt, top);
    assert forall c :: 0 <= c < |e| ==> lines[3 + c] == e[c];
  }

  /** The few-shot form: header ending in a full stop, a blank line,
      `Examples:`, three lines per kept example in ranked order, then
      `Sentence to translate:` and the query line; `5 + 3 * m` lines for `m`
      kept examples. */
  lemma FewShotLayout(query: string, src: string, tgt: string, pairs: seq<Pair>, scores: seq<real>, k: nat)
    requires |scores| == |pairs|
    requires k > 0 && exists i :: 0 <= i < |scores| && scores[i] > 0.0
    ensures var lines := PromptLines(query, src, tgt, pairs, scores, k);
      var top := TopPairs(scores, pairs, k);
      var m := |top|;
      && 1 <= m <= k
      && |lines| == 5 + 3 * m
      && lines[0] == FewShotHeader(src, tgt)
      && lines[1] == ""
      && lines[2] == "Examples:"
      && (forall a :: 0 <= a < m ==>
            && lines[3 + 3 * a] == src + ": " + top[a].sentence
            && lines[4 + 3 * a] == tgt + ": " + top[a].translation
            && lines[5 + 3 * a] == "")
      && lines[3 + 3 * m] == "Sentence to translate:"
      && lines[4 + 3 * m] == QueryLine(src, query)
  {
    Ranking.KeptEmpty(scores, k);
    Ranking.KeptCount(scores, k);
    var top := TopPairs(scores, pairs, k);
    assert pairs != [] by { var i :| 0 <= i < |scores| && scores[i] > 0.0; }
    assert PromptLines(query, src, tgt, pairs, scores, k) == FewShotLines(query, src, tgt, top);
    FewShotLinesAt(query, src, tgt, top);
  }

  /** With the default cap a prompt shows at most four examples, so it has
      at most `5 + 3 * 4` lines. */
  lemma DefaultPromptSize(query: string, src: string, tgt: string, pairs: seq<Pair>, scores: seq<real>)
    requires |scores| == |pairs|
    ensures |TopPairs(scores, pairs, DefaultK)| <= DefaultK
    ensures |PromptLines(query, src, tgt, pairs, scores, DefaultK)| <= 5 + 3 * DefaultK
  {
    TopPairsSpec(scores, pairs, DefaultK);
    var lines := PromptLines(query, src, tgt, pairs, scores, DefaultK);
    FallbackIff(query, src, tgt, pairs, scores, DefaultK);
    if lines != FallbackLines(query, src, tgt) {
      FewShotLayout(query, src, tgt, pairs, scores, DefaultK);
    }
  }

  /** The prompt text ends with the query line, with no line feed after it. */
  lemma EndsWithQuery(query: string, src: string, tgt: string, pairs: seq<Pair>, scores: seq<real>, k: nat)
    requires |scores| == |pairs|
    ensures var text := PromptText(query, src, tgt, pairs, scores, k);
      var last := "\n" + QueryLine(src, query);
      |text| >= |last| && text[|text| - |last|..] == last
  {
    var lines := PromptLines(query, src, tgt, pairs, scores, k);
    if lines != FallbackLines(query, src, tgt) {
      ExampleLinesAt(src, tgt, TopPairs(scores, pairs, k));
    }
    JoinSnoc(lines, NewLine);
  }

  lemma {:induction false} ExampleLinesNoBreaks(src: string, tgt: string, ps: seq<Pair>)
    requires '\n' !in src && '\n' !in tgt
    requires forall p :: p in ps ==> '\n' !in p.sentence && '\n' !in p.translation
    ensures NoBreaks(ExampleLines(src, tgt, ps))
  {
    if ps != [] {
      var init := ps[..|ps| - 1];
      assert forall p :: p in init ==> p in ps;
      ExampleLinesNoBreaks(src, tgt, init);
      assert ps[|ps| - 1] in ps;
    }
  }

  /** The fixed lines of both forms hold no line feed of their own. */
  lemma FixedLinesNoBreaks(query: string, src: string, tgt: string)
    requires '\n' !in query && '\n' !in src && '\n' !in tgt
    ensures NoBreaks(FallbackLines(query, src, tgt))
    ensures NoBreaks([FewShotHeader(src, tgt), "", "Examples:"])
    ensures NoBreaks(["Sentence to translate:", QueryLine(src, query)])
  {
  }

  /** The pairs shown are among the stored pairs. */
  lemma TopPairsStored(scores: seq<real>, pairs: seq<Pair>, k: nat)
    requires |scores| == |pairs|
    ensures forall p :: p in TopPairs(scores, pairs, k) ==> p in pairs
  {
    var top := TopPairs(scores, pairs, k);
    var kept := Ranking.Kept(scores, k);
    forall p | p in top ensures p in pairs {
      var a :| 0 <= a < |top| && top[a] == p;
      assert top[a] == pairs[kept[a]];
    }
  }

  /** When no language name, query, example sentence or example translation
      holds a line feed, the prompt text splits back into its lines. */
  lemma PromptSplits(query: string, src: string, tgt: string, pairs: seq<Pair>, scores: seq<real>, k: nat)
    requires |scores| == |pairs|
    requires '\n' !in query && '\n' !in src && '\n' !in tgt
    requires forall p :: p in pairs ==> '\n' !in p.sentence && '\n' !in p.translation
    ensures SplitLines(PromptText(query, src, tgt, pairs, scores, k)) == PromptLines(query, src, tgt, pairs, scores, k)
  {
    var lines := PromptLines(query, src, tgt, pairs, scores, k);
    var top := TopPairs(scores, pairs, k);
    TopPairsStored(scores, pairs, k);
    ExampleLinesNoBreaks(src, tgt, top);
    FixedLinesNoBreaks(query, src, tgt);
    if pairs != [] && top != [] {
      assert lines == FewShotLines(query, src, tgt, top);
    }
    assert NoBreaks(lines);
    SplitJoin(lines);
  }
}
