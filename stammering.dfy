/** Stammering detection: explainable repetition heuristics over a translated
    sentence.

    Both sentences are normalised into word tokens (lower-cased, punctuation
    removed, split on whitespace). A translation with no tokens is never
    flagged; otherwise it is flagged when any of four heuristics holds:
    character flooding in the raw lower-cased text, a run of repeated tokens
    that is long and longer than any in the source, a repeated multi-token
    trigram, or low lexical diversity in a long output.

    Character classes follow Python's: whitespace is exactly the set Python
    treats as whitespace (the same for `str.split()` and `re`'s `\s`); word
    characters and lower-casing are restricted to ASCII.
 */
module Stammering {
  import opened Text

  // ---------------------------------------------------------------------------
  // Characters

  /** Python whitespace (`str.isspace()`, and `\s` in a `str` pattern). */
  predicate IsSpace(c: char)
  {
    || ('\t' <= c <= '\r')
    || ('\U{1C}' <= c <= '\U{1F}')
    || c == ' ' || c == '\U{85}' || c == '\U{A0}' || c == '\U{1680}'
    || ('\U{2000}' <= c <= '\U{200A}')
    || c == '\U{2028}' || c == '\U{2029}' || c == '\U{202F}' || c == '\U{205F}' || c == '\U{3000}'
  }

  /** `\w`, restricted to ASCII: a letter, a digit or the underscore. */
  predicate IsWordChar(c: char)
  {
    ('a' <= c <= 'z') || ('A' <= c <= 'Z') || ('0' <= c <= '9') || c == '_'
  }

  predicate IsUpper(c: char)
  {
    'A' <= c <= 'Z'
  }

  /** `str.lower()` on one character, restricted to ASCII. */
  function LowerChar(c: char): (d: char)
    ensures !IsUpper(d)
    ensures IsWordChar(d) == IsWordChar(c) && IsSpace(d) == IsSpace(c)
    ensures IsUpper(c) ==> d as int == c as int + 32
    ensures !IsUpper(c) ==> d == c
  {
    if IsUpper(c) then (c as int + 32) as char else c
  }

  /** `str.lower()`. */
  function Lower(s: string): string
  {
    seq(|s|, i requires 0 <= i < |s| => LowerChar(s[i]))
  }

  // ---------------------------------------------------------------------------
  // Tokenisation

  /** `re.sub(r"[^\w\s]", "", s)`: keeps word characters and whitespace, in order. */
  function StripPunctuation(s: string): (r: string)
    ensures forall c :: c in r ==> c in s && (IsWordChar(c) || IsSpace(c))
  {
    if s == [] then []
    else (if IsWordChar(s[0]) || IsSpace(s[0]) then [s[0]] else []) + StripPunctuation(s[1..])
  }

  /** The length of the leading run of non-whitespace characters. */
  function WordLength(s: string): (n: nat)
    ensures n <= |s|
    ensures forall i :: 0 <= i < n ==> !IsSpace(s[i])
    ensures n < |s| ==> IsSpace(s[n])
  {
    if s == [] || IsSpace(s[0]) then 0 else 1 + WordLength(s[1..])
  }

  /** `s.split()`: the maximal runs of non-whitespace characters. */
  function Split(s: string): (words: seq<string>)
    ensures forall w :: w in words ==> w != [] && forall c :: c in w ==> c in s && !IsSpace(c)
    decreases |s|
  {
    if s == [] then []
    else if IsSpace(s[0]) then Split(s[1..])
    else
      var n := WordLength(s);
      [s[..n]] + Split(s[n..])
  }

  /** A well-formed token: non-empty, lower-case word characters only. */
  predicate IsToken(w: string)
  {
    w != [] && forall i :: 0 <= i < |w| ==> IsWordChar(w[i]) && !IsUpper(w[i])
  }

  /** `normalize`: lower-case, remove punctuation, split on whitespace. Every
      token is non-empty and made of lower-case word characters only. */
  function Normalize(text: string): (tokens: seq<string>)
    ensures forall t :: t in tokens ==> IsToken(t)
  {
    var lowered := Lower(text);
    assert forall c :: c in lowered ==> !IsUpper(c);
    Split(StripPunctuation(lowered))
  }

  // ---------------------------------------------------------------------------
  // Runs of equal adjacent elements

  /** `s[i .. i + n]` is a non-empty run of equal elements. */
  predicate RunAt<T(==)>(s: seq<T>, i: int, n: int)
  {
    0 <= i && 0 < n && i + n <= |s| && forall p :: i <= p < i + n ==> s[p] == s[i]
  }

  /** The length of the first group `itertools.groupby` yields: the whole run
      of elements equal to `s[0]`. */
  function LeadRun<T(==)>(s: seq<T>): (n: nat)
    requires s != []
    ensures RunAt(s, 0, n)
    ensures n < |s| ==> s[n] != s[0]
  {
    if |s| == 1 || s[1] != s[0] then 1 else 1 + LeadRun(s[1..])
  }

  /** `max_consecutive_repetition`: the largest group length over the groups
      of `groupby(s)`, or 0 when there are none. */
  function MaxRun<T(==)>(s: seq<T>): (r: nat)
    ensures r <= |s|
    ensures r == 0 <==> s == []
    decreases |s|
  {
    if s == [] then 0
    else
      var g := LeadRun(s);
      var rest := MaxRun(s[g..]);
      if g >= rest then g else rest
  }

  // ---------------------------------------------------------------------------
  // The four heuristics

  /** The number of equal characters in a row that counts as flooding. */
  const FloodLength: nat := 6

  /** `(.)\1{5,}` matches at `i`: a character other than a line feed and five
      more copies of it. */
  predicate FloodAt(t: string, i: int)
  {
    RunAt(t, i, FloodLength) && t[i] != '\n'
  }

  /** `re.search(r"(.)\1{5,}", t)`, scanning from the left. */
  predicate Flooded(t: string)
    decreases |t|
  {
    |t| >= FloodLength && (FloodAt(t, 0) || Flooded(t[1..]))
  }

  /** Three adjacent tokens. */
  type Trigram = (string, string, string)

  /** `zip(w, w[1:], w[2:])`: every window of three adjacent tokens. */
  function Trigrams(w: seq<string>): seq<Trigram>
  {
    if |w| < 3 then []
    else seq(|w| - 2, i requires 0 <= i < |w| - 2 => (w[i], w[i + 1], w[i + 2]))
  }

  /** The number of occurrences of `x` in `xs`. */
  function Count(xs: seq<Trigram>, x: Trigram): nat
  {
    if xs == [] then 0 else (if xs[0] == x then 1 else 0) + Count(xs[1..], x)
  }

  lemma {:induction false} CountAbsent(xs: seq<Trigram>, x: Trigram)
    ensures x !in xs <==> Count(xs, x) == 0
  {
    if xs != [] {
      CountAbsent(xs[1..], x);
      assert xs == [xs[0]] + xs[1..];
    }
  }

  /** `Counter(xs)`: every distinct element, mapped to how often it occurs. */
  function Tally(xs: seq<Trigram>): (m: map<Trigram, nat>)
    ensures forall x :: x in m <==> x in xs
    ensures forall x :: x in m ==> m[x] == Count(xs, x)
  {
    if xs == [] then map[]
    else
      var m := Tally(xs[1..]);
      var x := xs[0];
      assert forall y :: y in xs <==> y == x || y in xs[1..] by {
        assert xs == [x] + xs[1..];
      }
      assert forall y :: Count(xs, y) == (if y == x then 1 else 0) + Count(xs[1..], y);
      CountAbsent(xs[1..], x);
      m[x := (if x in m then m[x] else 0) + 1]
  }

  /** `len(set(tri)) > 1`. */
  predicate Mixed(tri: Trigram)
  {
    |{tri.0, tri.1, tri.2}| > 1
  }

  /** Phrase repetition: some trigram occurs three or more times and is not a
      single token repeated. */
  predicate PhraseRepeated(w: seq<string>)
  {
    var counts := Tally(Trigrams(w));
    exists tri | tri in counts :: counts[tri] >= 3 && Mixed(tri)
  }

  /** The distinct tokens, `set(w)`. */
  function Distinct(w: seq<string>): set<string>
  {
    set x | x in w
  }

  /** Low lexical diversity: at least eight tokens, fewer than 40% distinct. */
  predicate LowDiversity(w: seq<string>)
    requires w != []
  {
    var ratio := |Distinct(w)| as real / |w| as real;
    |w| >= 8 && ratio < 0.4
  }

  /** The decision sequence of `detect_stammering`, given the source tokens,
      the translated tokens and the lower-cased raw translation. */
  predicate Verdict(src: seq<string>, tgt: seq<string>, lowered: string)
  {
    if tgt == [] then false
    else if Flooded(lowered) then true
    else
      var srcRep := MaxRun(src);
      var tgtRep := MaxRun(tgt);
      if tgtRep >= 4 && tgtRep > srcRep then true
      else if PhraseRepeated(tgt) then true
      else if LowDiversity(tgt) then true
      else false
  }

  /** `detect_stammering`. */
  predicate DetectStammering(source: string, translated: string)
  {
    Verdict(Normalize(source), Normalize(translated), Lower(translated))
  }

  // ---------------------------------------------------------------------------
  // Reference definitions the heuristics are checked against

  /** The characters of `s` other than whitespace, in order. */
  function RemoveSpaces(s: string): string
  {
    if s == [] then [] else (if IsSpace(s[0]) then [] else [s[0]]) + RemoveSpaces(s[1..])
  }

  /** The word characters of `s`, in order. */
  function WordChars(s: string): string
  {
    if s == [] then [] else (if IsWordChar(s[0]) then [s[0]] else []) + WordChars(s[1..])
  }

  /** The tokens written one after another. */
  function Concat(ws: seq<string>): string
  {
    if ws == [] then [] else ws[0] + Concat(ws[1..])
  }

  /** The trigrams starting at `i` and at `j` are the same three tokens. */
  predicate SameTrigram(w: seq<string>, i: int, j: int)
  {
    0 <= i && 0 <= j && i + 2 < |w| && j + 2 < |w|
    && w[i] == w[j] && w[i + 1] == w[j + 1] && w[i + 2] == w[j + 2]
  }

  /** Some trigram of two or more distinct tokens starts at three different positions. */
  ghost predicate RepeatedPhrase(w: seq<string>)
  {
    exists i, j, l :: 0 <= i < j < l && SameTrigram(w, i, j) && SameTrigram(w, i, l)
      && (w[i] != w[i + 1] || w[i + 1] != w[i + 2])
  }

  /** The translation has a run of at least four equal tokens longer than
      every run of equal tokens in the source. */
  ghost predicate LongerRun(src: seq<string>, tgt: seq<string>)
  {
    exists i, n :: RunAt(tgt, i, n) && n >= 4 && forall j, m :: RunAt(src, j, m) ==> m < n
  }

  // ---------------------------------------------------------------------------
  // Tokenisation properties

  lemma {:induction false} LowerNoUpper(s: string)
    requires forall i :: 0 <= i < |s| ==> !IsUpper(s[i])
    ensures Lower(s) == s
  {
  }

  /** Lower-casing the text first does not change its tokens. */
  lemma NormalizeLower(text: string)
    ensures Normalize(Lower(text)) == Normalize(text)
  {
    LowerNoUpper(Lower(text));
  }

  lemma {:induction false} WordLengthAll(w: string)
    requires forall i :: 0 <= i < |w| ==> !IsSpace(w[i])
    ensures WordLength(w) == |w|
  {
    if w != [] {
      WordLengthAll(w[1..]);
    }
  }

  lemma {:induction false} SplitWord(w: string, rest: string)
    requires w != [] && forall i :: 0 <= i < |w| ==> !IsSpace(w[i])
    ensures Split(w) == [w]
    ensures Split(w + " " + rest) == [w] + Split(rest)
  {
    WordLengthAll(w);
    assert w[..|w|] == w && w[|w|..] == [];
    var s := w + " " + rest;
    var n := WordLength(s);
    assert forall i :: 0 <= i < |w| ==> s[i] == w[i];
    assert IsSpace(s[|w|]);
    assert n == |w|;
    assert s[..n] == w;
    assert s[n..] == " " + rest && (" " + rest)[1..] == rest;
  }

  /** A leading word followed by whitespace (or nothing) ends where it ends
      in the longer text. */
  lemma WordLengthPrefix(a: string, t: string)
    requires WordLength(a) < |a| || t == [] || IsSpace(t[0])
    ensures WordLength(a + t) == WordLength(a)
  {
    var s := a + t;
    var m := WordLength(a);
    var n := WordLength(s);
    assert forall i :: 0 <= i < m ==> s[i] == a[i];
    assert m == |s| || IsSpace(s[m]);
    assert n <= m;
  }

  /** `str.split()` cuts at every whitespace character: the words of
      `a + [c] + b` are the words of `a` followed by the words of `b`. */
  lemma {:induction false} SplitAtSpace(a: string, c: char, b: string)
    requires IsSpace(c)
    ensures Split(a + [c] + b) == Split(a) + Split(b)
    decreases |a|
  {
    var s := a + [c] + b;
    if a == [] {
      assert s[1..] == b;
    } else if IsSpace(a[0]) {
      assert s[1..] == a[1..] + [c] + b;
      SplitAtSpace(a[1..], c, b);
    } else {
      var m := WordLength(a);
      WordLengthPrefix(a, [c] + b);
      assert a + ([c] + b) == s;
      assert s[..m] == a[..m];
      assert s[m..] == a[m..] + [c] + b;
      SplitAtSpace(a[m..], c, b);
    }
  }

  /** Splitting tokens joined by single spaces gives the tokens back. */
  lemma {:induction false} SplitUnwords(ws: seq<string>)
    requires forall a :: 0 <= a < |ws| ==> ws[a] != [] && forall i :: 0 <= i < |ws[a]| ==> !IsSpace(ws[a][i])
    ensures Split(Join(ws, " ")) == ws
  {
    if |ws| == 1 {
      SplitWord(ws[0], "");
    } else if |ws| > 1 {
      SplitUnwords(ws[1..]);
      SplitWord(ws[0], Join(ws[1..], " "));
    }
  }

  /** The substitution works character by character: it keeps exactly the
      word and whitespace characters, in order. */
  lemma StripChar(c: char)
    ensures StripPunctuation([c]) == if IsWordChar(c) || IsSpace(c) then [c] else []
  {
    assert [c][1..] == [];
  }

  lemma {:induction false} StripAppend(a: string, b: string)
    ensures StripPunctuation(a + b) == StripPunctuation(a) + StripPunctuation(b)
  {
    if a == [] {
      assert a + b == b;
    } else {
      StripAppend(a[1..], b);
      assert (a + b)[1..] == a[1..] + b;
    }
  }

  lemma {:induction false} StripKeeps(s: string)
    requires forall i :: 0 <= i < |s| ==> IsWordChar(s[i]) || IsSpace(s[i])
    ensures StripPunctuation(s) == s
  {
    if s != [] {
      StripKeeps(s[1..]);
      assert s == [s[0]] + s[1..];
    }
  }

  /** Text made of lower-case word characters and spaces. */
  predicate TokenText(s: string)
  {
    forall i :: 0 <= i < |s| ==> s[i] == ' ' || (IsWordChar(s[i]) && !IsUpper(s[i]))
  }

  lemma {:induction false} JoinTokenText(ws: seq<string>)
    requires forall a :: 0 <= a < |ws| ==> IsToken(ws[a])
    ensures TokenText(Join(ws, " "))
  {
    if |ws| > 1 {
      JoinTokenText(ws[1..]);
      var t := Join(ws[1..], " ");
      assert IsToken(ws[0]);
      forall i | 0 <= i < |ws[0] + " " + t|
        ensures (ws[0] + " " + t)[i] == ' ' || (IsWordChar((ws[0] + " " + t)[i]) && !IsUpper((ws[0] + " " + t)[i]))
      {
        if i > |ws[0]| {
          assert (ws[0] + " " + t)[i] == t[i - |ws[0]| - 1];
        }
      }
    }
  }

  /** Well-formed tokens joined by single spaces normalise back to themselves. */
  lemma NormalizeUnwords(ws: seq<string>)
    requires forall a :: 0 <= a < |ws| ==> IsToken(ws[a])
    ensures Normalize(Join(ws, " ")) == ws
  {
    var text := Join(ws, " ");
    JoinTokenText(ws);
    LowerNoUpper(text);
    StripKeeps(text);
    SplitUnwords(ws);
  }

  lemma {:induction false} RemoveSpacesAppend(a: string, b: string)
    ensures RemoveSpaces(a + b) == RemoveSpaces(a) + RemoveSpaces(b)
  {
    if a != [] {
      RemoveSpacesAppend(a[1..], b);
      assert (a + b)[1..] == a[1..] + b;
    } else {
      assert a + b == b;
    }
  }

  lemma {:induction false} RemoveSpacesNone(a: string)
    requires forall i :: 0 <= i < |a| ==> !IsSpace(a[i])
    ensures RemoveSpaces(a) == a
  {
    if a != [] {
      RemoveSpacesNone(a[1..]);
      assert a == [a[0]] + a[1..];
    }
  }

  /** The words of `s.split()`, written one after another, are the
      non-whitespace characters of `s`. */
  lemma {:induction false} ConcatSplit(s: string)
    ensures Concat(Split(s)) == RemoveSpaces(s)
    decreases |s|
  {
    if s != [] {
      if IsSpace(s[0]) {
        ConcatSplit(s[1..]);
      } else {
        var n := WordLength(s);
        ConcatSplit(s[n..]);
        var ws := [s[..n]] + Split(s[n..]);
        assert ws[1..] == Split(s[n..]);
        RemoveSpacesAppend(s[..n], s[n..]);
        RemoveSpacesNone(s[..n]);
        assert s[..n] + s[n..] == s;
      }
    }
  }

  lemma {:induction false} RemoveSpacesStrip(s: string)
    ensures RemoveSpaces(StripPunctuation(s)) == WordChars(s)
  {
    if s != [] {
      RemoveSpacesStrip(s[1..]);
      var head := if IsWordChar(s[0]) || IsSpace(s[0]) then [s[0]] else [];
      RemoveSpacesAppend(head, StripPunctuation(s[1..]));
    }
  }

  /** The tokens, written one after another, are exactly the word characters
      of the lower-cased text, in order: nothing but punctuation and
      whitespace is lost. */
  lemma NormalizeContents(text: string)
    ensures Concat(Normalize(text)) == WordChars(Lower(text))
  {
    ConcatSplit(StripPunctuation(Lower(text)));
    RemoveSpacesStrip(Lower(text));
  }

  // ---------------------------------------------------------------------------
  // The longest run

  /** No run of equal adjacent elements is longer than `MaxRun`. */
  lemma {:induction false} MaxRunBound<T>(s: seq<T>, i: int, n: int)
    requires RunAt(s, i, n)
    ensures n <= MaxRun(s)
    decreases |s|
  {
    var g := LeadRun(s);
    if i < g {
      assert s[i] == s[0];
      assert i + n <= g;
    } else {
      var rest := s[g..];
      assert RunAt(rest, i - g, n) by {
        forall p | i - g <= p < i - g + n ensures rest[p] == rest[i - g] {
          assert rest[p] == s[p + g];
        }
      }
      MaxRunBound(rest, i - g, n);
    }
  }

  /** Some run of equal adjacent elements is as long as `MaxRun`. */
  lemma {:induction false} MaxRunAttained<T>(s: seq<T>)
    requires s != []
    ensures exists i :: RunAt(s, i, MaxRun(s))
    decreases |s|
  {
    var g := LeadRun(s);
    var rest := s[g..];
    if g < MaxRun(rest) {
      assert MaxRun(s) == MaxRun(rest);
      MaxRunAttained(rest);
      var j :| RunAt(rest, j, MaxRun(rest));
      assert RunAt(s, j + g, MaxRun(rest)) by {
        forall p | j + g <= p < j + g + MaxRun(rest) ensures s[p] == s[j + g] {
          assert s[p] == rest[p - g];
        }
      }
    } else {
      assert MaxRun(s) == g;
      assert RunAt(s, 0, g);
    }
  }

  /** The amplification test says that the translation has a run of four or
      more equal tokens that is longer than every run in the source. */
  lemma AmplifiedIff(src: seq<string>, tgt: seq<string>)
    ensures (MaxRun(tgt) >= 4 && MaxRun(tgt) > MaxRun(src)) <==> LongerRun(src, tgt)
  {
    if MaxRun(tgt) >= 4 && MaxRun(tgt) > MaxRun(src) {
      MaxRunAttained(tgt);
      var i :| RunAt(tgt, i, MaxRun(tgt));
      forall j, m | RunAt(src, j, m) ensures m < MaxRun(tgt) {
        MaxRunBound(src, j, m);
      }
      assert RunAt(tgt, i, MaxRun(tgt));
    }
    if LongerRun(src, tgt) {
      var i, n :| RunAt(tgt, i, n) && n >= 4 && forall j, m :: RunAt(src, j, m) ==> m < n;
      MaxRunBound(tgt, i, n);
      if src != [] {
        MaxRunAttained(src);
        var j :| RunAt(src, j, MaxRun(src));
      }
    }
  }

  // ---------------------------------------------------------------------------
  // Character flooding

  /** The left-to-right scan finds flooding exactly when it occurs somewhere. */
  lemma {:induction false} FloodedIff(t: string)
    ensures Flooded(t) <==> exists i :: FloodAt(t, i)
    decreases |t|
  {
    if |t| >= FloodLength {
      var tail := t[1..];
      FloodedIff(tail);
      forall i | 0 <= i ensures FloodAt(tail, i) <==> FloodAt(t, i + 1) {
        assert forall p :: i <= p < i + FloodLength && p < |tail| ==> tail[p] == t[p + 1];
      }
      if exists i :: FloodAt(t, i) {
        var i :| FloodAt(t, i);
        if i > 0 {
          assert FloodAt(tail, i - 1);
        }
      }
      if Flooded(tail) {
        var i :| FloodAt(tail, i);
        assert FloodAt(t, i + 1);
      }
    }
  }

  // ---------------------------------------------------------------------------
  // Phrase repetition

  lemma MixedIff(tri: Trigram)
    ensures Mixed(tri) <==> tri.0 != tri.1 || tri.1 != tri.2
  {
  }

  lemma {:induction false} CountSplit(xs: seq<Trigram>, x: Trigram, m: nat)
    requires m <= |xs|
    ensures Count(xs, x) == Count(xs[..m], x) + Count(xs[m..], x)
  {
    if m > 0 {
      CountSplit(xs[1..], x, m - 1);
      assert xs[1..][..m - 1] == xs[..m][1..];
      assert xs[1..][m - 1..] == xs[m..];
    } else {
      assert xs[..m] == [] && xs[m..] == xs;
    }
  }

  /** The first occurrence of `x`, and one fewer occurrence after it. */
  lemma {:induction false} FirstOccurrence(xs: seq<Trigram>, x: Trigram) returns (i: nat)
    requires Count(xs, x) >= 1
    ensures i < |xs| && xs[i] == x && Count(xs[i + 1..], x) == Count(xs, x) - 1
  {
    if xs[0] == x {
      i := 0;
    } else {
      var k := FirstOccurrence(xs[1..], x);
      i := k + 1;
      assert xs[1..][k + 1..] == xs[i + 1..];
    }
  }

  lemma ThreeOccurrences(xs: seq<Trigram>, x: Trigram) returns (i: nat, j: nat, l: nat)
    requires Count(xs, x) >= 3
    ensures i < j < l < |xs| && xs[i] == x && xs[j] == x && xs[l] == x
  {
    var a := FirstOccurrence(xs, x);
    var ys := xs[a + 1..];
    var b := FirstOccurrence(ys, x);
    var zs := ys[b + 1..];
    var c := FirstOccurrence(zs, x);
    i, j, l := a, a + 1 + b, a + 1 + b + 1 + c;
    assert ys[b] == xs[j];
    assert zs[c] == xs[l];
  }

  lemma CountFromOccurrences(xs: seq<Trigram>, x: Trigram, i: nat, j: nat, l: nat)
    requires i < j < l < |xs| && xs[i] == x && xs[j] == x && xs[l] == x
    ensures Count(xs, x) >= 3
  {
    CountSplit(xs, x, j);
    var front, back := xs[..j], xs[j..];
    CountSplit(front, x, i);
    assert front[i..][0] == x;
    CountSplit(back, x, l - j);
    assert back[..l - j][0] == x && back[l - j..][0] == x;
  }

  /** `count >= 3` in the counter means the trigram occurs at three positions. */
  lemma CountThree(xs: seq<Trigram>, x: Trigram)
    ensures Count(xs, x) >= 3 <==> exists i, j, l :: 0 <= i < j < l < |xs| && xs[i] == x && xs[j] == x && xs[l] == x
  {
    if Count(xs, x) >= 3 {
      var i, j, l := ThreeOccurrences(xs, x);
    }
    if exists i, j, l :: 0 <= i < j < l < |xs| && xs[i] == x && xs[j] == x && xs[l] == x {
      var i, j, l :| 0 <= i < j < l < |xs| && xs[i] == x && xs[j] == x && xs[l] == x;
      CountFromOccurrences(xs, x, i, j, l);
    }
  }

  lemma PhraseWitness(w: seq<string>)
    requires PhraseRepeated(w)
    ensures RepeatedPhrase(w)
  {
    var tris := Trigrams(w);
    var counts := Tally(tris);
    var tri :| tri in counts && counts[tri] >= 3 && Mixed(tri);
    var i, j, l := ThreeOccurrences(tris, tri);
    MixedIff(tri);
    assert |w| >= 3 && |tris| == |w| - 2;
    assert tris[i] == (w[i], w[i + 1], w[i + 2]);
    assert tris[j] == (w[j], w[j + 1], w[j + 2]);
    assert tris[l] == (w[l], w[l + 1], w[l + 2]);
    assert SameTrigram(w, i, j) && SameTrigram(w, i, l);
  }

  lemma RepeatedWitness(w: seq<string>)
    requires RepeatedPhrase(w)
    ensures PhraseRepeated(w)
  {
    var i, j, l :| 0 <= i < j < l && SameTrigram(w, i, j) && SameTrigram(w, i, l)
      && (w[i] != w[i + 1] || w[i + 1] != w[i + 2]);
    var tris := Trigrams(w);
    assert |w| >= 3 && |tris| == |w| - 2;
    var tri := tris[i];
    assert tri == (w[i], w[i + 1], w[i + 2]);
    assert tris[j] == tri && tris[l] == tri;
    CountFromOccurrences(tris, tri, i, j, l);
    MixedIff(tri);
    var counts := Tally(tris);
    assert tri in tris;
    assert tri in counts && counts[tri] >= 3 && Mixed(tri);
  }

  /** The counter-based phrase test says that some trigram of at least two
      distinct tokens starts at three different positions. */
  lemma PhraseRepeatedIff(w: seq<string>)
    ensures PhraseRepeated(w) <==> RepeatedPhrase(w)
  {
    if PhraseRepeated(w) {
      PhraseWitness(w);
    }
    if RepeatedPhrase(w) {
      RepeatedWitness(w);
    }
  }

  /** With fewer than three tokens there are no trigrams to repeat. */
  lemma ShortHasNoPhrase(w: seq<string>)
    requires |w| < 3
    ensures !PhraseRepeated(w)
  {
  }

  // ---------------------------------------------------------------------------
  // Lexical diversity

  lemma RatioBelow(d: real, n: real)
    requires n > 0.0
    ensures d / n < 0.4 <==> 5.0 * d < 2.0 * n
  {
  }

  /** `len(set(w)) / len(w) < 0.4` is `5 * distinct < 2 * total` in integers. */
  lemma LowDiversityIff(w: seq<string>)
    requires w != []
    ensures LowDiversity(w) <==> |w| >= 8 && 5 * |Distinct(w)| < 2 * |w|
  {
    RatioBelow(|Distinct(w)| as real, |w| as real);
  }

  // ---------------------------------------------------------------------------
  // The verdict

  /** The verdict holds exactly when the translation has tokens and one of
      the four heuristics, each stated by its reference definition, holds. */
  lemma DetectIff(source: string, translated: string)
    ensures var src := Normalize(source);
      var tgt := Normalize(translated);
      DetectStammering(source, translated) <==>
        tgt != [] &&
        ((exists i :: FloodAt(Lower(translated), i))
         || LongerRun(src, tgt)
         || RepeatedPhrase(tgt)
         || (|tgt| >= 8 && 5 * |Distinct(tgt)| < 2 * |tgt|))
  {
    var src := Normalize(source);
    var tgt := Normalize(translated);
    FloodedIff(Lower(translated));
    AmplifiedIff(src, tgt);
    PhraseRepeatedIff(tgt);
    if tgt != [] {
      LowDiversityIff(tgt);
    }
  }

  /** A translation without tokens is never flagged, whatever the source. */
  lemma EmptyTranslation(source: string, translated: string)
    requires Normalize(translated) == []
    ensures !DetectStammering(source, translated)
  {
  }

  /** The source sentence matters only through its longest run: a source
      with a longer run can only clear a verdict, never raise one. */
  lemma SourceOnlyThroughRun(source1: string, source2: string, translated: string)
    requires MaxRun(Normalize(source1)) <= MaxRun(Normalize(source2))
    ensures DetectStammering(source2, translated) ==> DetectStammering(source1, translated)
  {
  }

  /** The verdict does not depend on letter case in either sentence. */
  lemma CaseInsensitive(source: string, translated: string)
    ensures DetectStammering(Lower(source), Lower(translated)) == DetectStammering(source, translated)
  {
    NormalizeLower(source);
    NormalizeLower(translated);
    LowerNoUpper(Lower(translated));
  }

  /** Repetition amplification flags a translation whatever its raw text. */
  lemma RunFlags(src: seq<string>, tgt: seq<string>, lowered: string)
    requires MaxRun(tgt) >= 4 && MaxRun(tgt) > MaxRun(src)
    ensures Verdict(src, tgt, lowered)
  {
    assert tgt != [];
  }

  /** A repeated phrase flags a translation whatever its raw text or source. */
  lemma PhraseFlags(src: seq<string>, tgt: seq<string>, lowered: string)
    requires PhraseRepeated(tgt)
    ensures Verdict(src, tgt, lowered)
  {
    var counts := Tally(Trigrams(tgt));
    var tri :| tri in counts && counts[tri] >= 3 && Mixed(tri);
    assert tri in Trigrams(tgt);
  }

  /** Flooding flags a translation that has tokens, whatever the source. */
  lemma FloodFlags(src: seq<string>, tgt: seq<string>, lowered: string)
    requires tgt != [] && Flooded(lowered)
    ensures Verdict(src, tgt, lowered)
  {
  }

  /** A translation of at most two tokens, without flooding or a run of
      four, passes. */
  lemma QuietVerdict(src: seq<string>, tgt: seq<string>, lowered: string)
    requires !Flooded(lowered) && MaxRun(tgt) < 4 && |tgt| < 3
    ensures !Verdict(src, tgt, lowered)
  {
    ShortHasNoPhrase(tgt);
  }

  // ---------------------------------------------------------------------------
  // Worked examples

  /** Two empty sentences: no tokens, no verdict. */
  lemma EmptyPasses()
    ensures !DetectStammering("", "")
  {
  }

  /** Six exclamation marks flood the raw text, but punctuation leaves no
      token, and the token check comes first. */
  lemma PunctuationOnlyPasses(source: string)
    ensures Flooded(Lower("!!!!!!"))
    ensures !DetectStammering(source, "!!!!!!")
  {
    LowerNoUpper("!!!!!!");
  }

  lemma RepeatedWordSource()
    ensures Normalize("the cat sat") == ["the", "cat", "sat"]
  {
    assert "the cat sat" == Join(["the", "cat", "sat"], " ");
    NormalizeUnwords(["the", "cat", "sat"]);
  }

  lemma RepeatedWordTokens()
    ensures Normalize("the the the the cat sat") == ["the", "the", "the", "the", "cat", "sat"]
  {
    var w := ["the", "the", "the", "the", "cat", "sat"];
    assert Join(w[4..], " ") == "cat sat";
    assert Join(w[2..], " ") == "the the cat sat";
    assert "the the the the cat sat" == Join(w, " ");
    NormalizeUnwords(w);
  }

  lemma RepeatedWordRuns()
    ensures MaxRun(["the", "cat", "sat"]) == 1
    ensures MaxRun(["the", "the", "the", "the", "cat", "sat"]) == 4
  {
  }

  /** A word said four times in a row, against a source without repeats. */
  lemma RepeatedWordFlagged()
    ensures DetectStammering("the cat sat", "the the the the cat sat")
  {
    RepeatedWordSource();
    RepeatedWordTokens();
    RepeatedWordRuns();
    RunFlags(["the", "cat", "sat"], ["the", "the", "the", "the", "cat", "sat"], Lower("the the the the cat sat"));
  }

  /** A looping two-word phrase: the trigram `(a, b, a)` occurs three times. */
  lemma PhraseLoopFlagged(source: string)
    ensures DetectStammering(source, "a b a b a b a b")
  {
    PhraseLoopTokens();
    PhraseLoopRepeated();
    PhraseFlags(Normalize(source), ["a", "b", "a", "b", "a", "b", "a", "b"], Lower("a b a b a b a b"));
  }

  lemma PhraseLoopTokens()
    ensures Normalize("a b a b a b a b") == ["a", "b", "a", "b", "a", "b", "a", "b"]
  {
    var w := ["a", "b", "a", "b", "a", "b", "a", "b"];
    assert Join(w[6..], " ") == "a b";
    assert Join(w[4..], " ") == "a b a b";
    assert Join(w[2..], " ") == "a b a b a b";
    assert "a b a b a b a b" == Join(w, " ");
    NormalizeUnwords(w);
  }

  lemma PhraseLoopRepeated()
    ensures PhraseRepeated(["a", "b", "a", "b", "a", "b", "a", "b"])
  {
    var w := ["a", "b", "a", "b", "a", "b", "a", "b"];
    assert SameTrigram(w, 0, 2) && SameTrigram(w, 0, 4);
    RepeatedWitness(w);
  }

  lemma PlainSourceTokens()
    ensures Normalize("hello there") == ["hello", "there"]
  {
    assert "hello there" == Join(["hello", "there"], " ");
    NormalizeUnwords(["hello", "there"]);
  }

  lemma PlainTranslationTokens()
    ensures Normalize("hi there") == ["hi", "there"]
  {
    assert "hi there" == Join(["hi", "there"], " ");
    NormalizeUnwords(["hi", "there"]);
  }

  lemma PlainTranslationUnflooded()
    ensures !Flooded(Lower("hi there"))
  {
    var t := "hi there";
    LowerNoUpper(t);
    forall i | 0 <= i <= 2 ensures !FloodAt(t, i) {
      assert t[i + 1] != t[i];
    }
    FloodedIff(t);
  }

  /** An ordinary translation passes. */
  lemma PlainTranslationPasses()
    ensures !DetectStammering("hello there", "hi there")
  {
    PlainSourceTokens();
    PlainTranslationTokens();
    PlainTranslationUnflooded();
    assert MaxRun(["hi", "there"]) == 1;
    QuietVerdict(["hello", "there"], ["hi", "there"], Lower("hi there"));
  }

  lemma ShortElongationTokens()
    ensures Normalize("soooo good") == ["soooo", "good"]
  {
    assert "soooo good" == Join(["soooo", "good"], " ");
    NormalizeUnwords(["soooo", "good"]);
  }

  lemma ShortElongationUnflooded()
    ensures !Flooded(Lower("soooo good"))
  {
    var t := "soooo good";
    LowerNoUpper(t);
    forall i | 0 <= i <= 4 ensures !FloodAt(t, i) {
      if i == 0 { assert t[1] != t[0]; } else { assert t[5] != t[i]; }
    }
    FloodedIff(t);
  }

  /** Four equal letters in a row are below the flooding threshold of six,
      so this translation passes whatever the source. */
  lemma ShortElongationPasses(source: string)
    ensures !DetectStammering(source, "soooo good")
  {
    ShortElongationTokens();
    ShortElongationUnflooded();
    assert MaxRun(["soooo", "good"]) == 1;
    QuietVerdict(Normalize(source), ["soooo", "good"], Lower("soooo good"));
  }

  lemma DocstringElongationTokens()
    ensures Normalize("sooooo") == ["sooooo"]
  {
    assert "sooooo" == Join(["sooooo"], " ");
    NormalizeUnwords(["sooooo"]);
  }

  lemma DocstringElongationUnflooded()
    ensures !Flooded(Lower("sooooo"))
  {
    var t := "sooooo";
    LowerNoUpper(t);
    assert t[1] != t[0];
    assert forall i :: FloodAt(t, i) ==> i == 0;
    FloodedIff(t);
  }

  /** The docstring's example of flooding, `sooooo`, has five equal letters,
      one short of the pattern's six, so the code does not flag it. */
  lemma DocstringElongationPasses(source: string)
    ensures !DetectStammering(source, "sooooo")
  {
    DocstringElongationTokens();
    DocstringElongationUnflooded();
    assert MaxRun(["sooooo"]) == 1;
    QuietVerdict(Normalize(source), ["sooooo"], Lower("sooooo"));
  }

  lemma SixLettersTokens()
    ensures Normalize("soooooo") == ["soooooo"]
  {
    assert "soooooo" == Join(["soooooo"], " ");
    NormalizeUnwords(["soooooo"]);
  }

  lemma SixLettersFlooded()
    ensures Flooded(Lower("soooooo"))
  {
    var t := "soooooo";
    LowerNoUpper(t);
    assert FloodAt(t, 1);
    FloodedIff(t);
  }

  /** With six equal letters in a row the same word is flagged. */
  lemma SixLettersFlagged(source: string)
    ensures DetectStammering(source, "soooooo")
  {
    SixLettersTokens();
    SixLettersFlooded();
    FloodFlags(Normalize(source), ["soooooo"], Lower("soooooo"));
  }
}
