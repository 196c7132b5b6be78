/** Matching of recognised speech against registered voice commands.

    Text is normalised (lower-cased, then stripped of the listed Chinese
    punctuation, the ASCII apostrophe and ASCII white space) and each
    registered command is scored against it; the first command with the
    highest score wins if its score reaches the threshold.

    Lower-casing is the character map `lower`, a parameter. Scores are exact
    rationals (`real`) where the source uses `double`. */
module CommandMatcher {
  import opened Text

  // ---------------------------------------------------------------------
  // Normalisation
  // ---------------------------------------------------------------------

  /** The characters the normalising regular expression removes: the class
      `[，。！？、；：''（）【】《》\s]` (the C++ literal `"…："  "''…"` is two
      adjacent literals, so `"` is not in the class), with `\s` the ASCII
      white space of PCRE: tab, line feed, vertical tab, form feed, carriage
      return and space. */
  predicate Removable(c: char)
  {
    c in {'，', '。', '！', '？', '、', '；', '：', '\'', '（', '）', '【', '】', '《', '》',
          ' ', '\t', '\n', '\U{000B}', '\U{000C}', '\r'}
  }

  /** The characters of `s` that are not removable, in order. */
  function Strip(s: string): (r: string)
    ensures |r| <= |s|
    ensures forall k :: 0 <= k < |r| ==> !Removable(r[k])
    ensures (forall k :: 0 <= k < |s| ==> !Removable(s[k])) ==> r == s
    decreases |s|
  {
    if |s| == 0 then []
    else if Removable(s[0]) then Strip(s[1..])
    else [s[0]] + Strip(s[1..])
  }

  /** `normalizeText`: lower-case, then drop every removable character. */
  function Normalize(lower: char -> char, text: string): (r: string)
    ensures |r| <= |text|
    ensures forall k :: 0 <= k < |r| ==> !Removable(r[k])
  {
    Strip(MapChars(lower, text))
  }

  lemma {:induction false} StripConcat(a: string, b: string)
    ensures Strip(a + b) == Strip(a) + Strip(b)
    decreases |a|
  {
    if |a| > 0 {
      assert (a + b)[0] == a[0];
      assert (a + b)[1..] == a[1..] + b;
      StripConcat(a[1..], b);
    } else {
      assert a + b == b;
    }
  }

  /** Normalisation works character by character: it distributes over
      concatenation, and a single character is kept (lower-cased) or
      dropped. */
  lemma NormalizeConcat(lower: char -> char, a: string, b: string)
    ensures Normalize(lower, a + b) == Normalize(lower, a) + Normalize(lower, b)
  {
    MapCharsConcat(lower, a, b);
    StripConcat(MapChars(lower, a), MapChars(lower, b));
  }

  lemma NormalizeChar(lower: char -> char, c: char)
    ensures Normalize(lower, [c]) == if Removable(lower(c)) then [] else [lower(c)]
  {
    assert MapChars(lower, [c]) == [lower(c)];
    assert [lower(c)][1..] == [];
  }

  /** With an idempotent lower-casing, normalising twice is normalising once. */
  lemma NormalizeIdempotent(lower: char -> char, text: string)
    requires forall c :: lower(lower(c)) == lower(c)
    ensures Normalize(lower, Normalize(lower, text)) == Normalize(lower, text)
  {
    var n := Normalize(lower, text);
    LowerFixes(lower, MapChars(lower, text));
    assert MapChars(lower, n) == n;
  }

  lemma {:induction false} LowerFixes(lower: char -> char, s: string)
    requires forall c :: lower(lower(c)) == lower(c)
    requires forall k :: 0 <= k < |s| ==> s[k] == lower(s[k])
    ensures forall k :: 0 <= k < |Strip(s)| ==> Strip(s)[k] == lower(Strip(s)[k])
    decreases |s|
  {
    if |s| > 0 {
      LowerFixes(lower, s[1..]);
    }
  }

  // ---------------------------------------------------------------------
  // Containment and similarity
  // ---------------------------------------------------------------------

  /** `pattern` occurs in `text` starting at position i. */
  ghost predicate OccursAt(text: string, pattern: string, i: int)
  {
    0 <= i <= |text| - |pattern| && text[i..i + |pattern|] == pattern
  }

  /** `QString::contains`: `pattern` occurs in `text` (the empty pattern
      occurs everywhere). */
  function Contains(text: string, pattern: string): (b: bool)
    ensures b <==> exists i :: OccursAt(text, pattern, i)
    decreases |text|
  {
    if pattern <= text then
      assert OccursAt(text, pattern, 0);
      true
    else if |text| == 0 then false
    else
      var b := Contains(text[1..], pattern);
      ContainsShift(text, pattern);
      b
  }

  lemma ContainsShift(text: string, pattern: string)
    requires |text| > 0 && !(pattern <= text)
    ensures (exists i :: OccursAt(text, pattern, i)) <==> (exists i :: OccursAt(text[1..], pattern, i))
  {
    if exists i :: OccursAt(text, pattern, i) {
      var i :| OccursAt(text, pattern, i);
      if i > 0 {
        assert OccursAt(text[1..], pattern, i - 1);
      }
    }
    if exists i :: OccursAt(text[1..], pattern, i) {
      var i :| OccursAt(text[1..], pattern, i);
      assert OccursAt(text, pattern, i + 1);
    }
  }

  /** Containment is "appears between some prefix and some suffix". */
  lemma ContainsSplit(text: string, pattern: string)
    ensures Contains(text, pattern) <==> exists a, b :: text == a + pattern + b
  {
    if Contains(text, pattern) {
      var i :| OccursAt(text, pattern, i);
      assert text == text[..i] + pattern + text[i + |pattern|..];
    }
    if exists a, b :: text == a + pattern + b {
      var a, b :| text == a + pattern + b;
      assert OccursAt(text, pattern, |a|);
    }
  }

  /** `s` with its first occurrence of `c` removed (`indexOf` then
      `remove(index, 1)`). */
  function RemoveFirst(s: string, c: char): (r: string)
    requires c in s
    ensures multiset(s) == multiset(r) + multiset{c}
    decreases |s|
  {
    if s[0] == c then
      assert s == [s[0]] + s[1..];
      s[1..]
    else
      assert s == [s[0]] + s[1..];
      [s[0]] + RemoveFirst(s[1..], c)
  }

  /** The greedy count of `calculateSimilarity`: each character of `s1`, in
      turn, is matched against a not yet matched equal character of `s2`. */
  function CommonCount(s1: string, s2: string): nat
    decreases |s1|
  {
    if |s1| == 0 then 0
    else if s1[0] in s2 then 1 + CommonCount(s1[1..], RemoveFirst(s2, s1[0]))
    else CommonCount(s1[1..], s2)
  }

  /** The greedy count is the size of the multiset intersection, so it does
      not depend on the order of either string. */
  lemma {:induction false} CommonCountIsIntersection(s1: string, s2: string)
    ensures CommonCount(s1, s2) == |multiset(s1) * multiset(s2)|
    decreases |s1|
  {
    if |s1| > 0 {
      var c := s1[0];
      assert s1 == [c] + s1[1..];
      var A := multiset(s1[1..]);
      if c in s2 {
        var s2' := RemoveFirst(s2, c);
        CommonCountIsIntersection(s1[1..], s2');
        var B := multiset(s2');
        assert (A + multiset{c}) * (B + multiset{c}) == A * B + multiset{c} by {
          forall x ensures ((A + multiset{c}) * (B + multiset{c}))[x] == (A * B + multiset{c})[x] {
          }
        }
        assert multiset(s1) == A + multiset{c};
      } else {
        CommonCountIsIntersection(s1[1..], s2);
        var B := multiset(s2);
        assert B[c] == 0;
        assert (A + multiset{c}) * B == A * B by {
          forall x ensures ((A + multiset{c}) * B)[x] == (A * B)[x] {
          }
        }
        assert multiset(s1) == A + multiset{c};
      }
    }
  }

  lemma IntersectionBound(s1: string, s2: string)
    ensures |multiset(s1) * multiset(s2)| <= |s1|
    ensures |multiset(s1) * multiset(s2)| <= |s2|
  {
    assert multiset(s1) * multiset(s2) <= multiset(s1);
    assert multiset(s1) * multiset(s2) <= multiset(s2);
    SubMultisetSize(multiset(s1) * multiset(s2), multiset(s1));
    SubMultisetSize(multiset(s1) * multiset(s2), multiset(s2));
  }

  lemma SubMultisetSize<T>(a: multiset<T>, b: multiset<T>)
    requires a <= b
    ensures |a| <= |b|
  {
    assert b == a + (b - a);
  }

  function Max(a: int, b: int): int
  {
    if a >= b then a else b
  }

  lemma RatioBounds(c: nat, m: nat)
    requires 0 < m && c <= m
    ensures 0.0 <= c as real / m as real <= 1.0
    ensures c as real / m as real == 1.0 <==> c == m
  {
  }

  /** `calculateSimilarity`: 1 for two empty strings, 0 when exactly one is
      empty, otherwise the share of common characters in the longer
      string. */
  function Similarity(s1: string, s2: string): (r: real)
    ensures 0.0 <= r <= 1.0
    ensures |s1| == 0 && |s2| == 0 ==> r == 1.0
    ensures (|s1| == 0) != (|s2| == 0) ==> r == 0.0
  {
    if |s1| == 0 && |s2| == 0 then 1.0
    else if |s1| == 0 || |s2| == 0 then 0.0
    else
      CommonCountIsIntersection(s1, s2);
      IntersectionBound(s1, s2);
      RatioBounds(CommonCount(s1, s2), Max(|s1|, |s2|));
      CommonCount(s1, s2) as real / Max(|s1|, |s2|) as real
  }

  /** For two non-empty strings, similarity is the size of the multiset
      intersection over the longer length. */
  lemma SimilarityIsSharedShare(s1: string, s2: string)
    requires |s1| > 0 && |s2| > 0
    ensures Similarity(s1, s2) == |multiset(s1) * multiset(s2)| as real / Max(|s1|, |s2|) as real
  {
    CommonCountIsIntersection(s1, s2);
  }

  /** Similarity does not depend on the order of its arguments. */
  lemma SimilaritySymmetric(s1: string, s2: string)
    ensures Similarity(s1, s2) == Similarity(s2, s1)
  {
    if |s1| > 0 && |s2| > 0 {
      SimilarityIsSharedShare(s1, s2);
      SimilarityIsSharedShare(s2, s1);
      assert multiset(s1) * multiset(s2) == multiset(s2) * multiset(s1);
    }
  }

  /** Similarity is 1 exactly when the strings are anagrams of each other. */
  lemma SimilarityOneIffAnagram(s1: string, s2: string)
    ensures Similarity(s1, s2) == 1.0 <==> multiset(s1) == multiset(s2)
  {
    if |s1| > 0 && |s2| > 0 {
      var I := multiset(s1) * multiset(s2);
      SimilarityIsSharedShare(s1, s2);
      IntersectionBound(s1, s2);
      RatioBounds(|I|, Max(|s1|, |s2|));
      AnagramIffFullIntersection(s1, s2);
    } else {
      EmptyAnagram(s1, s2);
    }
  }

  lemma AnagramIffFullIntersection(s1: string, s2: string)
    ensures var I := multiset(s1) * multiset(s2);
      |I| == Max(|s1|, |s2|) <==> multiset(s1) == multiset(s2)
  {
    var I := multiset(s1) * multiset(s2);
    IntersectionBound(s1, s2);
    assert |multiset(s1)| == |s1| && |multiset(s2)| == |s2|;
    if |I| == Max(|s1|, |s2|) {
      SubMultisetEqual(I, multiset(s1));
      SubMultisetEqual(I, multiset(s2));
    }
    if multiset(s1) == multiset(s2) {
      assert I == multiset(s1);
    }
  }

  lemma EmptyAnagram(s1: string, s2: string)
    requires |s1| == 0 || |s2| == 0
    ensures Similarity(s1, s2) == 1.0 <==> multiset(s1) == multiset(s2)
  {
    assert |multiset(s1)| == |s1| && |multiset(s2)| == |s2|;
    if |s1| == 0 && |s2| == 0 {
      assert multiset(s1) == multiset(s2);
    }
  }

  lemma SubMultisetEqual<T>(a: multiset<T>, b: multiset<T>)
    requires a <= b && |a| == |b|
    ensures a == b
  {
    assert b == a + (b - a);
    assert |b - a| == 0;
  }

  // ---------------------------------------------------------------------
  // Scoring
  // ---------------------------------------------------------------------

  /** `CommandInfo`: command text, id, tag and aliases. */
  datatype Command = Command(command: string, id: int, tag: string, aliases: seq<string>)

  /** Matcher state: registered commands in registration order, the mode
      and the threshold. */
  datatype Matcher = Matcher(commands: seq<Command>, exact: bool, threshold: real)

  function RealMax(a: real, b: real): real
  {
    if a >= b then a else b
  }

  /** Score of the command text alone in fuzzy mode: 0.9 when the text
      contains the command, else 0.8 when the command contains the text,
      else their similarity. */
  function BaseScore(text: string, cmd: string): (r: real)
    ensures 0.0 <= r <= 1.0
    ensures Contains(text, cmd) ==> r == 0.9
    ensures !Contains(text, cmd) && Contains(cmd, text) ==> r == 0.8
    ensures !Contains(text, cmd) && !Contains(cmd, text) ==> r == Similarity(text, cmd)
  {
    if Contains(text, cmd) then 0.9
    else if Contains(cmd, text) then 0.8
    else Similarity(text, cmd)
  }

  /** An alias hits when, normalised, the text contains it or it contains
      the text. */
  predicate AliasHit(lower: char -> char, text: string, alias: string)
  {
    var a := Normalize(lower, alias);
    Contains(text, a) || Contains(a, text)
  }

  /** Index of the first alias that hits, or the number of aliases if none
      does. */
  function FirstHit(lower: char -> char, text: string, aliases: seq<string>): (k: nat)
    ensures k <= |aliases|
    ensures forall i :: 0 <= i < k ==> !AliasHit(lower, text, aliases[i])
    ensures k < |aliases| ==> AliasHit(lower, text, aliases[k])
    decreases |aliases|
  {
    if |aliases| == 0 then 0
    else if AliasHit(lower, text, aliases[0]) then 0
    else 1 + FirstHit(lower, text, aliases[1..])
  }

  /** `r` is the largest of: the base `score`, the similarity of every alias
      before the first hit, and 0.85 if some alias hits. Aliases after the
      first hit play no part. */
  ghost predicate AliasMax(lower: char -> char, text: string, aliases: seq<string>, score: real, r: real)
  {
    var k := FirstHit(lower, text, aliases);
    && r >= score
    && (forall i :: 0 <= i < k ==> r >= Similarity(text, Normalize(lower, aliases[i])))
    && (k < |aliases| ==> r >= 0.85)
    && (|| r == score
        || (k < |aliases| && r == 0.85)
        || exists i :: 0 <= i < k && r == Similarity(text, Normalize(lower, aliases[i])))
  }

  /** The alias loop: the first alias that contains or is contained in the
      text lifts the score to at least 0.85 and ends the loop; an alias
      before it lifts the score to its similarity. */
  function AliasScore(lower: char -> char, text: string, aliases: seq<string>, score: real): (r: real)
    ensures r >= score
    ensures 0.0 <= score <= 1.0 ==> r <= 1.0
    decreases |aliases|
  {
    if |aliases| == 0 then score
    else
      var a := Normalize(lower, aliases[0]);
      if Contains(text, a) || Contains(a, text) then RealMax(score, 0.85)
      else AliasScore(lower, text, aliases[1..], RealMax(score, Similarity(text, a)))
  }

  /** The alias loop computes exactly the maximum described by `AliasMax`. */
  lemma {:induction false} AliasScoreIsMax(lower: char -> char, text: string, aliases: seq<string>, score: real)
    ensures AliasMax(lower, text, aliases, score, AliasScore(lower, text, aliases, score))
    decreases |aliases|
  {
    if |aliases| > 0 && !AliasHit(lower, text, aliases[0]) {
      var a := Normalize(lower, aliases[0]);
      var score' := RealMax(score, Similarity(text, a));
      var tail := aliases[1..];
      var r := AliasScore(lower, text, tail, score');
      AliasScoreIsMax(lower, text, tail, score');
      var k := FirstHit(lower, text, aliases);
      assert k == 1 + FirstHit(lower, text, tail);
      forall i | 0 <= i < k
        ensures r >= Similarity(text, Normalize(lower, aliases[i]))
      {
        if i > 0 { assert aliases[i] == tail[i - 1]; }
      }
      if r != score' && !(k < |aliases| && r == 0.85) {
        var i :| 0 <= i < k - 1 && r == Similarity(text, Normalize(lower, tail[i]));
        assert aliases[i + 1] == tail[i];
      }
    }
  }

  /** `AliasMax` pins its value: two results satisfying it are equal. */
  lemma AliasMaxUnique(lower: char -> char, text: string, aliases: seq<string>, score: real, r1: real, r2: real)
    requires AliasMax(lower, text, aliases, score, r1) && AliasMax(lower, text, aliases, score, r2)
    ensures r1 == r2
  {
  }

  /** The scan stops at the first hit: aliases after it never change the
      score. */
  lemma {:induction false} AliasesAfterHitIgnored(lower: char -> char, text: string, aliases: seq<string>, extra: seq<string>, score: real)
    requires FirstHit(lower, text, aliases) < |aliases|
    ensures AliasScore(lower, text, aliases + extra, score) == AliasScore(lower, text, aliases, score)
    decreases |aliases|
  {
    assert (aliases + extra)[0] == aliases[0];
    if !AliasHit(lower, text, aliases[0]) {
      assert (aliases + extra)[1..] == aliases[1..] + extra;
      var a := Normalize(lower, aliases[0]);
      AliasesAfterHitIgnored(lower, text, aliases[1..], extra, RealMax(score, Similarity(text, a)));
    }
  }

  /** An alias the text contains, or that contains the text, guarantees a
      score of 0.85, and one with high similarity guarantees that
      similarity, unless an earlier alias already stopped the scan. */
  lemma {:induction false} AliasScoreReaches(lower: char -> char, text: string, aliases: seq<string>, score: real, k: nat)
    requires k < |aliases|
    requires forall i :: 0 <= i < k ==> var a := Normalize(lower, aliases[i]); !Contains(text, a) && !Contains(a, text)
    ensures var a := Normalize(lower, aliases[k]);
      && (Contains(text, a) || Contains(a, text) ==> AliasScore(lower, text, aliases, score) >= 0.85)
      && (!Contains(text, a) && !Contains(a, text) ==> AliasScore(lower, text, aliases, score) >= Similarity(text, a))
    decreases k
  {
    if k > 0 {
      var a := Normalize(lower, aliases[0]);
      assert !Contains(text, a) && !Contains(a, text);
      AliasScoreReaches(lower, text, aliases[1..], RealMax(score, Similarity(text, a)), k - 1);
    }
  }

  /** Score of one command against the normalised text: in exact mode 1 for
      equal normalised strings and 0 otherwise (aliases are ignored); in
      fuzzy mode the base score lifted by the alias loop to the maximum that
      `AliasMax` describes. */
  function Score(lower: char -> char, exact: bool, text: string, c: Command): (r: real)
    ensures 0.0 <= r <= 1.0
    ensures exact ==> (r == 1.0 <==> text == Normalize(lower, c.command)) && (r == 0.0 || r == 1.0)
    ensures !exact ==> AliasMax(lower, text, c.aliases, BaseScore(text, Normalize(lower, c.command)), r)
    ensures !exact && c.aliases == [] ==> r == BaseScore(text, Normalize(lower, c.command))
  {
    if exact then (if text == Normalize(lower, c.command) then 1.0 else 0.0)
    else
      var base := BaseScore(text, Normalize(lower, c.command));
      AliasScoreIsMax(lower, text, c.aliases, base);
      AliasScore(lower, text, c.aliases, base)
  }

  /** Fuzzy score of a text against a command with no aliases that it
      contains: 0.9. */
  lemma ContainedCommandScores(lower: char -> char, text: string, c: Command)
    requires c.aliases == [] && Contains(text, Normalize(lower, c.command))
    ensures Score(lower, false, text, c) == 0.9
  {
  }

  // ---------------------------------------------------------------------
  // Best match
  // ---------------------------------------------------------------------

  function Scores(lower: char -> char, exact: bool, text: string, cs: seq<Command>): (ss: seq<real>)
    ensures |ss| == |cs|
    ensures forall k :: 0 <= k < |cs| ==> ss[k] == Score(lower, exact, text, cs[k])
  {
    seq(|cs|, k requires 0 <= k < |cs| => Score(lower, exact, text, cs[k]))
  }

  /** The best-so-far loop from position i with running best `best` at index
      `at` (-1 before any command beat 0). */
  function BestFrom(ss: seq<real>, i: nat, best: real, at: int): (res: (real, int))
    requires i <= |ss| && -1 <= at < i
    requires at == -1 ==> best == 0.0
    decreases |ss| - i
  {
    if i == |ss| then (best, at)
    else if ss[i] > best then BestFrom(ss, i + 1, ss[i], i)
    else BestFrom(ss, i + 1, best, at)
  }

  /** The first position of a strict maximum above 0, or -1 when no score is
      above 0. */
  ghost predicate FirstArgMax(ss: seq<real>, best: real, at: int)
  {
    && -1 <= at < |ss|
    && (at == -1 ==> best == 0.0 && forall k :: 0 <= k < |ss| ==> ss[k] <= 0.0)
    && (at >= 0 ==> && best == ss[at] && best > 0.0
                    && (forall k :: 0 <= k < |ss| ==> ss[k] <= best)
                    && (forall k :: 0 <= k < at ==> ss[k] < best))
  }

  /** The loop computes the first strict maximum. */
  lemma {:induction false} BestFromIsFirstArgMax(ss: seq<real>, i: nat, best: real, at: int)
    requires i <= |ss| && -1 <= at < i
    requires at == -1 ==> best == 0.0 && forall k :: 0 <= k < i ==> ss[k] <= 0.0
    requires at >= 0 ==> && best == ss[at] && best > 0.0
                         && (forall k :: 0 <= k < i ==> ss[k] <= best)
                         && (forall k :: 0 <= k < at ==> ss[k] < best)
    ensures var res := BestFrom(ss, i, best, at); FirstArgMax(ss, res.0, res.1)
    decreases |ss| - i
  {
    if i < |ss| {
      if ss[i] > best {
        BestFromIsFirstArgMax(ss, i + 1, ss[i], i);
      } else {
        BestFromIsFirstArgMax(ss, i + 1, best, at);
      }
    }
  }

  /** `matchCommandWithInfo`: (-1, "") for empty text or no commands;
      otherwise the id and tag of the first highest-scoring command, if its
      score reaches the threshold and its id is not -1, else (-1, ""). */
  function MatchWithInfo(lower: char -> char, m: Matcher, recognized: string): (res: (int, string))
    ensures res.0 == -1 ==> res.1 == []
    ensures |recognized| == 0 || |m.commands| == 0 ==> res == (-1, [])
    ensures res.0 != -1 ==> exists k :: 0 <= k < |m.commands| && Matched(lower, m, recognized, k) && res == (m.commands[k].id, m.commands[k].tag)
  {
    if |recognized| == 0 || |m.commands| == 0 then (-1, [])
    else
      var text := Normalize(lower, recognized);
      var ss := Scores(lower, m.exact, text, m.commands);
      var (best, at) := BestFrom(ss, 0, 0.0, -1);
      BestFromIsFirstArgMax(ss, 0, 0.0, -1);
      if at != -1 && m.commands[at].id != -1 && best >= m.threshold then
        assert Matched(lower, m, recognized, at);
        (m.commands[at].id, m.commands[at].tag)
      else (-1, [])
  }

  /** Command k wins: its score reaches the threshold and is above 0, no
      command scores higher, and every earlier command scores lower. */
  ghost predicate Matched(lower: char -> char, m: Matcher, recognized: string, k: nat)
    requires k < |m.commands|
  {
    var text := Normalize(lower, recognized);
    var ss := Scores(lower, m.exact, text, m.commands);
    && ss[k] >= m.threshold && ss[k] > 0.0
    && (forall i :: 0 <= i < |ss| ==> ss[i] <= ss[k])
    && (forall i :: 0 <= i < k ==> ss[i] < ss[k])
  }

  /** Conversely, a winning command with an id other than -1 is returned. */
  lemma MatchFindsWinner(lower: char -> char, m: Matcher, recognized: string, k: nat)
    requires |recognized| > 0 && k < |m.commands| && m.commands[k].id != -1
    requires Matched(lower, m, recognized, k)
    ensures MatchWithInfo(lower, m, recognized) == (m.commands[k].id, m.commands[k].tag)
  {
    var text := Normalize(lower, recognized);
    var ss := Scores(lower, m.exact, text, m.commands);
    BestFromIsFirstArgMax(ss, 0, 0.0, -1);
    var (best, at) := BestFrom(ss, 0, 0.0, -1);
    assert at == k;
  }

  /** No command scoring below the threshold is ever returned. */
  lemma BelowThresholdNeverMatches(lower: char -> char, m: Matcher, recognized: string)
    requires forall k :: 0 <= k < |m.commands| ==>
      Score(lower, m.exact, Normalize(lower, recognized), m.commands[k]) < m.threshold
    ensures MatchWithInfo(lower, m, recognized) == (-1, [])
  {
  }

  /** `matchCommand`: the id part of `matchCommandWithInfo`. */
  function MatchCommand(lower: char -> char, m: Matcher, recognized: string): (id: int)
    ensures id == -1 || exists k :: 0 <= k < |m.commands| && m.commands[k].id == id && Matched(lower, m, recognized, k)
    ensures id == MatchWithInfo(lower, m, recognized).0
  {
    MatchWithInfo(lower, m, recognized).0
  }

  /** Text made only of removable characters normalises to empty, which
      every command with a non-empty normalised text contains: all such
      commands score at least 0.8 in fuzzy mode, and with no aliases the
      first of them wins at the default threshold. */
  lemma PunctuationOnlyMatchesFirst(lower: char -> char, recognized: string, cs: seq<Command>)
    requires |recognized| > 0 && forall k :: 0 <= k < |recognized| ==> Removable(lower(recognized[k]))
    requires |cs| > 0 && cs[0].id != -1
    requires forall k :: 0 <= k < |cs| ==> cs[k].aliases == [] && |Normalize(lower, cs[k].command)| > 0
    ensures MatchWithInfo(lower, Matcher(cs, false, 0.6), recognized) == (cs[0].id, cs[0].tag)
  {
    var text := Normalize(lower, recognized);
    AllRemovable(MapChars(lower, recognized));
    assert text == [];
    var m := Matcher(cs, false, 0.6);
    forall k | 0 <= k < |cs|
      ensures Score(lower, false, text, cs[k]) == 0.8
    {
      var n := Normalize(lower, cs[k].command);
      assert n[0..0] == text;
      assert !Contains(text, n);
    }
    MatchFindsWinner(lower, m, recognized, 0);
  }

  lemma {:induction false} AllRemovable(s: string)
    requires forall k :: 0 <= k < |s| ==> Removable(s[k])
    ensures Strip(s) == []
    decreases |s|
  {
    if |s| > 0 {
      AllRemovable(s[1..]);
    }
  }

  // ---------------------------------------------------------------------
  // Registration and settings
  // ---------------------------------------------------------------------

  /** A new matcher: no commands, fuzzy mode, threshold 0.6. */
  function NewMatcher(): (m: Matcher)
    ensures m.commands == [] && !m.exact && m.threshold == 0.6
  {
    Matcher([], false, 0.6)
  }

  /** `registerCommand`: appends, keeping earlier registrations in order. */
  function Register(m: Matcher, command: string, id: int, tag: string, aliases: seq<string>): (m': Matcher)
    ensures |m'.commands| == |m.commands| + 1 && m'.commands[..|m.commands|] == m.commands
    ensures m'.commands[|m.commands|] == Command(command, id, tag, aliases)
    ensures m'.exact == m.exact && m'.threshold == m.threshold
  {
    m.(commands := m.commands + [Command(command, id, tag, aliases)])
  }

  /** `registerCommands`: registers each (command, (id, tag)) in turn, with no
      aliases. */
  function RegisterAll(m: Matcher, entries: seq<(string, (int, string))>): (m': Matcher)
    ensures |m'.commands| == |m.commands| + |entries| && m'.commands[..|m.commands|] == m.commands
    ensures forall k :: 0 <= k < |entries| ==>
      m'.commands[|m.commands| + k] == Command(entries[k].0, entries[k].1.0, entries[k].1.1, [])
    ensures m'.exact == m.exact && m'.threshold == m.threshold
    decreases |entries|
  {
    if |entries| == 0 then m
    else
      var e := entries[0];
      var m1 := Register(m, e.0, e.1.0, e.1.1, []);
      var m' := RegisterAll(m1, entries[1..]);
      assert m'.commands[..|m.commands|] == m'.commands[..|m1.commands|][..|m.commands|];
      m'
  }

  /** `clearCommands`. */
  function ClearCommands(m: Matcher): (m': Matcher)
    ensures m'.commands == [] && m'.exact == m.exact && m'.threshold == m.threshold
  {
    m.(commands := [])
  }

  /** After clearing, nothing matches. */
  lemma ClearedMatchesNothing(lower: char -> char, m: Matcher, recognized: string)
    ensures MatchWithInfo(lower, ClearCommands(m), recognized) == (-1, [])
  {
  }

  function SetExactMatch(m: Matcher, exact: bool): (m': Matcher)
    ensures m'.exact == exact && m'.commands == m.commands && m'.threshold == m.threshold
  {
    m.(exact := exact)
  }

  function SetThreshold(m: Matcher, threshold: real): (m': Matcher)
    ensures m'.threshold == threshold && m'.commands == m.commands && m'.exact == m.exact
  {
    m.(threshold := threshold)
  }

  /** In exact mode a command wins only if its normalised text equals the
      normalised recognised text. */
  lemma ExactModeNeedsEquality(lower: char -> char, m: Matcher, recognized: string)
    requires m.exact && m.threshold > 0.0
    ensures var res := MatchWithInfo(lower, m, recognized);
      res.0 != -1 ==> exists k :: 0 <= k < |m.commands| && res.0 == m.commands[k].id &&
                                 Normalize(lower, m.commands[k].command) == Normalize(lower, recognized)
  {
    var res := MatchWithInfo(lower, m, recognized);
    if res.0 != -1 {
      var k :| 0 <= k < |m.commands| && Matched(lower, m, recognized, k) && res == (m.commands[k].id, m.commands[k].tag);
      var ss := Scores(lower, m.exact, Normalize(lower, recognized), m.commands);
      assert ss[k] > 0.0;
    }
  }
}
