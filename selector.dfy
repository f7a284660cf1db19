/**
 * Choosing a style adapter for an idea: tokenise the idea, score every catalog
 * entry by how many of its lowercased tags are idea tokens, keep the first entry
 * with the highest positive score, and fall back to a fixed entry or to the
 * "none" selection when no tag matches.
 */
module Selector {
  import opened Wrappers
  import opened Text
  import opened LoraStore

  // ---------------------------------------------------------------------------
  // Tokens: the matches of the pattern [a-z0-9-]+ in the lowercased idea

  predicate IsTokenChar(c: char) {
    'a' <= c <= 'z' || '0' <= c <= '9' || c == '-'
  }

  /** The length of the run of token characters that starts at `i`. */
  function RunLength(s: string, i: nat): (n: nat)
    requires i <= |s|
    ensures i + n <= |s|
    ensures forall k :: i <= k < i + n ==> IsTokenChar(s[k])
    ensures i + n == |s| || !IsTokenChar(s[i + n])
    decreases |s| - i
  {
    if i < |s| && IsTokenChar(s[i]) then 1 + RunLength(s, i + 1) else 0
  }

  /** The matches found by a left-to-right scan that starts at `i`. */
  function RunsFrom(s: string, i: nat): seq<string>
    requires i <= |s|
    decreases |s| - i
  {
    if i == |s| then []
    else if !IsTokenChar(s[i]) then RunsFrom(s, i + 1)
    else
      var n := RunLength(s, i);
      [s[i..i + n]] + RunsFrom(s, i + n)
  }

  /** `re.findall` of the token pattern: every match, left to right. */
  function FindAll(s: string): seq<string> {
    RunsFrom(s, 0)
  }

  /** `_tokens_from_text`: the distinct matches in the lowercased text. */
  function Tokens(text: string): set<string> {
    set t | t in FindAll(Lower(text))
  }

  /** `s[a..b]` is a maximal run of token characters: it cannot be extended either way. */
  predicate MaximalRun(s: string, a: int, b: int) {
    && 0 <= a < b <= |s|
    && (forall k :: a <= k < b ==> IsTokenChar(s[k]))
    && (a == 0 || !IsTokenChar(s[a - 1]))
    && (b == |s| || !IsTokenChar(s[b]))
  }

  /** A scan may start at `i`: no run of token characters crosses it. */
  predicate Boundary(s: string, i: nat) {
    i <= |s| && (i == 0 || i == |s| || !IsTokenChar(s[i - 1]) || !IsTokenChar(s[i]))
  }

  /** A match found by a scan from a boundary is a maximal run at or after it. */
  lemma {:induction false} RunsFromSound(s: string, i: nat, t: string)
    requires Boundary(s, i) && t in RunsFrom(s, i)
    ensures exists a, b :: i <= a && MaximalRun(s, a, b) && t == s[a..b]
    decreases |s| - i
  {
    if !IsTokenChar(s[i]) {
      RunsFromSound(s, i + 1, t);
    } else {
      var n := RunLength(s, i);
      if t == s[i..i + n] {
        assert MaximalRun(s, i, i + n);
      } else {
        RunsFromSound(s, i + n, t);
      }
    }
  }

  /** A maximal run at or after a boundary is found by a scan from it. */
  lemma {:induction false} RunsFromComplete(s: string, i: nat, a: nat, b: nat)
    requires Boundary(s, i) && i <= a && MaximalRun(s, a, b)
    ensures s[a..b] in RunsFrom(s, i)
    decreases |s| - i
  {
    if !IsTokenChar(s[i]) {
      RunsFromComplete(s, i + 1, a, b);
    } else {
      var n := RunLength(s, i);
      if a == i {
        assert n == b - a;
      } else {
        assert !IsTokenChar(s[a - 1]);
        assert a >= i + n;
        RunsFromComplete(s, i + n, a, b);
      }
    }
  }

  /**
   * Each token is a non-empty string of token characters and is a maximal run
   * of such characters in the lowercased text.
   */
  lemma TokenIsMaximalRun(text: string, t: string)
    requires t in Tokens(text)
    ensures t != [] && forall k :: 0 <= k < |t| ==> IsTokenChar(t[k])
    ensures exists a, b :: MaximalRun(Lower(text), a, b) && t == Lower(text)[a..b]
  {
    RunsFromSound(Lower(text), 0, t);
  }

  /** Every maximal run of token characters in the lowercased text is a token. */
  lemma MaximalRunIsToken(text: string, a: nat, b: nat)
    requires MaximalRun(Lower(text), a, b)
    ensures Lower(text)[a..b] in Tokens(text)
  {
    RunsFromComplete(Lower(text), 0, a, b);
  }

  // ---------------------------------------------------------------------------
  // Scoring and the tag-based choice

  /** The entry's tags, lowercased, as a set. */
  function TagSet(entry: Lora): set<string> {
    set t | t in entry.tags :: Lower(t)
  }

  /**
   * How many idea tokens are among the entry's tags, counted along the tag list:
   * a lowercased tag counts when it is a token and no earlier tag lowercases to
   * it. `ScoreIsSharedTags` shows this is the size of the intersection.
   */
  function Score(tokens: set<string>, entry: Lora): nat {
    SharedCount(tokens, entry.tags)
  }

  function SharedCount(tokens: set<string>, tags: seq<string>): nat
    decreases |tags|
  {
    if tags == [] then 0
    else
      var init := tags[..|tags| - 1];
      var t := Lower(tags[|tags| - 1]);
      SharedCount(tokens, init) + if t in tokens && t !in LowerSet(init) then 1 else 0
  }

  /** The lowercased tags of a list, as a set, built along the list. */
  function LowerSet(tags: seq<string>): set<string>
    decreases |tags|
  {
    if tags == [] then {} else LowerSet(tags[..|tags| - 1]) + {Lower(tags[|tags| - 1])}
  }

  lemma {:induction false} LowerSetIsTagSet(entry: Lora)
    ensures LowerSet(entry.tags) == TagSet(entry)
  {
    forall x
      ensures x in LowerSet(entry.tags) <==> x in TagSet(entry)
    {
      LowerSetMembers(entry.tags, x);
    }
  }

  lemma {:induction false} LowerSetMembers(tags: seq<string>, x: string)
    ensures x in LowerSet(tags) <==> exists k :: 0 <= k < |tags| && x == Lower(tags[k])
    decreases |tags|
  {
    if tags != [] {
      var init := tags[..|tags| - 1];
      LowerSetMembers(init, x);
      if x in LowerSet(init) {
        var k :| 0 <= k < |init| && x == Lower(init[k]);
        assert tags[k] == init[k];
      }
      if exists k :: 0 <= k < |tags| && x == Lower(tags[k]) {
        var k :| 0 <= k < |tags| && x == Lower(tags[k]);
        if k < |init| {
          assert init[k] == tags[k];
        }
      }
    }
  }

  lemma {:induction false} SharedCountIsCard(tokens: set<string>, tags: seq<string>)
    ensures SharedCount(tokens, tags) == |tokens * LowerSet(tags)|
    decreases |tags|
  {
    if tags != [] {
      var init := tags[..|tags| - 1];
      var t := Lower(tags[|tags| - 1]);
      SharedCountIsCard(tokens, init);
      assert LowerSet(tags) == LowerSet(init) + {t};
      AddToIntersection(tokens, LowerSet(init), t);
    }
  }

  /** Adding `t` to `s` grows `tokens * s` by one exactly when `t` is a token not yet in `s`. */
  lemma AddToIntersection(tokens: set<string>, s: set<string>, t: string)
    ensures |tokens * (s + {t})| == |tokens * s| + if t in tokens && t !in s then 1 else 0
  {
    if t in tokens && t !in s {
      assert tokens * (s + {t}) == tokens * s + {t};
    } else {
      assert tokens * (s + {t}) == tokens * s;
    }
  }

  /** The score is the number of distinct lowercased tags that are idea tokens: `len(tokens & tags)`. */
  lemma ScoreIsSharedTags(tokens: set<string>, entry: Lora)
    ensures Score(tokens, entry) == |tokens * TagSet(entry)|
  {
    SharedCountIsCard(tokens, entry.tags);
    LowerSetIsTagSet(entry);
  }

  /** The score of every entry, in catalog order. */
  function Scores(tokens: set<string>, catalog: seq<Lora>): (scores: seq<nat>)
    ensures |scores| == |catalog|
    ensures forall k :: 0 <= k < |catalog| ==> scores[k] == Score(tokens, catalog[k])
  {
    seq(|catalog|, k requires 0 <= k < |catalog| => Score(tokens, catalog[k]))
  }

  /** Position `k` has a positive score, no position scores more, and every earlier one scores less. */
  predicate FirstBest(scores: seq<nat>, k: nat) {
    && k < |scores|
    && scores[k] > 0
    && (forall j :: 0 <= j < |scores| ==> scores[j] <= scores[k])
    && (forall j :: 0 <= j < k ==> scores[j] < scores[k])
  }

  /** The position the scan settles on: a position replaces the best so far only with a strictly higher score. */
  function BestIndex(scores: seq<nat>): (r: Option<nat>)
    ensures r.Some? ==> r.value < |scores|
    decreases |scores|
  {
    if scores == [] then None
    else
      var prev := BestIndex(scores[..|scores| - 1]);
      var bestScore := if prev.Some? then scores[prev.value] else 0;
      if scores[|scores| - 1] > bestScore then Some(|scores| - 1) else prev
  }

  /** The scan finds nothing exactly when every score is 0, and otherwise the first position with the highest score. */
  lemma {:induction false} BestIndexIsFirstBest(scores: seq<nat>)
    ensures BestIndex(scores).None? <==> forall j :: 0 <= j < |scores| ==> scores[j] == 0
    ensures BestIndex(scores).Some? ==> FirstBest(scores, BestIndex(scores).value)
    decreases |scores|
  {
    if scores != [] {
      var last := |scores| - 1;
      var init := scores[..last];
      BestIndexIsFirstBest(init);
      var prev := BestIndex(init);
      assert forall j :: 0 <= j < last ==> init[j] == scores[j];
      if prev.Some? {
        assert FirstBest(init, prev.value);
      }
    }
  }

  /** At most one position is the first best. */
  lemma FirstBestUnique(scores: seq<nat>, k1: nat, k2: nat)
    requires FirstBest(scores, k1) && FirstBest(scores, k2)
    ensures k1 == k2
  {
  }

  function EntryAt(catalog: seq<Lora>, k: Option<nat>): Option<Lora>
    requires k.Some? ==> k.value < |catalog|
  {
    match k
    case None => None
    case Some(i) => Some(catalog[i])
  }

  /**
   * `select_lora_by_tags`: one pass over the catalog that keeps an entry only
   * when its score is strictly higher than the best so far (which starts at 0).
   */
  method SelectLoraByTags(ideaText: string, catalog: seq<Lora>) returns (best: Option<Lora>)
    ensures best == EntryAt(catalog, BestIndex(Scores(Tokens(ideaText), catalog)))
    ensures best.None? <==> forall j :: 0 <= j < |catalog| ==> Score(Tokens(ideaText), catalog[j]) == 0
    ensures best.Some? ==> exists k: nat :: FirstBest(Scores(Tokens(ideaText), catalog), k) && best.value == catalog[k]
  {
    var tokens := Tokens(ideaText);
    ghost var scores := Scores(tokens, catalog);
    best := None;
    var bestScore := 0;
    ghost var bestAt: Option<nat> := None;
    for i := 0 to |catalog|
      invariant bestAt == BestIndex(scores[..i])
      invariant best == EntryAt(catalog, bestAt)
      invariant bestScore == if bestAt.Some? then scores[bestAt.value] else 0
    {
      assert scores[..i + 1][..i] == scores[..i];
      var score := Score(tokens, catalog[i]);
      if score > bestScore {
        bestScore := score;
        best := Some(catalog[i]);
        bestAt := Some(i);
      }
    }
    assert scores[..|catalog|] == scores;
    BestIndexIsFirstBest(scores);
    if bestAt.Some? {
      assert FirstBest(scores, bestAt.value) && best.value == catalog[bestAt.value];
    }
  }

  // ---------------------------------------------------------------------------
  // The selection record

  datatype SelectionMethod = Tags | Llm | NoMatch

  /** The selection record: which entry, at what weight, found how, with what score. */
  datatype Selection = Selection(
    loraId: Option<string>,
    loraName: Option<string>,
    weight: Option<Weight>,
    how: SelectionMethod,
    score: nat)

  /** The entry the fallback branch names, and the weight it suggests (0.5). */
  const FallbackId: string := "aidmaFluxProUltra-FLUX-v0.1"
  const FallbackWeight: Weight := 50

  /** The weight assumed for an entry that states none (0.5). */
  const DefaultWeight: Weight := 50

  /** The record returned when nothing is selected. */
  const NoSelection: Selection := Selection(None, None, None, NoMatch, 0)

  /** Whether some entry shares a token with the idea. */
  predicate TagMatch(ideaText: string, catalog: seq<Lora>) {
    exists j :: 0 <= j < |catalog| && Score(Tokens(ideaText), catalog[j]) > 0
  }

  /**
   * `select_lora`. `weightHint` stands for the creativity-to-weight rule the
   * source imports from a module it does not contain; it yields hundredths, so
   * rounding to two decimals leaves its result unchanged.
   */
  function SelectLora(
    ideaText: string,
    catalog: seq<Lora>,
    slider: int,
    llmFallback: bool,
    weightHint: (int, Weight) -> Weight): (r: Selection)
    ensures r.how == Tags <==> TagMatch(ideaText, catalog)
    ensures r.how == Tags ==>
      exists k: nat :: FirstBest(Scores(Tokens(ideaText), catalog), k) && r == TagSelection(catalog[k], slider, weightHint)
    ensures r.how == Llm <==>
      && !TagMatch(ideaText, catalog)
      && llmFallback
      && exists j :: 0 <= j < |catalog| && catalog[j].id == FallbackId
    ensures r.how == Llm ==>
      exists k: nat :: FirstWithId(catalog, FallbackId, k) && r == FallbackSelection(catalog[k])
    ensures r.how == NoMatch ==> r == NoSelection
  {
    BestIndexIsFirstBest(Scores(Tokens(ideaText), catalog));
    match BestIndex(Scores(Tokens(ideaText), catalog))
    case Some(k) => TagSelection(catalog[k], slider, weightHint)
    case None =>
      if llmFallback then
        match IndexById(catalog, FallbackId)
        case Some(k) => FallbackSelection(catalog[k])
        case None => NoSelection
      else NoSelection
  }

  /** The record for a tag match: its score field is the length of the entry's tag list. */
  function TagSelection(entry: Lora, slider: int, weightHint: (int, Weight) -> Weight): Selection {
    Selection(
      Some(entry.id), Some(entry.name),
      Some(weightHint(slider, entry.defaultWeight.GetOr(DefaultWeight))),
      Tags, |entry.tags|)
  }

  /** The record for the fallback entry, at the fallback weight and score 0. */
  function FallbackSelection(entry: Lora): Selection {
    Selection(Some(entry.id), Some(entry.name), Some(FallbackWeight), Llm, 0)
  }

  /** With fallback switched off, the result is a tag match or nothing. */
  lemma NoFallbackNoLlm(
    ideaText: string, catalog: seq<Lora>, slider: int, weightHint: (int, Weight) -> Weight)
    ensures SelectLora(ideaText, catalog, slider, false, weightHint).how != Llm
    ensures !TagMatch(ideaText, catalog) ==> SelectLora(ideaText, catalog, slider, false, weightHint) == NoSelection
  {
  }

  /** A selection of a real entry names both its id and its name and carries a weight. */
  lemma SelectionShape(
    ideaText: string, catalog: seq<Lora>, slider: int, llmFallback: bool, weightHint: (int, Weight) -> Weight)
    ensures var r := SelectLora(ideaText, catalog, slider, llmFallback, weightHint);
      (r.loraId.Some? <==> r.how != NoMatch)
      && (r.loraId.Some? <==> r.loraName.Some?)
      && (r.loraId.Some? <==> r.weight.Some?)
      && (r.how != Tags ==> r.score == 0)
  {
  }
}
