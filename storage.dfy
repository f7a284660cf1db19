/**
 * The saved-prompt store: the `saved_prompts` table as a map from id to row,
 * with the normalisation `save_prompt` applies before its insert-or-replace,
 * and the lookup, delete and newest-first listing. The generated id and the
 * current time are inputs.
 */
module Storage {
  import opened Wrappers
  import opened Text
  import opened Seqs
  import LoraStore

  type Weight = LoraStore.Weight

  /** The `tags` a caller passes: a comma-separated text or a list. */
  datatype TagsInput = TagsText(text: string) | TagsList(items: seq<string>)

  /** The record handed to `save_prompt`: every key may be missing. */
  datatype PromptInput = PromptInput(
    id: Option<string>,
    name: Option<string>,
    prompt: Option<string>,
    negativePrompt: Option<string>,
    loraName: Option<string>,
    loraId: Option<string>,
    loraWeight: Option<Weight>,
    sliderValue: Option<int>,
    llmInput: Option<string>,
    llmRawResponse: Option<string>,
    tags: Option<TagsInput>,
    createdAt: Option<string>)

  /**
   * The stored `tags` column: a JSON array (its text is treated as the list it
   * encodes), NULL, or text that does not parse.
   */
  datatype TagsColumn = TagsJson(items: seq<string>) | TagsNull | TagsUnparsable

  /** One record of the table; `T` is how its tags are held. */
  datatype Saved<T> = Saved(
    id: string,
    name: string,
    prompt: string,
    negativePrompt: string,
    loraName: string,
    loraId: string,
    loraWeight: Option<Weight>,
    sliderValue: Option<int>,
    llmInput: string,
    llmRawResponse: string,
    tags: T,
    createdAt: string)

  /** A row as stored. */
  type Row = Saved<TagsColumn>

  /** A row as read back, tags decoded. */
  type PromptRecord = Saved<seq<string>>

  /** `record.get(key) or ""`. */
  function TextOf(field: Option<string>): string {
    field.GetOr("")
  }

  /** The id a save uses: the caller's when it is non-empty, else the generated one. */
  function RowId(input: PromptInput, freshId: string): string {
    if input.id.Some? && input.id.value != "" then input.id.value else freshId
  }

  /** A tag: non-empty, no surrounding whitespace, no comma. */
  predicate CleanTag(t: string) {
    t != [] && !IsSpace(t[0]) && !IsSpace(t[|t| - 1]) && ',' !in t
  }

  /** Every tag of the list is clean. */
  predicate AllClean(tags: seq<string>) {
    forall k :: 0 <= k < |tags| ==> CleanTag(tags[k])
  }

  /** A comma-free text that does not strip to nothing strips to a clean tag. */
  lemma StrippedIsClean(s: string)
    requires ',' !in s && Strip(s) != ""
    ensures CleanTag(Strip(s))
  {
    var i :| SliceBetweenSpace(s, i, Strip(s));
    assert ',' !in Strip(s);
  }

  lemma AllCleanConcat(a: seq<string>, b: seq<string>)
    requires AllClean(a) && AllClean(b)
    ensures AllClean(a + b)
  {
    forall k | 0 <= k < |a + b|
      ensures CleanTag((a + b)[k])
    {
      if k < |a| {
        assert (a + b)[k] == a[k];
      } else {
        assert (a + b)[k] == b[k - |a|];
      }
    }
  }

  /** Every piece stripped, the empty ones dropped, in order. */
  function CleanPieces(pieces: seq<string>): (tags: seq<string>)
    requires forall k :: 0 <= k < |pieces| ==> ',' !in pieces[k]
    ensures |tags| <= |pieces|
    ensures AllClean(tags)
    decreases |pieces|
  {
    if pieces == [] then []
    else
      assert forall k :: 0 <= k < |pieces| - 1 ==> pieces[1..][k] == pieces[k + 1];
      var t := Strip(pieces[0]);
      var rest := CleanPieces(pieces[1..]);
      var head := if t != "" then [t] else [];
      if t != "" then
        StrippedIsClean(pieces[0]);
        AllCleanConcat(head, rest);
        head + rest
      else
        assert head + rest == rest;
        head + rest
  }

  /** Every piece stripped, in order. */
  function StripAll(pieces: seq<string>): (stripped: seq<string>)
    ensures |stripped| == |pieces|
    decreases |pieces|
  {
    if pieces == [] then [] else [Strip(pieces[0])] + StripAll(pieces[1..])
  }

  /**
   * `tags` are exactly the non-empty strips of `pieces`, each as many times as
   * it is a strip, in the pieces' order.
   */
  ghost predicate StripsOf(tags: seq<string>, pieces: seq<string>) {
    && (forall t :: t in tags <==> t != "" && exists k :: 0 <= k < |pieces| && Strip(pieces[k]) == t)
    && (forall t :: t != "" ==> multiset(tags)[t] == multiset(StripAll(pieces))[t])
    && Subsequence(tags, StripAll(pieces))
  }

  /** A non-empty tag is kept as many times as it is the strip of a piece; repeats are not dropped. */
  lemma {:induction false} CleanPiecesCounts(pieces: seq<string>, t: string)
    requires forall k :: 0 <= k < |pieces| ==> ',' !in pieces[k]
    requires t != ""
    ensures multiset(CleanPieces(pieces))[t] == multiset(StripAll(pieces))[t]
    decreases |pieces|
  {
    if pieces != [] {
      var rest := pieces[1..];
      assert forall k :: 0 <= k < |rest| ==> rest[k] == pieces[k + 1];
      var head, kept := Strip(pieces[0]), CleanPieces(rest);
      CleanPiecesCounts(rest, t);
      assert StripAll(pieces) == [head] + StripAll(rest);
      if head != "" {
        assert CleanPieces(pieces) == [head] + kept;
      } else {
        assert CleanPieces(pieces) == kept;
      }
    }
  }

  /** A tag is kept exactly when it is the non-empty strip of some piece. */
  lemma {:induction false} CleanPiecesMembers(pieces: seq<string>, t: string)
    requires forall k :: 0 <= k < |pieces| ==> ',' !in pieces[k]
    ensures t in CleanPieces(pieces) <==> t != "" && exists k :: 0 <= k < |pieces| && Strip(pieces[k]) == t
    decreases |pieces|
  {
    if pieces != [] {
      var rest := pieces[1..];
      assert forall k :: 0 <= k < |rest| ==> rest[k] == pieces[k + 1];
      CleanPiecesMembers(rest, t);
      if t in CleanPieces(rest) {
        var k :| 0 <= k < |rest| && Strip(rest[k]) == t;
        assert Strip(pieces[k + 1]) == t;
      }
      if t != "" && exists k :: 0 <= k < |pieces| && Strip(pieces[k]) == t {
        var k :| 0 <= k < |pieces| && Strip(pieces[k]) == t;
        if k > 0 {
          assert Strip(rest[k - 1]) == t;
        }
      }
    }
  }

  /** The kept tags come in the order of their pieces. */
  lemma {:induction false} CleanPiecesKeepOrder(pieces: seq<string>)
    requires forall k :: 0 <= k < |pieces| ==> ',' !in pieces[k]
    ensures Subsequence(CleanPieces(pieces), StripAll(pieces))
    decreases |pieces|
  {
    if pieces != [] {
      var rest := pieces[1..];
      assert forall k :: 0 <= k < |rest| ==> rest[k] == pieces[k + 1];
      var head, kept, stripped := Strip(pieces[0]), CleanPieces(rest), StripAll(rest);
      CleanPiecesKeepOrder(rest);
      if head != "" {
        assert CleanPieces(pieces) == [head] + kept;
        SubsequenceKeepFront(head, kept, stripped);
      } else {
        assert CleanPieces(pieces) == kept;
        SubsequenceSkipFront(head, kept, stripped);
      }
    }
  }

  /** Every kept tag is the non-empty strip of a piece, and every such strip is kept. */
  lemma CleanPiecesAllMembers(pieces: seq<string>)
    requires forall k :: 0 <= k < |pieces| ==> ',' !in pieces[k]
    ensures forall t :: t in CleanPieces(pieces) <==> t != "" && exists k :: 0 <= k < |pieces| && Strip(pieces[k]) == t
  {
    forall t
      ensures t in CleanPieces(pieces) <==> t != "" && exists k :: 0 <= k < |pieces| && Strip(pieces[k]) == t
    {
      CleanPiecesMembers(pieces, t);
    }
  }

  /** Every non-empty tag is kept as many times as it is a strip. */
  lemma CleanPiecesAllCounts(pieces: seq<string>)
    requires forall k :: 0 <= k < |pieces| ==> ',' !in pieces[k]
    ensures forall t :: t != "" ==> multiset(CleanPieces(pieces))[t] == multiset(StripAll(pieces))[t]
  {
    forall t | t != ""
      ensures multiset(CleanPieces(pieces))[t] == multiset(StripAll(pieces))[t]
    {
      CleanPiecesCounts(pieces, t);
    }
  }

  /** Cleaning keeps exactly the non-empty strips of the pieces, repeats included, in order. */
  lemma CleanPiecesStrips(pieces: seq<string>)
    requires forall k :: 0 <= k < |pieces| ==> ',' !in pieces[k]
    ensures StripsOf(CleanPieces(pieces), pieces)
  {
    CleanPiecesAllMembers(pieces);
    CleanPiecesAllCounts(pieces);
    CleanPiecesKeepOrder(pieces);
  }

  /**
   * The tag list a save stores: a list is kept, nothing is empty, and a text is
   * split on commas, each piece stripped and the empty ones dropped, in order.
   */
  function NormalizeTags(tags: Option<TagsInput>): (r: seq<string>)
    ensures tags.Some? && tags.value.TagsList? ==> r == tags.value.items
    ensures tags.None? ==> r == []
    ensures tags.Some? && tags.value.TagsText? ==> AllClean(r)
    ensures tags.Some? && tags.value.TagsText? ==> StripsOf(r, Split(tags.value.text, ','))
  {
    match tags
    case None => []
    case Some(TagsList(items)) => items
    case Some(TagsText(text)) =>
      if text == "" then
        assert Split(text, ',') == [""];
        []
      else
        CleanPiecesStrips(Split(text, ','));
        CleanPieces(Split(text, ','))
  }

  /** Clean tags joined with commas come back as the same list. */
  lemma {:induction false} TagTextRoundTrip(tags: seq<string>)
    requires AllClean(tags)
    ensures NormalizeTags(Some(TagsText(Join(tags, ",")))) == tags
  {
    if tags != [] {
      var text := Join(tags, ",");
      assert |tags| > 1 ==> text == tags[0] + "," + Join(tags[1..], ",");
      assert text != "";
      SplitJoin(tags, ',');
      CleanPiecesOfClean(tags);
    }
  }

  /** Clean pieces are kept as they are. */
  lemma {:induction false} CleanPiecesOfClean(tags: seq<string>)
    requires AllClean(tags)
    ensures CleanPieces(tags) == tags
    decreases |tags|
  {
    if tags != [] {
      StripClean(tags[0]);
      CleanPiecesOfClean(tags[1..]);
    }
  }

  /** The row `save_prompt` writes: missing or empty texts become "", the time is stamped when absent. */
  function Normalize(input: PromptInput, rid: string, clock: string): Row {
    Saved(
      rid,
      TextOf(input.name),
      TextOf(input.prompt),
      TextOf(input.negativePrompt),
      TextOf(input.loraName),
      TextOf(input.loraId),
      input.loraWeight,
      input.sliderValue,
      TextOf(input.llmInput),
      TextOf(input.llmRawResponse),
      TagsJson(NormalizeTags(input.tags)),
      if input.createdAt.Some? && input.createdAt.value != "" then input.createdAt.value else clock + "Z")
  }

  /** The decoded tags of a row: the stored list, or the empty list for NULL or unparsable text. */
  function DecodeTags(column: TagsColumn): seq<string> {
    match column
    case TagsJson(items) => items
    case _ => []
  }

  /** A row as `get_prompt` and `list_prompts` return it. */
  function ToRecord(row: Row): PromptRecord {
    Saved(
      row.id, row.name, row.prompt, row.negativePrompt, row.loraName, row.loraId,
      row.loraWeight, row.sliderValue, row.llmInput, row.llmRawResponse,
      DecodeTags(row.tags), row.createdAt)
  }

  /** What a save stores is what a read returns: the fields as given or defaulted, the tags in order. */
  lemma SavedReadsBack(input: PromptInput, rid: string, clock: string)
    ensures var r := ToRecord(Normalize(input, rid, clock));
      && r.id == rid
      && r.tags == NormalizeTags(input.tags)
      && (input.prompt.None? ==> r.prompt == "")
      && (input.name.None? ==> r.name == "")
      && (forall x :: input.prompt == Some(x) ==> r.prompt == x)
      && (forall x :: input.name == Some(x) ==> r.name == x)
      && r.negativePrompt == input.negativePrompt.GetOr("")
      && r.loraName == input.loraName.GetOr("")
      && r.loraId == input.loraId.GetOr("")
      && r.llmInput == input.llmInput.GetOr("")
      && r.llmRawResponse == input.llmRawResponse.GetOr("")
      && r.loraWeight == input.loraWeight
      && r.sliderValue == input.sliderValue
      && (input.createdAt.None? ==> r.createdAt == clock + "Z")
      && (input.createdAt == Some("") ==> r.createdAt == clock + "Z")
      && (forall c :: input.createdAt == Some(c) && c != "" ==> r.createdAt == c)
  {
  }

  class PromptStore {
    /** The table: id to row. */
    var rows: map<string, Row>

    /** Every row is filed under its own, non-empty id. */
    ghost predicate Valid()
      reads this
    {
      forall k :: k in rows ==> rows[k].id == k && k != ""
    }

    constructor ()
      ensures Valid() && rows == map[]
    {
      rows := map[];
    }

    /** `get_prompt`: the record with its tags decoded, or nothing for an absent id. */
    function GetPrompt(id: string): (r: Option<PromptRecord>)
      reads this
      ensures r.None? <==> id !in rows
      ensures r.Some? ==> r.value == ToRecord(rows[id])
    {
      if id in rows then Some(ToRecord(rows[id])) else None
    }

    /**
     * `save_prompt`: normalise the record and insert or replace the row under its
     * id (the caller's, or `freshId` standing for a new UUID); return the id.
     */
    method SavePrompt(input: PromptInput, freshId: string, clock: string) returns (rid: string)
      requires Valid() && freshId != ""
      modifies this
      ensures Valid()
      ensures rid == RowId(input, freshId)
      ensures rows == old(rows)[rid := Normalize(input, rid, clock)]
      ensures GetPrompt(rid) == Some(ToRecord(Normalize(input, rid, clock)))
      ensures forall k :: k != rid ==> GetPrompt(k) == old(GetPrompt(k))
    {
      rid := if input.id.Some? && input.id.value != "" then input.id.value else freshId;
      rows := rows[rid := Normalize(input, rid, clock)];
    }

    /** `delete_prompt`: remove the row; report whether there was one. */
    method DeletePrompt(id: string) returns (removed: bool)
      requires Valid()
      modifies this
      ensures Valid()
      ensures removed == (id in old(rows))
      ensures rows == old(rows) - {id}
      ensures GetPrompt(id) == None
      ensures forall k :: k != id ==> GetPrompt(k) == old(GetPrompt(k))
    {
      removed := id in rows;
      rows := rows - {id};
    }

    /** A key among `keys` whose row is the newest. */
    method Newest(keys: set<string>) returns (newest: string)
      requires keys != {} && keys <= rows.Keys
      ensures newest in keys
      ensures forall k :: k in keys ==> AtMost(rows[k].createdAt, rows[newest].createdAt)
    {
      var todo := keys;
      newest :| newest in todo;
      AtMostReflexive(rows[newest].createdAt);
      todo := todo - {newest};
      while todo != {}
        invariant todo <= keys && newest in keys
        invariant forall k :: k in keys - todo ==> AtMost(rows[k].createdAt, rows[newest].createdAt)
        decreases todo
      {
        var k :| k in todo;
        AtMostReflexive(rows[k].createdAt);
        if !AtMost(rows[k].createdAt, rows[newest].createdAt) {
          AtMostTotal(rows[k].createdAt, rows[newest].createdAt);
          forall j | j in keys - todo
            ensures AtMost(rows[j].createdAt, rows[k].createdAt)
          {
            AtMostTransitive(rows[j].createdAt, rows[newest].createdAt, rows[k].createdAt);
          }
          newest := k;
        }
        todo := todo - {k};
      }
    }

    /**
     * `list_prompts`: at most `limit` records (every record when `limit` is
     * negative), newest first by `created_at`, and none left out that is newer
     * than one returned.
     */
    method ListPrompts(limit: int) returns (result: seq<PromptRecord>)
      requires Valid()
      ensures |result| == if limit < 0 || limit > |rows| then |rows| else limit
      ensures forall i, j :: 0 <= i < j < |result| ==> AtMost(result[j].createdAt, result[i].createdAt)
      ensures forall i :: 0 <= i < |result| ==> result[i].id in rows && result[i] == ToRecord(rows[result[i].id])
      ensures forall i, j :: 0 <= i < j < |result| ==> result[i].id != result[j].id
      ensures forall k, i :: k in rows && 0 <= i < |result| && !HasId(result, k) ==>
        AtMost(rows[k].createdAt, result[i].createdAt)
    {
      var bound := if limit < 0 || limit > |rows| then |rows| else limit;
      var picked := NewestFirst(bound);
      result := [];
      for i := 0 to |picked|
        invariant |result| == i
        invariant forall j :: 0 <= j < i ==> result[j] == ToRecord(rows[picked[j]])
      {
        result := result + [ToRecord(rows[picked[i]])];
      }
      ListedRecords(rows, picked, result);
    }

    /** The ids of the `bound` newest rows, newest first (the ORDER BY ... DESC LIMIT of the query). */
    method NewestFirst(bound: nat) returns (picked: seq<string>)
      requires bound <= |rows|
      ensures |picked| == bound
      ensures forall i :: 0 <= i < |picked| ==> picked[i] in rows
      ensures forall i, j :: 0 <= i < j < |picked| ==> picked[i] != picked[j]
      ensures forall i, j :: 0 <= i < j < |picked| ==> AtMost(rows[picked[j]].createdAt, rows[picked[i]].createdAt)
      ensures forall k, i :: k in rows && k !in picked && 0 <= i < |picked| ==> AtMost(rows[k].createdAt, rows[picked[i]].createdAt)
    {
      picked := [];
      var remaining := rows.Keys;
      while |picked| < bound
        invariant |picked| <= bound
        invariant remaining <= rows.Keys
        invariant |remaining| == |rows| - |picked|
        invariant NewestFirstSoFar(picked, remaining)
        decreases bound - |picked|
      {
        var next := Newest(remaining);
        PickStep(picked, remaining, next);
        picked := picked + [next];
        remaining := remaining - {next};
      }
    }

    /** `picked` are distinct ids in descending time order, each newer than every id in `remaining`, the ids not picked. */
    ghost predicate NewestFirstSoFar(picked: seq<string>, remaining: set<string>)
      reads this
    {
      && (forall i :: 0 <= i < |picked| ==> picked[i] in rows)
      && (forall k :: k in rows ==> (k in remaining <==> k !in picked))
      && (forall i, j :: 0 <= i < j < |picked| ==> picked[i] != picked[j])
      && (forall i, j :: 0 <= i < j < |picked| ==> AtMost(rows[picked[j]].createdAt, rows[picked[i]].createdAt))
      && (forall k, i :: k in remaining && k in rows && 0 <= i < |picked| ==> AtMost(rows[k].createdAt, rows[picked[i]].createdAt))
    }

    /** Picking the newest remaining id keeps the order. */
    lemma PickStep(picked: seq<string>, remaining: set<string>, next: string)
      requires remaining <= rows.Keys
      requires NewestFirstSoFar(picked, remaining)
      requires next in remaining
      requires forall k :: k in remaining ==> AtMost(rows[k].createdAt, rows[next].createdAt)
      ensures NewestFirstSoFar(picked + [next], remaining - {next})
    {
      var p := picked + [next];
      assert forall i :: 0 <= i < |picked| ==> p[i] == picked[i];
    }
  }

  /**
   * Reading the rows `picked` names, in order, keeps what the query promised
   * about the ids: distinct, newest first, and no row left out is newer.
   */
  lemma ListedRecords(rows: map<string, Row>, picked: seq<string>, result: seq<PromptRecord>)
    requires forall k :: k in rows ==> rows[k].id == k
    requires forall i :: 0 <= i < |picked| ==> picked[i] in rows
    requires forall i, j :: 0 <= i < j < |picked| ==> picked[i] != picked[j]
    requires forall i, j :: 0 <= i < j < |picked| ==> AtMost(rows[picked[j]].createdAt, rows[picked[i]].createdAt)
    requires forall k, i :: k in rows && k !in picked && 0 <= i < |picked| ==> AtMost(rows[k].createdAt, rows[picked[i]].createdAt)
    requires |result| == |picked|
    requires forall j :: 0 <= j < |picked| ==> result[j] == ToRecord(rows[picked[j]])
    ensures forall i, j :: 0 <= i < j < |result| ==> AtMost(result[j].createdAt, result[i].createdAt)
    ensures forall i :: 0 <= i < |result| ==> result[i].id in rows && result[i] == ToRecord(rows[result[i].id])
    ensures forall i, j :: 0 <= i < j < |result| ==> result[i].id != result[j].id
    ensures forall k, i :: k in rows && 0 <= i < |result| && !HasId(result, k) ==>
      AtMost(rows[k].createdAt, result[i].createdAt)
  {
    assert forall i :: 0 <= i < |result| ==> result[i].id == picked[i];
    forall k, i | k in rows && 0 <= i < |result| && !HasId(result, k)
      ensures AtMost(rows[k].createdAt, result[i].createdAt)
    {
      forall j | 0 <= j < |picked|
        ensures picked[j] != k
      {
        assert result[j].id == picked[j];
      }
    }
  }

  /** Some record carries the id. */
  predicate HasId(records: seq<PromptRecord>, id: string) {
    exists j :: 0 <= j < |records| && records[j].id == id
  }
}
