# Flux Prompt Lab — a verified model of its core

Flux Prompt Lab turns a short idea into image-generation prompts. Three
services support it:

- a large language model expands the idea into prompt variants;
- a catalog of style adapters ("LORAs") supplies an adapter whose token goes into each prompt;
- a small SQLite table keeps the prompts the user saves.

This project models the logic behind those steps in Dafny and proves what each step promises. There are five modules, one per source file, a shared `Text` module, and two small utility modules: `Wrappers` (`wrappers.dfy`, the optional value) and `Seqs` (`seqs.dfy`, subsequences).

- **`Selector`** (`selector.dfy`) chooses an adapter:
  - The idea is lowercased and cut into the maximal runs of `[a-z0-9-]` characters, its tokens.
  - Every catalog entry is scored by how many of its lowercased tags are tokens.
  - One pass keeps an entry only when its score beats the best so far, which starts at 0. So the pick is the first entry with the highest positive score.
  - With no match and `llm_fallback` on, the fixed fallback entry `aidmaFluxProUltra-FLUX-v0.1` is used at weight 0.5, if the catalog holds it. Otherwise the "none" record is returned.
  - The tag-match record's `score` field is the length of the chosen entry's tag list, not its match count. The model keeps that.
- **`LoraStore`** (`lora_store.dfy`) holds the catalog:
  - loading lowercases every entry's tags in place, over an `array`;
  - listing the names;
  - lookup by id (a scan for the first match);
  - search by shared tags.
- **`LlmAdapter`** (`llm_adapter.dfy`) covers the language model:
  - the creativity-to-temperature table;
  - the two request bodies;
  - the fail-soft filtering of the reply: a list, or an object, or empty on any other shape and on any request failure.

  The HTTP call is a parameter `post`.
- **`App`** (`app.dfy`) covers the handlers' post-processing:
  - putting `<lora:id:weight>` into a prompt;
  - labelling and stripping the variants;
  - the caption-to-prompt maps, where a repeated caption keeps its last variant;
  - showing a chosen variant;
  - the record the save button stores. It passes the weight under a key the store never reads, so a handler save stores no weight.
- **`Storage`** (`storage.dfy`) is the saved-prompt table, modelled as a class whose `rows` map is updated by insert-or-replace and delete:
  - the normalisation `save_prompt` applies;
  - reading a row back with its tags decoded;
  - the newest-first listing with a limit, where a negative limit means every row, as SQLite's `LIMIT -1` does.
- **`Text`** (`text.dfy`) holds the string operations the source borrows from Python: `lower`, `strip`, `in`, `replace`, `split`, `join` and `str(n)`. It also holds the text order SQLite sorts by: code points, which equal UTF-8 bytes under the `BINARY` collation.

Units: adapter weights are integers in hundredths (0.5 is 50). Temperatures are integers in tenths (0.2 is 2).

## Model

| member | source | states |
|---|---|---|
| Text.Lower | selector.py:12 | lowercasing keeps the length and maps every character on its own |
| Text.LowerIdempotent | lora_store.py:11 | lowercasing tags that were lowercased on load changes nothing |
| Text.Strip | app.py:25-26 | the stripped text is a slice of the input with only whitespace cut off either side, and neither of its ends is whitespace |
| Text.StripClean | storage.py:61 | a text with no whitespace at either end is left as it is |
| Text.StripIdempotent | app.py:25-26 | stripping twice is stripping once |
| Text.StripEmpty | storage.py:61 | a piece strips to nothing exactly when it is all whitespace |
| Text.Contains | app.py:14 | Python's `in` on texts: the pattern occurs at some position; its contract is stated by `Text.ContainsInfix`, `Text.ContainsAppend` and `Text.ContainsMiddle`, and `Text.ReplaceAbsent` uses it |
| Text.ReplaceAll | app.py:15 | `str.replace`: every non-overlapping occurrence, left to right, is replaced; its contract is stated by `Text.ReplaceAbsent`, `Text.ReplaceInserts` and `Text.ReplaceRemovesAll` |
| Text.ReplaceAbsent | app.py:14-15 | replacing a pattern that does not occur changes nothing |
| Text.ReplaceInserts | app.py:15 | when the pattern occurs, the replacement occurs in the result |
| Text.ReplaceRemovesAll | app.py:15 | under conditions on the first characters of the pattern and the replacement, no occurrence of the pattern survives |
| Text.Split | storage.py:61 | a split yields at least one piece, and no piece holds the separator |
| Text.Join | llm_adapter.py:52-57 | `sep.join(parts)`; its contract is stated by `Text.JoinSplit`, `Text.SplitJoin` and `Text.JoinContainsParts` |
| Text.JoinSplit | storage.py:61 | joining the pieces of a split with the separator gives back the text |
| Text.SplitJoin | storage.py:61 | splitting a join of separator-free pieces gives back the pieces |
| Text.JoinContainsParts | llm_adapter.py:52-57 | every line of a newline join occurs in the joined text |
| Text.NatToDecimal | app.py:24 | the decimal rendering is a non-empty digit string with no leading zero |
| Text.DecimalRoundTrip | app.py:24 | reading the rendered digits back gives the number |
| Text.AtMostTotal | storage.py:116 | any two `created_at` texts are ordered one way or the other |
| Text.AtMostTransitive | storage.py:116 | the text order is transitive |
| Text.AtMostReflexive | storage.py:116 | every text is at most itself |
| Selector.RunLength | selector.py:6 | the run starting at a position stays in the text, holds only `[a-z0-9-]`, and ends at the text's end or at a non-token character |
| Selector.FindAll | selector.py:12 | `re.findall` of the token pattern, left to right; what it finds is stated both ways by `Selector.RunsFromSound` and `Selector.RunsFromComplete` |
| Selector.RunsFromSound | selector.py:12 | every match a scan from a run boundary finds is a maximal run of token characters at or after that boundary |
| Selector.RunsFromComplete | selector.py:12 | every maximal run at or after a run boundary is among the matches a scan from there finds |
| Selector.Tokens | selector.py:9-12 | the set of matches of the token pattern in the lowercased idea; its contract is stated both ways by `Selector.TokenIsMaximalRun` and `Selector.MaximalRunIsToken` |
| Selector.TokenIsMaximalRun | selector.py:9-12 | every token is non-empty, made of token characters, and a maximal run of them in the lowercased idea |
| Selector.MaximalRunIsToken | selector.py:9-12 | every maximal run of token characters in the lowercased idea is a token |
| Selector.ScoreIsSharedTags | selector.py:23-24 | an entry's score is the size of the intersection of the token set and its lowercased tag set |
| Selector.Scores | selector.py:22-24 | one score per catalog entry, in catalog order |
| Selector.BestIndex | selector.py:19-27 | the position the strict-improvement scan settles on, always inside the list; what it is is stated by `Selector.BestIndexIsFirstBest` |
| Selector.BestIndexIsFirstBest | selector.py:19-29 | the strict-improvement scan finds nothing exactly when every score is 0, and otherwise the first position with the highest score |
| Selector.FirstBestUnique | selector.py:25-27 | only one position is first with the highest score, so the scan's choice is determined |
| Selector.SelectLoraByTags | selector.py:15-29 | the loop returns the entry at the scan's position; nothing exactly when no entry shares a token; otherwise the first entry with the highest score |
| Selector.SelectLora | selector.py:32-80 | a tag match exactly when some entry scores above 0, as the first-best entry's record with the hinted weight and its tag count; the fallback exactly when there is no match, fallback is on and the fixed id is in the catalog, as the first entry with that id at weight 0.5; otherwise the "none" record |
| Selector.TagSelection | selector.py:46-52 | the tag-match record: id, name, hinted weight, method "tags", tag count; stated through `Selector.SelectLora`'s ensures |
| Selector.FallbackSelection | selector.py:67-73 | the fallback record: id, name, weight 0.5, method "llm", score 0; stated through `Selector.SelectLora`'s ensures |
| Selector.NoFallbackNoLlm | selector.py:55-80 | with fallback off the result is never the fallback, and it is "none" when no tag matches |
| Selector.SelectionShape | selector.py:46-80 | an id is present exactly when something was selected, and then so are the name and the weight; only a tag match has a non-zero score |
| LoraStore.LowerAll | lora_store.py:11 | the lowercased tag list has the same length, with each tag lowercased in place |
| LoraStore.Loaded | lora_store.py:11 | an entry as loaded, with its tags lowercased; its contract is stated by `LoraStore.LoadedKeepsFields` and `LoraStore.LowerAll` |
| LoraStore.LowercaseTags | lora_store.py:10-11 | after the loop every array slot holds its old entry with its tags lowercased |
| LoraStore.LoadedKeepsFields | lora_store.py:10-12 | loading keeps id, name, weight, description and tag count, and loading twice is loading once |
| LoraStore.Names | lora_store.py:15-18 | one name per entry, in catalog order |
| LoraStore.FirstWithId | lora_store.py:24-26 | entry `k` holds the id and no earlier entry does: the position the first-match scan stops at; used by `LoraStore.IndexById`, `LoraStore.FindById` and `Selector.SelectLora` |
| LoraStore.IndexById | lora_store.py:24-27 | nothing exactly when no entry has the id; otherwise the position of the first entry holding it |
| LoraStore.FindById | lora_store.py:24-27 | nothing exactly when no entry has the id; otherwise the first entry of the catalog with that id |
| LoraStore.GetLora | lora_store.py:21-27 | the scan returns the first entry with the id, or nothing |
| LoraStore.Matching | lora_store.py:30-39 | the result is no longer than the catalog, and empty for an empty tag list |
| LoraStore.SearchByTags | lora_store.py:30-39 | the loop's result is the catalog filtered by "shares a tag" |
| LoraStore.MatchingMembers | lora_store.py:34-38 | an entry is in the result exactly when it is in the catalog and shares a tag with the idea's tags |
| LoraStore.MatchingCounts | lora_store.py:34-38 | an entry occurs in the result as often as in the catalog when it shares a tag, and not at all otherwise |
| LoraStore.MatchingIsSubsequence | lora_store.py:33-39 | the result keeps the catalog's order |
| LlmAdapter.SliderToTemp | llm_adapter.py:13-21 | the temperature is 0.2 up to slider 2, 0.5 for 3-5, 0.8 for 6-8 and 1.0 above, each range stated both ways |
| LlmAdapter.SliderToTempMonotone | llm_adapter.py:13-21 | a higher slider never gives a lower temperature |
| LlmAdapter.ExpandRequest | llm_adapter.py:28-34 | the expansion request uses the fixed model, 400 tokens and the slider's temperature; its prompt holds the variant count and ends with the idea |
| LlmAdapter.ExpandPrompt | llm_adapter.py:24-47 | a list reply is returned as it is; any other reply or a failed request gives the empty list |
| LlmAdapter.CatalogLine | llm_adapter.py:54 | one `id: description` line, with "No description" for an absent description; stated through `LlmAdapter.CatalogLines` and `LlmAdapter.ChooseRequest` |
| LlmAdapter.CatalogLines | llm_adapter.py:52-57 | one `id: description` line per entry, in order, with "No description" when there is none |
| LlmAdapter.PromptHoldsIdea | llm_adapter.py:58 | the idea occurs in the assembled prompt |
| LlmAdapter.PromptHoldsListedLine | llm_adapter.py:58 | any line of the listing occurs in the assembled prompt |
| LlmAdapter.ChooseRequest | llm_adapter.py:50-64 | the choice request uses the fixed model, temperature 0.2 and 150 tokens; its prompt holds the idea and every entry's catalog line |
| LlmAdapter.ChooseLoraViaLlm | llm_adapter.py:50-77 | an object reply is returned as it is; any other reply or a failed request gives the empty object |
| App.LoraToken | app.py:13 | the `<lora:id:weight>` token; `App.InjectLoraToken` states it is always in the result and `App.InjectReplacesEveryPlaceholder` relies on its first character and braces |
| App.InjectLoraToken | app.py:11-16 | with no placeholder, the prompt gets a space and the token appended; with one, every placeholder is replaced; either way the token is in the result |
| App.InjectReplacesEveryPlaceholder | app.py:14-15 | when neither id nor weight holds a `{`, no placeholder remains |
| App.LabelFor | app.py:24 | a caption is never empty; it is the variant's own caption when that is non-empty, and otherwise `variant_` followed by the position counted from 1 |
| App.DefaultLabelsDistinct | app.py:24 | two variants at different positions whose own caption is absent or empty get different default captions |
| App.Process | app.py:24-26 | a variant's caption and its stripped prompt and negative prompt; its contract is stated by `App.LabelFor`, `Text.Strip` and `App.ProcessVariants` |
| App.Injects | app.py:46 | the token goes in when the id is non-empty and a weight is present; stated through `App.TokenInEveryPrompt` and `App.BuildMaps` |
| App.FinalPrompt | app.py:45-47 | a prompt with the token put in when the selection calls for it; its contract is stated by `App.TokenInEveryPrompt` |
| App.TokenInEveryPrompt | app.py:46-47 | when the selection has an id and a weight, the token is in the final prompt; otherwise the prompt passes unchanged |
| App.LastLabelIndex | app.py:49-50 | the last position carrying a caption: no later position repeats it |
| App.ShowsLastStep | app.py:43-50 | overwriting the map entries for the next caption keeps every caption mapped to its last variant |
| App.ShowsLastIndex | app.py:49-50 | each caption maps to the prompts of its last occurrence |
| App.ProcessVariants | app.py:22-33 | the first loop gives each variant, in order, its caption and its stripped prompt and negative prompt |
| App.BuildMaps | app.py:40-50 | the second loop gives one caption per variant in order; both maps have exactly the captions as keys; each caption maps to the final and negative prompts of its last variant |
| App.GenerateHandler | app.py:19-57 | the handler's captions, maps, adapter name (or "") and weight, in terms of the variants and the selection |
| App.OnVariantSelect | app.py:60-64 | an empty caption shows two empty texts; otherwise each map's entry, or "" when it is missing |
| App.GenerateThenSelect | app.py:19-64 | choosing a generated caption shows the prompts of the last variant with that caption |
| App.HandlerRecord | app.py:71-77 | the record the save handler passes on; its contract is stated by `App.HandlerRecordStored` |
| App.HandlerRecordStored | app.py:71-78 | a handler save stores a new id, the name or "untitled", the texts as edited, no weight, no tags and the current time |
| App.SavePromptHandler | app.py:67-79 | the table gains exactly the handler's row under the new id, and the status names that id |
| Storage.CleanPieces | storage.py:61 | cleaning the pieces keeps no more pieces than it was given, and every kept tag is non-empty, comma-free and has no surrounding whitespace (which tags are kept is stated by `Storage.CleanPiecesStrips`) |
| Storage.CleanPiecesMembers | storage.py:61 | a tag is kept exactly when it is the non-empty strip of some piece |
| Storage.CleanPiecesCounts | storage.py:61 | a non-empty tag is kept as many times as it is the strip of a piece: repeats are not dropped |
| Storage.CleanPiecesKeepOrder | storage.py:61 | the kept tags are a subsequence of the stripped pieces, so their order is the pieces' order |
| Storage.CleanPiecesAllMembers | storage.py:61 | the kept tags are exactly the non-empty strips of the pieces |
| Storage.CleanPiecesAllCounts | storage.py:61 | every non-empty tag is kept as many times as it is a strip |
| Storage.CleanPiecesStrips | storage.py:61 | cleaning keeps exactly the non-empty strips of the pieces, each as many times as it occurs, in the pieces' order |
| Storage.NormalizeTags | storage.py:59-63 | a list is stored as given; a missing value becomes the empty list; a text becomes clean tags, namely exactly the non-empty stripped comma-separated pieces, repeats included, in order |
| Storage.TagTextRoundTrip | storage.py:59-64 | clean tags joined with commas are stored as the same list |
| Storage.CleanPiecesOfClean | storage.py:61 | already clean pieces are kept as they are |
| Storage.RowId | storage.py:49 | the caller's id when it is non-empty, else the new one; stated through `Storage.PromptStore.SavePrompt` and `App.HandlerRecordStored` |
| Storage.Normalize | storage.py:49-65 | the row `save_prompt` writes; its contract is stated by `Storage.SavedReadsBack` |
| Storage.DecodeTags | storage.py:105-108 | the stored tag list, or the empty list for NULL or text that does not parse; its contract is stated by `Storage.SavedReadsBack` |
| Storage.ToRecord | storage.py:104-108 | a row as read back with its tags decoded; its contract is stated by `Storage.SavedReadsBack` and `Storage.PromptStore.GetPrompt` |
| Storage.SavedReadsBack | storage.py:49-65 | reading back a saved record gives:<br>• the row's id;<br>• the normalised tags;<br>• the weight and slider as given;<br>• each of the seven text fields as given, or "" when absent;<br>• the given `created_at` when it is non-empty, else the stamped current time |
| Storage.PromptStore.constructor | storage.py:19-40 | a new table is empty and well formed |
| Storage.PromptStore.GetPrompt | storage.py:94-109 | nothing exactly when the id is absent, else that row with its tags decoded |
| Storage.PromptStore.SavePrompt | storage.py:47-91 | the caller's non-empty id, or else the new one, is returned; the row is inserted or replaced under it; every other row is unchanged |
| Storage.PromptStore.DeletePrompt | storage.py:132-138 | the row is gone, every other row is unchanged, and the result says whether it existed |
| Storage.PromptStore.Newest | storage.py:116 | the chosen key's `created_at` is at least every other key's |
| Storage.PromptStore.NewestFirst | storage.py:115-118 | the query picks the given number of distinct ids, newest first, with no unpicked row newer than a picked one |
| Storage.PromptStore.PickStep | storage.py:116 | picking the newest remaining row keeps the newest-first order |
| Storage.PromptStore.ListPrompts | storage.py:112-129 | returns:<br>• the limit's number of records, or every row when the limit is negative or exceeds the rows;<br>• each record is a stored row with its tags decoded;<br>• distinct ids, newest first;<br>• no row left out is newer than one returned |
| Storage.ListedRecords | storage.py:121-129 | decoding the picked rows in order keeps the query's ordering and completeness |

## Left out

- The Gradio interface (`app.py:82-156`) and the interface texts in `utils.py` are not modelled. The handlers are modelled on their inputs and outputs.
- The slider-to-weight rule is not modelled: `selector.py` imports `slider_to_weight_hint` from `utils`, which does not define it. `Selector.SelectLora` takes the rule as the parameter `weightHint`.
- Default arguments are not modelled: `select_lora`'s `slider=5` and `llm_fallback=True`, `expand_prompt`'s `slider=5` and `n_variants=3`, and `list_prompts`'s `limit=100`. Every model member takes these values as explicit parameters.
- The HTTP transport, the API key, the dotenv settings, and printing the error are left out. The POST and its JSON decoding are the parameter `post`, which yields a decoded value or a request failure.
- In `App.GenerateHandler`, `generate_handler` calls the language model and `select_lora` itself. The model takes their results, the variants and the selection, as inputs, because those two calls are modelled separately as `LlmAdapter.ExpandPrompt` and `Selector.SelectLora`.
- App.GenerateHandler: a variant that is not a dictionary, or a field that is not text, is not modelled. An absent key is `None`.
- App.ProcessVariants, App.BuildMaps: `generate_handler` is one function with two loops. It is modelled as these two methods plus their composition.
- The SQLite connection, table creation and commits are left out. The `uuid4` id and the current time are inputs, `freshId` and `clock`, to `Storage.PromptStore.SavePrompt`. `freshId` must be non-empty, as a UUID is.
- Storage.PromptStore.ListPrompts: the order among rows with equal `created_at` is not fixed. SQLite leaves it unspecified too.
- The JSON encoding of the `tags` column is not modelled. A stored list is kept as the list itself, and text that does not parse is a separate column value. The `ensure_ascii` spelling of the JSON is not modelled.
- `export_prompt_json` (`storage.py:141-151`) is left out. It only writes a file.
- The file read and JSON decoding in `load_loras` are left out. `LoraStore.LowercaseTags` models the loop over the decoded entries.
- Weights are exact hundredths. Python floats, `round(w, 2)`, and the way a float prints in `<lora:id:w>` are not modelled. The printing is the parameter `render` of the `App` handlers. `LlmAdapter.Json` holds integer numbers only (`JNumber(n: int)`), so a reply number such as `"suggested_weight": 0.7` is not represented.
- Text.Lower: only ASCII letters are lowercased. Python's `str.lower` also folds non-ASCII letters.
- Selector.SelectLora: tokens are modelled as a set. The source builds a list from a set, so the order carries nothing.
- LlmAdapter.CatalogLines: a catalog field present with a JSON `null` value is treated as absent. The source prints such a description as `None`, not "No description". `Selector.SelectLora` likewise does not model a `null` `default_weight`, which the source hands to the weight rule as `None`.
- LlmAdapter.ExpandRequest: states the fixed fields, the count in the prompt and the idea at its end, not the prompt's full text.
- LlmAdapter.ChooseRequest: states the fixed fields and that the idea and every catalog line occur in the prompt, not the prompt's full text.
- Storage.PromptStore.GetPrompt: does not model a column holding `tags` text that parses to something other than a list of strings.
