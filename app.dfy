/**
 * The request handlers behind the interface: putting the adapter token into a
 * prompt, turning the expanded variants into labelled prompts, showing the
 * chosen variant, and building the record a save stores. The variants and the
 * selection are inputs; how a weight prints is the parameter `render`.
 */
module App {
  import opened Wrappers
  import opened Text
  import opened LoraStore
  import opened Selector
  import Storage

  const Placeholder: string := "{LORA_TOKEN}"

  /** `<lora:id:weight>`. */
  function LoraToken(loraId: string, weightText: string): string {
    "<lora:" + loraId + ":" + weightText + ">"
  }

  /**
   * `_inject_lora_token`: replace every placeholder by the token when there is
   * one, otherwise append a space and the token. Either way the token is in the
   * result.
   */
  function InjectLoraToken(prompt: string, loraId: string, weightText: string): (r: string)
    ensures !Contains(prompt, Placeholder) ==> r == prompt + " " + LoraToken(loraId, weightText)
    ensures Contains(prompt, Placeholder) ==> r == ReplaceAll(prompt, Placeholder, LoraToken(loraId, weightText))
    ensures Contains(r, LoraToken(loraId, weightText))
  {
    var token := LoraToken(loraId, weightText);
    if Contains(prompt, Placeholder) then
      ReplaceInserts(prompt, Placeholder, token);
      ReplaceAll(prompt, Placeholder, token)
    else
      ContainsInfix(prompt + " ", token, "");
      assert prompt + " " + token + "" == prompt + " " + token;
      prompt + " " + token
  }

  /**
   * Every placeholder is replaced: when neither the id nor the weight text holds
   * a `{`, no placeholder is left in a prompt that had one.
   */
  lemma InjectReplacesEveryPlaceholder(prompt: string, loraId: string, weightText: string)
    requires Contains(prompt, Placeholder)
    requires '{' !in loraId && '{' !in weightText
    ensures !Contains(InjectLoraToken(prompt, loraId, weightText), Placeholder)
  {
    var token := LoraToken(loraId, weightText);
    assert token == "<lora:" + loraId + ":" + weightText + ">";
    assert '{' !in token;
    assert token[0] == '<';
    ReplaceRemovesAll(prompt, Placeholder, token);
  }

  // ---------------------------------------------------------------------------
  // generate_handler

  /** One element of the expanded list; a key that is absent is `None`. */
  datatype RawVariant = RawVariant(variant: Option<string>, prompt: Option<string>, negativePrompt: Option<string>)

  /** A variant after the first pass: its caption and its stripped texts. */
  datatype Processed = Processed(caption: string, prompt: string, negativePrompt: string)

  /** The variant's own caption when it has a non-empty one, else `variant_<i+1>`. */
  function LabelFor(v: RawVariant, i: nat): (caption: string)
    ensures caption != ""
    ensures v.variant.Some? && v.variant.value != "" ==> caption == v.variant.value
    ensures !(v.variant.Some? && v.variant.value != "") ==> caption == "variant_" + NatToDecimal(i + 1)
  {
    if v.variant.Some? && v.variant.value != "" then v.variant.value else "variant_" + NatToDecimal(i + 1)
  }

  /** Two variants without a caption of their own (absent or empty) get distinct default captions. */
  lemma DefaultLabelsDistinct(v: RawVariant, w: RawVariant, i: nat, j: nat)
    requires v.variant.None? || v.variant.value == ""
    requires w.variant.None? || w.variant.value == ""
    requires i != j
    ensures LabelFor(v, i) != LabelFor(w, j)
  {
    var prefix := "variant_";
    var a, b := NatToDecimal(i + 1), NatToDecimal(j + 1);
    DecimalRoundTrip(i + 1);
    DecimalRoundTrip(j + 1);
    assert a != b;
    assert (prefix + a)[|prefix|..] == a;
    assert (prefix + b)[|prefix|..] == b;
    assert LabelFor(v, i) == prefix + a && LabelFor(w, j) == prefix + b;
  }

  /** A text field of a variant, stripped; an absent field reads as "". */
  function Stripped(field: Option<string>): string {
    Strip(field.GetOr(""))
  }

  /** What the first pass makes of variant `i`. */
  function Process(v: RawVariant, i: nat): Processed {
    Processed(LabelFor(v, i), Stripped(v.prompt), Stripped(v.negativePrompt))
  }

  /** The token goes in when the selection has a non-empty id and a weight. */
  predicate Injects(sel: Selection) {
    sel.loraId.Some? && sel.loraId.value != "" && sel.weight.Some?
  }

  function FinalPrompt(p: Processed, sel: Selection, render: Weight -> string): string {
    if Injects(sel) then InjectLoraToken(p.prompt, sel.loraId.value, render(sel.weight.value)) else p.prompt
  }

  /** The token reaches every prompt exactly when the selection calls for it; otherwise prompts pass unchanged. */
  lemma TokenInEveryPrompt(p: Processed, sel: Selection, render: Weight -> string)
    ensures Injects(sel) ==> Contains(FinalPrompt(p, sel, render), LoraToken(sel.loraId.value, render(sel.weight.value)))
    ensures !Injects(sel) ==> FinalPrompt(p, sel, render) == p.prompt
  {
  }

  /** The position of the last caption equal to `labels[i]`. */
  function LastLabelIndex(labels: seq<string>, i: nat): (j: nat)
    requires i < |labels|
    ensures i <= j < |labels| && labels[j] == labels[i]
    ensures forall k :: j < k < |labels| ==> labels[k] != labels[i]
    decreases |labels|
  {
    if labels[|labels| - 1] == labels[i] then |labels| - 1 else LastLabelIndex(labels[..|labels| - 1], i)
  }

  /** No later caption repeats `labels[i]`. */
  predicate LastOfLabel(labels: seq<string>, i: nat)
    requires i < |labels|
  {
    forall k :: i < k < |labels| ==> labels[k] != labels[i]
  }

  /**
   * The maps built from the first `|labels|` processed variants: every caption
   * that is not repeated later maps to that variant's final and negative prompts.
   */
  predicate ShowsLast(
    processed: seq<Processed>, labels: seq<string>, promptMap: map<string, string>, negMap: map<string, string>,
    sel: Selection, render: Weight -> string)
    requires |labels| <= |processed|
  {
    forall j :: 0 <= j < |labels| && LastOfLabel(labels, j) ==>
      && labels[j] in promptMap && promptMap[labels[j]] == FinalPrompt(processed[j], sel, render)
      && labels[j] in negMap && negMap[labels[j]] == processed[j].negativePrompt
  }

  /** Adding the next variant's caption and overwriting its map entries keeps `ShowsLast`. */
  lemma ShowsLastStep(
    processed: seq<Processed>, labels: seq<string>, promptMap: map<string, string>, negMap: map<string, string>,
    sel: Selection, render: Weight -> string)
    requires |labels| < |processed|
    requires ShowsLast(processed, labels, promptMap, negMap, sel, render)
    ensures var p := processed[|labels|];
      ShowsLast(processed, labels + [p.caption],
        promptMap[p.caption := FinalPrompt(p, sel, render)], negMap[p.caption := p.negativePrompt], sel, render)
  {
    var p := processed[|labels|];
    var labels' := labels + [p.caption];
    var promptMap' := promptMap[p.caption := FinalPrompt(p, sel, render)];
    var negMap' := negMap[p.caption := p.negativePrompt];
    forall j | 0 <= j < |labels'| && LastOfLabel(labels', j)
      ensures labels'[j] in promptMap' && promptMap'[labels'[j]] == FinalPrompt(processed[j], sel, render)
      ensures labels'[j] in negMap' && negMap'[labels'[j]] == processed[j].negativePrompt
    {
      if j < |labels| {
        assert labels'[|labels|] == p.caption;
        assert labels'[j] == labels[j] != p.caption;
        forall k | j < k < |labels|
          ensures labels[k] != labels[j]
        {
          assert labels'[k] == labels[k];
        }
        assert LastOfLabel(labels, j);
      }
    }
  }

  /** Under `ShowsLast`, each caption maps to the variant at its last occurrence. */
  lemma ShowsLastIndex(
    processed: seq<Processed>, labels: seq<string>, promptMap: map<string, string>, negMap: map<string, string>,
    sel: Selection, render: Weight -> string, i: nat)
    requires i < |labels| <= |processed|
    requires ShowsLast(processed, labels, promptMap, negMap, sel, render)
    ensures var j := LastLabelIndex(labels, i);
      && labels[i] in promptMap && promptMap[labels[i]] == FinalPrompt(processed[j], sel, render)
      && labels[i] in negMap && negMap[labels[i]] == processed[j].negativePrompt
  {
    assert LastOfLabel(labels, LastLabelIndex(labels, i));
  }

  /** The caption of variant `j` is that of variant `i`, and no later variant repeats it. */
  predicate LastWithCaption(variants: seq<RawVariant>, i: nat, j: nat)
    requires i < |variants|
  {
    && i <= j < |variants|
    && LabelFor(variants[j], j) == LabelFor(variants[i], i)
    && forall k :: j < k < |variants| ==> LabelFor(variants[k], k) != LabelFor(variants[i], i)
  }

  /** The first loop of `generate_handler`: caption and strip every variant, in order. */
  method ProcessVariants(variants: seq<RawVariant>) returns (processed: seq<Processed>)
    ensures |processed| == |variants|
    ensures forall j :: 0 <= j < |variants| ==> processed[j] == Process(variants[j], j)
  {
    processed := [];
    for i := 0 to |variants|
      invariant |processed| == i
      invariant forall j :: 0 <= j < i ==> processed[j] == Process(variants[j], j)
    {
      var v := variants[i];
      var caption := LabelFor(v, i);
      processed := processed + [Processed(caption, Stripped(v.prompt), Stripped(v.negativePrompt))];
    }
  }

  /**
   * The second loop of `generate_handler`: one caption per processed variant, in
   * order; each caption maps to the final prompt and the negative prompt of the
   * LAST variant that carries it.
   */
  method BuildMaps(processed: seq<Processed>, sel: Selection, render: Weight -> string)
    returns (labels: seq<string>, promptMap: map<string, string>, negMap: map<string, string>)
    ensures |labels| == |processed|
    ensures forall j :: 0 <= j < |processed| ==> labels[j] == processed[j].caption
    ensures promptMap.Keys == negMap.Keys == set c | c in labels
    ensures forall i :: 0 <= i < |labels| ==>
      var j := LastLabelIndex(labels, i);
      && promptMap[labels[i]] == FinalPrompt(processed[j], sel, render)
      && negMap[labels[i]] == processed[j].negativePrompt
  {
    labels, promptMap, negMap := [], map[], map[];
    for i := 0 to |processed|
      invariant |labels| == i
      invariant forall j :: 0 <= j < i ==> labels[j] == processed[j].caption
      invariant promptMap.Keys == negMap.Keys == set c | c in labels
      invariant ShowsLast(processed, labels, promptMap, negMap, sel, render)
    {
      var p := processed[i];
      var finalPrompt := p.prompt;
      if Injects(sel) {
        finalPrompt := InjectLoraToken(finalPrompt, sel.loraId.value, render(sel.weight.value));
      }
      assert finalPrompt == FinalPrompt(p, sel, render);
      ShowsLastStep(processed, labels, promptMap, negMap, sel, render);
      labels := labels + [p.caption];
      promptMap := promptMap[p.caption := finalPrompt];
      negMap := negMap[p.caption := p.negativePrompt];
    }
    forall i | 0 <= i < |labels|
      ensures var j := LastLabelIndex(labels, i);
        && promptMap[labels[i]] == FinalPrompt(processed[j], sel, render)
        && negMap[labels[i]] == processed[j].negativePrompt
    {
      ShowsLastIndex(processed, labels, promptMap, negMap, sel, render, i);
    }
  }

  /**
   * The post-processing of `generate_handler`: one caption per variant in variant
   * order; each caption maps to the prompt (with the token when the selection
   * calls for it) and the negative prompt of the LAST variant carrying it; the
   * adapter name and weight are passed through.
   */
  method GenerateHandler(variants: seq<RawVariant>, sel: Selection, render: Weight -> string)
    returns (labels: seq<string>, promptMap: map<string, string>, negMap: map<string, string>,
             loraName: string, weight: Option<Weight>)
    ensures |labels| == |variants|
    ensures forall i :: 0 <= i < |variants| ==> labels[i] == LabelFor(variants[i], i)
    ensures promptMap.Keys == negMap.Keys == set c | c in labels
    ensures forall i :: 0 <= i < |labels| ==>
      var j := LastLabelIndex(labels, i);
      && promptMap[labels[i]] == FinalPrompt(Process(variants[j], j), sel, render)
      && negMap[labels[i]] == Process(variants[j], j).negativePrompt
    ensures loraName == sel.loraName.GetOr("")
    ensures weight == sel.weight
  {
    var processed := ProcessVariants(variants);
    loraName := sel.loraName.GetOr("");
    weight := sel.weight;
    labels, promptMap, negMap := BuildMaps(processed, sel, render);
  }

  /** `on_variant_select`: nothing for an empty caption, else both map entries, each defaulting to "". */
  function OnVariantSelect(caption: string, promptMap: map<string, string>, negMap: map<string, string>): (shown: (string, string))
    ensures caption == "" ==> shown == ("", "")
    ensures caption != "" && caption in promptMap ==> shown.0 == promptMap[caption]
    ensures caption != "" && caption !in promptMap ==> shown.0 == ""
    ensures caption != "" && caption in negMap ==> shown.1 == negMap[caption]
    ensures caption != "" && caption !in negMap ==> shown.1 == ""
  {
    if caption == "" then ("", "")
    else (if caption in promptMap then promptMap[caption] else "", if caption in negMap then negMap[caption] else "")
  }

  /**
   * Generating and then choosing the `i`th caption shows the prompt and negative
   * prompt of the last variant that carries that caption.
   */
  method GenerateThenSelect(variants: seq<RawVariant>, sel: Selection, render: Weight -> string, i: nat)
    returns (prompt: string, negativePrompt: string)
    requires i < |variants|
    ensures exists j: nat ::
      && LastWithCaption(variants, i, j)
      && prompt == FinalPrompt(Process(variants[j], j), sel, render)
      && negativePrompt == Process(variants[j], j).negativePrompt
  {
    var labels, promptMap, negMap, _, _ := GenerateHandler(variants, sel, render);
    var shown := OnVariantSelect(labels[i], promptMap, negMap);
    prompt, negativePrompt := shown.0, shown.1;
    var j := LastLabelIndex(labels, i);
    assert labels[i] in promptMap;
    assert LastWithCaption(variants, i, j);
  }

  // ---------------------------------------------------------------------------
  // save_prompt_handler

  /**
   * The record `save_prompt_handler` hands to `save_prompt`: no id, the name or
   * "untitled", the texts as given. The weight goes under a key the store never
   * reads, so the record carries no `lora_weight`.
   */
  function HandlerRecord(prompt: string, negativePrompt: string, loraName: string, name: string): Storage.PromptInput {
    Storage.PromptInput(
      None, Some(if name == "" then "untitled" else name), Some(prompt), Some(negativePrompt), Some(loraName),
      None, None, None, None, None, None, None)
  }

  /** What a handler save stores: a new id, the name or "untitled", no weight, no tags, the current time. */
  lemma HandlerRecordStored(prompt: string, negativePrompt: string, loraName: string, name: string, freshId: string, clock: string)
    ensures var input := HandlerRecord(prompt, negativePrompt, loraName, name);
      var r := Storage.ToRecord(Storage.Normalize(input, Storage.RowId(input, freshId), clock));
      && r.id == freshId
      && r.name == (if name == "" then "untitled" else name)
      && r.prompt == prompt && r.negativePrompt == negativePrompt && r.loraName == loraName
      && r.loraWeight.None?
      && r.tags == []
      && r.createdAt == clock + "Z"
  {
  }

  /** `save_prompt_handler`: save the edited prompt under a new id and report it. */
  method SavePromptHandler(
    store: Storage.PromptStore, prompt: string, negativePrompt: string, loraName: string,
    weight: string, name: string, freshId: string, clock: string)
    returns (status: string)
    requires store.Valid() && freshId != ""
    modifies store
    ensures store.Valid()
    ensures status == "Сохранено: " + freshId
    ensures store.rows == old(store.rows)[freshId := Storage.Normalize(HandlerRecord(prompt, negativePrompt, loraName, name), freshId, clock)]
  {
    var savedId := store.SavePrompt(HandlerRecord(prompt, negativePrompt, loraName, name), freshId, clock);
    status := "Сохранено: " + savedId;
  }
}
