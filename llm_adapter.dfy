/**
 * The LLM adapter: the creativity-to-temperature table, the two requests it
 * builds, and the fail-soft filtering of what comes back. The HTTP call itself
 * is a parameter `post` from a request to its outcome: either a decoded JSON
 * body, or a request failure (connection error, timeout, non-2xx status).
 */
module LlmAdapter {
  import opened Wrappers
  import opened Text
  import opened LoraStore

  /** A decoded JSON value. */
  datatype Json =
    | JNull
    | JBool(b: bool)
    | JNumber(n: int)
    | JString(s: string)
    | JArray(items: seq<Json>)
    | JObject(fields: map<string, Json>)

  /** What one POST yields: a decoded body, or a request exception. */
  datatype Response = Decoded(body: Json) | RequestFailed

  /** The request body; the temperature is in tenths. */
  datatype Request = Request(model: string, prompt: string, temperature: nat, maxTokens: nat)

  const ModelName: string := "deepseek/deepseek-chat-v3-0324:free"

  /**
   * `slider_to_temp`, in tenths: 2 up to slider 2, 5 up to 5, 8 up to 8, and 10
   * above; any integer is accepted, negatives included.
   */
  function SliderToTemp(slider: int): (tenths: nat)
    ensures tenths in {2, 5, 8, 10}
    ensures tenths == 2 <==> slider <= 2
    ensures tenths == 5 <==> 3 <= slider <= 5
    ensures tenths == 8 <==> 6 <= slider <= 8
    ensures tenths == 10 <==> 9 <= slider
  {
    if slider <= 2 then 2
    else if slider <= 5 then 5
    else if slider <= 8 then 8
    else 10
  }

  /** More creativity never lowers the temperature. */
  lemma SliderToTempMonotone(a: int, b: int)
    requires a <= b
    ensures SliderToTemp(a) <= SliderToTemp(b)
  {
  }

  /** The request `expand_prompt` sends. */
  function ExpandRequest(idea: string, slider: int, nVariants: int): (req: Request)
    ensures req.model == ModelName && req.maxTokens == 400
    ensures req.temperature == SliderToTemp(slider)
    ensures Contains(req.prompt, IntToDecimal(nVariants))
    ensures |req.prompt| >= |idea| && req.prompt[|req.prompt| - |idea|..] == idea
  {
    var head := "Expand the following idea into ";
    var count := IntToDecimal(nVariants);
    var tail := " different prompts: " + idea;
    ContainsInfix(head, count, tail);
    assert head + count + tail == (head + count + " different prompts: ") + idea;
    Request(ModelName, head + count + tail, SliderToTemp(slider), 400)
  }

  /**
   * `expand_prompt`: the decoded body when it is a list, otherwise the empty
   * list; a failed request also gives the empty list and is never raised.
   */
  function ExpandPrompt(idea: string, slider: int, nVariants: int, post: Request -> Response): (variants: seq<Json>)
    ensures post(ExpandRequest(idea, slider, nVariants)).RequestFailed? ==> variants == []
    ensures post(ExpandRequest(idea, slider, nVariants)) == Decoded(JArray(variants)) || variants == []
    ensures forall xs :: post(ExpandRequest(idea, slider, nVariants)) == Decoded(JArray(xs)) ==> variants == xs
  {
    match post(ExpandRequest(idea, slider, nVariants))
    case Decoded(JArray(items)) => items
    case _ => []
  }

  /** One line of the catalog listing sent to the model: the id and the description. */
  function CatalogLine(entry: Lora): string {
    entry.id + ": " + entry.description.GetOr("No description")
  }

  function CatalogLines(catalog: seq<Lora>): (lines: seq<string>)
    ensures |lines| == |catalog|
    ensures forall k :: 0 <= k < |catalog| ==> lines[k] == CatalogLine(catalog[k])
  {
    seq(|catalog|, k requires 0 <= k < |catalog| => CatalogLine(catalog[k]))
  }

  /** The idea occurs in the prompt assembled around it. */
  lemma PromptHoldsIdea(head: string, idea: string, middle: string, listing: string, tail: string)
    ensures Contains(head + idea + middle + listing + tail, idea)
  {
    ContainsInfix(head, idea, middle + listing + tail);
    assert head + idea + (middle + listing + tail) == head + idea + middle + listing + tail;
  }

  /** Any line of the listing occurs in the prompt assembled around it. */
  lemma PromptHoldsListedLine(head: string, idea: string, middle: string, listing: string, tail: string, line: string)
    requires Contains(listing, line)
    ensures Contains(head + idea + middle + listing + tail, line)
  {
    ContainsMiddle(head + idea + middle, listing, tail, line);
  }

  /** The request `choose_lora_via_llm` sends: the idea and one line per catalog entry, at temperature 0.2. */
  function ChooseRequest(idea: string, catalog: seq<Lora>): (req: Request)
    ensures req.model == ModelName && req.temperature == 2 && req.maxTokens == 150
    ensures Contains(req.prompt, idea)
    ensures forall k :: 0 <= k < |catalog| ==> Contains(req.prompt, CatalogLine(catalog[k]))
  {
    var listing := Join(CatalogLines(catalog), "\n");
    var head := "Given the idea: \"";
    var middle := "\", choose the best LORA from the following list:\n";
    var tail := "\nReturn a JSON with selected_lora and suggested_weight.";
    var prompt := head + idea + middle + listing + tail;
    PromptHoldsIdea(head, idea, middle, listing, tail);
    forall k | 0 <= k < |catalog|
      ensures Contains(prompt, CatalogLine(catalog[k]))
    {
      JoinContainsParts(CatalogLines(catalog), "\n", k);
      PromptHoldsListedLine(head, idea, middle, listing, tail, CatalogLine(catalog[k]));
    }
    Request(ModelName, prompt, 2, 150)
  }

  /**
   * `choose_lora_via_llm`: the decoded body when it is an object, otherwise the
   * empty object; a failed request also gives the empty object.
   */
  function ChooseLoraViaLlm(idea: string, catalog: seq<Lora>, post: Request -> Response): (choice: map<string, Json>)
    ensures post(ChooseRequest(idea, catalog)).RequestFailed? ==> choice == map[]
    ensures post(ChooseRequest(idea, catalog)) == Decoded(JObject(choice)) || choice == map[]
    ensures forall m :: post(ChooseRequest(idea, catalog)) == Decoded(JObject(m)) ==> choice == m
  {
    match post(ChooseRequest(idea, catalog))
    case Decoded(JObject(fields)) => fields
    case _ => map[]
  }
}
