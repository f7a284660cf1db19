/**
 * The style-adapter ("LORA") catalog: the entries read from the catalog file,
 * the in-place lowercasing of their tags on load, and the three queries over it.
 */
module LoraStore {
  import opened Wrappers
  import opened Text
  import opened Seqs

  /** A blend weight in hundredths: 0.5 is 50. */
  type Weight = int

  /** One catalog entry; `defaultWeight` and `description` may be absent from the file. */
  datatype Lora = Lora(
    id: string,
    name: string,
    tags: seq<string>,
    defaultWeight: Option<Weight>,
    description: Option<string>)

  /** Every tag lowercased, in the same order. */
  function LowerAll(tags: seq<string>): (r: seq<string>)
    ensures |r| == |tags|
    ensures forall k :: 0 <= k < |tags| ==> r[k] == Lower(tags[k])
  {
    seq(|tags|, k requires 0 <= k < |tags| => Lower(tags[k]))
  }

  /** The entry as loaded: its tags lowercased, every other field as in the file. */
  function Loaded(entry: Lora): Lora {
    entry.(tags := LowerAll(entry.tags))
  }

  /**
   * The loop of `load_loras` over the decoded catalog: each entry's tag list is
   * replaced, in place, by its lowercased copy; nothing else changes.
   */
  method LowercaseTags(catalog: array<Lora>)
    modifies catalog
    ensures forall i :: 0 <= i < catalog.Length ==> catalog[i] == Loaded(old(catalog[i]))
  {
    for i := 0 to catalog.Length
      invariant forall j :: 0 <= j < i ==> catalog[j] == Loaded(old(catalog[j]))
      invariant forall j :: i <= j < catalog.Length ==> catalog[j] == old(catalog[j])
    {
      catalog[i] := catalog[i].(tags := LowerAll(catalog[i].tags));
    }
  }

  /** A loaded entry keeps its id, name, weight, description and number of tags, and loading again changes nothing. */
  lemma LoadedKeepsFields(entry: Lora)
    ensures Loaded(entry).id == entry.id && Loaded(entry).name == entry.name
    ensures Loaded(entry).defaultWeight == entry.defaultWeight
    ensures Loaded(entry).description == entry.description
    ensures |Loaded(entry).tags| == |entry.tags|
    ensures Loaded(Loaded(entry)) == Loaded(entry)
  {
    forall k | 0 <= k < |entry.tags| {
      LowerIdempotent(entry.tags[k]);
    }
  }

  /** `list_loras`: the name of every entry, in catalog order. */
  function Names(catalog: seq<Lora>): (names: seq<string>)
    ensures |names| == |catalog|
    ensures forall k :: 0 <= k < |catalog| ==> names[k] == catalog[k].name
  {
    seq(|catalog|, k requires 0 <= k < |catalog| => catalog[k].name)
  }

  /** Entry `k` is the first with the given id. */
  predicate FirstWithId(catalog: seq<Lora>, id: string, k: nat) {
    k < |catalog| && catalog[k].id == id && forall j :: 0 <= j < k ==> catalog[j].id != id
  }

  /** The position of the first entry with the given id, if any. */
  function IndexById(catalog: seq<Lora>, id: string): (r: Option<nat>)
    ensures r.None? <==> forall k :: 0 <= k < |catalog| ==> catalog[k].id != id
    ensures r.Some? ==> FirstWithId(catalog, id, r.value)
  {
    if catalog == [] then None
    else if catalog[0].id == id then Some(0)
    else match IndexById(catalog[1..], id)
      case None => None
      case Some(k) => Some(k + 1)
  }

  /** The first entry with the given id, if any. */
  function FindById(catalog: seq<Lora>, id: string): (r: Option<Lora>)
    ensures r.None? <==> forall k :: 0 <= k < |catalog| ==> catalog[k].id != id
    ensures r.Some? ==> exists k: nat :: FirstWithId(catalog, id, k) && r.value == catalog[k]
  {
    match IndexById(catalog, id)
    case None => None
    case Some(k) => Some(catalog[k])
  }

  /** `get_lora`: a scan that returns the first entry whose id matches. */
  method GetLora(catalog: seq<Lora>, id: string) returns (r: Option<Lora>)
    ensures r == FindById(catalog, id)
    ensures r.Some? ==> r.value in catalog && r.value.id == id
  {
    for i := 0 to |catalog|
      invariant forall k :: 0 <= k < i ==> catalog[k].id != id
    {
      if catalog[i].id == id {
        assert FirstWithId(catalog, id, i);
        return Some(catalog[i]);
      }
    }
    return None;
  }

  /** Whether two tag lists have a tag in common (a non-empty set intersection). */
  predicate SharesTag(a: seq<string>, b: seq<string>) {
    exists t :: t in a && t in b
  }

  /** The entries that share a tag with `ideaTags`, in catalog order. */
  function Matching(catalog: seq<Lora>, ideaTags: seq<string>): (r: seq<Lora>)
    ensures |r| <= |catalog|
    ensures ideaTags == [] ==> r == []
    decreases |catalog|
  {
    if catalog == [] then []
    else
      var last := catalog[|catalog| - 1];
      Matching(catalog[..|catalog| - 1], ideaTags) + (if SharesTag(last.tags, ideaTags) then [last] else [])
  }

  /** `search_loras_by_tags`: a scan that appends every entry sharing a tag with `ideaTags`. */
  method SearchByTags(catalog: seq<Lora>, ideaTags: seq<string>) returns (matched: seq<Lora>)
    ensures matched == Matching(catalog, ideaTags)
  {
    matched := [];
    for i := 0 to |catalog|
      invariant matched == Matching(catalog[..i], ideaTags)
    {
      assert catalog[..i + 1][..i] == catalog[..i];
      if SharesTag(catalog[i].tags, ideaTags) {
        matched := matched + [catalog[i]];
      }
    }
    assert catalog[..|catalog|] == catalog;
  }

  /** An entry is in the search result exactly when it is in the catalog and shares a tag. */
  lemma {:induction false} MatchingMembers(catalog: seq<Lora>, ideaTags: seq<string>, entry: Lora)
    ensures entry in Matching(catalog, ideaTags) <==> entry in catalog && SharesTag(entry.tags, ideaTags)
    decreases |catalog|
  {
    if catalog != [] {
      var init := catalog[..|catalog| - 1];
      MatchingMembers(init, ideaTags, entry);
      assert catalog == init + [catalog[|catalog| - 1]];
    }
  }

  /** An entry occurs in the search result as often as in the catalog when it shares a tag, and not at all otherwise. */
  lemma {:induction false} MatchingCounts(catalog: seq<Lora>, ideaTags: seq<string>, entry: Lora)
    ensures multiset(Matching(catalog, ideaTags))[entry] == if SharesTag(entry.tags, ideaTags) then multiset(catalog)[entry] else 0
    decreases |catalog|
  {
    if catalog != [] {
      var init := catalog[..|catalog| - 1];
      MatchingCounts(init, ideaTags, entry);
      assert catalog == init + [catalog[|catalog| - 1]];
    }
  }

  /** The search result keeps the catalog's order. */
  lemma {:induction false} MatchingIsSubsequence(catalog: seq<Lora>, ideaTags: seq<string>)
    ensures Subsequence(Matching(catalog, ideaTags), catalog)
    decreases |catalog|
  {
    if catalog != [] {
      var init := catalog[..|catalog| - 1];
      var last := catalog[|catalog| - 1];
      MatchingIsSubsequence(init, ideaTags);
      var r := Matching(catalog, ideaTags);
      if SharesTag(last.tags, ideaTags) {
        assert r[..|r| - 1] == Matching(init, ideaTags);
      } else {
        assert r == Matching(init, ideaTags);
      }
    }
  }
}
