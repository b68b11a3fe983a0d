/**
 * The metadata bag and the refinement map of `content.go`: how the Dublin
 * Core elements and `meta` elements of the active package are folded into
 * keyed maps (EPUB 3.3, section 5.5, the metadata section of the package
 * document, and its `refines` attribute).
 */
module ContentMetadata {
  import opened Wrappers
  import Text
  import Pkg
  import opened EpubModel

  // ---------------------------------------------------------------------
  // The metadata bag (`parseMetadata`)

  /** The values of the elements, in document order. */
  function ValuesOf(es: seq<Pkg.DCElement>): (vs: seq<string>)
    ensures |vs| == |es|
    decreases |es|
  {
    if es == [] then [] else ValuesOf(es[..|es| - 1]) + [es[|es| - 1].value]
  }

  lemma {:induction false} ValuesOfAt(es: seq<Pkg.DCElement>, i: nat)
    requires i < |es|
    ensures ValuesOf(es)[i] == es[i].value
    decreases |es|
  {
    if i < |es| - 1 {
      ValuesOfAt(es[..|es| - 1], i);
    }
  }

  /** The values of the elements with the given local name, in document order. */
  function NamedValues(es: seq<Pkg.DCElement>, name: string): seq<string>
    decreases |es|
  {
    if es == [] then []
    else
      var n := |es| - 1;
      NamedValues(es[..n], name) + (if es[n].name == name then [es[n].value] else [])
  }

  predicate AllStrings(m: map<string, MetaValue>) {
    forall k :: k in m ==> m[k].Strings?
  }

  /** The optional elements appended, one by one, to the list under their
      local name (created empty when missing). */
  function GroupOptional(m: map<string, MetaValue>, os: seq<Pkg.DCElement>): (r: map<string, MetaValue>)
    requires AllStrings(m)
    ensures AllStrings(r) && m.Keys <= r.Keys
    decreases |os|
  {
    if os == [] then m
    else
      var n := |os| - 1;
      var g := GroupOptional(m, os[..n]);
      var name := os[n].name;
      var prev := if name in g then g[name].items else [];
      g[name := Strings(prev + [os[n].value])]
  }

  /** Every optional element lands under its local name, after what the map
      already held there, in document order; other keys are untouched. */
  lemma {:induction false} GroupOptionalAt(m: map<string, MetaValue>, os: seq<Pkg.DCElement>, k: string)
    requires AllStrings(m)
    ensures k in GroupOptional(m, os) <==> k in m || NamedValues(os, k) != []
    ensures k in GroupOptional(m, os) ==>
              GroupOptional(m, os)[k].items == (if k in m then m[k].items else []) + NamedValues(os, k)
    decreases |os|
  {
    if os != [] {
      GroupOptionalAt(m, os[..|os| - 1], k);
    }
  }

  /** The key a `meta` is stored under: its `property`, or its `name` when it has none. */
  function MetaKey(meta: Pkg.Meta): string {
    if meta.property == "" then meta.name else meta.property
  }

  /** `slices.Compact`: runs of equal consecutive values replaced by one. */
  function Compact(xs: seq<string>): (r: seq<string>)
    ensures |r| <= |xs|
    ensures xs != [] ==> r != [] && r[|r| - 1] == xs[|xs| - 1]
    decreases |xs|
  {
    if |xs| <= 1 then xs
    else
      var n := |xs| - 1;
      var c := Compact(xs[..n]);
      if xs[n] == xs[n - 1] then c else c + [xs[n]]
  }

  /** No two consecutive values are equal. */
  predicate Compacted(xs: seq<string>) {
    forall i :: 0 < i < |xs| ==> xs[i] != xs[i - 1]
  }

  lemma {:induction false} CompactIsCompacted(xs: seq<string>)
    ensures Compacted(Compact(xs))
    decreases |xs|
  {
    if |xs| > 1 {
      CompactIsCompacted(xs[..|xs| - 1]);
    }
  }

  /** Compacting a compacted list and one more value is what compacting the
      whole original list and that value gives; so compacting after every
      append, as the reader does, compacts the whole list. */
  lemma {:induction false} CompactSnoc(xs: seq<string>, v: string)
    ensures Compact(Compact(xs) + [v]) == Compact(xs + [v])
  {
    if xs == [] {
      assert xs + [v] == [v];
    } else {
      var c := Compact(xs);
      var xv := xs + [v];
      var cv := c + [v];
      assert xv[..|xs|] == xs && xv[|xs| - 1] == xs[|xs| - 1];
      assert cv[..|c|] == c && cv[|c| - 1] == c[|c| - 1];
      CompactIdempotent(xs);
      assert Compact(xv) == if v == xs[|xs| - 1] then c else cv;
    }
  }

  lemma {:induction false} CompactIdempotent(xs: seq<string>)
    ensures Compact(Compact(xs)) == Compact(xs)
    decreases |xs|
  {
    if |xs| > 1 {
      var n := |xs| - 1;
      var init, v := xs[..n], xs[n];
      var c := Compact(init);
      CompactIdempotent(init);
      assert init[n - 1] == xs[n - 1];
      if v == xs[n - 1] {
        assert Compact(xs) == c;
      } else {
        assert Compact(xs) == c + [v];
        assert c[|c| - 1] == xs[n - 1];
        CompactStep(c, v);
      }
    }
  }

  /** Compacting one more value: it is dropped exactly when it repeats the
      last value. */
  lemma CompactStep(xs: seq<string>, v: string)
    requires xs != []
    ensures Compact(xs + [v]) == if v == xs[|xs| - 1] then Compact(xs) else Compact(xs) + [v]
  {
    var xv := xs + [v];
    assert xv[..|xs|] == xs;
  }

  /** No `meta` with a `property` follows a property-less `meta` whose `name`
      is that property: the bag entry would then hold a string where a list
      is expected, and the type assertion on it fails. */
  predicate MetaBagDefined(metas: seq<Pkg.Meta>) {
    forall i, j :: 0 <= i < j < |metas| && metas[i].property == "" && metas[j].property != "" ==>
      metas[i].name != metas[j].property
  }

  /** The values of the metas with the given property, in document order. */
  function PropertyValues(metas: seq<Pkg.Meta>, p: string): seq<string>
    decreases |metas|
  {
    if metas == [] then []
    else
      var n := |metas| - 1;
      PropertyValues(metas[..n], p) + (if metas[n].property != "" && metas[n].property == p then [metas[n].value] else [])
  }

  /** Index of the last property-less meta with the given name, or -1. */
  function LastNamed(metas: seq<Pkg.Meta>, name: string): (k: int)
    ensures -1 <= k < |metas|
    ensures k >= 0 ==> metas[k].property == "" && metas[k].name == name
    ensures forall j :: k < j < |metas| ==> !(metas[j].property == "" && metas[j].name == name)
    decreases |metas|
  {
    if metas == [] then -1
    else
      var n := |metas| - 1;
      if metas[n].property == "" && metas[n].name == name then n else LastNamed(metas[..n], name)
  }

  /** The `"meta"` bag after the metas: a property-less meta stores its
      `content` under its `name`; a meta with a property appends its value
      to the list under the property and compacts it. */
  function MetaBag(metas: seq<Pkg.Meta>): (bag: map<string, MetaItem>)
    decreases |metas|
  {
    if metas == [] then map[]
    else
      var n := |metas| - 1;
      var bag := MetaBag(metas[..n]);
      var meta := metas[n];
      if meta.property == "" then bag[meta.name := Content(meta.content)]
      else
        var prev := if meta.property in bag && bag[meta.property].Values? then bag[meta.property].values else [];
        bag[meta.property := Values(Compact(prev + [meta.value]))]
  }

  lemma {:induction false} MetaBagDefinedPrefix(metas: seq<Pkg.Meta>, n: nat)
    requires n <= |metas| && MetaBagDefined(metas)
    ensures MetaBagDefined(metas[..n])
  {
    forall i, j | 0 <= i < j < n && metas[..n][i].property == "" && metas[..n][j].property != ""
      ensures metas[..n][i].name != metas[..n][j].property
    {
      assert metas[..n][i] == metas[i] && metas[..n][j] == metas[j];
    }
  }

  /** The keys the metas are stored under. */
  function MetaKeys(metas: seq<Pkg.Meta>): set<string>
    decreases |metas|
  {
    if metas == [] then {} else MetaKeys(metas[..|metas| - 1]) + {MetaKey(metas[|metas| - 1])}
  }

  lemma {:induction false} MetaKeysAt(metas: seq<Pkg.Meta>, k: string)
    ensures k in MetaKeys(metas) <==> exists i :: 0 <= i < |metas| && MetaKey(metas[i]) == k
    decreases |metas|
  {
    if metas != [] {
      var n := |metas| - 1;
      var init := metas[..n];
      MetaKeysAt(init, k);
      if k in MetaKeys(init) {
        var i :| 0 <= i < n && MetaKey(init[i]) == k;
        assert MetaKey(metas[i]) == k;
      }
      if exists i :: 0 <= i < |metas| && MetaKey(metas[i]) == k {
        var i :| 0 <= i < |metas| && MetaKey(metas[i]) == k;
        if i < n {
          assert MetaKey(init[i]) == k;
        }
      }
    }
  }

  lemma {:induction false} MetaBagKeySet(metas: seq<Pkg.Meta>)
    ensures MetaBag(metas).Keys == MetaKeys(metas)
    decreases |metas|
  {
    if metas != [] {
      MetaBagKeySet(metas[..|metas| - 1]);
    }
  }

  /** A key is in the bag exactly when some meta is stored under it. */
  lemma MetaBagKeys(metas: seq<Pkg.Meta>, k: string)
    ensures k in MetaBag(metas) <==> exists i :: 0 <= i < |metas| && MetaKey(metas[i]) == k
  {
    MetaBagKeySet(metas);
    MetaKeysAt(metas, k);
  }

  /** The bag entry under a key: the last property-less meta of that name
      decides it when there is one; otherwise it holds the compacted values
      of the metas with that property, in document order. */
  lemma {:induction false} MetaBagAt(metas: seq<Pkg.Meta>, k: string)
    requires MetaBagDefined(metas)
    ensures EntryAgrees(metas, k)
    decreases |metas|
  {
    if metas != [] {
      var n := |metas| - 1;
      MetaBagDefinedPrefix(metas, n);
      MetaBagAt(metas[..n], k);
      if metas[n].property == "" {
        MetaBagAtNamed(metas, k);
      } else if metas[n].property == k {
        MetaBagAtOwn(metas, k);
      } else {
        MetaBagAtOther(metas, k);
      }
    }
  }

  /** The entry under `k` is what `MetaBagAt` says it is. */
  predicate EntryAgrees(metas: seq<Pkg.Meta>, k: string) {
    var last := LastNamed(metas, k);
    k in MetaBag(metas) ==>
      MetaBag(metas)[k] == if last >= 0 then Content(metas[last].content)
                           else Values(Compact(PropertyValues(metas, k)))
  }

  lemma MetaBagAtNamed(metas: seq<Pkg.Meta>, k: string)
    requires metas != [] && metas[|metas| - 1].property == ""
    requires EntryAgrees(metas[..|metas| - 1], k)
    ensures EntryAgrees(metas, k)
  {
    var n := |metas| - 1;
    var init, meta := metas[..n], metas[n];
    var bag := MetaBag(init);
    assert MetaBag(metas) == bag[meta.name := Content(meta.content)];
    if k != meta.name {
      assert LastNamed(metas, k) == LastNamed(init, k);
      assert PropertyValues(metas, k) == PropertyValues(init, k);
    } else {
      assert LastNamed(metas, k) == n;
    }
  }

  lemma MetaBagAtOwn(metas: seq<Pkg.Meta>, k: string)
    requires metas != [] && metas[|metas| - 1].property == k && k != ""
    requires MetaBagDefined(metas)
    requires EntryAgrees(metas[..|metas| - 1], k)
    ensures EntryAgrees(metas, k)
  {
    var n := |metas| - 1;
    var init, meta := metas[..n], metas[n];
    var bag := MetaBag(init);
    forall i | 0 <= i < n
      ensures !(init[i].property == "" && init[i].name == k)
    {
      assert init[i] == metas[i];
    }
    assert LastNamed(init, k) == -1;
    assert LastNamed(metas, k) == -1;
    assert PropertyValues(metas, k) == PropertyValues(init, k) + [meta.value];
    if k in bag {
      CompactSnoc(PropertyValues(init, k), meta.value);
    } else {
      MetaBagKeys(init, k);
      PropertyValuesEmpty(init, k);
    }
  }

  lemma MetaBagAtOther(metas: seq<Pkg.Meta>, k: string)
    requires metas != [] && metas[|metas| - 1].property != "" && metas[|metas| - 1].property != k
    requires EntryAgrees(metas[..|metas| - 1], k)
    ensures EntryAgrees(metas, k)
  {
    var n := |metas| - 1;
    var init := metas[..n];
    assert LastNamed(metas, k) == LastNamed(init, k);
    assert PropertyValues(metas, k) == PropertyValues(init, k);
  }

  /** When no meta is stored under the property, there are no values for it. */
  lemma {:induction false} PropertyValuesEmpty(metas: seq<Pkg.Meta>, p: string)
    requires p != "" && forall i :: 0 <= i < |metas| ==> MetaKey(metas[i]) != p
    ensures PropertyValues(metas, p) == []
    decreases |metas|
  {
    if metas != [] {
      PropertyValuesEmpty(metas[..|metas| - 1], p);
      assert MetaKey(metas[|metas| - 1]) != p;
    }
  }

  /** The keys the reader seeds before the optional elements. */
  function BaseMetadata(md: Pkg.Metadata): (m: map<string, MetaValue>)
    ensures AllStrings(m)
  {
    map["identifiers" := Strings(ValuesOf(md.identifiers)), "title" := Strings(ValuesOf(md.titles)),
        "language" := Strings([])]
  }

  /** The whole metadata map `parseMetadata` builds. */
  function MetadataOf(md: Pkg.Metadata): map<string, MetaValue>
    requires MetaBagDefined(md.metas)
  {
    GroupOptional(BaseMetadata(md), md.optional)["meta" := Bag(MetaBag(md.metas))]
  }

  /** `"title"` and `"identifiers"` hold the Dublin Core values in document
      order (followed by the values of any other element of the same local
      name); `"language"` holds no `dc:language` value at all, only such
      other elements. */
  lemma ParsedDublinCore(md: Pkg.Metadata)
    requires MetaBagDefined(md.metas)
    ensures MetadataOf(md)["title"] == Strings(ValuesOf(md.titles) + NamedValues(md.optional, "title"))
    ensures MetadataOf(md)["identifiers"] == Strings(ValuesOf(md.identifiers) + NamedValues(md.optional, "identifiers"))
    ensures MetadataOf(md)["language"] == Strings(NamedValues(md.optional, "language"))
  {
    GroupOptionalAt(BaseMetadata(md), md.optional, "title");
    GroupOptionalAt(BaseMetadata(md), md.optional, "identifiers");
    GroupOptionalAt(BaseMetadata(md), md.optional, "language");
  }

  /** Every optional element is listed under its local name, in document order. */
  lemma ParsedOptional(md: Pkg.Metadata, name: string)
    requires MetaBagDefined(md.metas)
    requires name !in {"identifiers", "title", "language", "meta"}
    ensures name in MetadataOf(md) <==> NamedValues(md.optional, name) != []
    ensures name in MetadataOf(md) ==> MetadataOf(md)[name] == Strings(NamedValues(md.optional, name))
  {
    GroupOptionalAt(BaseMetadata(md), md.optional, name);
  }

  /** One property-less meta, added to the bag of the metas before it. */
  lemma MetaBagNamedStep(metas: seq<Pkg.Meta>, i: nat)
    requires i < |metas| && metas[i].property == ""
    ensures MetaBag(metas[..i + 1]) == MetaBag(metas[..i])[metas[i].name := Content(metas[i].content)]
  {
    assert metas[..i + 1][..i] == metas[..i];
  }

  /** One meta with a property, added to the bag of the metas before it. */
  lemma MetaBagStep(metas: seq<Pkg.Meta>, i: nat)
    requires MetaBagDefined(metas) && i < |metas| && metas[i].property != ""
    ensures var bag, p := MetaBag(metas[..i]), metas[i].property;
            (p in bag ==> bag[p].Values?) &&
            MetaBag(metas[..i + 1]) == bag[p := Values(Compact((if p in bag then bag[p].values else []) + [metas[i].value]))]
  {
    var init, p := metas[..i], metas[i].property;
    forall k | 0 <= k < i
      ensures !(init[k].property == "" && init[k].name == p)
    {
      assert init[k] == metas[k];
    }
    assert LastNamed(init, p) == -1;
    assert p in MetaBag(init) ==> MetaBag(init)[p].Values? by {
      MetaBagDefinedPrefix(metas, i);
      MetaBagAt(init, p);
    }
    assert metas[..i + 1][..i] == init && metas[..i + 1][i] == metas[i];
  }

  /** The values of the elements, collected in document order. */
  method CollectValues(es: seq<Pkg.DCElement>) returns (vs: seq<string>)
    ensures vs == ValuesOf(es)
  {
    vs := [];
    for i := 0 to |es|
      invariant vs == ValuesOf(es[..i])
    {
      assert es[..i + 1][..i] == es[..i];
      vs := vs + [es[i].value];
    }
    assert es[..|es|] == es;
  }

  /** The optional elements appended to the lists under their local names. */
  method AddOptional(m: map<string, MetaValue>, os: seq<Pkg.DCElement>) returns (r: map<string, MetaValue>)
    requires AllStrings(m)
    ensures r == GroupOptional(m, os)
  {
    r := m;
    for i := 0 to |os|
      invariant r == GroupOptional(m, os[..i])
    {
      assert os[..i + 1][..i] == os[..i];
      var name := os[i].name;
      if name !in r {
        r := r[name := Strings([])];
      }
      r := r[name := Strings(r[name].items + [os[i].value])];
    }
    assert os[..|os|] == os;
  }

  /** The `"meta"` bag built meta by meta. */
  method BuildMetaBag(metas: seq<Pkg.Meta>) returns (bag: map<string, MetaItem>)
    requires MetaBagDefined(metas)
    ensures bag == MetaBag(metas)
  {
    bag := map[];
    for i := 0 to |metas|
      invariant bag == MetaBag(metas[..i])
    {
      var meta := metas[i];
      if meta.property == "" {
        MetaBagNamedStep(metas, i);
        bag := bag[meta.name := Content(meta.content)];
      } else {
        var name := meta.property;
        MetaBagStep(metas, i);
        ghost var before := bag;
        ghost var prev := if name in bag then bag[name].values else [];
        if name !in bag {
          bag := bag[name := Values([])];
        }
        assert bag[name] == Values(prev);
        var values := bag[name].values + [meta.value];
        values := Compact(values);
        bag := bag[name := Values(values)];
        assert bag == before[name := Values(Compact(prev + [meta.value]))];
      }
    }
    assert metas[..|metas|] == metas;
  }

  /** `parseMetadata`: rebuild the metadata map from the active package.
      The active package must exist and its metas must not clash. */
  method ParseMetadata(e: Epub)
    requires e.rendition in e.packagePubs
    requires MetaBagDefined(e.packagePubs[e.rendition].metadata.metas)
    modifies e`metadata
    ensures e.metadata == MetadataOf(e.packagePubs[e.rendition].metadata)
  {
    var metadata: map<string, MetaValue> := map[];
    var md := e.packagePubs[e.rendition].metadata;
    var identifiers := CollectValues(md.identifiers);
    metadata := metadata["identifiers" := Strings(identifiers)];
    var titles := CollectValues(md.titles);
    metadata := metadata["title" := Strings(titles)];

    // Each language is appended to the still-empty list, and the list is
    // then overwritten with the empty one.
    var languages: seq<string> := [];
    for i := 0 to |md.languages|
      invariant metadata.Keys <= {"identifiers", "title", "language"}
      invariant "identifiers" in metadata && metadata["identifiers"] == Strings(identifiers)
      invariant "title" in metadata && metadata["title"] == Strings(titles)
    {
      metadata := metadata["language" := Strings(languages + [md.languages[i].value])];
    }
    metadata := metadata["language" := Strings(languages)];
    assert metadata == BaseMetadata(md);

    metadata := AddOptional(metadata, md.optional);
    var bag := BuildMetaBag(md.metas);
    e.metadata := metadata["meta" := Bag(bag)];
  }

  // ---------------------------------------------------------------------
  // The refinement map (`Refines`)

  /** Subject id, then property (or element local name), then its values. */
  type Refinements = map<string, map<string, seq<string>>>

  /** The values under a subject and a property; none when either is absent. */
  function Get(m: Refinements, id: string, p: string): seq<string> {
    if id in m && p in m[id] then m[id][p] else []
  }

  /** Appends a value under a subject and a property, creating both when missing. */
  function AppendUnder(m: Refinements, id: string, p: string, v: string): (r: Refinements)
    ensures r.Keys == m.Keys + {id}
  {
    var inner := if id in m then m[id] else map[];
    m[id := inner[p := Get(m, id, p) + [v]]]
  }

  /** Appending adds the value at the end of its own list and touches no other. */
  lemma AppendUnderAt(m: Refinements, id: string, p: string, v: string, k: string, q: string)
    ensures Get(AppendUnder(m, id, p, v), k, q) == Get(m, k, q) + (if k == id && q == p then [v] else [])
  {
  }

  /** The ids of the elements that carry one. */
  function IdsOf(es: seq<Pkg.DCElement>): set<string>
    decreases |es|
  {
    if es == [] then {}
    else
      var n := |es| - 1;
      IdsOf(es[..n]) + (if es[n].id != "" then {es[n].id} else {})
  }

  /** The values of the elements with the given id and local name, in document order. */
  function ValuesWithId(es: seq<Pkg.DCElement>, id: string, name: string): seq<string>
    decreases |es|
  {
    if es == [] then []
    else
      var n := |es| - 1;
      ValuesWithId(es[..n], id, name) + (if es[n].id != "" && es[n].id == id && es[n].name == name then [es[n].value] else [])
  }

  /** Every element with an id files its value under its id and local name. */
  function Seed(m: Refinements, es: seq<Pkg.DCElement>): Refinements
    decreases |es|
  {
    if es == [] then m
    else
      var n := |es| - 1;
      var r := Seed(m, es[..n]);
      if es[n].id != "" then AppendUnder(r, es[n].id, es[n].name, es[n].value) else r
  }

  lemma {:induction false} SeedAt(m: Refinements, es: seq<Pkg.DCElement>, k: string, q: string)
    ensures k in Seed(m, es) <==> k in m || k in IdsOf(es)
    ensures Get(Seed(m, es), k, q) == Get(m, k, q) + ValuesWithId(es, k, q)
    decreases |es|
  {
    if es != [] {
      var n := |es| - 1;
      SeedAt(m, es[..n], k, q);
      AppendUnderAt(Seed(m, es[..n]), es[n].id, es[n].name, es[n].value, k, q);
    }
  }

  /** The id a `refines` attribute points at: the attribute without its `#` marks. */
  function Target(meta: Pkg.Meta): string {
    Text.TrimRune(meta.refinesRef, '#')
  }

  predicate Refining(meta: Pkg.Meta) {
    meta.refinesRef != ""
  }

  /** How many metas refine the given id. */
  function RefineCount(metas: seq<Pkg.Meta>, id: string): nat
    decreases |metas|
  {
    if metas == [] then 0
    else
      var n := |metas| - 1;
      RefineCount(metas[..n], id) + (if Refining(metas[n]) && Target(metas[n]) == id then 1 else 0)
  }

  /** The ids the refining metas point at. */
  function Targets(metas: seq<Pkg.Meta>): set<string>
    decreases |metas|
  {
    if metas == [] then {}
    else
      var n := |metas| - 1;
      Targets(metas[..n]) + (if Refining(metas[n]) then {Target(metas[n])} else {})
  }

  /** Every target is counted at least once. */
  lemma {:induction false} TargetsCounted(metas: seq<Pkg.Meta>, t: string)
    requires t in Targets(metas)
    ensures RefineCount(metas, t) > 0
    decreases |metas|
  {
    var n := |metas| - 1;
    if t in Targets(metas[..n]) {
      TargetsCounted(metas[..n], t);
    }
  }

  /** The ids of the metas that carry one. */
  function MetaIds(metas: seq<Pkg.Meta>): set<string>
    decreases |metas|
  {
    if metas == [] then {}
    else
      var n := |metas| - 1;
      MetaIds(metas[..n]) + (if metas[n].id != "" then {metas[n].id} else {})
  }

  /** The values of the metas with the given id and property, in document order. */
  function OwnValues(metas: seq<Pkg.Meta>, id: string, p: string): seq<string>
    decreases |metas|
  {
    if metas == [] then []
    else
      var n := |metas| - 1;
      OwnValues(metas[..n], id, p) + (if metas[n].id != "" && metas[n].id == id && metas[n].property == p then [metas[n].value] else [])
  }

  /** The values of the metas refining the given id with the given property, in document order. */
  function RefiningValues(metas: seq<Pkg.Meta>, id: string, p: string): seq<string>
    decreases |metas|
  {
    if metas == [] then []
    else
      var n := |metas| - 1;
      RefiningValues(metas[..n], id, p) + (if Refining(metas[n]) && Target(metas[n]) == id && metas[n].property == p then [metas[n].value] else [])
  }

  /** Second pass: a meta with an id that something refines files its value
      under its id and property; a meta with an id nothing refines removes
      that id, with everything filed under it. */
  function Prune(m: Refinements, metas: seq<Pkg.Meta>, all: seq<Pkg.Meta>): Refinements
    decreases |metas|
  {
    if metas == [] then m
    else
      var n := |metas| - 1;
      var r := Prune(m, metas[..n], all);
      var meta := metas[n];
      if meta.id == "" then r
      else if RefineCount(all, meta.id) > 0 then AppendUnder(r, meta.id, meta.property, meta.value)
      else r - {meta.id}
  }

  lemma {:induction false} PruneAt(m: Refinements, metas: seq<Pkg.Meta>, all: seq<Pkg.Meta>, k: string, q: string)
    ensures RefineCount(all, k) > 0 ==>
              (k in Prune(m, metas, all) <==> k in m || k in MetaIds(metas)) &&
              Get(Prune(m, metas, all), k, q) == Get(m, k, q) + OwnValues(metas, k, q)
    ensures RefineCount(all, k) == 0 ==>
              (k in Prune(m, metas, all) <==> k in m && k !in MetaIds(metas)) &&
              (k in Prune(m, metas, all) ==> Get(Prune(m, metas, all), k, q) == Get(m, k, q))
    decreases |metas|
  {
    if metas != [] {
      var n := |metas| - 1;
      PruneAt(m, metas[..n], all, k, q);
      AppendUnderAt(Prune(m, metas[..n], all), metas[n].id, metas[n].property, metas[n].value, k, q);
    }
  }

  /** Third pass: every refining meta files its value under its target and property. */
  function Attach(m: Refinements, metas: seq<Pkg.Meta>, all: seq<Pkg.Meta>): Refinements
    decreases |metas|
  {
    if metas == [] then m
    else
      var n := |metas| - 1;
      var r := Attach(m, metas[..n], all);
      var meta := metas[n];
      if !Refining(meta) then r
      else if RefineCount(all, Target(meta)) > 0 then AppendUnder(r, Target(meta), meta.property, meta.value)
      else r
  }

  lemma AttachAt(m: Refinements, metas: seq<Pkg.Meta>, all: seq<Pkg.Meta>, k: string, q: string)
    requires forall t :: t in Targets(metas) ==> RefineCount(all, t) > 0
    ensures k in Attach(m, metas, all) <==> k in m || k in Targets(metas)
    ensures Get(Attach(m, metas, all), k, q) == Get(m, k, q) + RefiningValues(metas, k, q)
  {
    AttachKeys(m, metas, all, k);
    AttachValues(m, metas, all, k, q);
  }

  /** The third pass adds exactly the targets as subjects. */
  lemma {:induction false} AttachKeys(m: Refinements, metas: seq<Pkg.Meta>, all: seq<Pkg.Meta>, k: string)
    requires forall t :: t in Targets(metas) ==> RefineCount(all, t) > 0
    ensures k in Attach(m, metas, all) <==> k in m || k in Targets(metas)
    decreases |metas|
  {
    if metas != [] {
      var n := |metas| - 1;
      var prefix, last := metas[..n], metas[n];
      assert Targets(metas) == Targets(prefix) + (if Refining(last) then {Target(last)} else {});
      AttachKeys(m, prefix, all, k);
      AttachStep(m, metas, all);
    }
  }

  /** The third pass appends the refining values, in document order. */
  lemma {:induction false} AttachValues(m: Refinements, metas: seq<Pkg.Meta>, all: seq<Pkg.Meta>, k: string, q: string)
    requires forall t :: t in Targets(metas) ==> RefineCount(all, t) > 0
    ensures Get(Attach(m, metas, all), k, q) == Get(m, k, q) + RefiningValues(metas, k, q)
    decreases |metas|
  {
    if metas != [] {
      var n := |metas| - 1;
      var prefix, last := metas[..n], metas[n];
      assert Targets(metas) == Targets(prefix) + (if Refining(last) then {Target(last)} else {});
      AttachValues(m, prefix, all, k, q);
      AttachStep(m, metas, all);
      if Refining(last) {
        AppendUnderAt(Attach(m, prefix, all), Target(last), last.property, last.value, k, q);
      }
    }
  }

  /** One step of the third pass: a refining meta whose target is counted is
      appended under that target, any other meta changes nothing. */
  lemma AttachStep(m: Refinements, metas: seq<Pkg.Meta>, all: seq<Pkg.Meta>)
    requires metas != []
    requires Refining(metas[|metas| - 1]) ==> RefineCount(all, Target(metas[|metas| - 1])) > 0
    ensures var last := metas[|metas| - 1];
            var r := Attach(m, metas[..|metas| - 1], all);
            Attach(m, metas, all) == if Refining(last) then AppendUnder(r, Target(last), last.property, last.value) else r
  {
  }

  /** The ids of the Dublin Core elements, the four kinds in the order the reader visits them. */
  function DCIds(md: Pkg.Metadata): set<string> {
    IdsOf(md.identifiers) + IdsOf(md.titles) + IdsOf(md.languages) + IdsOf(md.optional)
  }

  function DCValues(md: Pkg.Metadata, id: string, name: string): seq<string> {
    ValuesWithId(md.identifiers, id, name) + ValuesWithId(md.titles, id, name)
      + ValuesWithId(md.languages, id, name) + ValuesWithId(md.optional, id, name)
  }

  function Seeded(md: Pkg.Metadata): Refinements {
    Seed(Seed(Seed(Seed(map[], md.identifiers), md.titles), md.languages), md.optional)
  }

  /** Every refining meta points at an id some element or meta carries;
      otherwise the reader writes into a subject it never created. */
  predicate RefinesDefined(md: Pkg.Metadata) {
    Targets(md.metas) <= DCIds(md) + MetaIds(md.metas)
  }

  /** The whole refinement map `Refines` returns. */
  function RefinesOf(md: Pkg.Metadata): Refinements {
    Attach(Prune(Seeded(md), md.metas, md.metas), md.metas, md.metas)
  }

  lemma SeededAt(md: Pkg.Metadata, k: string, q: string)
    ensures k in Seeded(md) <==> k in DCIds(md)
    ensures Get(Seeded(md), k, q) == DCValues(md, k, q)
  {
    var m1 := Seed(map[], md.identifiers);
    var m2 := Seed(m1, md.titles);
    var m3 := Seed(m2, md.languages);
    SeedAt(map[], md.identifiers, k, q);
    SeedAt(m1, md.titles, k, q);
    SeedAt(m2, md.languages, k, q);
    SeedAt(m3, md.optional, k, q);
    assert Get(map[], k, q) == [];
    var v1, v2 := ValuesWithId(md.identifiers, k, q), ValuesWithId(md.titles, k, q);
    var v3, v4 := ValuesWithId(md.languages, k, q), ValuesWithId(md.optional, k, q);
    assert Get(Seeded(md), k, q) == [] + v1 + v2 + v3 + v4;
    assert [] + v1 == v1;
  }

  /** A subject is in the refinement map exactly when some element or meta
      carries its id and, if a meta carries it, something refines it; its
      values under a property are those of the elements with that id and
      local name, then those of the metas with that id and property, then
      those of the metas refining it with that property. */
  lemma RefinesOfAt(md: Pkg.Metadata, k: string, q: string)
    requires RefinesDefined(md)
    ensures k in RefinesOf(md) <==>
              (k in DCIds(md) || k in MetaIds(md.metas)) && (k in MetaIds(md.metas) ==> RefineCount(md.metas, k) > 0)
    ensures k in RefinesOf(md) ==>
              Get(RefinesOf(md), k, q) == DCValues(md, k, q) + OwnValues(md.metas, k, q) + RefiningValues(md.metas, k, q)
  {
    RefinesOfKeys(md, k);
    if k in RefinesOf(md) {
      RefinesOfValues(md, k, q);
    }
  }

  /** The subjects of the refinement map. */
  lemma RefinesOfKeys(md: Pkg.Metadata, k: string)
    requires RefinesDefined(md)
    ensures k in RefinesOf(md) <==>
              (k in DCIds(md) || k in MetaIds(md.metas)) && (k in MetaIds(md.metas) ==> RefineCount(md.metas, k) > 0)
  {
    var metas := md.metas;
    var pruned := Prune(Seeded(md), metas, metas);
    AllTargetsCounted(metas);
    AttachAt(pruned, metas, metas, k, "");
    SeededAt(md, k, "");
    PruneAt(Seeded(md), metas, metas, k, "");
    if k in Targets(metas) {
      assert k in DCIds(md) + MetaIds(metas);
    }
  }

  /** The values of one subject of the refinement map. */
  lemma RefinesOfValues(md: Pkg.Metadata, k: string, q: string)
    requires RefinesDefined(md) && k in RefinesOf(md)
    ensures Get(RefinesOf(md), k, q) == DCValues(md, k, q) + OwnValues(md.metas, k, q) + RefiningValues(md.metas, k, q)
  {
    var metas := md.metas;
    var seeded := Seeded(md);
    var pruned := Prune(seeded, metas, metas);
    AllTargetsCounted(metas);
    AttachAt(pruned, metas, metas, k, q);
    assert Get(RefinesOf(md), k, q) == Get(pruned, k, q) + RefiningValues(metas, k, q);
    SeededAt(md, k, q);
    PruneAt(seeded, metas, metas, k, q);
    if RefineCount(metas, k) == 0 {
      RefinesOfKeys(md, k);
      OwnValuesNone(metas, k, q);
    }
    assert Get(pruned, k, q) == DCValues(md, k, q) + OwnValues(metas, k, q);
  }

  lemma AllTargetsCounted(metas: seq<Pkg.Meta>)
    ensures forall t :: t in Targets(metas) ==> RefineCount(metas, t) > 0
  {
    forall t | t in Targets(metas)
      ensures RefineCount(metas, t) > 0
    {
      TargetsCounted(metas, t);
    }
  }

  /** A subject no meta carries has no meta values of its own. */
  lemma {:induction false} OwnValuesNone(metas: seq<Pkg.Meta>, k: string, q: string)
    requires k !in MetaIds(metas)
    ensures OwnValues(metas, k, q) == []
    decreases |metas|
  {
    if metas != [] {
      OwnValuesNone(metas[..|metas| - 1], k, q);
    }
  }

  /** The targets all end up in the map before the third pass writes into them. */
  lemma PrunedHoldsTargets(md: Pkg.Metadata)
    requires RefinesDefined(md)
    ensures Targets(md.metas) <= Prune(Seeded(md), md.metas, md.metas).Keys
  {
    forall t | t in Targets(md.metas)
      ensures t in Prune(Seeded(md), md.metas, md.metas)
    {
      TargetsCounted(md.metas, t);
      SeededAt(md, t, "");
      PruneAt(Seeded(md), md.metas, md.metas, t, "");
    }
  }

  /** Files every element that carries an id under its id and local name. */
  method SeedFrom(m: Refinements, es: seq<Pkg.DCElement>) returns (r: Refinements)
    ensures r == Seed(m, es)
  {
    r := m;
    for i := 0 to |es|
      invariant r == Seed(m, es[..i])
    {
      assert es[..i + 1][..i] == es[..i];
      var el := es[i];
      if el.id != "" {
        if el.id !in r {
          r := r[el.id := map[]];
        }
        var inner := r[el.id];
        r := r[el.id := inner[el.name := (if el.name in inner then inner[el.name] else []) + [el.value]]];
      }
    }
    assert es[..|es|] == es;
  }

  /** The count the reader keeps for an id; zero when it has none. */
  function CountIn(counter: map<string, int>, id: string): int {
    if id in counter then counter[id] else 0
  }

  /** How many metas refine each id. */
  method CountRefines(metas: seq<Pkg.Meta>) returns (counter: map<string, int>)
    ensures forall id :: CountIn(counter, id) == RefineCount(metas, id)
  {
    counter := map[];
    for i := 0 to |metas|
      invariant forall id :: CountIn(counter, id) == RefineCount(metas[..i], id)
    {
      assert metas[..i + 1][..i] == metas[..i];
      if metas[i].refinesRef != "" {
        var name := Text.TrimRune(metas[i].refinesRef, '#');
        counter := counter[name := CountIn(counter, name) + 1];
      }
    }
    assert metas[..|metas|] == metas;
  }

  /** The second pass over the metas. */
  method PruneMetas(m0: Refinements, metas: seq<Pkg.Meta>, counter: map<string, int>) returns (m: Refinements)
    requires forall id :: CountIn(counter, id) == RefineCount(metas, id)
    ensures m == Prune(m0, metas, metas)
  {
    m := m0;
    for i := 0 to |metas|
      invariant m == Prune(m0, metas[..i], metas)
    {
      assert metas[..i + 1][..i] == metas[..i];
      var meta := metas[i];
      if meta.id != "" {
        ghost var before := m;
        if meta.id !in m {
          m := m[meta.id := map[]];
        }
        if CountIn(counter, meta.id) > 0 {
          var inner := m[meta.id];
          m := m[meta.id := inner[meta.property := (if meta.property in inner then inner[meta.property] else []) + [meta.value]]];
          assert m == AppendUnder(before, meta.id, meta.property, meta.value);
        } else {
          m := m - {meta.id};
          assert m == before - {meta.id};
        }
      }
    }
    assert metas[..|metas|] == metas;
  }

  /** The third pass over the metas. */
  method AttachMetas(m0: Refinements, metas: seq<Pkg.Meta>, counter: map<string, int>) returns (m: Refinements)
    requires forall id :: CountIn(counter, id) == RefineCount(metas, id)
    requires Targets(metas) <= m0.Keys
    ensures m == Attach(m0, metas, metas)
  {
    m := m0;
    for i := 0 to |metas|
      invariant m == Attach(m0, metas[..i], metas)
      invariant Targets(metas) <= m.Keys
    {
      AttachPrefixStep(m0, metas, i);
      var meta := metas[i];
      if meta.refinesRef == "" {
        continue;
      }
      var name := Text.TrimRune(meta.refinesRef, '#');
      if CountIn(counter, name) > 0 {
        assert name in Targets(metas) by {
          TargetsGrow(metas, i + 1);
        }
        var inner := m[name];
        m := m[name := inner[meta.property := (if meta.property in inner then inner[meta.property] else []) + [meta.value]]];
        assert m == AppendUnder(Attach(m0, metas[..i], metas), name, meta.property, meta.value);
      }
    }
    assert metas[..|metas|] == metas;
  }

  /** One more meta of the third pass. */
  lemma AttachPrefixStep(m0: Refinements, metas: seq<Pkg.Meta>, i: nat)
    requires i < |metas|
    ensures var meta := metas[i];
            var r := Attach(m0, metas[..i], metas);
            Attach(m0, metas[..i + 1], metas)
              == if Refining(meta) && RefineCount(metas, Target(meta)) > 0 then AppendUnder(r, Target(meta), meta.property, meta.value) else r
  {
    assert metas[..i + 1][..i] == metas[..i];
  }

  /** `Refines`: the refinement map of the active package. Writing into a
      subject that the first two passes did not create fails, so every
      refining meta must point at an id. */
  method Refines(e: Epub) returns (m: Refinements)
    requires e.rendition in e.packagePubs
    requires RefinesDefined(e.packagePubs[e.rendition].metadata)
    ensures m == RefinesOf(e.packagePubs[e.rendition].metadata)
  {
    var md := e.packagePubs[e.rendition].metadata;
    m := SeedFrom(map[], md.identifiers);
    m := SeedFrom(m, md.titles);
    m := SeedFrom(m, md.languages);
    m := SeedFrom(m, md.optional);
    var counter := CountRefines(md.metas);
    m := PruneMetas(m, md.metas, counter);
    PrunedHoldsTargets(md);
    m := AttachMetas(m, md.metas, counter);
  }

  /** The targets of a prefix are targets of the whole list. */
  lemma {:induction false} TargetsGrow(metas: seq<Pkg.Meta>, n: nat)
    requires n <= |metas|
    ensures Targets(metas[..n]) <= Targets(metas)
    decreases |metas| - n
  {
    if n < |metas| {
      assert metas[..n + 1][..n] == metas[..n];
      TargetsGrow(metas, n + 1);
    } else {
      assert metas[..n] == metas;
    }
  }
}
