/**
 * Reading the active rendition's content: switching renditions, listing
 * documents and images, looking documents and images up by id or href, the
 * spine in reading order, and the text scans over parsed documents.
 */
module Content {
  import opened Wrappers
  import Text
  import Html
  import Ncx
  import Pkg
  import Externals
  import opened EpubModel
  import Resources

  /** `SelectPackageRendition`: make `rendition` active and append its
      resources. The rendition must name a package: `parseResources`
      dereferences it. */
  method SelectPackageRendition(e: Epub, rendition: string, parseNcx: Bytes -> Option<Ncx.NCX>)
    requires rendition in e.packagePubs
    modifies e`rendition, e`resources, e`ncx
    ensures e.rendition == rendition
    ensures var items := e.packagePubs[rendition].manifest.items;
            var paths := Resources.ResolvedPaths(items, e.CurrentSelectedPackagePath());
            e.resources == old(e.resources) + Resources.ResourcesOf(items, paths, e.zipContainer.files)
            && e.ncx == Resources.NcxAfter(old(e.ncx), items, paths, e.zipContainer.files, parseNcx)
  {
    e.rendition := rendition;
    Resources.ParseResources(e, parseNcx);
  }

  // ---------------------------------------------------------------------
  // Listing ids by media type

  const ImageListTypes: seq<string> :=
    [Pkg.MediaTypeJPEG, Pkg.MediaTypePNG, Pkg.MediaTypeSVG, Pkg.MediaTypeGIF, Pkg.MediaTypeWebP]

  /** The raster types `Images` and `ImageResources` accept (no SVG). */
  const RasterTypes: seq<string> :=
    [Pkg.MediaTypeJPEG, Pkg.MediaTypePNG, Pkg.MediaTypeGIF, Pkg.MediaTypeWebP]

  /** The ids of the resources whose media type is one of `mimes`, in table order. */
  function IdsOfTypes(rs: seq<PublicationResource>, mimes: seq<string>): (ids: seq<string>)
    ensures |ids| <= |rs|
    decreases |rs|
  {
    if rs == [] then []
    else
      var n := |rs| - 1;
      IdsOfTypes(rs[..n], mimes) + (if rs[n].mimeType in mimes then [rs[n].id] else [])
  }

  /** An id is listed exactly when some resource of an accepted type carries it. */
  lemma {:induction false} IdsOfTypesMembers(rs: seq<PublicationResource>, mimes: seq<string>, id: string)
    ensures id in IdsOfTypes(rs, mimes) <==> exists i :: 0 <= i < |rs| && rs[i].id == id && rs[i].mimeType in mimes
    decreases |rs|
  {
    if rs != [] {
      var n := |rs| - 1;
      var prefix := rs[..n];
      var last := if rs[n].mimeType in mimes then [rs[n].id] else [];
      assert IdsOfTypes(rs, mimes) == IdsOfTypes(prefix, mimes) + last;
      IdsOfTypesMembers(prefix, mimes, id);
      if id in IdsOfTypes(rs, mimes) {
        if id in IdsOfTypes(prefix, mimes) {
          var i :| 0 <= i < n && prefix[i].id == id && prefix[i].mimeType in mimes;
          assert rs[i] == prefix[i];
        } else {
          assert id in last;
          assert rs[n].id == id && rs[n].mimeType in mimes;
        }
      }
      if exists i :: 0 <= i < |rs| && rs[i].id == id && rs[i].mimeType in mimes {
        var i :| 0 <= i < |rs| && rs[i].id == id && rs[i].mimeType in mimes;
        if i < n {
          assert prefix[i] == rs[i];
          assert id in IdsOfTypes(prefix, mimes);
        } else {
          assert id in last;
        }
      }
    }
  }

  /** Listing is compositional over the table: ids of a longer table extend
      the ids of its prefix, so the order of the table is kept. */
  lemma {:induction false} IdsOfTypesAppend(a: seq<PublicationResource>, b: seq<PublicationResource>, mimes: seq<string>)
    ensures IdsOfTypes(a + b, mimes) == IdsOfTypes(a, mimes) + IdsOfTypes(b, mimes)
    decreases |b|
  {
    if b == [] {
      assert a + b == a;
    } else {
      var n := |b| - 1;
      var ab := a + b;
      var last := if b[n].mimeType in mimes then [b[n].id] else [];
      assert ab[..|ab| - 1] == a + b[..n];
      assert ab[|ab| - 1] == b[n];
      assert IdsOfTypes(ab, mimes) == IdsOfTypes(a + b[..n], mimes) + last;
      assert IdsOfTypes(b, mimes) == IdsOfTypes(b[..n], mimes) + last;
      IdsOfTypesAppend(a, b[..n], mimes);
    }
  }

  method ListByTypes(e: Epub, mimes: seq<string>) returns (ids: seq<string>)
    ensures ids == IdsOfTypes(e.resources, mimes)
  {
    ids := [];
    for i := 0 to |e.resources|
      invariant ids == IdsOfTypes(e.resources[..i], mimes)
    {
      assert e.resources[..i + 1][..i] == e.resources[..i];
      if e.resources[i].mimeType in mimes {
        ids := ids + [e.resources[i].id];
      }
    }
    assert e.resources[..|e.resources|] == e.resources;
  }

  /** `ListContentDocumentIds`: the ids of the XHTML resources, in table order. */
  method ListContentDocumentIds(e: Epub) returns (ids: seq<string>)
    ensures ids == IdsOfTypes(e.resources, [Pkg.MediaTypeXHTML])
  {
    ids := ListByTypes(e, [Pkg.MediaTypeXHTML]);
  }

  /** `ListImageIds`: the ids of the JPEG, PNG, SVG, GIF and WebP resources, in table order. */
  method ListImageIds(e: Epub) returns (ids: seq<string>)
    ensures ids == IdsOfTypes(e.resources, ImageListTypes)
  {
    ids := ListByTypes(e, ImageListTypes);
  }

  // ---------------------------------------------------------------------
  // Maps keyed by id

  /** The map built by a scan over the table that binds the id of every
      resource of an accepted type to `f` of that resource; later resources
      with the same id overwrite earlier ones. */
  function ByIdOfTypes<T>(rs: seq<PublicationResource>, mimes: seq<string>, f: PublicationResource -> T): map<string, T>
    decreases |rs|
  {
    if rs == [] then map[]
    else
      var n := |rs| - 1;
      var m := ByIdOfTypes(rs[..n], mimes, f);
      if rs[n].mimeType in mimes then m[rs[n].id := f(rs[n])] else m
  }

  /** Index of the last resource of an accepted type with the given id, or -1. */
  function LastOfTypeWithId(rs: seq<PublicationResource>, mimes: seq<string>, id: string): (k: int)
    ensures -1 <= k < |rs|
    ensures k >= 0 ==> rs[k].id == id && rs[k].mimeType in mimes
    ensures forall j :: k < j < |rs| ==> !(rs[j].id == id && rs[j].mimeType in mimes)
    decreases |rs|
  {
    if rs == [] then -1
    else if rs[|rs| - 1].id == id && rs[|rs| - 1].mimeType in mimes then |rs| - 1
    else LastOfTypeWithId(rs[..|rs| - 1], mimes, id)
  }

  /** A key is present exactly when a resource of an accepted type has that
      id, and it holds `f` of the last such resource. */
  lemma {:induction false} ByIdOfTypesLast<T>(rs: seq<PublicationResource>, mimes: seq<string>, f: PublicationResource -> T, id: string)
    ensures var k := LastOfTypeWithId(rs, mimes, id);
            (id in ByIdOfTypes(rs, mimes, f) <==> k >= 0)
            && (k >= 0 ==> ByIdOfTypes(rs, mimes, f)[id] == f(rs[k]))
    decreases |rs|
  {
    if rs != [] {
      var n := |rs| - 1;
      ByIdOfTypesLast(rs[..n], mimes, f, id);
      var k := LastOfTypeWithId(rs[..n], mimes, id);
      if k >= 0 {
        assert rs[..n][k] == rs[k];
      }
    }
  }

  function ContentOf(res: PublicationResource): Bytes {
    res.content
  }

  /** `ImageResources`: the bytes of every JPEG, PNG, GIF and WebP resource, keyed by id. */
  method ImageResources(e: Epub) returns (images: map<string, Bytes>)
    ensures images == ByIdOfTypes(e.resources, RasterTypes, ContentOf)
  {
    images := map[];
    for i := 0 to |e.resources|
      invariant images == ByIdOfTypes(e.resources[..i], RasterTypes, ContentOf)
    {
      assert e.resources[..i + 1][..i] == e.resources[..i];
      var res := e.resources[i];
      if res.mimeType in RasterTypes {
        images := images[res.id := res.content];
      }
    }
    assert e.resources[..|e.resources|] == e.resources;
  }

  /** `ContentDocumentXHTML`: every XHTML resource parsed, keyed by id. */
  function ContentDocumentXHTML(rs: seq<PublicationResource>, parseHtml: Bytes -> Html.Node): map<string, Html.Node> {
    ByIdOfTypes(rs, [Pkg.MediaTypeXHTML], (res: PublicationResource) => parseHtml(res.content))
  }

  /** `ReadContentHTMLById`: the parsed document of the last XHTML resource
      with that id, or nil when no XHTML resource has it. */
  function ReadContentHTMLById(rs: seq<PublicationResource>, id: string, parseHtml: Bytes -> Html.Node): (doc: Option<Html.Node>)
    ensures var k := LastOfTypeWithId(rs, [Pkg.MediaTypeXHTML], id);
            (doc.Some? <==> k >= 0) && (k >= 0 ==> doc.value == parseHtml(rs[k].content))
  {
    var docs := ContentDocumentXHTML(rs, parseHtml);
    ByIdOfTypesLast(rs, [Pkg.MediaTypeXHTML], (res: PublicationResource) => parseHtml(res.content), id);
    if id in docs then Some(docs[id]) else None
  }

  /** `ReadContentHTMLByHref`: the first resource with that href names the
      id, whose XHTML document is then read by id. */
  function ReadContentHTMLByHref(rs: seq<PublicationResource>, href: string, parseHtml: Bytes -> Html.Node): (doc: Option<Html.Node>)
    ensures var i := Resources.IndexByHref(rs, href);
            doc == if i < 0 then None else ReadContentHTMLById(rs, rs[i].id, parseHtml)
    ensures Resources.IndexByHref(rs, href) < 0 ==> doc == None
  {
    var i := Resources.IndexByHref(rs, href);
    if i > -1 then ReadContentHTMLById(rs, rs[i].id, parseHtml) else None
  }

  /** A document looked up by the href of an XHTML resource whose id no
      later XHTML resource reuses is that resource's own document. */
  lemma ReadByHrefOwnDocument(rs: seq<PublicationResource>, i: nat, parseHtml: Bytes -> Html.Node)
    requires i < |rs| && rs[i].mimeType == Pkg.MediaTypeXHTML
    requires forall j :: 0 <= j < |rs| && j != i ==> rs[j].href != rs[i].href && rs[j].id != rs[i].id
    ensures ReadContentHTMLByHref(rs, rs[i].href, parseHtml) == Some(parseHtml(rs[i].content))
  {
    assert Resources.IndexByHref(rs, rs[i].href) == i;
    assert LastOfTypeWithId(rs, [Pkg.MediaTypeXHTML], rs[i].id) == i;
  }

  // ---------------------------------------------------------------------
  // Images

  /** `ReadImageById`: nil when no resource has that id; otherwise the
      decoding of the first such resource, which is returned even when the
      decoder fails (`Some(None)`). */
  function ReadImageById(rs: seq<PublicationResource>, id: string, decode: Bytes -> Option<Externals.Image>): (img: Option<Option<Externals.Image>>)
    ensures img.None? <==> forall k :: 0 <= k < |rs| ==> rs[k].id != id
    ensures img.Some? ==> exists k :: 0 <= k < |rs| && rs[k].id == id && img.value == decode(rs[k].content)
                                     && forall j :: 0 <= j < k ==> rs[j].id != id
  {
    var i := Resources.IndexById(rs, id);
    if i >= 0 then Some(decode(rs[i].content)) else None
  }

  /** `ReadImageByHref`: as `ReadImageById`, matching on href. */
  function ReadImageByHref(rs: seq<PublicationResource>, href: string, decode: Bytes -> Option<Externals.Image>): (img: Option<Option<Externals.Image>>)
    ensures img.None? <==> forall k :: 0 <= k < |rs| ==> rs[k].href != href
    ensures img.Some? ==> exists k :: 0 <= k < |rs| && rs[k].href == href && img.value == decode(rs[k].content)
                                     && forall j :: 0 <= j < k ==> rs[j].href != href
  {
    var i := Resources.IndexByHref(rs, href);
    if i >= 0 then Some(decode(rs[i].content)) else None
  }

  // ---------------------------------------------------------------------
  // Spine

  /** The resources with the given id, in table order. */
  function WithId(rs: seq<PublicationResource>, id: string): seq<PublicationResource>
    decreases |rs|
  {
    if rs == [] then []
    else
      var n := |rs| - 1;
      WithId(rs[..n], id) + (if rs[n].id == id then [rs[n]] else [])
  }

  /** The resources listed for the itemrefs, itemref by itemref. */
  function SpineOf(refs: seq<Pkg.ItemRef>, rs: seq<PublicationResource>): seq<PublicationResource>
    decreases |refs|
  {
    if refs == [] then []
    else
      var n := |refs| - 1;
      SpineOf(refs[..n], rs) + WithId(rs, refs[n].idref)
  }

  /** `WithId` keeps exactly the resources carrying the id. */
  lemma {:induction false} WithIdMembers(rs: seq<PublicationResource>, id: string, x: PublicationResource)
    ensures x in WithId(rs, id) <==> x in rs && x.id == id
    decreases |rs|
  {
    if rs != [] {
      var n := |rs| - 1;
      WithIdMembers(rs[..n], id, x);
      assert rs == rs[..n] + [rs[n]];
    }
  }

  /** The spine is built itemref by itemref: the resources of the itemrefs
      of a concatenation are those of the first part followed by those of
      the second. */
  lemma {:induction false} SpineOfAppend(a: seq<Pkg.ItemRef>, b: seq<Pkg.ItemRef>, rs: seq<PublicationResource>)
    ensures SpineOf(a + b, rs) == SpineOf(a, rs) + SpineOf(b, rs)
    decreases |b|
  {
    if b == [] {
      assert a + b == a;
    } else {
      var n := |b| - 1;
      var ab := a + b;
      assert ab[..|ab| - 1] == a + b[..n];
      assert ab[|ab| - 1] == b[n];
      assert SpineOf(ab, rs) == SpineOf(a + b[..n], rs) + WithId(rs, b[n].idref);
      assert SpineOf(b, rs) == SpineOf(b[..n], rs) + WithId(rs, b[n].idref);
      SpineOfAppend(a, b[..n], rs);
    }
  }

  /** Some itemref names the id. */
  predicate Names(refs: seq<Pkg.ItemRef>, id: string) {
    exists j :: 0 <= j < |refs| && refs[j].idref == id
  }

  lemma NamesSnoc(refs: seq<Pkg.ItemRef>, id: string)
    requires refs != []
    ensures Names(refs, id) <==> Names(refs[..|refs| - 1], id) || refs[|refs| - 1].idref == id
  {
    var n := |refs| - 1;
    if Names(refs, id) {
      var j :| 0 <= j < |refs| && refs[j].idref == id;
      if j < n {
        assert refs[..n][j] == refs[j];
      }
    }
    if Names(refs[..n], id) {
      var j :| 0 <= j < n && refs[..n][j].idref == id;
      assert refs[j] == refs[..n][j];
    }
  }

  /** A resource is in the spine exactly when it is in the table and some
      itemref names its id; an itemref naming no resource adds nothing. */
  lemma {:induction false} SpineOfMembers(refs: seq<Pkg.ItemRef>, rs: seq<PublicationResource>, x: PublicationResource)
    ensures x in SpineOf(refs, rs) <==> x in rs && Names(refs, x.id)
    decreases |refs|
  {
    if refs != [] {
      var n := |refs| - 1;
      SpineOfMembers(refs[..n], rs, x);
      WithIdMembers(rs, refs[n].idref, x);
      NamesSnoc(refs, x.id);
      assert SpineOf(refs, rs) == SpineOf(refs[..n], rs) + WithId(rs, refs[n].idref);
    }
  }

  /** `Spine`: for each itemref of the active package, in order, every
      resource whose id is the itemref's idref, in table order. The active
      package must exist. */
  method Spine(e: Epub) returns (ordered: seq<PublicationResource>)
    requires e.rendition in e.packagePubs
    ensures ordered == SpineOf(e.packagePubs[e.rendition].spine.itemRefs, e.resources)
  {
    var refs := e.packagePubs[e.rendition].spine.itemRefs;
    ordered := [];
    for i := 0 to |refs|
      invariant ordered == SpineOf(refs[..i], e.resources)
    {
      assert refs[..i + 1][..i] == refs[..i];
      for j := 0 to |e.resources|
        invariant ordered == SpineOf(refs[..i], e.resources) + WithId(e.resources[..j], refs[i].idref)
      {
        assert e.resources[..j + 1][..j] == e.resources[..j];
        if refs[i].idref == e.resources[j].id {
          ordered := ordered + [e.resources[j]];
        }
      }
      assert e.resources[..|e.resources|] == e.resources;
    }
    assert refs[..|refs|] == refs;
  }

  // ---------------------------------------------------------------------
  // Text scans over a parsed document

  /** The node has an `epub:type` attribute whose value contains `pattern`. */
  predicate HasEpubType(n: Html.Node, pattern: string) {
    exists i :: 0 <= i < |n.attrs| && n.attrs[i].key == "epub:type" && Text.Contains(n.attrs[i].val, pattern)
  }

  /** Index of the last node of `ds` with a matching `epub:type`, or -1. */
  function LastWithEpubType(ds: seq<Html.Node>, pattern: string): (k: int)
    ensures -1 <= k < |ds|
    ensures k >= 0 ==> HasEpubType(ds[k], pattern)
    ensures forall j :: k < j < |ds| ==> !HasEpubType(ds[j], pattern)
  {
    if ds == [] then -1
    else if HasEpubType(ds[|ds| - 1], pattern) then |ds| - 1
    else LastWithEpubType(ds[..|ds| - 1], pattern)
  }

  /** `ds[i]` is the last node of `ds` with a matching `epub:type`. */
  predicate IsLastMatch(ds: seq<Html.Node>, pattern: string, i: int) {
    0 <= i < |ds| && HasEpubType(ds[i], pattern) &&
    forall j :: i < j < |ds| ==> !HasEpubType(ds[j], pattern)
  }

  /** Every matching descendant has a first child to read; the scan
      dereferences it. */
  predicate EpubTypeTextDefined(node: Html.Node, pattern: string) {
    var ds := Html.Descendants(node);
    forall i :: 0 <= i < |ds| && HasEpubType(ds[i], pattern) ==> |ds[i].children| > 0
  }

  /** `getTextByEpubType`: the text of the first child of the last
      descendant whose `epub:type` contains the pattern; `""` when none does. */
  function GetTextByEpubType(node: Html.Node, pattern: string): (text: string)
    requires EpubTypeTextDefined(node, pattern)
    ensures var ds := Html.Descendants(node);
            text != "" ==> exists i :: 0 <= i < |ds| && HasEpubType(ds[i], pattern)
    ensures var ds := Html.Descendants(node);
            forall i :: IsLastMatch(ds, pattern, i) ==> text == ds[i].children[0].data
  {
    var ds := Html.Descendants(node);
    var k := LastWithEpubType(ds, pattern);
    if k > -1 then ds[k].children[0].data else ""
  }

  /** A pattern that contains another matches fewer nodes, so a document
      that is safe to scan for `"title"` is safe to scan for `"fulltitle"`. */
  lemma EpubTypeTextDefinedNarrower(node: Html.Node, wide: string, narrow: string)
    requires EpubTypeTextDefined(node, wide)
    requires Text.Contains(narrow, wide)
    ensures EpubTypeTextDefined(node, narrow)
  {
    var ds := Html.Descendants(node);
    forall i | 0 <= i < |ds| && HasEpubType(ds[i], narrow)
      ensures HasEpubType(ds[i], wide)
    {
      HasEpubTypeNarrower(ds[i], wide, narrow);
    }
  }

  lemma HasEpubTypeNarrower(n: Html.Node, wide: string, narrow: string)
    requires HasEpubType(n, narrow) && Text.Contains(narrow, wide)
    ensures HasEpubType(n, wide)
  {
    var a :| 0 <= a < |n.attrs| && n.attrs[a].key == "epub:type" && Text.Contains(n.attrs[a].val, narrow);
    Text.ContainsTransitive(n.attrs[a].val, narrow, wide);
  }

  /** Every `title` element has a first child to read. */
  predicate TitleTextDefined(node: Html.Node) {
    var ds := Html.Descendants(node);
    forall i :: 0 <= i < |ds| && Html.IsElement(ds[i], "title") ==> |ds[i].children| > 0
  }

  function LastTitle(ds: seq<Html.Node>): (k: int)
    ensures -1 <= k < |ds|
    ensures k >= 0 ==> Html.IsElement(ds[k], "title")
    ensures forall j :: k < j < |ds| ==> !Html.IsElement(ds[j], "title")
  {
    if ds == [] then -1
    else if Html.IsElement(ds[|ds| - 1], "title") then |ds| - 1
    else LastTitle(ds[..|ds| - 1])
  }

  /** `extractTitle`: the text of the first child of the last `title`
      element below the node; `""` when there is none. */
  function ExtractTitle(node: Html.Node): (title: string)
    requires TitleTextDefined(node)
    ensures var ds := Html.Descendants(node);
            title != "" ==> exists i :: 0 <= i < |ds| && Html.IsElement(ds[i], "title")
    ensures var ds := Html.Descendants(node);
            forall i :: 0 <= i < |ds| && Html.IsElement(ds[i], "title")
                        && (forall j :: i < j < |ds| ==> !Html.IsElement(ds[j], "title")) ==>
              title == ds[i].children[0].data
  {
    var ds := Html.Descendants(node);
    var k := LastTitle(ds);
    if k >= 0 then ds[k].children[0].data else ""
  }
}
