/**
 * The bibliographic accessors of `extras.go`: identifier, version, title,
 * author, language, cover and description, each an ordered chain of
 * heuristics over the metadata map, the guide, the resources, the spine
 * and the table of contents.
 */
module Extras {
  import opened Wrappers
  import Text
  import Html
  import Pkg
  import opened EpubModel
  import Resources
  import Content
  import ContentMetadata
  import Externals
  import Toc
  import Ncx

  type Bytes = seq<Text.byte>

  // ---------------------------------------------------------------------
  // Identifier and version

  /** `UID`: the value of the last `dc:identifier` of the active package,
      `""` when it has none. */
  method UID(e: Epub) returns (identifier: string)
    requires e.rendition in e.packagePubs
    ensures var ids := e.packagePubs[e.rendition].metadata.identifiers;
            identifier == if ids == [] then "" else ids[|ids| - 1].value
  {
    identifier := "";
    var ids := e.packagePubs[e.rendition].metadata.identifiers;
    for i := 0 to |ids|
      invariant identifier == if i == 0 then "" else ids[i - 1].value
    {
      identifier := ids[i].value;
    }
  }

  /** `Version`: the version attribute of the active package. */
  function Version(e: Epub): (version: string)
    reads e
    requires e.rendition in e.packagePubs
    ensures version == e.SelectedPackage().value.version
  {
    e.packagePubs[e.rendition].version
  }

  // ---------------------------------------------------------------------
  // Joined metadata values

  /** The entry under `key`, if any, is a list of strings (the accessors
      assert that type). */
  predicate StringsAt(md: map<string, MetaValue>, key: string) {
    key in md ==> md[key].Strings?
  }

  /** The list under `key` joined with `", "`; `""` when the key is absent.
      This is `Language`, `Identifier` and `extractDescriptionFromMetadata`. */
  function JoinedAt(md: map<string, MetaValue>, key: string): (s: string)
    requires StringsAt(md, key)
    ensures key !in md ==> s == ""
    ensures key in md ==> s == Text.Join(md[key].items, ", ")
  {
    if key in md then Text.Join(md[key].items, ", ") else ""
  }

  /** Every entry `parseMetadata` stores is a list of strings, except the
      meta bag. */
  lemma ParsedShape(md: Pkg.Metadata, key: string)
    requires ContentMetadata.MetaBagDefined(md.metas)
    requires key != "meta"
    ensures StringsAt(ContentMetadata.MetadataOf(md), key)
  {
    var base := ContentMetadata.BaseMetadata(md);
    assert ContentMetadata.AllStrings(ContentMetadata.GroupOptional(base, md.optional));
  }

  /** `Language` reads the `"language"` entry, which holds only other
      elements named `language`: the `dc:language` values never reach it. */
  lemma ParsedLanguage(md: Pkg.Metadata)
    requires ContentMetadata.MetaBagDefined(md.metas)
    ensures StringsAt(ContentMetadata.MetadataOf(md), "language")
    ensures JoinedAt(ContentMetadata.MetadataOf(md), "language")
            == Text.Join(ContentMetadata.NamedValues(md.optional, "language"), ", ")
  {
    ParsedShape(md, "language");
    ContentMetadata.ParsedDublinCore(md);
  }

  /** `Identifier` reads the `"identifier"` entry, but the identifiers are
      stored under `"identifiers"`: only other elements named `identifier`
      are returned. */
  lemma ParsedIdentifier(md: Pkg.Metadata)
    requires ContentMetadata.MetaBagDefined(md.metas)
    ensures StringsAt(ContentMetadata.MetadataOf(md), "identifier")
    ensures JoinedAt(ContentMetadata.MetadataOf(md), "identifier")
            == Text.Join(ContentMetadata.NamedValues(md.optional, "identifier"), ", ")
  {
    ParsedShape(md, "identifier");
    ContentMetadata.ParsedOptional(md, "identifier");
  }

  /** A package whose only identifier is a `dc:identifier` gets an empty
      `Identifier`: the value sits under `"identifiers"`. */
  lemma IdentifierMissesDublinCore()
    ensures var md := Pkg.Metadata([Pkg.DCElement("identifier", "uid", "urn:isbn:9780000000001")], [], [], [], []);
            StringsAt(ContentMetadata.MetadataOf(md), "identifier")
            && JoinedAt(ContentMetadata.MetadataOf(md), "identifier") == ""
            && md.identifiers != []
  {
    var md := Pkg.Metadata([Pkg.DCElement("identifier", "uid", "urn:isbn:9780000000001")], [], [], [], []);
    ParsedIdentifier(md);
    assert md.optional == [];
    assert Text.Join([], ", ") == "";
  }

  /** `Identifier` as evidently intended: the joined list under the key the
      reader stores the identifiers at. */
  function IdentifierOf(md: map<string, MetaValue>): (s: string)
    requires StringsAt(md, "identifiers")
    ensures "identifiers" !in md ==> s == ""
    ensures "identifiers" in md ==> s == Text.Join(md["identifiers"].items, ", ")
  {
    JoinedAt(md, "identifiers")
  }

  /** On a reader's metadata the intended `Identifier` joins every
      `dc:identifier` value, in document order. */
  lemma IdentifierOfParsed(md: Pkg.Metadata)
    requires ContentMetadata.MetaBagDefined(md.metas)
    ensures StringsAt(ContentMetadata.MetadataOf(md), "identifiers")
    ensures IdentifierOf(ContentMetadata.MetadataOf(md))
            == Text.Join(ContentMetadata.ValuesOf(md.identifiers) + ContentMetadata.NamedValues(md.optional, "identifiers"), ", ")
  {
    ContentMetadata.ParsedDublinCore(md);
  }

  /** The reader's metadata is the parse of its active package's metadata,
      as `newReaderFromZip` leaves it. */
  predicate MetadataParsed(e: Epub)
    reads e
  {
    e.rendition in e.packagePubs
    && ContentMetadata.MetaBagDefined(e.packagePubs[e.rendition].metadata.metas)
    && e.metadata == ContentMetadata.MetadataOf(e.packagePubs[e.rendition].metadata)
  }

  /** `Language`: the joined `"language"` list; on parsed metadata only the
      other elements named `language` contribute. */
  method Language(e: Epub) returns (language: string)
    requires StringsAt(e.metadata, "language")
    ensures language == JoinedAt(e.metadata, "language")
    ensures MetadataParsed(e) ==>
              language == Text.Join(ContentMetadata.NamedValues(e.packagePubs[e.rendition].metadata.optional, "language"), ", ")
  {
    language := JoinedAt(e.metadata, "language");
    if MetadataParsed(e) {
      ParsedLanguage(e.packagePubs[e.rendition].metadata);
    }
  }

  /** `Identifier`, reading the key the identifiers are stored under; on
      parsed metadata it joins every `dc:identifier` value. */
  method Identifier(e: Epub) returns (identifier: string)
    requires StringsAt(e.metadata, "identifiers")
    ensures identifier == IdentifierOf(e.metadata)
    ensures MetadataParsed(e) ==>
              var md := e.packagePubs[e.rendition].metadata;
              identifier == Text.Join(ContentMetadata.ValuesOf(md.identifiers) + ContentMetadata.NamedValues(md.optional, "identifiers"), ", ")
  {
    identifier := IdentifierOf(e.metadata);
    if MetadataParsed(e) {
      IdentifierOfParsed(e.packagePubs[e.rendition].metadata);
    }
  }

  // ---------------------------------------------------------------------
  // Title and author

  /** Index of the first title-page guide reference whose href names a
      resource, or -1. */
  function FirstTitlePage(refs: seq<Pkg.GuideReference>, rs: seq<PublicationResource>): (k: int)
    ensures -1 <= k < |refs|
    ensures k >= 0 ==> refs[k].kind == Pkg.TitlePage && Resources.IndexByHref(rs, refs[k].href) >= 0
    ensures forall j :: 0 <= j < |refs| && (k < 0 || j < k) ==>
              refs[j].kind != Pkg.TitlePage || Resources.IndexByHref(rs, refs[j].href) < 0
    decreases |refs|
  {
    if refs == [] then -1
    else
      var n := |refs| - 1;
      var k := FirstTitlePage(refs[..n], rs);
      if k >= 0 then k
      else if refs[n].kind == Pkg.TitlePage && Resources.IndexByHref(rs, refs[n].href) >= 0 then n
      else -1
  }

  /** The parsed title page: the document of the resource named by the first
      title-page reference that names one; nothing without a guide. */
  function TitlePageDoc(guide: Option<Pkg.Guide>, rs: seq<PublicationResource>, parseHtml: Bytes -> Html.Node): Option<Html.Node> {
    if guide.None? then None
    else
      var k := FirstTitlePage(guide.value.references, rs);
      if k < 0 then None
      else Some(parseHtml(rs[Resources.IndexByHref(rs, guide.value.references[k].href)].content))
  }

  /** A resource whose id or href mentions a title. */
  predicate TitleLike(res: PublicationResource) {
    Text.Contains(res.id, "title") || Text.Contains(res.href, "title")
  }

  /** The marker text of the first title-like resource whose marker text is
      not empty, `""` when there is none. */
  function FirstMarked(rs: seq<PublicationResource>, parseHtml: Bytes -> Html.Node, marker: string): string
    requires MarkedDefined(rs, parseHtml, marker)
    decreases |rs|, 2
  {
    if rs == [] then ""
    else
      var n := |rs| - 1;
      var r := FirstMarked(rs[..n], parseHtml, marker);
      if r != "" then r
      else if TitleLike(rs[n]) then Content.GetTextByEpubType(parseHtml(rs[n].content), marker)
      else ""
  }

  /** Every document the scan reaches can be scanned for the marker. */
  predicate MarkedDefined(rs: seq<PublicationResource>, parseHtml: Bytes -> Html.Node, marker: string)
    decreases |rs|, 1
  {
    rs == [] ||
    var n := |rs| - 1;
    MarkedDefined(rs[..n], parseHtml, marker)
    && (FirstMarked(rs[..n], parseHtml, marker) == "" && TitleLike(rs[n]) ==>
          Content.EpubTypeTextDefined(parseHtml(rs[n].content), marker))
  }

  lemma {:induction false} MarkedDefinedPrefix(rs: seq<PublicationResource>, parseHtml: Bytes -> Html.Node, marker: string, j: nat)
    requires MarkedDefined(rs, parseHtml, marker) && j <= |rs|
    ensures MarkedDefined(rs[..j], parseHtml, marker)
    decreases |rs| - j
  {
    if j < |rs| {
      var n := |rs| - 1;
      MarkedDefinedPrefix(rs[..n], parseHtml, marker, j);
      assert rs[..n][..j] == rs[..j];
    } else {
      assert rs[..j] == rs;
    }
  }

  /** A marker text once found is kept: later resources do not change it. */
  lemma {:induction false} FirstMarkedStable(rs: seq<PublicationResource>, parseHtml: Bytes -> Html.Node, marker: string, j: nat)
    requires MarkedDefined(rs, parseHtml, marker) && j <= |rs|
    requires MarkedDefined(rs[..j], parseHtml, marker) && FirstMarked(rs[..j], parseHtml, marker) != ""
    ensures FirstMarked(rs, parseHtml, marker) == FirstMarked(rs[..j], parseHtml, marker)
    decreases |rs| - j
  {
    if j < |rs| {
      var n := |rs| - 1;
      assert rs[..n][..j] == rs[..j];
      FirstMarkedStable(rs[..n], parseHtml, marker, j);
    } else {
      assert rs[..j] == rs;
    }
  }

  /** When no title-like resource has a marker text, nothing is found. */
  lemma {:induction false} FirstMarkedNone(rs: seq<PublicationResource>, parseHtml: Bytes -> Html.Node, marker: string)
    requires forall j :: 0 <= j < |rs| && TitleLike(rs[j]) ==>
               Content.EpubTypeTextDefined(parseHtml(rs[j].content), marker)
               && Content.GetTextByEpubType(parseHtml(rs[j].content), marker) == ""
    ensures MarkedDefined(rs, parseHtml, marker) && FirstMarked(rs, parseHtml, marker) == ""
    decreases |rs|
  {
    if rs != [] {
      var n := |rs| - 1;
      forall j | 0 <= j < n && TitleLike(rs[..n][j])
        ensures Content.EpubTypeTextDefined(parseHtml(rs[..n][j].content), marker)
                && Content.GetTextByEpubType(parseHtml(rs[..n][j].content), marker) == ""
      {
        assert rs[..n][j] == rs[j];
      }
      FirstMarkedNone(rs[..n], parseHtml, marker);
    }
  }

  /** The scan returns the marker text of the first title-like resource
      whose marker text is not empty. */
  lemma FirstMarkedIs(rs: seq<PublicationResource>, parseHtml: Bytes -> Html.Node, marker: string, i: nat)
    requires MarkedDefined(rs, parseHtml, marker)
    requires i < |rs| && TitleLike(rs[i])
    requires forall j :: 0 <= j <= i && TitleLike(rs[j]) ==> Content.EpubTypeTextDefined(parseHtml(rs[j].content), marker)
    requires forall j :: 0 <= j < i && TitleLike(rs[j]) ==> Content.GetTextByEpubType(parseHtml(rs[j].content), marker) == ""
    requires Content.GetTextByEpubType(parseHtml(rs[i].content), marker) != ""
    ensures FirstMarked(rs, parseHtml, marker) == Content.GetTextByEpubType(parseHtml(rs[i].content), marker)
  {
    forall j | 0 <= j < i && TitleLike(rs[..i][j])
      ensures Content.EpubTypeTextDefined(parseHtml(rs[..i][j].content), marker)
              && Content.GetTextByEpubType(parseHtml(rs[..i][j].content), marker) == ""
    {
      assert rs[..i][j] == rs[j];
    }
    FirstMarkedNone(rs[..i], parseHtml, marker);
    assert rs[..i + 1][..i] == rs[..i];
    MarkedDefinedPrefix(rs, parseHtml, marker, i + 1);
    FirstMarkedStable(rs, parseHtml, marker, i + 1);
  }

  /** What `Title` needs: a list under `"title"`, and otherwise an active
      package and documents the scans can read. */
  predicate TitleDefined(md: map<string, MetaValue>, guide: Option<Pkg.Guide>, rs: seq<PublicationResource>, parseHtml: Bytes -> Html.Node) {
    StringsAt(md, "title") &&
    ("title" !in md ==>
       var doc := TitlePageDoc(guide, rs, parseHtml);
       (doc.Some? ==> Content.EpubTypeTextDefined(doc.value, "title"))
       && (doc.None? ==> MarkedDefined(rs, parseHtml, "title")))
  }

  /** `Title`: the joined `"title"` list when present; else the `title`
      marker text of the title page, even when empty; else that of the first
      title-like resource that has one. */
  function TitleOf(md: map<string, MetaValue>, guide: Option<Pkg.Guide>, rs: seq<PublicationResource>, parseHtml: Bytes -> Html.Node): string
    requires TitleDefined(md, guide, rs, parseHtml)
  {
    if "title" in md then JoinedAt(md, "title")
    else
      var doc := TitlePageDoc(guide, rs, parseHtml);
      if doc.Some? then Content.GetTextByEpubType(doc.value, "title")
      else FirstMarked(rs, parseHtml, "title")
  }

  /** A reader's metadata always has the `"title"` entry, so `Title` is the
      joined Dublin Core titles whatever the guide and resources hold. */
  lemma TitleOfParsed(md: Pkg.Metadata, guide: Option<Pkg.Guide>, rs: seq<PublicationResource>, parseHtml: Bytes -> Html.Node)
    requires ContentMetadata.MetaBagDefined(md.metas)
    ensures TitleDefined(ContentMetadata.MetadataOf(md), guide, rs, parseHtml)
    ensures TitleOf(ContentMetadata.MetadataOf(md), guide, rs, parseHtml)
            == Text.Join(ContentMetadata.ValuesOf(md.titles) + ContentMetadata.NamedValues(md.optional, "title"), ", ")
  {
    ContentMetadata.ParsedDublinCore(md);
  }

  /** What `Author` needs, as for `Title` with the `"creator"` entry and the
      `author` marker. */
  predicate AuthorDefined(md: map<string, MetaValue>, guide: Option<Pkg.Guide>, rs: seq<PublicationResource>, parseHtml: Bytes -> Html.Node) {
    StringsAt(md, "creator") &&
    ("creator" !in md ==>
       var doc := TitlePageDoc(guide, rs, parseHtml);
       (doc.Some? ==> Content.EpubTypeTextDefined(doc.value, "author"))
       && (doc.None? ==> MarkedDefined(rs, parseHtml, "author")))
  }

  const UnknownAuthor := "Unknown"

  /** `Author`: the joined `"creator"` list when present; else the `author`
      marker text of the title page, even when empty; else that of the
      first title-like resource that has one; else `"Unknown"`. */
  function AuthorOf(md: map<string, MetaValue>, guide: Option<Pkg.Guide>, rs: seq<PublicationResource>, parseHtml: Bytes -> Html.Node): string
    requires AuthorDefined(md, guide, rs, parseHtml)
  {
    if "creator" in md then JoinedAt(md, "creator")
    else
      var doc := TitlePageDoc(guide, rs, parseHtml);
      if doc.Some? then Content.GetTextByEpubType(doc.value, "author")
      else
        var a := FirstMarked(rs, parseHtml, "author");
        if a != "" then a else UnknownAuthor
  }

  /** The guide loop shared by `Title` and `Author`: the marker text of the
      first title-page reference that names a resource. */
  method TitlePageText(guide: Option<Pkg.Guide>, rs: seq<PublicationResource>, parseHtml: Bytes -> Html.Node, marker: string)
    returns (found: bool, text: string)
    requires var doc := TitlePageDoc(guide, rs, parseHtml);
             doc.Some? ==> Content.EpubTypeTextDefined(doc.value, marker)
    ensures found <==> TitlePageDoc(guide, rs, parseHtml).Some?
    ensures found ==> text == Content.GetTextByEpubType(TitlePageDoc(guide, rs, parseHtml).value, marker)
  {
    found, text := false, "";
    if guide.None? {
      return;
    }
    var refs := guide.value.references;
    for i := 0 to |refs|
      invariant forall j :: 0 <= j < i ==> refs[j].kind != Pkg.TitlePage || Resources.IndexByHref(rs, refs[j].href) < 0
    {
      if refs[i].kind == Pkg.TitlePage {
        var j := Resources.IndexByHref(rs, refs[i].href);
        if j < 0 {
          continue;
        }
        assert FirstTitlePage(refs, rs) == i;
        var htmlNode := parseHtml(rs[j].content);
        return true, Content.GetTextByEpubType(htmlNode, marker);
      }
    }
  }

  /** One more resource while nothing was found: a title-like one is
      scanned for the marker. */
  lemma MarkedStep(rs: seq<PublicationResource>, parseHtml: Bytes -> Html.Node, marker: string, i: nat)
    requires MarkedDefined(rs, parseHtml, marker) && i < |rs|
    requires MarkedDefined(rs[..i], parseHtml, marker) && FirstMarked(rs[..i], parseHtml, marker) == ""
    ensures MarkedDefined(rs[..i + 1], parseHtml, marker)
    ensures TitleLike(rs[i]) ==> Content.EpubTypeTextDefined(parseHtml(rs[i].content), marker)
    ensures FirstMarked(rs[..i + 1], parseHtml, marker)
              == if TitleLike(rs[i]) then Content.GetTextByEpubType(parseHtml(rs[i].content), marker) else ""
  {
    MarkedDefinedPrefix(rs, parseHtml, marker, i + 1);
    assert rs[..i + 1][..i] == rs[..i];
  }

  /** The lookup in one title-like document. In `Title` an empty `title`
      text is followed by a lookup of `fulltitle` whose result is dropped;
      it is kept here for the document it reads. */
  method MarkedInDocument(htmlNode: Html.Node, marker: string) returns (text: string)
    requires Content.EpubTypeTextDefined(htmlNode, marker)
    ensures text == Content.GetTextByEpubType(htmlNode, marker)
  {
    text := Content.GetTextByEpubType(htmlNode, marker);
    if text == "" && marker == "title" {
      FullTitleContainsTitle();
      Content.EpubTypeTextDefinedNarrower(htmlNode, "title", "fulltitle");
      var _ := Content.GetTextByEpubType(htmlNode, "fulltitle");
    }
  }

  lemma FullTitleContainsTitle()
    ensures Text.Contains("fulltitle", "title")
  {
    Text.ContainsAt("fulltitle", "title", 4);
  }

  /** The resource loop shared by `Title` and `Author`. */
  method MarkedText(rs: seq<PublicationResource>, parseHtml: Bytes -> Html.Node, marker: string) returns (text: string)
    requires MarkedDefined(rs, parseHtml, marker)
    ensures text == FirstMarked(rs, parseHtml, marker)
  {
    text := "";
    for i := 0 to |rs|
      invariant MarkedDefined(rs[..i], parseHtml, marker)
      invariant FirstMarked(rs[..i], parseHtml, marker) == "" && text == ""
    {
      MarkedStep(rs, parseHtml, marker, i);
      if TitleLike(rs[i]) {
        text := MarkedInDocument(parseHtml(rs[i].content), marker);
        if text != "" {
          FirstMarkedStable(rs, parseHtml, marker, i + 1);
          return;
        }
      }
    }
    assert rs[..|rs|] == rs;
  }

  /** The package's guide, when there is an active package. */
  function GuideOf(e: Epub): Option<Pkg.Guide>
    reads e
  {
    if e.rendition in e.packagePubs then e.packagePubs[e.rendition].guide else None
  }

  /** `Title` on a reader. */
  method Title(e: Epub, parseHtml: Bytes -> Html.Node) returns (title: string)
    requires TitleDefined(e.metadata, GuideOf(e), e.resources, parseHtml)
    requires "title" !in e.metadata ==> e.rendition in e.packagePubs
    ensures title == TitleOf(e.metadata, GuideOf(e), e.resources, parseHtml)
  {
    if "title" in e.metadata {
      return Text.Join(e.metadata["title"].items, ", ");
    }
    var guide := e.packagePubs[e.rendition].guide;
    var found, text := TitlePageText(guide, e.resources, parseHtml, "title");
    if found {
      return text;
    }
    title := MarkedText(e.resources, parseHtml, "title");
  }

  /** `Author` on a reader. */
  method Author(e: Epub, parseHtml: Bytes -> Html.Node) returns (author: string)
    requires AuthorDefined(e.metadata, GuideOf(e), e.resources, parseHtml)
    requires "creator" !in e.metadata ==> e.rendition in e.packagePubs
    ensures author == AuthorOf(e.metadata, GuideOf(e), e.resources, parseHtml)
    ensures author == "" ==> "creator" in e.metadata || TitlePageDoc(GuideOf(e), e.resources, parseHtml).Some?
  {
    if "creator" in e.metadata {
      return Text.Join(e.metadata["creator"].items, ", ");
    }
    var guide := e.packagePubs[e.rendition].guide;
    var found, text := TitlePageText(guide, e.resources, parseHtml, "author");
    if found {
      return text;
    }
    author := MarkedText(e.resources, parseHtml, "author");
    if author == "" {
      author := UnknownAuthor;
    }
  }

  // ---------------------------------------------------------------------
  // Cover

  /** A key, id or href matching the pattern `cover`. */
  predicate CoverWord(s: string) {
    Text.Contains(s, "cover")
  }

  /** The meta bag, empty when the `"meta"` entry is missing or not a bag. */
  function MetaBagOf(md: map<string, MetaValue>): map<string, MetaItem> {
    if "meta" in md && md["meta"].Bag? then md["meta"].entries else map[]
  }

  /** Every bag entry under a cover key is a single value (the lookup
      asserts that type). */
  predicate MetaCoverDefined(md: map<string, MetaValue>) {
    var bag := MetaBagOf(md);
    forall k :: k in bag && CoverWord(k) ==> bag[k].Content?
  }

  /** The results `getCoverInMetadata` may give: the image read by the id
      under one of the cover keys (the one the map iteration visits last),
      or nil when there is no cover key. */
  predicate MetaCoverOutcome(bag: map<string, MetaItem>, rs: seq<PublicationResource>,
                             decode: Bytes -> Option<Externals.Image>, cover: Option<Option<Externals.Image>>)
  {
    ((forall k :: k in bag ==> !CoverWord(k)) && cover.None?)
    || exists k :: k in bag && CoverWord(k) && bag[k].Content? && cover == Content.ReadImageById(rs, bag[k].text, decode)
  }

  /** `getCoverInMetadata`, visiting the bag keys in an unspecified order. */
  method GetCoverInMetadata(e: Epub, decode: Bytes -> Option<Externals.Image>) returns (cover: Option<Option<Externals.Image>>)
    requires MetaCoverDefined(e.metadata)
    ensures MetaCoverOutcome(MetaBagOf(e.metadata), e.resources, decode, cover)
  {
    cover := None;
    var bag := MetaBagOf(e.metadata);
    var keys := bag.Keys;
    ghost var last: Option<string> := None;
    while keys != {}
      invariant keys <= bag.Keys
      invariant last.None? ==> cover.None? && forall k :: k in bag && k !in keys ==> !CoverWord(k)
      invariant last.Some? ==> last.value in bag && CoverWord(last.value) && bag[last.value].Content?
                               && cover == Content.ReadImageById(e.resources, bag[last.value].text, decode)
      decreases keys
    {
      var key :| key in keys;
      if CoverWord(key) {
        var resId := bag[key].text;
        cover := Content.ReadImageById(e.resources, resId, decode);
        last := Some(key);
      }
      keys := keys - {key};
    }
  }

  /** `getCoverInResources` over the resources `rs` of the table `all`: a
      `cover-image` resource replaces the cover found so far; a resource
      whose id mentions a cover is read only while none has been found. */
  function ResourceCover(all: seq<PublicationResource>, rs: seq<PublicationResource>,
                         decode: Bytes -> Option<Externals.Image>): Option<Option<Externals.Image>>
    decreases |rs|
  {
    if rs == [] then None
    else
      var n := |rs| - 1;
      var res := rs[n];
      var c := ResourceCover(all, rs[..n], decode);
      var c1 := if res.properties == Pkg.PropertyCoverImage then Content.ReadImageByHref(all, res.href, decode) else c;
      if c1.None? && CoverWord(res.id) then Content.ReadImageByHref(all, res.href, decode) else c1
  }

  /** A resource of the table is always found by its own href. */
  lemma ReadOwnHref(all: seq<PublicationResource>, res: PublicationResource, decode: Bytes -> Option<Externals.Image>)
    requires res in all
    ensures Content.ReadImageByHref(all, res.href, decode).Some?
  {
    var k :| 0 <= k < |all| && all[k] == res;
    assert all[k].href == res.href;
  }

  /** No cover is found in the resources exactly when none is a
      `cover-image` and no id mentions a cover. */
  lemma {:induction false} ResourceCoverNone(all: seq<PublicationResource>, rs: seq<PublicationResource>,
                                            decode: Bytes -> Option<Externals.Image>)
    requires forall j :: 0 <= j < |rs| ==> rs[j] in all
    ensures ResourceCover(all, rs, decode).None? <==>
              forall j :: 0 <= j < |rs| ==> rs[j].properties != Pkg.PropertyCoverImage && !CoverWord(rs[j].id)
    decreases |rs|
  {
    if rs != [] {
      var n := |rs| - 1;
      assert forall j :: 0 <= j < n ==> rs[..n][j] == rs[j];
      ResourceCoverNone(all, rs[..n], decode);
      ReadOwnHref(all, rs[n], decode);
      if ResourceCover(all, rs, decode).None? {
        forall j | 0 <= j < |rs|
          ensures rs[j].properties != Pkg.PropertyCoverImage && !CoverWord(rs[j].id)
        {
          if j < n {
            assert rs[..n][j] == rs[j];
          }
        }
      }
    }
  }

  /** The last `cover-image` resource decides the cover. */
  lemma {:induction false} ResourceCoverLastImage(all: seq<PublicationResource>, rs: seq<PublicationResource>,
                                                 decode: Bytes -> Option<Externals.Image>, i: nat)
    requires forall j :: 0 <= j < |rs| ==> rs[j] in all
    requires i < |rs| && rs[i].properties == Pkg.PropertyCoverImage
    requires forall j :: i < j < |rs| ==> rs[j].properties != Pkg.PropertyCoverImage
    ensures ResourceCover(all, rs, decode) == Content.ReadImageByHref(all, rs[i].href, decode)
    decreases |rs|
  {
    var n := |rs| - 1;
    ReadOwnHref(all, rs[i], decode);
    if i < n {
      assert forall j :: 0 <= j < n ==> rs[..n][j] == rs[j];
      ResourceCoverLastImage(all, rs[..n], decode, i);
    }
  }

  /** Without a `cover-image` resource, the first resource whose id
      mentions a cover decides: once it is read, the cover is found and
      later such resources are not read. */
  lemma {:induction false} ResourceCoverFirstWord(all: seq<PublicationResource>, rs: seq<PublicationResource>,
                                                 decode: Bytes -> Option<Externals.Image>, k: nat)
    requires forall j :: 0 <= j < |rs| ==> rs[j] in all
    requires forall j :: 0 <= j < |rs| ==> rs[j].properties != Pkg.PropertyCoverImage
    requires k < |rs| && CoverWord(rs[k].id)
    requires forall j :: 0 <= j < k ==> !CoverWord(rs[j].id)
    ensures ResourceCover(all, rs, decode) == Content.ReadImageByHref(all, rs[k].href, decode)
    decreases |rs|
  {
    var n := |rs| - 1;
    assert forall j :: 0 <= j < n ==> rs[..n][j] == rs[j];
    ReadOwnHref(all, rs[k], decode);
    if k < n {
      ResourceCoverFirstWord(all, rs[..n], decode, k);
    } else {
      ResourceCoverNone(all, rs[..n], decode);
    }
  }

  /** `getCoverInResources`. */
  method GetCoverInResources(e: Epub, decode: Bytes -> Option<Externals.Image>) returns (cover: Option<Option<Externals.Image>>)
    ensures cover == ResourceCover(e.resources, e.resources, decode)
    ensures cover.None? <==> forall j :: 0 <= j < |e.resources| ==>
              e.resources[j].properties != Pkg.PropertyCoverImage && !CoverWord(e.resources[j].id)
  {
    cover := None;
    var rs := e.resources;
    for i := 0 to |rs|
      invariant cover == ResourceCover(rs, rs[..i], decode)
    {
      ResourceCoverStep(rs, rs, i, decode);
      var res := rs[i];
      if res.properties == Pkg.PropertyCoverImage {
        cover := Content.ReadImageByHref(rs, res.href, decode);
      }
      if cover.None? && CoverWord(res.id) {
        cover := Content.ReadImageByHref(rs, res.href, decode);
      }
    }
    assert rs[..|rs|] == rs;
    ResourceCoverNone(rs, rs, decode);
  }

  /** One step of the scan in `getCoverInResources`. */
  lemma ResourceCoverStep(all: seq<PublicationResource>, rs: seq<PublicationResource>, i: nat,
                          decode: Bytes -> Option<Externals.Image>)
    requires i < |rs|
    ensures ResourceCover(all, rs[..i + 1], decode) ==
              var c := ResourceCover(all, rs[..i], decode);
              var c1 := if rs[i].properties == Pkg.PropertyCoverImage then Content.ReadImageByHref(all, rs[i].href, decode) else c;
              if c1.None? && CoverWord(rs[i].id) then Content.ReadImageByHref(all, rs[i].href, decode) else c1
  {
    assert rs[..i + 1][..i] == rs[..i];
  }

  /** `getCoverInSpine` over the spine `spine`: each spine item whose id
      mentions a cover replaces the cover with the image read by the href of
      the first resource with that id. */
  function SpineCover(spine: seq<PublicationResource>, rs: seq<PublicationResource>,
                      decode: Bytes -> Option<Externals.Image>): Option<Option<Externals.Image>>
    decreases |spine|
  {
    if spine == [] then None
    else
      var n := |spine| - 1;
      var c := SpineCover(spine[..n], rs, decode);
      if !CoverWord(spine[n].id) then c
      else
        var i := Resources.IndexById(rs, spine[n].id);
        if i >= 0 then Content.ReadImageByHref(rs, rs[i].href, decode) else c
  }

  /** A spine item is a resource of the table, so its id is found. */
  lemma SpineItemFound(spine: seq<PublicationResource>, rs: seq<PublicationResource>,
                       decode: Bytes -> Option<Externals.Image>, j: nat)
    requires j < |spine| && spine[j] in rs
    ensures Resources.IndexById(rs, spine[j].id) >= 0
    ensures Content.ReadImageByHref(rs, rs[Resources.IndexById(rs, spine[j].id)].href, decode).Some?
  {
    var k :| 0 <= k < |rs| && rs[k] == spine[j];
    assert rs[k].id == spine[j].id;
    ReadOwnHref(rs, rs[Resources.IndexById(rs, spine[j].id)], decode);
  }

  /** The spine gives a cover exactly when some spine item's id mentions one. */
  lemma {:induction false} SpineCoverNone(spine: seq<PublicationResource>, rs: seq<PublicationResource>,
                                         decode: Bytes -> Option<Externals.Image>)
    requires forall j :: 0 <= j < |spine| ==> spine[j] in rs
    ensures SpineCover(spine, rs, decode).None? <==> forall j :: 0 <= j < |spine| ==> !CoverWord(spine[j].id)
    decreases |spine|
  {
    if spine != [] {
      var n := |spine| - 1;
      var prefix := spine[..n];
      assert forall j :: 0 <= j < n ==> prefix[j] == spine[j];
      SpineCoverNone(prefix, rs, decode);
      SpineCoverNoneStep(spine, rs, decode);
      assert (forall j :: 0 <= j < |spine| ==> !CoverWord(spine[j].id)) <==>
             (forall j :: 0 <= j < n ==> !CoverWord(prefix[j].id)) && !CoverWord(spine[n].id);
    }
  }

  /** The last spine item leaves the spine without cover exactly when the
      items before it do and its id does not mention one. */
  lemma SpineCoverNoneStep(spine: seq<PublicationResource>, rs: seq<PublicationResource>,
                           decode: Bytes -> Option<Externals.Image>)
    requires spine != [] && spine[|spine| - 1] in rs
    ensures SpineCover(spine, rs, decode).None? <==>
              SpineCover(spine[..|spine| - 1], rs, decode).None? && !CoverWord(spine[|spine| - 1].id)
  {
    SpineItemFound(spine, rs, decode, |spine| - 1);
  }

  /** A last spine item whose id does not mention a cover changes nothing. */
  lemma SpineCoverSkip(spine: seq<PublicationResource>, rs: seq<PublicationResource>,
                       decode: Bytes -> Option<Externals.Image>)
    requires spine != [] && !CoverWord(spine[|spine| - 1].id)
    ensures SpineCover(spine, rs, decode) == SpineCover(spine[..|spine| - 1], rs, decode)
  {
  }

  /** A last spine item whose id mentions a cover and is found in the table
      gives the cover. */
  lemma SpineCoverTake(spine: seq<PublicationResource>, rs: seq<PublicationResource>,
                       decode: Bytes -> Option<Externals.Image>)
    requires spine != [] && CoverWord(spine[|spine| - 1].id)
    requires Resources.IndexById(rs, spine[|spine| - 1].id) >= 0
    ensures SpineCover(spine, rs, decode) ==
              Content.ReadImageByHref(rs, rs[Resources.IndexById(rs, spine[|spine| - 1].id)].href, decode)
  {
  }

  /** The cover is the image behind the last spine item whose id mentions one. */
  lemma {:induction false} SpineCoverLast(spine: seq<PublicationResource>, rs: seq<PublicationResource>,
                                         decode: Bytes -> Option<Externals.Image>, i: nat)
    requires i < |spine| && spine[i] in rs && CoverWord(spine[i].id)
    requires forall j :: i < j < |spine| ==> !CoverWord(spine[j].id)
    ensures SpineCover(spine, rs, decode) == Content.ReadImageByHref(rs, rs[Resources.IndexById(rs, spine[i].id)].href, decode)
    decreases |spine|
  {
    var n := |spine| - 1;
    SpineItemFound(spine, rs, decode, i);
    if i < n {
      var prefix := spine[..n];
      assert prefix[i] == spine[i];
      assert forall j :: i < j < n ==> prefix[j] == spine[j];
      SpineCoverLast(prefix, rs, decode, i);
      SpineCoverSkip(spine, rs, decode);
    } else {
      SpineCoverTake(spine, rs, decode);
    }
  }

  /** `getCoverInSpine`. */
  method GetCoverInSpine(e: Epub, decode: Bytes -> Option<Externals.Image>) returns (cover: Option<Option<Externals.Image>>)
    requires e.rendition in e.packagePubs
    ensures cover == SpineCover(Content.SpineOf(e.packagePubs[e.rendition].spine.itemRefs, e.resources), e.resources, decode)
    ensures var spine := Content.SpineOf(e.packagePubs[e.rendition].spine.itemRefs, e.resources);
            cover.None? <==> forall j :: 0 <= j < |spine| ==> !CoverWord(spine[j].id)
  {
    cover := None;
    var spine := Content.Spine(e);
    for i := 0 to |spine|
      invariant cover == SpineCover(spine[..i], e.resources, decode)
    {
      SpineCoverStep(spine, e.resources, decode, i);
      var item := spine[i];
      if !CoverWord(item.id) {
        continue;
      }
      var res := Resources.SelectResourceById(e, item.id);
      if res.Some? {
        cover := Content.ReadImageByHref(e.resources, res.value.href, decode);
      }
    }
    assert spine[..|spine|] == spine;
    forall j | 0 <= j < |spine| ensures spine[j] in e.resources {
      Content.SpineOfMembers(e.packagePubs[e.rendition].spine.itemRefs, e.resources, spine[j]);
    }
    SpineCoverNone(spine, e.resources, decode);
  }

  /** One step of the scan in `getCoverInSpine`. */
  lemma SpineCoverStep(spine: seq<PublicationResource>, rs: seq<PublicationResource>,
                       decode: Bytes -> Option<Externals.Image>, i: nat)
    requires i < |spine|
    ensures SpineCover(spine[..i + 1], rs, decode) ==
              var c := SpineCover(spine[..i], rs, decode);
              var k := Resources.IndexById(rs, spine[i].id);
              if !CoverWord(spine[i].id) then c
              else if k >= 0 then Content.ReadImageByHref(rs, rs[k].href, decode) else c
  {
    assert spine[..i + 1][..i] == spine[..i];
  }

  predicate IsImg(n: Html.Node) {
    Html.IsElement(n, "img")
  }

  /** `findFirstImg`: the node itself when it is an `img` element, else the
      first `img` found in its children, in order. */
  function FindFirstImg(n: Html.Node): Option<Html.Node>
    decreases n
  {
    if IsImg(n) then Some(n) else FirstImgIn(n.children)
  }

  function FirstImgIn(cs: seq<Html.Node>): Option<Html.Node>
    decreases cs
  {
    if cs == [] then None
    else
      var r := FindFirstImg(cs[0]);
      if r.Some? then r else FirstImgIn(cs[1..])
  }

  /** The first `img` element of a list of nodes. */
  function FirstImgOf(ns: seq<Html.Node>): (r: Option<Html.Node>)
    ensures r.None? <==> forall i :: 0 <= i < |ns| ==> !IsImg(ns[i])
    ensures r.Some? ==> exists i :: 0 <= i < |ns| && ns[i] == r.value && IsImg(ns[i]) && forall j :: 0 <= j < i ==> !IsImg(ns[j])
  {
    if ns == [] then None
    else if IsImg(ns[0]) then Some(ns[0])
    else
      var r := FirstImgOf(ns[1..]);
      assert forall i :: 1 <= i < |ns| ==> ns[1..][i - 1] == ns[i];
      r
  }

  lemma {:induction false} FirstImgOfAppend(a: seq<Html.Node>, b: seq<Html.Node>)
    ensures FirstImgOf(a + b) == if FirstImgOf(a).Some? then FirstImgOf(a) else FirstImgOf(b)
    decreases |a|
  {
    if a == [] {
      assert a + b == b;
    } else {
      assert (a + b)[1..] == a[1..] + b;
      FirstImgOfAppend(a[1..], b);
    }
  }

  /** `findFirstImg` returns the first `img` element of the tree in
      pre-order, the node itself included. */
  lemma {:induction false} FindFirstImgPreorder(n: Html.Node)
    ensures FindFirstImg(n) == FirstImgOf([n] + Html.Descendants(n))
    decreases n, 1
  {
    FirstImgOfAppend([n], Html.Descendants(n));
    FirstImgInPreorder(n.children);
  }

  lemma {:induction false} FirstImgInPreorder(cs: seq<Html.Node>)
    ensures FirstImgIn(cs) == FirstImgOf(Html.DescendantsOf(cs))
    decreases cs, 0
  {
    if cs != [] {
      FindFirstImgPreorder(cs[0]);
      FirstImgInPreorder(cs[1..]);
      FirstImgOfAppend([cs[0]] + Html.Descendants(cs[0]), Html.DescendantsOf(cs[1..]));
    }
  }

  /** Every cover-like entry of the table whose document exists has an
      `img` element (otherwise `getImageSrc` dereferences nil). */
  predicate TocCoverDefined(items: seq<Toc.TOC>, rs: seq<PublicationResource>, parseHtml: Bytes -> Html.Node) {
    forall j :: 0 <= j < |items| && CoverWord(items[j].href) ==>
      var doc := Content.ReadContentHTMLByHref(rs, items[j].href, parseHtml);
      doc.Some? ==> FindFirstImg(doc.value).Some?
  }

  /** The loop of `getCoverFromToc` over the top-level entries: each
      cover-like entry whose document exists replaces the cover with the
      image named by the `src` of its first `img`. */
  function TocCover(items: seq<Toc.TOC>, rs: seq<PublicationResource>, codecs: Externals.Codecs): Option<Option<Externals.Image>>
    requires TocCoverDefined(items, rs, codecs.parseHtml)
    decreases |items|
  {
    if items == [] then None
    else
      var n := |items| - 1;
      assert forall j :: 0 <= j < n ==> items[..n][j] == items[j];
      var c := TocCover(items[..n], rs, codecs);
      if !CoverWord(items[n].href) then c
      else
        var doc := Content.ReadContentHTMLByHref(rs, items[n].href, codecs.parseHtml);
        if doc.None? then c
        else
          var img := FindFirstImg(doc.value).value;
          Content.ReadImageByHref(rs, Html.AttrValue(img.attrs, "src"), codecs.decodeImage)
  }

  /** What `getCoverFromToc` needs: a readable navigation document, and an
      `img` in every cover-like entry's document. */
  predicate TocCoverReady(rs: seq<PublicationResource>, ncx: Option<Ncx.NCX>, parseHtml: Bytes -> Html.Node) {
    Toc.NavReadable(rs, parseHtml)
    && TocCoverDefined(Toc.TableOfContentsOf(rs, ncx, parseHtml).0.items, rs, parseHtml)
  }

  /** `getCoverFromToc`: nothing when the table of contents fails. */
  function CoverFromToc(rs: seq<PublicationResource>, ncx: Option<Ncx.NCX>, codecs: Externals.Codecs): Option<Option<Externals.Image>>
    requires TocCoverReady(rs, ncx, codecs.parseHtml)
  {
    var (toc, err) := Toc.TableOfContentsOf(rs, ncx, codecs.parseHtml);
    if err.Some? then None else TocCover(toc.items, rs, codecs)
  }

  method GetCoverFromToc(e: Epub, codecs: Externals.Codecs) returns (cover: Option<Option<Externals.Image>>)
    requires TocCoverReady(e.resources, e.ncx, codecs.parseHtml)
    ensures cover == CoverFromToc(e.resources, e.ncx, codecs)
  {
    cover := None;
    var toc, err := Toc.TableOfContents(e, codecs.parseHtml);
    if err.Some? {
      return;
    }
    var items := toc.items;
    for i := 0 to |items|
      invariant TocCoverDefined(items[..i], e.resources, codecs.parseHtml)
      invariant cover == TocCover(items[..i], e.resources, codecs)
    {
      assert items[..i + 1][..i] == items[..i];
      assert forall j :: 0 <= j <= i ==> items[..i + 1][j] == items[j];
      var item := items[i];
      if !CoverWord(item.href) {
        continue;
      }
      var htmlNode := Content.ReadContentHTMLByHref(e.resources, item.href, codecs.parseHtml);
      if htmlNode.None? {
        continue;
      }
      var firstImg := FindFirstImg(htmlNode.value);
      var href := Html.AttrValue(firstImg.value.attrs, "src");
      cover := Content.ReadImageByHref(e.resources, href, codecs.decodeImage);
    }
    assert items[..|items|] == items;
  }

  /** What the strategies after the metadata need, each only when it is
      reached: the selected package once the resources found nothing, and
      the table of contents once the spine found nothing too. */
  predicate CoverFallbackReady(e: Epub, codecs: Externals.Codecs)
    reads e
  {
    ResourceCover(e.resources, e.resources, codecs.decodeImage).None? ==>
      e.rendition in e.packagePubs
      && (SpineCover(Content.SpineOf(e.packagePubs[e.rendition].spine.itemRefs, e.resources), e.resources, codecs.decodeImage).None? ==>
            TocCoverReady(e.resources, e.ncx, codecs.parseHtml))
  }

  /** The strategies after the metadata, in order, each consulted only when
      the ones before it found nothing. */
  function CoverFallback(e: Epub, codecs: Externals.Codecs): Option<Option<Externals.Image>>
    reads e
    requires CoverFallbackReady(e, codecs)
  {
    var r := ResourceCover(e.resources, e.resources, codecs.decodeImage);
    if r.Some? then r
    else
      var s := SpineCover(Content.SpineOf(e.packagePubs[e.rendition].spine.itemRefs, e.resources), e.resources, codecs.decodeImage);
      if s.Some? then s else CoverFromToc(e.resources, e.ncx, codecs)
  }

  /** `Cover`: metadata, then resources, then spine, then table of
      contents; the first non-nil result is returned and the later
      strategies are not consulted. */
  method Cover(e: Epub, codecs: Externals.Codecs) returns (cover: Option<Option<Externals.Image>>)
    requires MetaCoverDefined(e.metadata)
    requires MetaCoverOutcome(MetaBagOf(e.metadata), e.resources, codecs.decodeImage, None) ==> CoverFallbackReady(e, codecs)
    ensures exists m :: MetaCoverOutcome(MetaBagOf(e.metadata), e.resources, codecs.decodeImage, m)
                        && cover == if m.Some? then m else CoverFallback(e, codecs)
  {
    cover := GetCoverInMetadata(e, codecs.decodeImage);
    ghost var m := cover;
    if cover.None? {
      cover := GetCoverInResources(e, codecs.decodeImage);
    }
    if cover.None? {
      cover := GetCoverInSpine(e, codecs.decodeImage);
    }
    if cover.None? {
      cover := GetCoverFromToc(e, codecs);
    }
    assert MetaCoverOutcome(MetaBagOf(e.metadata), e.resources, codecs.decodeImage, m);
  }

  // ---------------------------------------------------------------------
  // Description

  /** `extractDescriptionFromMetadata`. */
  function DescriptionFromMetadata(md: map<string, MetaValue>): (d: string)
    requires StringsAt(md, "description")
    ensures d == JoinedAt(md, "description")
    ensures d != "" ==> "description" in md && md["description"].items != []
  {
    JoinedAt(md, "description")
  }

  predicate DescriptionKey(k: string) {
    Text.Contains(k, "description")
  }

  /** The results `extractDescriptionFromOptionalMeta` may give: the joined
      list under one of the description keys that hold a list (the one the
      map iteration visits last), or `""` when there is none. */
  predicate OptionalMetaOutcome(bag: map<string, MetaItem>, d: string) {
    ((forall k :: k in bag ==> !(DescriptionKey(k) && bag[k].Values?)) && d == "")
    || exists k :: k in bag && DescriptionKey(k) && bag[k].Values? && d == Text.Join(bag[k].values, ", ")
  }

  /** `extractDescriptionFromOptionalMeta`, visiting the bag keys in an
      unspecified order. */
  method DescriptionFromOptionalMeta(md: map<string, MetaValue>) returns (description: string)
    ensures OptionalMetaOutcome(MetaBagOf(md), description)
  {
    description := "";
    var bag := MetaBagOf(md);
    var keys := bag.Keys;
    ghost var last: Option<string> := None;
    while keys != {}
      invariant keys <= bag.Keys
      invariant last.None? ==> description == "" && forall k :: k in bag && k !in keys ==> !(DescriptionKey(k) && bag[k].Values?)
      invariant last.Some? ==> last.value in bag && DescriptionKey(last.value) && bag[last.value].Values?
                               && description == Text.Join(bag[last.value].values, ", ")
      decreases keys
    {
      var key :| key in keys;
      keys := keys - {key};
      if !DescriptionKey(key) {
        continue;
      }
      if !bag[key].Values? {
        continue;
      }
      description := Text.Join(bag[key].values, ", ");
      last := Some(key);
    }
  }

  /** The node has an `epub:type` attribute equal to `t`. */
  predicate HasExactEpubType(n: Html.Node, t: string) {
    exists i :: 0 <= i < |n.attrs| && n.attrs[i].key == "epub:type" && n.attrs[i].val == t
  }

  /** The loop of `extractDescriptionFromEpubType` over the nodes `ds`: the
      Markdown of each node of that type replaces the description, unless
      the conversion fails. */
  function EpubTypeDescription(ds: seq<Html.Node>, t: string, toMarkdown: Option<Html.Node> -> Option<string>): string
    decreases |ds|
  {
    if ds == [] then ""
    else
      var n := |ds| - 1;
      var d := EpubTypeDescription(ds[..n], t, toMarkdown);
      if HasExactEpubType(ds[n], t) && toMarkdown(Some(ds[n])).Some? then toMarkdown(Some(ds[n])).value else d
  }

  /** A description found for a type is the Markdown of a node of that type
      below the document, and of the last one whose conversion succeeds. */
  lemma {:induction false} EpubTypeDescriptionAt(ds: seq<Html.Node>, t: string, toMarkdown: Option<Html.Node> -> Option<string>)
    ensures EpubTypeDescription(ds, t, toMarkdown) != "" ==>
              exists i :: 0 <= i < |ds| && HasExactEpubType(ds[i], t) && toMarkdown(Some(ds[i])) == Some(EpubTypeDescription(ds, t, toMarkdown))
                && forall j :: i < j < |ds| ==> !(HasExactEpubType(ds[j], t) && toMarkdown(Some(ds[j])).Some?)
    ensures (forall i :: 0 <= i < |ds| ==> !HasExactEpubType(ds[i], t)) ==> EpubTypeDescription(ds, t, toMarkdown) == ""
    decreases |ds|
  {
    if ds != [] {
      var n := |ds| - 1;
      assert forall j :: 0 <= j < n ==> ds[..n][j] == ds[j];
      EpubTypeDescriptionAt(ds[..n], t, toMarkdown);
    }
  }

  /** Index of the first attribute `epub:type` equal to `t`, or -1. */
  function ExactEpubTypeIndex(attrs: seq<Html.Attribute>, t: string): (i: int)
    ensures -1 <= i < |attrs|
    ensures i >= 0 ==> attrs[i].key == "epub:type" && attrs[i].val == t
    ensures i < 0 ==> forall k :: 0 <= k < |attrs| ==> !(attrs[k].key == "epub:type" && attrs[k].val == t)
  {
    if attrs == [] then -1
    else if attrs[0].key == "epub:type" && attrs[0].val == t then 0
    else var j := ExactEpubTypeIndex(attrs[1..], t); if j < 0 then -1 else j + 1
  }

  /** `extractDescriptionFromEpubType`. */
  method ExtractDescriptionFromEpubType(t: string, node: Html.Node, toMarkdown: Option<Html.Node> -> Option<string>)
    returns (description: string)
    ensures description == EpubTypeDescription(Html.Descendants(node), t, toMarkdown)
  {
    description := "";
    var ds := Html.Descendants(node);
    for i := 0 to |ds|
      invariant description == EpubTypeDescription(ds[..i], t, toMarkdown)
    {
      assert ds[..i + 1][..i] == ds[..i];
      var desc := ds[i];
      var index := ExactEpubTypeIndex(desc.attrs, t);
      if index > -1 {
        var descByte := toMarkdown(Some(desc));
        if descByte.None? {
          continue;
        }
        description := descByte.value;
      }
    }
    assert ds[..|ds|] == ds;
  }

  const IntroTypes := ["abstract", "foreword", "introduction", "preamble", "preface", "prologue"]

  /** The description of one document: the first of the types, in order,
      that yields one. */
  function IntroDescription(doc: Html.Node, types: seq<string>, toMarkdown: Option<Html.Node> -> Option<string>): string
    decreases |types|
  {
    if types == [] then ""
    else
      var n := |types| - 1;
      var d := IntroDescription(doc, types[..n], toMarkdown);
      if d == "" then EpubTypeDescription(Html.Descendants(doc), types[n], toMarkdown) else d
  }

  /** The first type that yields a description decides it. */
  lemma {:induction false} IntroDescriptionFirst(doc: Html.Node, types: seq<string>, toMarkdown: Option<Html.Node> -> Option<string>, i: nat)
    requires i < |types|
    requires forall j :: 0 <= j < i ==> EpubTypeDescription(Html.Descendants(doc), types[j], toMarkdown) == ""
    ensures EpubTypeDescription(Html.Descendants(doc), types[i], toMarkdown) != "" ==>
              IntroDescription(doc, types, toMarkdown) == EpubTypeDescription(Html.Descendants(doc), types[i], toMarkdown)
    ensures (forall j :: 0 <= j < |types| ==> EpubTypeDescription(Html.Descendants(doc), types[j], toMarkdown) == "") ==>
              IntroDescription(doc, types, toMarkdown) == ""
    decreases |types|
  {
    var n := |types| - 1;
    assert forall j :: 0 <= j < n ==> types[..n][j] == types[j];
    if i < n {
      IntroDescriptionFirst(doc, types[..n], toMarkdown, i);
    } else if n > 0 {
      IntroDescriptionFirst(doc, types[..n], toMarkdown, n - 1);
    }
  }

  /** `extractDescriptionFromSpine` over the spine `spine`: the first spine
      document, in order, that yields an introductory description. */
  function SpineDescription(spine: seq<PublicationResource>, rs: seq<PublicationResource>, codecs: Externals.Codecs): string
    requires SpineDescriptionDefined(spine, rs, codecs)
    decreases |spine|, 2
  {
    if spine == [] then ""
    else
      var n := |spine| - 1;
      var d := SpineDescription(spine[..n], rs, codecs);
      if d != "" then d
      else IntroDescription(Content.ReadContentHTMLByHref(rs, spine[n].href, codecs.parseHtml).value, IntroTypes, codecs.nodeToMarkdown)
  }

  /** Every spine document the scan reaches exists (a nil document would be
      dereferenced). */
  predicate SpineDescriptionDefined(spine: seq<PublicationResource>, rs: seq<PublicationResource>, codecs: Externals.Codecs)
    decreases |spine|, 1
  {
    spine == [] ||
    var n := |spine| - 1;
    SpineDescriptionDefined(spine[..n], rs, codecs)
    && (SpineDescription(spine[..n], rs, codecs) == "" ==>
          Content.ReadContentHTMLByHref(rs, spine[n].href, codecs.parseHtml).Some?)
  }

  lemma {:induction false} SpineDescriptionDefinedPrefix(spine: seq<PublicationResource>, rs: seq<PublicationResource>, codecs: Externals.Codecs, j: nat)
    requires SpineDescriptionDefined(spine, rs, codecs) && j <= |spine|
    ensures SpineDescriptionDefined(spine[..j], rs, codecs)
    decreases |spine| - j
  {
    if j < |spine| {
      var n := |spine| - 1;
      SpineDescriptionDefinedPrefix(spine[..n], rs, codecs, j);
      assert spine[..n][..j] == spine[..j];
    } else {
      assert spine[..j] == spine;
    }
  }

  /** A description found in the spine is never overwritten by a later
      spine document. */
  lemma {:induction false} SpineDescriptionStable(spine: seq<PublicationResource>, rs: seq<PublicationResource>, codecs: Externals.Codecs, j: nat)
    requires SpineDescriptionDefined(spine, rs, codecs) && j <= |spine|
    requires SpineDescriptionDefined(spine[..j], rs, codecs) && SpineDescription(spine[..j], rs, codecs) != ""
    ensures SpineDescription(spine, rs, codecs) == SpineDescription(spine[..j], rs, codecs)
    decreases |spine| - j
  {
    if j < |spine| {
      var n := |spine| - 1;
      assert spine[..n][..j] == spine[..j];
      SpineDescriptionStable(spine[..n], rs, codecs, j);
    } else {
      assert spine[..j] == spine;
    }
  }

  /** When every spine document exists and yields nothing, the spine gives
      no description. */
  lemma {:induction false} SpineDescriptionNone(spine: seq<PublicationResource>, rs: seq<PublicationResource>, codecs: Externals.Codecs)
    requires forall j :: 0 <= j < |spine| ==>
               var doc := Content.ReadContentHTMLByHref(rs, spine[j].href, codecs.parseHtml);
               doc.Some? && IntroDescription(doc.value, IntroTypes, codecs.nodeToMarkdown) == ""
    ensures SpineDescriptionDefined(spine, rs, codecs) && SpineDescription(spine, rs, codecs) == ""
    decreases |spine|
  {
    if spine != [] {
      var n := |spine| - 1;
      assert forall j :: 0 <= j < n ==> spine[..n][j] == spine[j];
      SpineDescriptionNone(spine[..n], rs, codecs);
    }
  }

  /** One spine document, all introductory types tried while nothing is found. */
  method DescriptionOfDocument(description: string, doc: Html.Node, toMarkdown: Option<Html.Node> -> Option<string>)
    returns (d: string)
    ensures description != "" ==> d == description
    ensures description == "" ==> d == IntroDescription(doc, IntroTypes, toMarkdown)
  {
    d := description;
    for i := 0 to |IntroTypes|
      invariant description != "" ==> d == description
      invariant description == "" ==> d == IntroDescription(doc, IntroTypes[..i], toMarkdown)
    {
      assert IntroTypes[..i + 1][..i] == IntroTypes[..i];
      if d == "" {
        d := ExtractDescriptionFromEpubType(IntroTypes[i], doc, toMarkdown);
      }
    }
    assert IntroTypes[..|IntroTypes|] == IntroTypes;
  }

  /** One more spine document: it is read only while nothing was found. */
  lemma SpineDescriptionStep(spine: seq<PublicationResource>, rs: seq<PublicationResource>, codecs: Externals.Codecs, i: nat)
    requires SpineDescriptionDefined(spine, rs, codecs) && i < |spine|
    ensures SpineDescriptionDefined(spine[..i], rs, codecs) && SpineDescriptionDefined(spine[..i + 1], rs, codecs)
    ensures SpineDescription(spine[..i], rs, codecs) == "" ==>
              Content.ReadContentHTMLByHref(rs, spine[i].href, codecs.parseHtml).Some?
    ensures SpineDescription(spine[..i + 1], rs, codecs)
              == if SpineDescription(spine[..i], rs, codecs) != "" then SpineDescription(spine[..i], rs, codecs)
                 else IntroDescription(Content.ReadContentHTMLByHref(rs, spine[i].href, codecs.parseHtml).value, IntroTypes, codecs.nodeToMarkdown)
  {
    SpineDescriptionDefinedPrefix(spine, rs, codecs, i + 1);
    assert spine[..i + 1][..i] == spine[..i];
  }

  /** `extractDescriptionFromSpine`. */
  method DescriptionFromSpine(e: Epub, codecs: Externals.Codecs) returns (description: string)
    requires e.rendition in e.packagePubs
    requires SpineDescriptionDefined(Content.SpineOf(e.packagePubs[e.rendition].spine.itemRefs, e.resources), e.resources, codecs)
    ensures description == SpineDescription(Content.SpineOf(e.packagePubs[e.rendition].spine.itemRefs, e.resources), e.resources, codecs)
  {
    description := "";
    var spine := Content.Spine(e);
    for i := 0 to |spine|
      invariant SpineDescriptionDefined(spine[..i], e.resources, codecs)
      invariant description == SpineDescription(spine[..i], e.resources, codecs)
    {
      SpineDescriptionStep(spine, e.resources, codecs, i);
      var htmlNode := Content.ReadContentHTMLByHref(e.resources, spine[i].href, codecs.parseHtml);
      if description == "" {
        description := DescriptionOfDocument(description, htmlNode.value, codecs.nodeToMarkdown);
      }
    }
    assert spine[..|spine|] == spine;
  }

  /** `References` over the guide references `refs`: for each reference
      whose href parses, the document its href names without the fragment
      (nil when it names none), stored under its type; a later reference of
      the same type replaces an earlier one. */
  function ReferencesOf(refs: seq<Pkg.GuideReference>, rs: seq<PublicationResource>, codecs: Externals.Codecs)
    : map<Pkg.GuideReferenceType, Option<Html.Node>>
    decreases |refs|
  {
    if refs == [] then map[]
    else
      var n := |refs| - 1;
      var m := ReferencesOf(refs[..n], rs, codecs);
      var u := codecs.stripFragment(refs[n].href);
      if u.None? then m else m[refs[n].kind := Content.ReadContentHTMLByHref(rs, u.value, codecs.parseHtml)]
  }

  /** A type is present exactly when some reference of that type has an
      href that parses. */
  lemma {:induction false} ReferencesKeys(refs: seq<Pkg.GuideReference>, rs: seq<PublicationResource>, codecs: Externals.Codecs,
                                         t: Pkg.GuideReferenceType)
    ensures t in ReferencesOf(refs, rs, codecs) <==>
              exists j :: 0 <= j < |refs| && refs[j].kind == t && codecs.stripFragment(refs[j].href).Some?
    decreases |refs|
  {
    if refs != [] {
      var n := |refs| - 1;
      var init := refs[..n];
      ReferencesKeys(init, rs, codecs, t);
      ReferencesStepKeys(refs, rs, codecs, t);
      if t in ReferencesOf(init, rs, codecs) {
        var j :| 0 <= j < n && init[j].kind == t && codecs.stripFragment(init[j].href).Some?;
        assert refs[j] == init[j];
      }
      if exists j :: 0 <= j < |refs| && refs[j].kind == t && codecs.stripFragment(refs[j].href).Some? {
        var j :| 0 <= j < |refs| && refs[j].kind == t && codecs.stripFragment(refs[j].href).Some?;
        if j < n {
          assert init[j] == refs[j];
        }
      }
    }
  }

  /** One more reference adds its type exactly when its href parses. */
  lemma ReferencesStepKeys(refs: seq<Pkg.GuideReference>, rs: seq<PublicationResource>, codecs: Externals.Codecs,
                           t: Pkg.GuideReferenceType)
    requires refs != []
    ensures var n := |refs| - 1;
            t in ReferencesOf(refs, rs, codecs) <==>
              t in ReferencesOf(refs[..n], rs, codecs) || (refs[n].kind == t && codecs.stripFragment(refs[n].href).Some?)
  {
  }

  /** The document stored under a type is that of the last reference of
      that type whose href parses. */
  lemma {:induction false} ReferencesLast(refs: seq<Pkg.GuideReference>, rs: seq<PublicationResource>, codecs: Externals.Codecs, i: nat)
    requires i < |refs| && codecs.stripFragment(refs[i].href).Some?
    requires forall j :: i < j < |refs| ==> refs[j].kind != refs[i].kind || codecs.stripFragment(refs[j].href).None?
    ensures refs[i].kind in ReferencesOf(refs, rs, codecs)
    ensures ReferencesOf(refs, rs, codecs)[refs[i].kind]
            == Content.ReadContentHTMLByHref(rs, codecs.stripFragment(refs[i].href).value, codecs.parseHtml)
    decreases |refs|
  {
    var n := |refs| - 1;
    if i < n {
      ReferencesLast(refs[..n], rs, codecs, i);
    }
  }

  /** `References` on a reader: empty without a guide. */
  method References(e: Epub, codecs: Externals.Codecs) returns (references: map<Pkg.GuideReferenceType, Option<Html.Node>>)
    requires e.rendition in e.packagePubs
    ensures e.packagePubs[e.rendition].guide.None? ==> references == map[]
    ensures e.packagePubs[e.rendition].guide.Some? ==>
              references == ReferencesOf(e.packagePubs[e.rendition].guide.value.references, e.resources, codecs)
  {
    references := map[];
    var guides := e.packagePubs[e.rendition].guide;
    if guides.None? {
      return;
    }
    var refs := guides.value.references;
    for i := 0 to |refs|
      invariant references == ReferencesOf(refs[..i], e.resources, codecs)
    {
      assert refs[..i + 1][..i] == refs[..i];
      var u := codecs.stripFragment(refs[i].href);
      if u.None? {
        continue;
      }
      var content := Content.ReadContentHTMLByHref(e.resources, u.value, codecs.parseHtml);
      references := references[refs[i].kind := content];
    }
    assert refs[..|refs|] == refs;
  }

  predicate IsBody(n: Html.Node) {
    Html.IsElement(n, "body")
  }

  /** `getBody`: the last `body` element found by a search that does not
      look inside a `body`; nil when there is none. */
  function GetBody(doc: Html.Node): (body: Option<Html.Node>)
    ensures body.None? <==> Html.NoMatch([doc] + Html.Descendants(doc), IsBody)
    ensures body.Some? ==> IsBody(body.value) && body.value in [doc] + Html.Descendants(doc)
  {
    Html.LastMatchAt(doc, IsBody);
    Html.LastMatch(doc, IsBody)
  }

  /** The `body` found is, in pre-order, the last one not inside another `body`. */
  lemma GetBodyIsLastOutermost(doc: Html.Node)
    ensures GetBody(doc).Some? ==> exists i :: Html.IsLastOutermost([doc] + Html.Descendants(doc), i, IsBody)
                                               && ([doc] + Html.Descendants(doc))[i] == GetBody(doc).value
  {
    Html.LastMatchAt(doc, IsBody);
  }

  /** The Markdown of a document's body, `""` when the conversion fails. */
  function BodyMarkdown(doc: Html.Node, toMarkdown: Option<Html.Node> -> Option<string>): string {
    toMarkdown(GetBody(doc)).GetOr("")
  }

  const DescriptionCandidates := [Pkg.Text, Pkg.Preface, Pkg.Foreword]

  /** `extractDescriptionFromReferences` over the candidate types `cs`: the
      first that is present gives the Markdown of its document's body, and
      a later candidate is tried only while that is empty. */
  function CandidatesDescription(refs: map<Pkg.GuideReferenceType, Option<Html.Node>>, cs: seq<Pkg.GuideReferenceType>,
                                 toMarkdown: Option<Html.Node> -> Option<string>): string
    requires CandidatesDefined(refs, cs, toMarkdown)
    decreases |cs|, 2
  {
    if cs == [] then ""
    else
      var n := |cs| - 1;
      var d := CandidatesDescription(refs, cs[..n], toMarkdown);
      if d != "" || cs[n] !in refs then d
      else BodyMarkdown(refs[cs[n]].value, toMarkdown)
  }

  /** Every candidate document the loop reaches exists. */
  predicate CandidatesDefined(refs: map<Pkg.GuideReferenceType, Option<Html.Node>>, cs: seq<Pkg.GuideReferenceType>,
                              toMarkdown: Option<Html.Node> -> Option<string>)
    decreases |cs|, 1
  {
    cs == [] ||
    var n := |cs| - 1;
    CandidatesDefined(refs, cs[..n], toMarkdown)
    && (CandidatesDescription(refs, cs[..n], toMarkdown) == "" && cs[n] in refs ==> refs[cs[n]].Some?)
  }

  /** The body text of the `text` reference wins whenever it is present
      and not empty. */
  lemma TextReferenceFirst(refs: map<Pkg.GuideReferenceType, Option<Html.Node>>, toMarkdown: Option<Html.Node> -> Option<string>)
    requires CandidatesDefined(refs, DescriptionCandidates, toMarkdown)
    requires Pkg.Text in refs && refs[Pkg.Text].Some? && BodyMarkdown(refs[Pkg.Text].value, toMarkdown) != ""
    ensures CandidatesDescription(refs, DescriptionCandidates, toMarkdown) == BodyMarkdown(refs[Pkg.Text].value, toMarkdown)
  {
    var cs := DescriptionCandidates;
    var b := BodyMarkdown(refs[Pkg.Text].value, toMarkdown);
    assert cs[..1][..0] == [];
    assert CandidatesDescription(refs, cs[..1], toMarkdown) == b;
    assert cs[..2][..1] == cs[..1];
    assert CandidatesDescription(refs, cs[..2], toMarkdown) == b;
    assert cs[..2] == cs[..|cs| - 1];
  }

  /** `extractDescriptionFromReferences`. */
  method DescriptionFromReferences(e: Epub, codecs: Externals.Codecs) returns (description: string)
    requires e.rendition in e.packagePubs
    requires CandidatesDefined(ReferencesOf(GuideRefs(e), e.resources, codecs), DescriptionCandidates, codecs.nodeToMarkdown)
    ensures description == CandidatesDescription(ReferencesOf(GuideRefs(e), e.resources, codecs), DescriptionCandidates, codecs.nodeToMarkdown)
  {
    description := "";
    var refs := References(e, codecs);
    assert refs == ReferencesOf(GuideRefs(e), e.resources, codecs);
    var cs := DescriptionCandidates;
    for i := 0 to |cs|
      invariant CandidatesDefined(refs, cs[..i], codecs.nodeToMarkdown)
      invariant description == CandidatesDescription(refs, cs[..i], codecs.nodeToMarkdown)
    {
      assert cs[..i + 1][..i] == cs[..i];
      CandidatesDefinedPrefix(refs, cs, codecs.nodeToMarkdown, i + 1);
      var candidate := cs[i];
      if description != "" {
        continue;
      }
      if candidate in refs {
        var body := GetBody(refs[candidate].value);
        var markdownBody := codecs.nodeToMarkdown(body);
        description := markdownBody.GetOr("");
      }
    }
    assert cs[..|cs|] == cs;
  }

  lemma {:induction false} CandidatesDefinedPrefix(refs: map<Pkg.GuideReferenceType, Option<Html.Node>>, cs: seq<Pkg.GuideReferenceType>,
                                                  toMarkdown: Option<Html.Node> -> Option<string>, j: nat)
    requires CandidatesDefined(refs, cs, toMarkdown) && j <= |cs|
    ensures CandidatesDefined(refs, cs[..j], toMarkdown)
    decreases |cs| - j
  {
    if j < |cs| {
      var n := |cs| - 1;
      CandidatesDefinedPrefix(refs, cs[..n], toMarkdown, j);
      assert cs[..n][..j] == cs[..j];
    } else {
      assert cs[..j] == cs;
    }
  }

  /** The guide references of the active package, none without a guide. */
  function GuideRefs(e: Epub): seq<Pkg.GuideReference>
    reads e
  {
    var g := GuideOf(e);
    if g.Some? then g.value.references else []
  }

  /** Index of the first top-level entry whose href does not mention a
      cover, or -1. */
  function FirstContentItem(items: seq<Toc.TOC>): (k: int)
    ensures -1 <= k < |items|
    ensures k >= 0 ==> !CoverWord(items[k].href)
    ensures forall j :: 0 <= j < |items| && (k < 0 || j < k) ==> CoverWord(items[j].href)
    decreases |items|
  {
    if items == [] then -1
    else
      var n := |items| - 1;
      var k := FirstContentItem(items[..n]);
      if k >= 0 then k else if !CoverWord(items[n].href) then n else -1
  }

  /** What `extractDescriptionFromFirstFullContentTOCItem` needs: a
      readable navigation document, and the document of the entry it picks. */
  predicate TocDescriptionReady(rs: seq<PublicationResource>, ncx: Option<Ncx.NCX>, parseHtml: Bytes -> Html.Node) {
    Toc.NavReadable(rs, parseHtml) &&
    var (toc, err) := Toc.TableOfContentsOf(rs, ncx, parseHtml);
    var k := FirstContentItem(toc.items);
    err.None? && k >= 0 && toc.items[k].title != "" ==>
      Content.ReadContentHTMLByHref(rs, toc.items[k].href, parseHtml).Some?
  }

  /** `extractDescriptionFromFirstFullContentTOCItem`: the Markdown of the
      body of the first top-level entry not about the cover; `""` when the
      table fails, when there is no such entry or when its title is empty. */
  function TocDescription(rs: seq<PublicationResource>, ncx: Option<Ncx.NCX>, codecs: Externals.Codecs): (d: string)
    requires TocDescriptionReady(rs, ncx, codecs.parseHtml)
    ensures d != "" ==> var (toc, err) := Toc.TableOfContentsOf(rs, ncx, codecs.parseHtml);
                        var k := FirstContentItem(toc.items);
                        err.None? && k >= 0 && toc.items[k].title != ""
  {
    var (toc, err) := Toc.TableOfContentsOf(rs, ncx, codecs.parseHtml);
    var k := FirstContentItem(toc.items);
    if err.Some? || k < 0 || toc.items[k].title == "" then ""
    else BodyMarkdown(Content.ReadContentHTMLByHref(rs, toc.items[k].href, codecs.parseHtml).value, codecs.nodeToMarkdown)
  }

  method DescriptionFromToc(e: Epub, codecs: Externals.Codecs) returns (description: string)
    requires TocDescriptionReady(e.resources, e.ncx, codecs.parseHtml)
    ensures description == TocDescription(e.resources, e.ncx, codecs)
  {
    description := "";
    var toc, err := Toc.TableOfContents(e, codecs.parseHtml);
    if err.Some? {
      return;
    }
    var firstContentItem := Toc.EmptyTOC;
    var items := toc.items;
    var i := 0;
    while i < |items|
      invariant 0 <= i <= |items|
      invariant forall j :: 0 <= j < i ==> CoverWord(items[j].href)
    {
      if CoverWord(items[i].href) {
        i := i + 1;
        continue;
      }
      if firstContentItem.title == "" {
        firstContentItem := items[i];
        break;
      }
      i := i + 1;
    }
    if firstContentItem.title == "" {
      return;
    }
    var content := Content.ReadContentHTMLByHref(e.resources, firstContentItem.href, codecs.parseHtml);
    var body := GetBody(content.value);
    var markdownBody := codecs.nodeToMarkdown(body);
    description := markdownBody.GetOr("");
  }

  /** What the sources after the meta bag need, each only when it is
      reached: the selected package and the spine documents at once, the
      guide once the spine found nothing, the table of contents once the
      guide found nothing too. */
  predicate DescriptionReady(e: Epub, codecs: Externals.Codecs)
    reads e
  {
    e.rendition in e.packagePubs
    && var spine := Content.SpineOf(e.packagePubs[e.rendition].spine.itemRefs, e.resources);
    SpineDescriptionDefined(spine, e.resources, codecs)
    && (SpineDescription(spine, e.resources, codecs) == "" ==>
          var refs := ReferencesOf(GuideRefs(e), e.resources, codecs);
          CandidatesDefined(refs, DescriptionCandidates, codecs.nodeToMarkdown)
          && (CandidatesDescription(refs, DescriptionCandidates, codecs.nodeToMarkdown) == "" ==>
                TocDescriptionReady(e.resources, e.ncx, codecs.parseHtml)))
  }

  /** The sources after the meta bag, in order, each consulted only when
      the ones before it found nothing. */
  function DescriptionFallback(e: Epub, codecs: Externals.Codecs): string
    reads e
    requires DescriptionReady(e, codecs)
  {
    var s := SpineDescription(Content.SpineOf(e.packagePubs[e.rendition].spine.itemRefs, e.resources), e.resources, codecs);
    if s != "" then s
    else
      var r := CandidatesDescription(ReferencesOf(GuideRefs(e), e.resources, codecs), DescriptionCandidates, codecs.nodeToMarkdown);
      if r != "" then r else TocDescription(e.resources, e.ncx, codecs)
  }

  /** The final pass, applied only to a description that is not empty. */
  function Finished(d: string, codecs: Externals.Codecs): (r: string)
    ensures d == "" ==> r == ""
  {
    if d != "" then codecs.descriptionToText(d) else ""
  }

  /** `Description`: metadata, then meta bag, then spine, then guide, then
      table of contents; the first non-empty result goes through the
      Markdown and diacritics pass, and an empty result is returned as is. */
  method Description(e: Epub, codecs: Externals.Codecs) returns (description: string)
    requires StringsAt(e.metadata, "description")
    requires DescriptionFromMetadata(e.metadata) == "" && OptionalMetaOutcome(MetaBagOf(e.metadata), "") ==> DescriptionReady(e, codecs)
    ensures var d := DescriptionFromMetadata(e.metadata);
            d != "" ==> description == Finished(d, codecs)
    ensures DescriptionFromMetadata(e.metadata) == "" ==>
              exists m :: OptionalMetaOutcome(MetaBagOf(e.metadata), m) &&
                          description == Finished(if m != "" then m else DescriptionFallback(e, codecs), codecs)
  {
    var metadata := e.metadata;
    description := DescriptionFromMetadata(metadata);
    ghost var m := "";
    if description == "" {
      description := DescriptionFromOptionalMeta(metadata);
      m := description;
    }
    if description == "" {
      description := DescriptionFromSpine(e, codecs);
    }
    if description == "" {
      description := DescriptionFromReferences(e, codecs);
    }
    if description == "" {
      description := DescriptionFromToc(e, codecs);
    }
    if description != "" {
      description := codecs.descriptionToText(description);
    }
    assert DescriptionFromMetadata(e.metadata) == "" ==> OptionalMetaOutcome(MetaBagOf(e.metadata), m);
  }
}
