# EPUB reader core, modelled in Dafny

This project models the resolution layer of a Go library that reads and
partly writes EPUB publications. The library hands zip access, XML and HTML
parsing, image decoding and Markdown conversion to other libraries. What it
does itself, and what the model covers, is this:

- **The OCF container** (`Ocf`, `OcfUtils`, `OcfReader`). The container is a
  map from entry names to bytes. Reading stores every non-directory zip entry
  and stops at the first read error. The reserved `META-INF` files are
  recognised by root directory and base name, and `container.xml` is
  required. After that, the `mimetype` entry must equal
  `application/epub+zip`. On the writer side, the model covers the map
  updates, the container document built for the root files, and the
  compression method chosen for each entry (Store for `mimetype`, Deflate
  otherwise). Root-directory extraction is modelled on top of a model of Go's
  `path.Clean` (`Paths`).
- **Rendition keys and packages** (`Reader`, `EpubModel`). Each rootfile
  gets the key `"default"`, followed by its non-empty rendition attributes,
  joined with `_`. The package path and the parsed package are stored under
  that key, and the first failure aborts. The publication record `Epub`
  holds the keyed maps, the selected rendition, the resource table, the NCX
  and the metadata.
- **Resources** (`Resources`). Each manifest item becomes a resource whose
  path is the cleaned join of the package document's directory and the
  href. The table only grows. Lookups by id or href return the first match.
  The last NCX item of the manifest is the one that is parsed.
- **Content lookups** (`Content`). These cover id lists by media type,
  documents and images by id or href, the spine in itemref order, and the
  `epub:type` and `<title>` text scans.
- **Metadata and refinements** (`ContentMetadata`). Dublin Core values are
  folded into a keyed bag. Metas go into a nested bag where a named meta
  overwrites its key and a property meta accumulates its values, with
  consecutive duplicates removed. `Refines` is modelled in its three
  passes: it seeds the map from elements that carry an id, prunes ids that
  nothing refines, and attaches each refining meta's value to its target.
- **Table of contents** (`Toc`). The model covers the nav-document parser
  (candidate search, title, lists, items and text content) and the
  conversion of an NCX navPoint tree. It also covers flattening, selection
  by depth, and the choice between the nav document and the NCX.
- **Bibliographic fallbacks** (`Extras`). Cover, title, author, language,
  identifier and description are each found by an ordered chain of
  strategies. The model covers those chains and the guide references map.
- **Guide reference types** (`Pkg`). The 17-value enumeration is modelled
  with its text marshalling and unmarshalling, together with the zero value
  `""` that a guide reference without a `type` attribute keeps.

External libraries are parameters, collected in `Externals.Codecs`: the
HTML parser, the image decoder, the NCX parser, the package XML decoder,
the HTML-to-Markdown converter, URL fragment stripping and the final
description text pass. Go map iteration is modelled as a nondeterministic
choice. Runtime panics in the source become preconditions: a write into a
nil map, a failed type assertion, a nil first child, a nil document, a
nil selected package, and a table-of-contents entry without its reader.

## Model

| member | source | states |
|---|---|---|
| Pkg.UnmarshalMarshal | pkg/package.go:158-199 | unmarshalling the marshalled bytes of any of the 17 guide types gives back that type; the zero value's empty bytes are rejected |
| Pkg.UnmarshalAccepts | pkg/package.go:162-204 | accepted bytes are exactly the marshalled form of the result, which is never the zero value; rejected bytes yield "invalid enum value" carrying those bytes, and no named type marshals to them |
| Pkg.TypeOfNameComplete | pkg/package.go:136-199 | every one of the 17 type strings is recognised as its own type; the zero value's `""` is not recognised |
| Pkg.MarshalInjective | pkg/package.go:158-160 | distinct guide types marshal to distinct bytes |
| Pkg.UnmarshalName | pkg/package.go:162-199 | an accepted value's name is the text that was read |
| Paths.Clean | ocf/utils.go:9 | a cleaned path is never empty |
| Paths.CleanIdempotent | ocf/utils.go:9 | cleaning a cleaned path changes nothing |
| Paths.CleanOfRelativeNormal | ocf/utils.go:9 | a relative path already in normal form (no empty, `.` or inner `..` segments) is its own clean form |
| Paths.CleanOfRootedNormal | ocf/utils.go:9 | a rooted path already in normal form is its own clean form |
| Paths.SplitOfJoin | ocf/utils.go:10 | splitting segments joined with `/` gives back the segments |
| Paths.Dir | resources.go:28 | the directory of a path is never empty |
| Paths.Base | ocf/ocf.go:51 | the base name is never empty and has no `/` unless it is the root |
| Paths.JoinPath | resources.go:28 | the join is empty exactly when both parts are |
| OcfUtils.RootDirectory | ocf/utils.go:8-25 | never empty; `/` for a rooted path; otherwise a slash-free prefix of the cleaned path |
| OcfUtils.RootDirectoryIs | ocf/utils.go:8-15 | a plain name is the root directory exactly when the cleaned path is that name or starts with it followed by `/` |
| OcfUtils.RootDirectoryOfChild | ocf/utils.go:8-15 | `dir/name` has root directory `dir` (so `META-INF/container.xml` gives `META-INF`) |
| OcfUtils.RootDirectoryOfDotted | ocf/utils.go:9-15 | cleaning comes first: `./dir//name` also gives `dir` |
| OcfUtils.RootDirectoryOfEmpty | ocf/utils.go:9-15 | the empty path gives `.` |
| Ocf.ReadFailure | ocf/ocf.go:20-42 | the index of the first file entry that fails to read: every earlier entry is a directory or reads, and the one at the index does not |
| Ocf.StoredFilesAreLastEntries | ocf/ocf.go:22-38 | after a full read, a name is stored exactly when some file entry has it, and it holds the bytes of the last such entry |
| Ocf.CompressionFor | ocf/writer.go:61-72 | Store exactly for `mimetype`, Deflate for every other name |
| Ocf.ContainerFor | ocf/writer.go:41-53 | version "1.0", the container namespace, and one root file per argument in argument order with the package media type |
| Ocf.ReservedFiles | ocf/ocf.go:45-57 | every kept name is a reserved name whose bytes come from a file under `META-INF` with that base name; every reserved file found has its name kept |
| Ocf.OCFZipContainer.constructor | ocf/writer.go:15-20 | a new container has no files |
| Ocf.OCFZipContainer.ReadFiles | ocf/ocf.go:20-42 | the files are those stored from the entries before the first failure; the error is that entry's error, or none |
| Ocf.OCFZipContainer.ParseAllMetaInfFiles | ocf/ocf.go:44-80 | the error is "Package does not have required files" exactly when no `META-INF/…/container.xml` exists, and the container is then unchanged; otherwise it is the parse of one such file's bytes |
| Ocf.OCFZipContainer.SelectFile | ocf/ocf.go:114-121 | the stored bytes when the name is present, else the error "No file found with name …" |
| Ocf.MimeTypeOf | ocf/ocf.go:82-84 | the bytes of `mimetype`, or empty when it is absent |
| Ocf.OCFZipContainer.NonMetaInfFiles | ocf/ocf.go:123-131 | exactly the files whose root directory is not `META-INF`, with their bytes unchanged |
| Ocf.OCFZipContainer.AddFile | ocf/writer.go:22-24 | binds the path to the content; every other entry is unchanged |
| Ocf.OCFZipContainer.AddMimeType | ocf/writer.go:26-28 | binds `mimetype` to `application/epub+zip`; every other entry is unchanged |
| Ocf.OCFZipContainer.AddContainerXML | ocf/writer.go:41-59 | binds `META-INF/container.xml` to the XML header followed by the encoded container document for the root files |
| Ocf.OCFZipContainer.WriteEntries | ocf/writer.go:85-103 | one output entry per file, no name twice, each with its bytes and the compression method for its name |
| OcfReader.NewContainerAndParse | ocf/reader.go:9-26 | a read error comes first, then the missing `container.xml`, then "Mimetype mismatch" with no container; it succeeds exactly when all three checks pass, and the container then holds every file read |
| OcfReader.NewReader | ocf/reader.go:38-47 | an archive error is returned with no container; otherwise success has the same three conditions as above |
| EpubModel.Epub.constructor | reader.go:19-24 | a new publication has empty package and metadata maps, no rendition, no resources and no NCX, over the given container |
| EpubModel.Epub.SelectPackage | epub.go:21-23 | the package stored under the name, and nothing exactly when the name is absent |
| EpubModel.Epub.SelectedPackage | epub.go:25-27 | the package of the selected rendition, present exactly when that key is stored |
| EpubModel.Epub.DefaultPackage | epub.go:29-31 | the package stored under `"content"` |
| EpubModel.Epub.DefaultPackageAbsent | epub.go:29-31 | when every key starts with `"default"`, there is no default package |
| EpubModel.Epub.CurrentSelectedPackagePath | content.go:39-41 | the path stored for the selected rendition, or `""` |
| Reader.RenditionParts | reader.go:41-60 | `"default"` first, then only non-empty attributes; just `"default"` exactly when all five attributes are empty |
| Reader.RenditionKeyShape | reader.go:41-73 | every key starts with `"default"`, and equals it exactly when no rendition attribute is set |
| Reader.RenditionVars | reader.go:41-73 | builds exactly the rendition key of the rootfile |
| Reader.LoadPackage | reader.go:62-71 | a missing package file gives "No file found with name …"; otherwise the result of decoding its bytes |
| Reader.FirstFailure | reader.go:62-71 | the first rootfile whose package cannot be loaded: all earlier ones load |
| Reader.ParseRootFilesError | reader.go:37-79 | the walk fails exactly when some package fails to load; the error is the first failure's, and the maps are those built before it |
| Reader.ParseRootFilesStored | reader.go:73-75 | after a successful walk, each key holds the path and package of the last rootfile with that key; other keys keep their earlier values |
| Reader.ParsedKeysAreRenditions | reader.go:41-75 | every key the walk adds starts with `"default"` |
| Reader.NoContentPackage | epub.go:29-31 | the walk never stores `"content"`, so the default-package lookup always misses |
| Reader.ErrorSticks | reader.go:62-71 | once a prefix has failed, the later rootfiles change nothing |
| Reader.ParseRootFiles | reader.go:37-79 | the publication's maps and the error are those of the walk over the container's rootfiles |
| Reader.NewReaderFromZip | reader.go:18-35 | on error only the package maps are filled; otherwise `"default"` is selected, its resources and NCX are loaded, and the metadata is parsed from its package |
| Resources.ResolvePath | resources.go:26-30 | a resolved path is never empty |
| Resources.ResolvePathIsClean | resources.go:26-30 | a resolved path is already clean: `..` and `.` have been folded |
| Resources.ResourcesOfAt | resources.go:32-44 | the i-th new resource copies id, href, media type and properties from the i-th item, has the resolved path, and holds that path's bytes, or nothing when the path is missing |
| Resources.NcxAfterLast | resources.go:34-36 | the NCX afterwards is the parse of the last NCX item, or the earlier NCX when there is none |
| Resources.ScanManifest | resources.go:25-45 | appends the manifest's resources in order and leaves the NCX of the last NCX item |
| Resources.ParseResources | resources.go:22-46 | the table grows by one resource per manifest item and is never cleared; the NCX is as above |
| Resources.SelectResourceById | resources.go:54-62 | the first resource with the id, and nothing exactly when none has it |
| Resources.SelectResourceByHref | resources.go:65-73 | the first resource with the href, and nothing exactly when none has it |
| Content.SelectPackageRendition | content.go:26-29 | sets the rendition and appends its manifest's resources to the table |
| Content.IdsOfTypesMembers | content.go:52-73 | an id is listed exactly when some resource has it with one of the media types |
| Content.IdsOfTypesAppend | content.go:52-73 | the listing distributes over concatenated tables, so it keeps table order |
| Content.ListContentDocumentIds | content.go:52-60 | the ids of the XHTML resources, in table order |
| Content.ListImageIds | content.go:64-73 | the ids of the JPEG, PNG, SVG, GIF and WebP resources, in table order |
| Content.ByIdOfTypesLast | content.go:77-91 | a by-id map over a media type holds an id exactly when a resource of that type has it, with the value from the last such resource |
| Content.ImageResources | content.go:290-303 | the bytes of the JPEG, PNG, GIF and WebP resources keyed by id, the last resource winning |
| Content.ReadContentHTMLById | content.go:182-190 | the parse of the last XHTML resource with the id, and nothing exactly when no XHTML resource has it |
| Content.ReadContentHTMLByHref | content.go:194-205 | the document of the id of the first resource with the href; nothing when no resource has the href |
| Content.ReadByHrefOwnDocument | content.go:194-205 | when an XHTML resource's href and id are unique, its href reads its own document |
| Content.ReadImageById | content.go:221-232 | nothing exactly when no resource has the id; otherwise the decode of the first such resource, even when decoding fails |
| Content.ReadImageByHref | content.go:236-247 | nothing exactly when no resource has the href; otherwise the decode of the first such resource |
| Content.SpineOfMembers | content.go:306-316 | a resource is in the spine exactly when it is in the table and some itemref names its id |
| Content.SpineOfAppend | content.go:306-316 | the spine distributes over itemrefs, so it follows itemref order |
| Content.Spine | content.go:306-316 | the resources matching each itemref in turn |
| Content.GetTextByEpubType | content.go:137-149 | the first-child text of the last descendant whose `epub:type` contains the pattern; non-empty only if such a descendant exists |
| Content.EpubTypeTextDefinedNarrower | content.go:137-149 | a document readable for a pattern is readable for any longer pattern containing it |
| Content.ExtractTitle | content.go:126-135 | the first-child text of the last `<title>` element; non-empty only if there is one |
| ContentMetadata.ParsedDublinCore | content.go:322-338 | `"title"` and `"identifiers"` hold the element values in document order, each followed by any optional elements of that name; `"language"` holds only optional elements named `language` |
| ContentMetadata.ParsedOptional | content.go:340-347 | any other name is present exactly when optional elements have it, with their values in order |
| ContentMetadata.GroupOptionalAt | content.go:340-347 | grouping appends each optional value to the list under its local name |
| ContentMetadata.CompactIsCompacted | content.go:366-368 | after compaction no two neighbours are equal |
| ContentMetadata.CompactIdempotent | content.go:366-368 | compacting twice is compacting once |
| ContentMetadata.CompactSnoc | content.go:363-368 | compacting after each append equals compacting the whole list once |
| ContentMetadata.MetaBagKeys | content.go:349-369 | the bag has a key exactly when some meta's property, or name when it has no property, is that key |
| ContentMetadata.MetaBagAt | content.go:349-369 | the entry is the content of the last named meta when there is one; otherwise it is the compacted values of the metas with that property, in order |
| ContentMetadata.CollectValues | content.go:322-332 | the element values in document order |
| ContentMetadata.AddOptional | content.go:340-347 | the optional elements grouped onto the map |
| ContentMetadata.BuildMetaBag | content.go:349-369 | the bag of the metas |
| ContentMetadata.ParseMetadata | content.go:318-371 | the publication's metadata becomes the parse of the selected package's metadata |
| ContentMetadata.SeedAt | content.go:385-427 | seeding adds a key for each element id, with the element's value appended under its name in document order |
| ContentMetadata.SeedFrom | content.go:385-427 | the seeding loop computes the seeded map |
| ContentMetadata.CountRefines | content.go:429-436 | the counter holds, for every id, how many metas refine it once `#` is trimmed |
| ContentMetadata.PruneAt | content.go:438-451 | a refined id keeps its entry and gains the meta's own value; an unrefined meta id loses its key |
| ContentMetadata.PruneMetas | content.go:438-451 | the pruning loop computes the pruned map |
| ContentMetadata.AttachAt | content.go:453-462 | attaching adds each refining meta's value under its property in the target's entry, in document order |
| ContentMetadata.AttachMetas | content.go:453-462 | the attaching loop computes the attached map |
| ContentMetadata.RefinesOfAt | content.go:381-466 | a key survives exactly when it is an element id or a meta id, and a meta id only if something refines it; its values are the element values, then the meta's own values, then the refining values |
| ContentMetadata.Refines | content.go:381-466 | the refinement map of the selected package's metadata |
| Toc.FindNav | toc.go:55-75 | nothing exactly when no element in the tree has an attribute equal to `toc`; otherwise the last such element in pre-order that lies inside no other such element |
| Toc.TextOfPreorder | toc.go:142-157 | the collected text is the data of the text nodes in pre-order |
| Toc.ExtractText | toc.go:146-154 | the walk appends the node's text to what was written before |
| Toc.GetTextContent | toc.go:142-157 | the pre-order text of the node, trimmed of surrounding white space |
| Text.TrimSpace | toc.go:156 | a trimmed string is an infix of the input that neither starts nor ends with white space |
| Text.TrimSpaceCuts | toc.go:156 | everything trimmed off is white space |
| Toc.ScanListItem | toc.go:111-119 | the first `a` child and the last `ol`/`ul` child |
| Toc.ParseListItem | toc.go:104-140 | the item of an `li`: title and href from its first anchor, children from its last list |
| Toc.ListItemWithoutAnchor | toc.go:104-140 | an `li` without an anchor has an empty title and href |
| Toc.ItemsOfElements | toc.go:95-102 | one item per direct `li` child, in order |
| Toc.ParseList | toc.go:95-102 | the items of the list |
| Toc.NavTitle | toc.go:79-84 | the trimmed text of the first element child, or `""` |
| Toc.NavItems | toc.go:87-92 | the items of the first `ol`/`ul` child, or none |
| Toc.ParseNav | toc.go:77-93 | the nav element's title and items |
| Toc.ParseFromHTML | toc.go:45-53 | fails with "nav element with id='toc' not found" exactly when there is no candidate; otherwise the nav parse |
| Toc.ConvertNavPoints | toc.go:160-181 | one entry per navPoint |
| Toc.WalkConverted | toc.go:160-181 | the converted tree visits the same labels, sources and depths as the navPoint tree, so count, order and nesting are kept |
| Toc.FlattenIsWalk | toc.go:195-209 | the flattened list is the pre-order walk, and its length is the number of navPoints |
| Toc.FlattenNavPoints | toc.go:195-209 | appends the flattened navPoints to the result |
| Toc.FlattenTOC | toc.go:184-192 | nothing without an NCX, else the flattened navPoints, none of which carries the reader |
| Toc.AtLevelIsWalkAtDepth | toc.go:221-249 | selection by level is the pre-order walk restricted to that depth |
| Toc.AtLevelAbove | toc.go:221-249 | nothing is found above the starting depth |
| Toc.RangeNavPoints | toc.go:221-230 | the visit appends the navPoints at the level |
| Toc.GetTOCByLevel | toc.go:233-249 | nothing without an NCX, else the walk's entries at that depth in pre-order, none of which carries the reader |
| Toc.NcxTOC | toc.go:251-254 | the NCX title and one item per top-level navPoint |
| Toc.NavResourceIndex | toc.go:260-262 | the first resource with properties `nav`, or -1 |
| Toc.TableOfContentsOf | toc.go:258-278 | with a nav resource, the nav parse or its error; otherwise the NCX table when there is one, else an empty table without error |
| Toc.TableOfContents | toc.go:258-278 | the table of contents of the resource table and NCX |
| Toc.ListItemsWithoutReader | toc.go:95-140 | the entries parsed from a nav list carry no reader, at any depth |
| Toc.ConvertWithoutReader | toc.go:160-181 | the entries converted from navPoints carry no reader, at any depth |
| Toc.FlattenWithoutReader | toc.go:195-209 | the flattened entries carry no reader |
| Toc.AtLevelWithoutReader | toc.go:221-249 | the entries selected by level carry no reader |
| Toc.TableOfContentsReaders | toc.go:256-278 | only the root carries the reader; it has no href, and no entry below it carries the reader |
| Toc.ReadContentHTMLAsWritten | toc.go:38-43 | as written, an entry with an href needs its reader (a nil one is dereferenced), and the method never returns a document |
| Toc.ReadContentHTMLDiscardsDocument | toc.go:38-43 | the chapter entry the library builds from an NCX has an href and no reader; with the reader attached it still gets nothing back, though its document exists |
| Toc.ReadContentHTML | toc.go:38-43 | with an href, the document read by that href; nothing without one |
| Toc.ReadContentHTMLOwnDocument | toc.go:38-43 | an entry naming a unique XHTML resource reads that resource's document |
| Extras.UID | extras.go:24-29 | the value of the last dc:identifier, or `""` |
| Extras.Version | extras.go:32-34 | the selected package's version |
| Extras.JoinedAt | extras.go:271-289 | the list under the key joined with `", "`, or `""` |
| Extras.ParsedLanguage | extras.go:271-278 | the language is the joined optional `language` elements only |
| Extras.ParsedIdentifier | extras.go:282-289 | as written, the identifier is read from the `"identifier"` key, which only optional elements of that name fill |
| Extras.IdentifierMissesDublinCore | extras.go:282-289 | a package with one dc:identifier has identifier `""` |
| Extras.IdentifierOf | extras.go:282-289 | the list under `"identifiers"` joined with `", "`, or `""` |
| Extras.IdentifierOfParsed | extras.go:282-289 | the corrected identifier is the joined dc:identifier values, then optional `identifiers` elements |
| Extras.Language | extras.go:271-278 | the joined `"language"` list; on a reader's parsed metadata, only optional elements named `language` contribute |
| Extras.Identifier | extras.go:282-289 | the corrected lookup: on a reader's parsed metadata, the joined dc:identifier values in document order |
| Extras.TitleOfParsed | extras.go:177-183 | on parsed metadata the title is always the joined dc:title values followed by the values of the optional `title` elements |
| Extras.FirstMarkedIs | extras.go:209-221 | the marker text of the first title-like resource that has one |
| Extras.TitlePageText | extras.go:185-203 | found exactly when the guide has a title page with a stored document; the text is that document's marker text |
| Extras.MarkedText | extras.go:209-221 | the first non-empty marker text over the title-like resources |
| Extras.Title | extras.go:177-224 | the title chain: metadata, then the title page, then title-like resources |
| Extras.Author | extras.go:227-267 | the author chain; `""` only when the creators or a title page supplied it |
| Extras.GetCoverInMetadata | extras.go:38-57 | nothing when no bag key contains `cover`; otherwise the image under the id stored at one such key |
| Extras.ResourceCoverNone | extras.go:59-72 | no cover exactly when no resource is a `cover-image` and no id contains `cover` |
| Extras.ResourceCoverLastImage | extras.go:59-72 | the last `cover-image` resource wins |
| Extras.ResourceCoverFirstWord | extras.go:59-72 | with no `cover-image` resource, the first resource whose id contains `cover` gives the image |
| Extras.GetCoverInResources | extras.go:59-72 | the cover scan over the table; nothing exactly when there is no candidate |
| Extras.SpineCoverNone | extras.go:74-86 | no cover exactly when no spine id contains `cover` |
| Extras.SpineCoverLast | extras.go:74-86 | the last cover-like spine item gives the image |
| Extras.GetCoverInSpine | extras.go:74-86 | the spine scan; nothing exactly when no spine id contains `cover` |
| Extras.FindFirstImgPreorder | extras.go:88-100 | the first `img` in pre-order, itself included |
| Extras.FirstImgOf | extras.go:88-100 | nothing exactly when there is no `img`; otherwise the first one |
| Wrappers.FirstIndex | extras.go:102-104 | the index of the first element that passes the test, or -1 when none does |
| Html.AttrValue | extras.go:102-109 | the value of the first attribute with the key, or `""` |
| Extras.GetCoverFromToc | extras.go:111-133 | the TOC scan; nothing when the table fails |
| Extras.Cover | extras.go:136-152 | the metadata cover when there is one, else resources, spine and TOC in turn; the selected package and a readable table of contents are needed only when the strategies before them found nothing |
| Extras.DescriptionFromMetadata | extras.go:293-299 | the joined `"description"` list; non-empty only if that list is |
| Extras.DescriptionFromOptionalMeta | extras.go:301-333 | `""` when no bag key containing `description` holds a list; otherwise one such list joined |
| Extras.EpubTypeDescriptionAt | extras.go:335-350 | a result comes from the last descendant of exactly that type whose conversion succeeded; `""` when there is none of that type |
| Extras.ExtractDescriptionFromEpubType | extras.go:335-350 | the loop over the descendants computes that result |
| Extras.IntroDescriptionFirst | extras.go:360-364 | the first intro type with a description decides |
| Extras.SpineDescriptionStable | extras.go:357-365 | once found, a description is never overwritten by later spine items |
| Extras.DescriptionFromSpine | extras.go:354-368 | the spine scan's description |
| Extras.ReferencesKeys | extras.go:492-506 | a type is a key exactly when some reference of that type has a parsable href |
| Extras.ReferencesLast | extras.go:492-506 | the last such reference of a type decides its document |
| Extras.References | extras.go:484-509 | empty without a guide, else the references map, keyed by type with the zero value `Unset` among the keys it can hold |
| Html.LastMatchAt | extras.go:370-386 | nothing exactly when nothing in the tree matches; otherwise a matching node of the tree, at the position in pre-order of the last match that lies inside no other match |
| Html.SubtreeSpan | extras.go:376-381 | in pre-order, a node's descendants follow it directly and fill exactly the span of its subtree |
| Html.LastOutermostUnique | extras.go:370-386 | at most one position is the last match inside no other match |
| Html.LastMatchIsLastOutermost | extras.go:370-386 | a match that the search finds is the last match in pre-order that lies inside no other match |
| Extras.GetBody | extras.go:370-386 | nothing exactly when there is no `body`; otherwise a `body` of the tree |
| Extras.GetBodyIsLastOutermost | extras.go:370-386 | the `body` found is the last one in pre-order that lies inside no other `body` |
| Extras.TextReferenceFirst | extras.go:391-404 | a `text` reference with a non-empty body gives the description |
| Extras.DescriptionFromReferences | extras.go:388-407 | the candidate scan over text, preface and foreword |
| Extras.FirstContentItem | extras.go:416-425 | the first top-level entry whose href lacks `cover` |
| Extras.TocDescription | extras.go:409-438 | non-empty only when the table loads and its first non-cover entry has a title |
| Extras.DescriptionFromToc | extras.go:409-438 | the TOC description |
| Extras.Finished | extras.go:475-477 | an empty description stays empty |
| Extras.Description | extras.go:455-479 | the five strategies in order, each only while the description is empty, with the final pass applied; what the spine, guide and table-of-contents strategies need is required only when they are reached |

## Left out

- Zip I/O is left out. The container is the list of entries that opening the archive would give, and a read error is a value in that list. Opening a file by name (`OpenReader` in both packages) is left out, as is creating the output file in `Write`.
- XML decoding and encoding are parameters. This covers the package document, `container.xml`, the NCX, and the container document encoding. `AddPackage` only marshals a package into the map, so it is covered by `AddFile`. `addFileToZip` is reduced to its choice of compression method, without timestamps.
- Only `container.xml` is parsed among the reserved `META-INF` files. The encryption, manifest, metadata, rights and signatures decoders have no behaviour here, and their parse errors are discarded as in the source.
- The HTML parser is a parameter that always yields a tree. The source skips a document whose parse fails.
- Image decoding is a parameter. `Images`, `CoverBytes` and `ContentDocumentSVG` are left out.
- The Markdown conversion and Unicode normalisation are parameters. `ContentDocumentMarkdown`, `ReadContentMarkdownById`, `ContentDocumentXHTMLString` and `cleanupHTML` are left out.
- URL parsing in `References` is a parameter that strips the fragment, or fails.
- Regular expressions in the source are plain words, so matching is modelled as substring containment.
- `TOC.JSON` is left out.
- Windows volume names in `getRootDirectory` are left out: only the `/` separator is modelled.
- Plain field getters (`Metadata`, `Resources`, `AllFiles`, `Container`, `NavigationCenterExtended` and the other `META-INF` accessors) are reads of the class fields.
- `Write`: its order is not modelled, because the source ranges over a map. `WriteEntries` states each entry once and does not say that `mimetype` comes first.
- Extras.GetCoverInMetadata: the model does not fix which cover key wins when several match, because that depends on Go's map iteration order.
- Extras.DescriptionFromOptionalMeta: the model does not fix which description key wins when several match, for the same reason.
- Ocf.OCFZipContainer.ParseAllMetaInfFiles: the model does not fix which of several `container.xml` files under `META-INF` is parsed, for the same reason.
- Content.ReadContentHTMLById: the source ranges over a map keyed by id. It still returns the parse of the last XHTML resource with that id, because later resources overwrite earlier ones in that map.
- Content.GetTextByEpubType, Content.ExtractTitle, ContentMetadata.Refines, ContentMetadata.ParseMetadata, Reader.NewReaderFromZip, Toc.TableOfContents: inputs that make the source panic (a nil first child, a refinement of an unknown id, a failed type assertion, no `"default"` rendition, a nav resource whose id has no XHTML document) are excluded by preconditions rather than modelled.
- Extras.Title, Extras.Author, Extras.Cover, Extras.Description: these carry the same panic preconditions for the documents and metadata they read, and a selected package, each only on the paths where the source reaches that read.

## Findings

| source | as written | input that shows it | evidently intended | confidence | as-written member | corrected member |
|---|---|---|---|---|---|---|
| toc.go:38-43 | `ReadContentHTML` makes the href lookup through the entry's reader, discards its result and returns nil; only the root gets the reader (toc.go:259) and it has no href, so on every entry with an href the reader is nil (toc.go:105, 167-170, 197-200, 241-244) and the call dereferences it (content.go:195) | the entry `Chapter 1` → `c1.xhtml` built from an NCX over a table holding the XHTML resource `c1.xhtml` | entries carry the reader, and the method returns the document read by the href | not executed | Toc.ReadContentHTMLDiscardsDocument | Toc.ReadContentHTMLOwnDocument |
| extras.go:282-289 | `Identifier` reads the key `"identifier"`, but the metadata parser stores the dc:identifier values under `"identifiers"` (content.go:326) | a package with one dc:identifier `urn:isbn:9780000000001` and no optional elements | the joined dc:identifier values | not executed | Extras.IdentifierMissesDublinCore | Extras.IdentifierOfParsed |
