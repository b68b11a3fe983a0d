/**
 * The publication state shared by every reader operation: the packages by
 * rendition key, the active rendition, the resource table, the metadata bag
 * and the legacy NCX navigation.
 */
module EpubModel {
  import opened Wrappers
  import Text
  import Ncx
  import Pkg
  import Ocf

  type Bytes = seq<Text.byte>

  /** A manifest item resolved against the container. */
  datatype PublicationResource = PublicationResource(
    id: string, href: string, mimeType: string, content: Bytes, filepath: string, properties: string)

  /** An entry of the `"meta"` bag: the `content` of a meta without a
      `property`, or the accumulated values of metas with that property. */
  datatype MetaItem = Content(text: string) | Values(values: seq<string>)

  /** A value of the metadata map: a list of Dublin Core values, or the
      `"meta"` bag. */
  datatype MetaValue = Strings(items: seq<string>) | Bag(entries: map<string, MetaItem>)

  /** The key `DefaultPackage` looks up. */
  const ContentKey := "content"

  class Epub {
    var packagePubs: map<string, Pkg.Package>
    var packagePaths: map<string, string>
    /** The container the publication was read from; the reader never
        changes it. */
    const zipContainer: Ocf.OCFZipContainer
    var rendition: string
    var resources: seq<PublicationResource>
    var metadata: map<string, MetaValue>
    var ncx: Option<Ncx.NCX>

    /** The state `newReaderFromZip` starts from. */
    constructor (zip: Ocf.OCFZipContainer)
      ensures packagePubs == map[] && packagePaths == map[] && metadata == map[]
      ensures zipContainer == zip && rendition == "" && resources == [] && ncx == None
    {
      packagePubs := map[];
      packagePaths := map[];
      zipContainer := zip;
      rendition := "";
      resources := [];
      metadata := map[];
      ncx := None;
    }

    /** `SelectPackage`: the package stored under `name`, nil when there is none. */
    function SelectPackage(name: string): (p: Option<Pkg.Package>)
      reads this
      ensures p.Some? <==> name in packagePubs
      ensures p.Some? ==> p.value == packagePubs[name]
    {
      if name in packagePubs then Some(packagePubs[name]) else None
    }

    /** `SelectedPackage` and `CurrentSelectedPackage`: the package of the active rendition. */
    function SelectedPackage(): (p: Option<Pkg.Package>)
      reads this
      ensures p == SelectPackage(rendition)
      ensures p.Some? <==> rendition in packagePubs
    {
      if rendition in packagePubs then Some(packagePubs[rendition]) else None
    }

    /** `DefaultPackage`: the package stored under `"content"`. */
    function DefaultPackage(): (p: Option<Pkg.Package>)
      reads this
      ensures p == SelectPackage(ContentKey)
    {
      if ContentKey in packagePubs then Some(packagePubs[ContentKey]) else None
    }

    /** `CurrentSelectedPackagePath`: the package path of the active
        rendition, `""` when there is none. */
    function CurrentSelectedPackagePath(): (path: string)
      reads this`rendition, this`packagePaths
      ensures rendition in packagePaths ==> path == packagePaths[rendition]
      ensures rendition !in packagePaths ==> path == ""
    {
      if rendition in packagePaths then packagePaths[rendition] else ""
    }

    /** When every key starts with `"default"`, as `parseRootFiles` makes
        them, `DefaultPackage` finds nothing. */
    lemma DefaultPackageAbsent()
      requires forall k :: k in packagePubs ==> Text.HasPrefix(k, "default")
      ensures DefaultPackage() == None
    {
      assert !Text.HasPrefix(ContentKey, "default") by {
        assert ContentKey[0] != "default"[0];
      }
    }
  }
}
