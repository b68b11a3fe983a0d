/**
 * The resource table: one entry per manifest item of the active package,
 * its href resolved against the package document's directory, its bytes
 * taken from the container; and the first-match lookups over it.
 */
module Resources {
  import opened Wrappers
  import Text
  import Paths
  import Ncx
  import Pkg
  import opened EpubModel

  /** The container path of a manifest href: joined to the directory of the
      package document (the join cleans its result). */
  function ResolvePath(packagePath: string, href: string): (r: string)
    ensures r != ""
  {
    Paths.JoinPath(Paths.Dir(packagePath), href)
  }

  /** A resolved path is already in clean form (`.` and `..` segments and
      doubled slashes are gone), so the extra `Clean` the reader applies
      after the join changes nothing. */
  lemma {:induction false} ResolvePathIsClean(packagePath: string, href: string)
    ensures Paths.Clean(ResolvePath(packagePath, href)) == ResolvePath(packagePath, href)
  {
    Paths.CleanIdempotent(Paths.Dir(packagePath) + "/" + href);
  }

  /** The bytes stored at a path; a missing entry reads as empty content. */
  function ContentAt(files: map<string, Bytes>, path: string): (b: Bytes)
    ensures path in files ==> b == files[path]
    ensures path !in files ==> b == []
  {
    if path in files then files[path] else []
  }

  /** The container paths of the manifest items, in manifest order. */
  function ResolvedPaths(items: seq<Pkg.Item>, packagePath: string): (paths: seq<string>)
    ensures |paths| == |items|
  {
    seq(|items|, i requires 0 <= i < |items| => ResolvePath(packagePath, items[i].href))
  }

  /** The resource built for one manifest item stored at `itemPath`. */
  function ResourceOf(item: Pkg.Item, itemPath: string, files: map<string, Bytes>): PublicationResource {
    PublicationResource(item.id, item.href, item.mediaType, ContentAt(files, itemPath), itemPath, item.properties)
  }

  /** The resources built for the manifest items, in manifest order. */
  function ResourcesOf(items: seq<Pkg.Item>, paths: seq<string>, files: map<string, Bytes>): (rs: seq<PublicationResource>)
    requires |paths| == |items|
    ensures |rs| == |items|
    decreases |items|
  {
    if items == [] then []
    else
      var n := |items| - 1;
      ResourcesOf(items[..n], paths[..n], files) + [ResourceOf(items[n], paths[n], files)]
  }

  /** The table gains exactly one resource per manifest item, in manifest
      order, copying the item's id, href, media type and properties, and
      holding the container entry at the resolved path (empty when absent). */
  lemma {:induction false} ResourcesOfAt(items: seq<Pkg.Item>, packagePath: string, files: map<string, Bytes>, i: nat)
    requires i < |items|
    ensures var res := ResourcesOf(items, ResolvedPaths(items, packagePath), files)[i];
            res.id == items[i].id && res.href == items[i].href && res.mimeType == items[i].mediaType
            && res.properties == items[i].properties
            && res.filepath == ResolvePath(packagePath, items[i].href)
            && res.content == ContentAt(files, res.filepath)
  {
    ResourcesOfIndex(items, ResolvedPaths(items, packagePath), files, i);
  }

  lemma {:induction false} ResourcesOfIndex(items: seq<Pkg.Item>, paths: seq<string>, files: map<string, Bytes>, i: nat)
    requires |paths| == |items| && i < |items|
    ensures ResourcesOf(items, paths, files)[i] == ResourceOf(items[i], paths[i], files)
    decreases |items|
  {
    var n := |items| - 1;
    if i < n {
      ResourcesOfIndex(items[..n], paths[..n], files, i);
      assert items[..n][i] == items[i] && paths[..n][i] == paths[i];
    }
  }

  /** The NCX slot after the items have been scanned: each NCX item
      replaces it with the result of parsing its content. */
  function NcxAfter(prior: Option<Ncx.NCX>, items: seq<Pkg.Item>, paths: seq<string>,
                    files: map<string, Bytes>, parseNcx: Bytes -> Option<Ncx.NCX>): Option<Ncx.NCX>
    requires |paths| == |items|
    decreases |items|
  {
    if items == [] then prior
    else
      var n := |items| - 1;
      var before := NcxAfter(prior, items[..n], paths[..n], files, parseNcx);
      if items[n].mediaType == Pkg.MediaTypeNCX then parseNcx(ContentAt(files, paths[n])) else before
  }

  /** Index of the last item with the NCX media type, or -1. */
  function LastNcxIndex(items: seq<Pkg.Item>): (k: int)
    ensures -1 <= k < |items|
    ensures k >= 0 ==> items[k].mediaType == Pkg.MediaTypeNCX
    ensures forall j :: k < j < |items| ==> items[j].mediaType != Pkg.MediaTypeNCX
  {
    if items == [] then -1
    else if items[|items| - 1].mediaType == Pkg.MediaTypeNCX then |items| - 1
    else LastNcxIndex(items[..|items| - 1])
  }

  /** The last NCX item decides the NCX (a failed parse clears it); without
      one the slot keeps its earlier value. */
  lemma {:induction false} NcxAfterLast(prior: Option<Ncx.NCX>, items: seq<Pkg.Item>, paths: seq<string>,
                                        files: map<string, Bytes>, parseNcx: Bytes -> Option<Ncx.NCX>)
    requires |paths| == |items|
    ensures var k := LastNcxIndex(items);
            NcxAfter(prior, items, paths, files, parseNcx)
              == if k < 0 then prior else parseNcx(ContentAt(files, paths[k]))
    decreases |items|
  {
    if items != [] {
      var n := |items| - 1;
      NcxAfterLast(prior, items[..n], paths[..n], files, parseNcx);
      var k := LastNcxIndex(items[..n]);
      if k >= 0 {
        assert paths[..n][k] == paths[k];
      }
    }
  }

  /** Scanning one more manifest item appends its resource and, for an NCX
      item, replaces the NCX slot. */
  lemma ScanStep(prior: Option<Ncx.NCX>, items: seq<Pkg.Item>, paths: seq<string>,
                 files: map<string, Bytes>, parseNcx: Bytes -> Option<Ncx.NCX>, i: nat)
    requires |paths| == |items| && i < |items|
    ensures ResourcesOf(items[..i + 1], paths[..i + 1], files)
              == ResourcesOf(items[..i], paths[..i], files) + [ResourceOf(items[i], paths[i], files)]
    ensures NcxAfter(prior, items[..i + 1], paths[..i + 1], files, parseNcx)
              == if items[i].mediaType == Pkg.MediaTypeNCX then parseNcx(ContentAt(files, paths[i]))
                 else NcxAfter(prior, items[..i], paths[..i], files, parseNcx)
  {
    assert items[..i + 1][..i] == items[..i] && paths[..i + 1][..i] == paths[..i];
  }

  /** One step of `parseResources`: resolve the item's path with
      `Clean(Join(Dir(packagePath), href))` and read its bytes. */
  method NewResource(item: Pkg.Item, packagePath: string, allFiles: map<string, Bytes>) returns (res: PublicationResource)
    ensures res == ResourceOf(item, ResolvePath(packagePath, item.href), allFiles)
  {
    var itemPath := Paths.Clean(Paths.JoinPath(Paths.Dir(packagePath), item.href));
    ResolvePathIsClean(packagePath, item.href);
    var content := if itemPath in allFiles then allFiles[itemPath] else [];
    res := PublicationResource(item.id, item.href, item.mediaType, content, itemPath, item.properties);
  }

  /** The loop of `parseResources`: the resources the manifest items add to
      the table, in manifest order, and the NCX slot once every NCX item
      has replaced it. */
  method ScanManifest(items: seq<Pkg.Item>, packagePath: string, allFiles: map<string, Bytes>,
                      prior: Option<Ncx.NCX>, parseNcx: Bytes -> Option<Ncx.NCX>)
    returns (added: seq<PublicationResource>, ncx: Option<Ncx.NCX>)
    ensures added == ResourcesOf(items, ResolvedPaths(items, packagePath), allFiles)
    ensures ncx == NcxAfter(prior, items, ResolvedPaths(items, packagePath), allFiles, parseNcx)
  {
    ghost var paths := ResolvedPaths(items, packagePath);
    added := [];
    ncx := prior;
    for i := 0 to |items|
      invariant added == ResourcesOf(items[..i], paths[..i], allFiles)
      invariant ncx == NcxAfter(prior, items[..i], paths[..i], allFiles, parseNcx)
    {
      var item := items[i];
      var res := NewResource(item, packagePath, allFiles);
      assert res == ResourceOf(items[i], paths[i], allFiles);
      ScanStep(prior, items, paths, allFiles, parseNcx, i);
      if item.mediaType == Pkg.MediaTypeNCX {
        ncx := parseNcx(res.content);
      }
      added := added + [res];
    }
    assert items[..|items|] == items && paths[..|paths|] == paths;
  }

  /** `parseResources`: append one resource per manifest item of the active
      package (the table is never cleared) and let NCX items replace the
      NCX. The active package must exist: its manifest is dereferenced. */
  method ParseResources(e: Epub, parseNcx: Bytes -> Option<Ncx.NCX>)
    requires e.rendition in e.packagePubs
    modifies e`resources, e`ncx
    ensures var items := e.packagePubs[e.rendition].manifest.items;
            var paths := ResolvedPaths(items, e.CurrentSelectedPackagePath());
            e.resources == old(e.resources) + ResourcesOf(items, paths, e.zipContainer.files)
            && e.ncx == NcxAfter(old(e.ncx), items, paths, e.zipContainer.files, parseNcx)
  {
    var added, ncx := ScanManifest(e.packagePubs[e.rendition].manifest.items, e.CurrentSelectedPackagePath(),
                                   e.zipContainer.files, e.ncx, parseNcx);
    e.resources := e.resources + added;
    e.ncx := ncx;
  }

  /** Index of the first resource with the given id, or -1. */
  function IndexById(rs: seq<PublicationResource>, id: string): (i: int)
    ensures -1 <= i < |rs|
    ensures i >= 0 ==> rs[i].id == id
    ensures forall k :: 0 <= k < |rs| && (i < 0 || k < i) ==> rs[k].id != id
  {
    FirstIndex(rs, (r: PublicationResource) => r.id == id)
  }

  /** Index of the first resource with the given href, or -1. */
  function IndexByHref(rs: seq<PublicationResource>, href: string): (i: int)
    ensures -1 <= i < |rs|
    ensures i >= 0 ==> rs[i].href == href
    ensures forall k :: 0 <= k < |rs| && (i < 0 || k < i) ==> rs[k].href != href
  {
    FirstIndex(rs, (r: PublicationResource) => r.href == href)
  }

  /** `SelectResourceById`: a copy of the first resource with that id, or nil. */
  method SelectResourceById(e: Epub, id: string) returns (res: Option<PublicationResource>)
    ensures var i := IndexById(e.resources, id);
            res == if i >= 0 then Some(e.resources[i]) else None
    ensures res.None? <==> forall k :: 0 <= k < |e.resources| ==> e.resources[k].id != id
  {
    for i := 0 to |e.resources|
      invariant forall k :: 0 <= k < i ==> e.resources[k].id != id
    {
      if e.resources[i].id == id {
        return Some(e.resources[i]);
      }
    }
    return None;
  }

  /** `SelectResourceByHref`: a copy of the first resource with that href, or nil. */
  method SelectResourceByHref(e: Epub, href: string) returns (res: Option<PublicationResource>)
    ensures var i := IndexByHref(e.resources, href);
            res == if i >= 0 then Some(e.resources[i]) else None
    ensures res.None? <==> forall k :: 0 <= k < |e.resources| ==> e.resources[k].href != href
  {
    for i := 0 to |e.resources|
      invariant forall k :: 0 <= k < i ==> e.resources[k].href != href
    {
      if e.resources[i].href == href {
        return Some(e.resources[i]);
      }
    }
    return None;
  }
}
