/**
 * Opening a publication (`reader.go`): every `rootfile` of `container.xml`
 * names a package document, which is decoded and stored under a rendition
 * key built from the rootfile's rendition attributes; the `"default"`
 * rendition is then selected and its metadata parsed.
 */
module Reader {
  import opened Wrappers
  import Text
  import Pkg
  import Ocf
  import Externals
  import opened EpubModel
  import Resources
  import Content
  import ContentMetadata

  type Bytes = seq<Text.byte>

  const DefaultRendition := "default"

  /** A rendition attribute, when it is set. */
  function IfSet(attr: string): (r: seq<string>)
    ensures |r| <= 1 && (r == [] <==> attr == "") && (r != [] ==> r[0] == attr)
  {
    if attr != "" then [attr] else []
  }

  /** `"default"` and the rendition attributes that are set, in the order the key lists them. */
  function RenditionParts(rf: Ocf.RootFile): (parts: seq<string>)
    ensures |parts| >= 1 && parts[0] == DefaultRendition
    ensures forall i :: 1 <= i < |parts| ==> parts[i] != ""
    ensures |parts| == 1 <==>
              rf.media == "" && rf.layout == "" && rf.language == "" && rf.accessMode == "" && rf.renditionLabel == ""
  {
    [DefaultRendition] + IfSet(rf.media) + IfSet(rf.layout) + IfSet(rf.language) + IfSet(rf.accessMode)
      + IfSet(rf.renditionLabel)
  }

  /** The rendition key: the parts joined with `_`. */
  function RenditionKey(rf: Ocf.RootFile): string {
    Text.Join(RenditionParts(rf), "_")
  }

  /** Every key starts with `"default"`, and is exactly `"default"` when
      the rootfile sets none of its rendition attributes. */
  lemma RenditionKeyShape(rf: Ocf.RootFile)
    ensures Text.HasPrefix(RenditionKey(rf), DefaultRendition)
    ensures RenditionKey(rf) == DefaultRendition <==>
              rf.media == "" && rf.layout == "" && rf.language == "" && rf.accessMode == "" && rf.renditionLabel == ""
  {
    var parts := RenditionParts(rf);
    if |parts| > 1 {
      var key := DefaultRendition + "_" + Text.Join(parts[1..], "_");
      assert RenditionKey(rf) == key;
      assert key[..|DefaultRendition|] == DefaultRendition;
      assert |key| > |DefaultRendition|;
    }
  }

  /** The package maps of a publication. */
  datatype Packages = Packages(pubs: map<string, Pkg.Package>, paths: map<string, string>)

  /** The package maps after a run over the rootfiles, and the error that stopped it. */
  datatype Parsed = Parsed(packages: Packages, err: Option<string>)

  /** The package a rootfile names: its file must exist and decode. */
  function LoadPackage(files: map<string, Bytes>, rf: Ocf.RootFile, decode: Bytes -> Result<Pkg.Package, string>)
    : (r: Result<Pkg.Package, string>)
    ensures rf.fullPath !in files ==> r == Err("No file found with name " + rf.fullPath)
    ensures rf.fullPath in files ==> r == decode(files[rf.fullPath])
  {
    if rf.fullPath in files then decode(files[rf.fullPath]) else Err("No file found with name " + rf.fullPath)
  }

  /** `parseRootFiles` over the rootfiles from given package maps: each
      package is stored under its rendition key, a later one replacing an
      earlier one with the same key, until a file is missing or fails to
      decode; the packages stored before that stay. */
  function ParseRootFilesOf(start: Packages, files: map<string, Bytes>, rfs: seq<Ocf.RootFile>,
                            decode: Bytes -> Result<Pkg.Package, string>): Parsed
    decreases |rfs|
  {
    if rfs == [] then Parsed(start, None)
    else
      var n := |rfs| - 1;
      var prev := ParseRootFilesOf(start, files, rfs[..n], decode);
      if prev.err.Some? then prev
      else
        match LoadPackage(files, rfs[n], decode)
        case Err(msg) => Parsed(prev.packages, Some(msg))
        case Ok(p) =>
          var key := RenditionKey(rfs[n]);
          Parsed(Packages(prev.packages.pubs[key := p], prev.packages.paths[key := rfs[n].fullPath]), None)
  }

  /** Index of the first rootfile whose package cannot be loaded, `|rfs|` when all can. */
  function FirstFailure(files: map<string, Bytes>, rfs: seq<Ocf.RootFile>, decode: Bytes -> Result<Pkg.Package, string>)
    : (k: nat)
    ensures k <= |rfs|
    ensures forall i :: 0 <= i < k ==> LoadPackage(files, rfs[i], decode).Ok?
    ensures k < |rfs| ==> LoadPackage(files, rfs[k], decode).Err?
    decreases |rfs|
  {
    if rfs == [] then 0
    else
      var n := |rfs| - 1;
      var k := FirstFailure(files, rfs[..n], decode);
      if k < n then k
      else if LoadPackage(files, rfs[n], decode).Err? then n
      else n + 1
  }

  /** The run stops with the error of the first rootfile that cannot be
      loaded, keeping exactly what the rootfiles before it stored. */
  lemma {:induction false} ParseRootFilesError(start: Packages, files: map<string, Bytes>, rfs: seq<Ocf.RootFile>,
                                               decode: Bytes -> Result<Pkg.Package, string>)
    ensures var k := FirstFailure(files, rfs, decode);
            var r := ParseRootFilesOf(start, files, rfs, decode);
            (r.err.None? <==> k == |rfs|)
            && (k < |rfs| ==>
                  r.err == Some(LoadPackage(files, rfs[k], decode).error)
                  && ParseRootFilesOf(start, files, rfs[..k], decode).err.None?
                  && r.packages == ParseRootFilesOf(start, files, rfs[..k], decode).packages)
    decreases |rfs|
  {
    if rfs != [] {
      var n := |rfs| - 1;
      ParseRootFilesError(start, files, rfs[..n], decode);
      var k := FirstFailure(files, rfs[..n], decode);
      var prev := ParseRootFilesOf(start, files, rfs[..n], decode);
      var r := ParseRootFilesOf(start, files, rfs, decode);
      if k < n {
        assert FirstFailure(files, rfs, decode) == k;
        assert prev.err.Some? && r == prev;
        assert rfs[..n][..k] == rfs[..k];
        assert rfs[..n][k] == rfs[k];
      } else {
        assert prev.err.None?;
        assert rfs[..n] == rfs[..k];
        if LoadPackage(files, rfs[n], decode).Err? {
          assert FirstFailure(files, rfs, decode) == n;
          assert r == Parsed(prev.packages, Some(LoadPackage(files, rfs[n], decode).error));
        } else {
          assert FirstFailure(files, rfs, decode) == n + 1;
          assert r.err.None?;
        }
      }
    }
  }

  /** The rendition keys of the rootfiles, in order. */
  function RenditionKeys(rfs: seq<Ocf.RootFile>): (keys: seq<string>)
    ensures |keys| == |rfs| && forall i :: 0 <= i < |rfs| ==> keys[i] == RenditionKey(rfs[i])
  {
    seq(|rfs|, i requires 0 <= i < |rfs| => RenditionKey(rfs[i]))
  }

  /** Index of the last occurrence of `key`, or -1. */
  function LastIndexOf(keys: seq<string>, key: string): (k: int)
    ensures -1 <= k < |keys|
    ensures k >= 0 ==> keys[k] == key
    ensures forall i :: k < i < |keys| ==> keys[i] != key
    decreases |keys|
  {
    if keys == [] then -1
    else
      var n := |keys| - 1;
      if keys[n] == key then n else LastIndexOf(keys[..n], key)
  }

  /** Index of the last rootfile with the given rendition key, or -1. */
  function LastWithKey(rfs: seq<Ocf.RootFile>, key: string): (k: int)
    ensures -1 <= k < |rfs|
    ensures k >= 0 ==> RenditionKey(rfs[k]) == key
    ensures forall i :: k < i < |rfs| ==> RenditionKey(rfs[i]) != key
  {
    LastIndexOf(RenditionKeys(rfs), key)
  }

  lemma LastWithKeySnoc(rfs: seq<Ocf.RootFile>, key: string)
    requires rfs != []
    ensures var n := |rfs| - 1;
            LastWithKey(rfs, key) == if RenditionKey(rfs[n]) == key then n else LastWithKey(rfs[..n], key)
  {
    var n := |rfs| - 1;
    assert RenditionKeys(rfs)[..n] == RenditionKeys(rfs[..n]);
  }

  /** A run that stops on no error stores, under every rendition key, the
      package and path of the last rootfile with that key, and leaves every
      other key as it found it. */
  lemma {:induction false} ParseRootFilesStored(start: Packages, files: map<string, Bytes>, rfs: seq<Ocf.RootFile>,
                                                decode: Bytes -> Result<Pkg.Package, string>, key: string)
    requires ParseRootFilesOf(start, files, rfs, decode).err.None?
    ensures var ps := ParseRootFilesOf(start, files, rfs, decode).packages;
            var last := LastWithKey(rfs, key);
            if last >= 0 then
              key in ps.pubs && key in ps.paths
              && LoadPackage(files, rfs[last], decode).Ok?
              && ps.pubs[key] == LoadPackage(files, rfs[last], decode).value
              && ps.paths[key] == rfs[last].fullPath
            else
              (key in ps.pubs <==> key in start.pubs) && (key in ps.paths <==> key in start.paths)
              && (key in ps.pubs ==> ps.pubs[key] == start.pubs[key])
              && (key in ps.paths ==> ps.paths[key] == start.paths[key])
    decreases |rfs|
  {
    if rfs != [] {
      var n := |rfs| - 1;
      var prev := ParseRootFilesOf(start, files, rfs[..n], decode);
      assert prev.err.None? && LoadPackage(files, rfs[n], decode).Ok?;
      var k := RenditionKey(rfs[n]);
      assert ParseRootFilesOf(start, files, rfs, decode).packages
             == Packages(prev.packages.pubs[k := LoadPackage(files, rfs[n], decode).value],
                         prev.packages.paths[k := rfs[n].fullPath]);
      ParseRootFilesStored(start, files, rfs[..n], decode, key);
      LastWithKeySnoc(rfs, key);
      var last := LastWithKey(rfs[..n], key);
      if last >= 0 {
        assert rfs[..n][last] == rfs[last];
      }
    }
  }

  /** Every key a run adds starts with `"default"`. */
  lemma {:induction false} ParsedKeysAreRenditions(start: Packages, files: map<string, Bytes>, rfs: seq<Ocf.RootFile>,
                                                   decode: Bytes -> Result<Pkg.Package, string>, key: string)
    requires key in ParseRootFilesOf(start, files, rfs, decode).packages.pubs
    requires key !in start.pubs
    ensures Text.HasPrefix(key, DefaultRendition)
    decreases |rfs|
  {
    var n := |rfs| - 1;
    var prev := ParseRootFilesOf(start, files, rfs[..n], decode);
    if key in prev.packages.pubs {
      ParsedKeysAreRenditions(start, files, rfs[..n], decode, key);
    } else {
      RenditionKeyShape(rfs[n]);
    }
  }

  /** A reader opened from a container never has a package under `"content"`,
      so `DefaultPackage` finds none. */
  lemma NoContentPackage(files: map<string, Bytes>, rfs: seq<Ocf.RootFile>, decode: Bytes -> Result<Pkg.Package, string>)
    ensures ContentKey !in ParseRootFilesOf(Packages(map[], map[]), files, rfs, decode).packages.pubs
  {
    if ContentKey in ParseRootFilesOf(Packages(map[], map[]), files, rfs, decode).packages.pubs {
      ParsedKeysAreRenditions(Packages(map[], map[]), files, rfs, decode, ContentKey);
    }
  }

  /** Once a run has stopped on an error, further rootfiles change nothing. */
  lemma {:induction false} ErrorSticks(start: Packages, files: map<string, Bytes>, rfs: seq<Ocf.RootFile>,
                                       decode: Bytes -> Result<Pkg.Package, string>, n: nat)
    requires n <= |rfs| && ParseRootFilesOf(start, files, rfs[..n], decode).err.Some?
    ensures ParseRootFilesOf(start, files, rfs, decode) == ParseRootFilesOf(start, files, rfs[..n], decode)
    decreases |rfs| - n
  {
    if n == |rfs| {
      assert rfs[..n] == rfs;
    } else {
      assert rfs[..n + 1][..n] == rfs[..n];
      ErrorSticks(start, files, rfs, decode, n + 1);
    }
  }

  /** The rendition key of a rootfile, built part by part. */
  method RenditionVars(rootFile: Ocf.RootFile) returns (key: string)
    ensures key == RenditionKey(rootFile)
  {
    var rendition := [DefaultRendition];
    if rootFile.media != "" {
      rendition := rendition + [rootFile.media];
    }
    assert rendition == [DefaultRendition] + IfSet(rootFile.media);
    if rootFile.layout != "" {
      rendition := rendition + [rootFile.layout];
    }
    assert rendition == [DefaultRendition] + IfSet(rootFile.media) + IfSet(rootFile.layout);
    if rootFile.language != "" {
      rendition := rendition + [rootFile.language];
    }
    assert rendition == [DefaultRendition] + IfSet(rootFile.media) + IfSet(rootFile.layout) + IfSet(rootFile.language);
    if rootFile.accessMode != "" {
      rendition := rendition + [rootFile.accessMode];
    }
    assert rendition == [DefaultRendition] + IfSet(rootFile.media) + IfSet(rootFile.layout) + IfSet(rootFile.language)
                      + IfSet(rootFile.accessMode);
    if rootFile.renditionLabel != "" {
      rendition := rendition + [rootFile.renditionLabel];
    }
    assert rendition == [DefaultRendition] + IfSet(rootFile.media) + IfSet(rootFile.layout) + IfSet(rootFile.language)
                      + IfSet(rootFile.accessMode) + IfSet(rootFile.renditionLabel);
    key := Text.Join(rendition, "_");
  }

  /** `parseRootFiles`: load every rootfile's package into the publication's
      package maps, stopping at the first error. */
  method ParseRootFiles(e: Epub, z: Ocf.OCFZipContainer, decode: Bytes -> Result<Pkg.Package, string>)
    returns (err: Option<string>)
    modifies e`packagePubs, e`packagePaths
    ensures var r := ParseRootFilesOf(Packages(old(e.packagePubs), old(e.packagePaths)), z.files,
                                      z.container.rootFiles, decode);
            e.packagePubs == r.packages.pubs && e.packagePaths == r.packages.paths && err == r.err
  {
    var rfs := z.container.rootFiles;
    ghost var start := Packages(e.packagePubs, e.packagePaths);
    for i := 0 to |rfs|
      invariant ParseRootFilesOf(start, z.files, rfs[..i], decode) == Parsed(Packages(e.packagePubs, e.packagePaths), None)
    {
      assert rfs[..i + 1][..i] == rfs[..i];
      var rootFile := rfs[i];
      var packageFullPath := rootFile.fullPath;
      var renditionVars := RenditionVars(rootFile);
      var data := z.SelectFile(packageFullPath);
      if data.Err? {
        ErrorSticks(start, z.files, rfs, decode, i + 1);
        return Some(data.error);
      }
      var packagePub := decode(data.value);
      if packagePub.Err? {
        ErrorSticks(start, z.files, rfs, decode, i + 1);
        return Some(packagePub.error);
      }
      e.packagePaths := e.packagePaths[renditionVars := packageFullPath];
      e.packagePubs := e.packagePubs[renditionVars := packagePub.value];
    }
    assert rfs[..|rfs|] == rfs;
    return None;
  }

  /** What `newReaderFromZip` parses from a container. */
  function ParsedFromZip(files: map<string, Bytes>, rfs: seq<Ocf.RootFile>,
                         decode: Bytes -> Result<Pkg.Package, string>): Parsed {
    ParseRootFilesOf(Packages(map[], map[]), files, rfs, decode)
  }

  /** When the packages load, the reader goes on to select `"default"` and
      read its metadata; both fail unless a rootfile without rendition
      attributes exists and its metas do not clash. */
  predicate OpensFromZip(files: map<string, Bytes>, rfs: seq<Ocf.RootFile>,
                         decode: Bytes -> Result<Pkg.Package, string>) {
    var r := ParsedFromZip(files, rfs, decode);
    r.err.None? ==>
      DefaultRendition in r.packages.pubs
      && ContentMetadata.MetaBagDefined(r.packages.pubs[DefaultRendition].metadata.metas)
  }

  /** `newReaderFromZip`: a new publication over the container, with its
      packages loaded and, unless that failed, the `"default"` rendition
      selected, its resources listed and its metadata parsed. */
  method NewReaderFromZip(z: Ocf.OCFZipContainer, codecs: Externals.Codecs) returns (e: Epub, err: Option<string>)
    requires OpensFromZip(z.files, z.container.rootFiles, codecs.decodePackage)
    ensures fresh(e) && e.zipContainer == z
    ensures var r := ParsedFromZip(z.files, z.container.rootFiles, codecs.decodePackage);
            e.packagePubs == r.packages.pubs && e.packagePaths == r.packages.paths && err == r.err
    ensures err.Some? ==> e.rendition == "" && e.resources == [] && e.metadata == map[] && e.ncx == None
    ensures err.None? ==>
              var items := e.packagePubs[DefaultRendition].manifest.items;
              var paths := Resources.ResolvedPaths(items, e.CurrentSelectedPackagePath());
              e.rendition == DefaultRendition && DefaultRendition in e.packagePaths
              && e.CurrentSelectedPackagePath() == e.packagePaths[DefaultRendition]
              && e.resources == Resources.ResourcesOf(items, paths, z.files)
              && e.ncx == Resources.NcxAfter(None, items, paths, z.files, codecs.parseNcx)
              && e.metadata == ContentMetadata.MetadataOf(e.packagePubs[DefaultRendition].metadata)
  {
    e := new Epub(z);
    ghost var r := ParsedFromZip(z.files, z.container.rootFiles, codecs.decodePackage);
    err := ParseRootFiles(e, z, codecs.decodePackage);
    assert e.packagePubs == r.packages.pubs && e.packagePaths == r.packages.paths && err == r.err;
    if err.Some? {
      return;
    }
    ParseRootFilesStored(Packages(map[], map[]), z.files, z.container.rootFiles, codecs.decodePackage, DefaultRendition);
    assert DefaultRendition in e.packagePaths;
    ghost var pubs, paths := e.packagePubs, e.packagePaths;
    Content.SelectPackageRendition(e, DefaultRendition, codecs.parseNcx);
    ghost var resources, ncx := e.resources, e.ncx;
    ContentMetadata.ParseMetadata(e);
    assert e.packagePubs == pubs && e.packagePaths == paths && e.rendition == DefaultRendition;
    assert e.resources == resources && e.ncx == ncx;
  }
}
