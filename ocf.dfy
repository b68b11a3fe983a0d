/**
 * The Open Container Format layer (EPUB 3.3, section 4): the container as a
 * map from path to bytes, the reserved files under `META-INF`, and the
 * writer-side updates of that map.
 */
module Ocf {
  import opened Wrappers
  import Text
  import Paths
  import OcfUtils

  type Bytes = seq<Text.byte>

  const MimeType := "application/epub+zip"
  const EPUBContainerMime := "application/oebps-package+xml"
  const ContainerNamespace := "urn:oasis:names:tc:opendocument:xmlns:container"
  const XmlHeader := "<?xml version=\"1.0\" encoding=\"UTF-8\"?>\n"

  const MetaInfDirectoryName := "META-INF"
  const ContainerFile := "container.xml"
  const MetaInfReservedFiles: seq<string> :=
    [ContainerFile, "encryption.xml", "manifest.xml", "metadata.xml", "rights.xml", "signatures.xml"]
  const RequiredMetaInfFiles: seq<string> := [ContainerFile]
  const ContainerXmlPath := "META-INF/container.xml"
  const MimeTypePath := "mimetype"

  const MissingRequiredFiles := "Package does not have required files"

  /** A `rootfile` entry of `container.xml`, with its rendition attributes. */
  datatype RootFile = RootFile(
    fullPath: string, mediaType: string,
    media: string, layout: string, language: string, accessMode: string, renditionLabel: string)

  /** The decoded `container.xml`. */
  datatype ContainerDoc = ContainerDoc(namespace: string, version: string, rootFiles: seq<RootFile>)

  const EmptyContainerDoc := ContainerDoc("", "", [])

  /** An entry of the zip archive as the zip reader presents it: its name,
      whether it is a directory, and its bytes or the error opening or reading it. */
  datatype ZipEntry = ZipEntry(name: string, isDir: bool, content: Result<Bytes, string>)

  datatype CompressionMethod = Store | Deflate

  /** One file handed to the zip writer. */
  datatype ZipOutEntry = ZipOutEntry(name: string, compression: CompressionMethod, content: Bytes)

  function MimeTypeBytes(): (b: Bytes)
    ensures |b| == |MimeType|
  {
    Text.Ascii(MimeType)
  }

  function XmlHeaderBytes(): (b: Bytes)
    ensures |b| == |XmlHeader|
  {
    Text.Ascii(XmlHeader)
  }

  /** Index of the first file entry whose bytes could not be read, or the
      number of entries when every file reads. */
  function ReadFailure(entries: seq<ZipEntry>): (k: nat)
    ensures k <= |entries|
    ensures k < |entries| ==> !entries[k].isDir && entries[k].content.Err?
    ensures forall i :: 0 <= i < k ==> entries[i].isDir || entries[i].content.Ok?
  {
    if entries == [] then 0
    else if !entries[0].isDir && entries[0].content.Err? then 0
    else 1 + ReadFailure(entries[1..])
  }

  /** The files the read loop has stored after the given entries. */
  function StoredFiles(entries: seq<ZipEntry>): map<string, Bytes>
    decreases |entries|
  {
    if entries == [] then map[]
    else
      var m := StoredFiles(entries[..|entries| - 1]);
      var e := entries[|entries| - 1];
      if e.isDir || e.content.Err? then m else m[e.name := e.content.value]
  }

  /** Every stored name is a file entry of the archive, bound to the bytes of
      the last entry of that name; directories are never stored. */
  lemma StoredFilesAreLastEntries(entries: seq<ZipEntry>, name: string)
    requires ReadFailure(entries) == |entries|
    ensures name in StoredFiles(entries) <==> exists i :: 0 <= i < |entries| && !entries[i].isDir && entries[i].name == name
    ensures name in StoredFiles(entries) ==>
              exists i :: 0 <= i < |entries| && !entries[i].isDir && entries[i].name == name
                && StoredFiles(entries)[name] == entries[i].content.value
                && forall j :: i < j < |entries| && !entries[j].isDir ==> entries[j].name != name
  {
    StoredFilesKeys(entries, name);
    if name in StoredFiles(entries) {
      StoredFilesLast(entries, name);
    }
  }

  lemma {:induction false} StoredFilesKeys(entries: seq<ZipEntry>, name: string)
    requires ReadFailure(entries) == |entries|
    ensures name in StoredFiles(entries) <==> exists i :: 0 <= i < |entries| && !entries[i].isDir && entries[i].name == name
    decreases |entries|
  {
    if entries != [] {
      var n := |entries| - 1;
      var init := entries[..n];
      assert ReadFailure(init) == |init| by { ReadFailurePrefix(entries, n); }
      StoredFilesKeys(init, name);
      StoredFilesStep(entries, name);
      if name in StoredFiles(init) {
        var i :| 0 <= i < n && !init[i].isDir && init[i].name == name;
        assert entries[i] == init[i];
      }
      if exists i :: 0 <= i < |entries| && !entries[i].isDir && entries[i].name == name {
        var i :| 0 <= i < |entries| && !entries[i].isDir && entries[i].name == name;
        if i < n {
          assert init[i] == entries[i];
        }
      }
    }
  }

  lemma {:induction false} StoredFilesLast(entries: seq<ZipEntry>, name: string)
    requires ReadFailure(entries) == |entries| && name in StoredFiles(entries)
    ensures exists i :: 0 <= i < |entries| && !entries[i].isDir && entries[i].name == name
              && StoredFiles(entries)[name] == entries[i].content.value
              && forall j :: i < j < |entries| && !entries[j].isDir ==> entries[j].name != name
    decreases |entries|
  {
    var n := |entries| - 1;
    var init := entries[..n];
    var e := entries[n];
    StoredFilesStep(entries, name);
    if !e.isDir && e.name == name {
      assert 0 <= n < |entries| && !entries[n].isDir && entries[n].name == name
        && StoredFiles(entries)[name] == entries[n].content.value;
    } else {
      assert ReadFailure(init) == |init| by { ReadFailurePrefix(entries, n); }
      StoredFilesLast(init, name);
      var i :| 0 <= i < |init| && !init[i].isDir && init[i].name == name
               && StoredFiles(init)[name] == init[i].content.value
               && forall j :: i < j < |init| && !init[j].isDir ==> init[j].name != name;
      assert entries[i] == init[i];
      forall j | i < j < |entries| && !entries[j].isDir
        ensures entries[j].name != name
      {
        if j < n {
          assert init[j] == entries[j];
        }
      }
    }
  }

  /** Storing one more entry: a readable file entry binds its own name;
      nothing else changes. */
  lemma StoredFilesStep(entries: seq<ZipEntry>, name: string)
    requires entries != [] && ReadFailure(entries) == |entries|
    ensures var n := |entries| - 1;
            var init, e := StoredFiles(entries[..n]), entries[n];
            var m := StoredFiles(entries);
            if !e.isDir && e.name == name then name in m && m[name] == e.content.value
            else (name in m <==> name in init) && (name in init ==> m[name] == init[name])
  {
    var n := |entries| - 1;
    assert !entries[n].isDir ==> entries[n].content.Ok?;
  }

  lemma {:induction false} ReadFailurePrefix(entries: seq<ZipEntry>, n: nat)
    requires n <= ReadFailure(entries)
    ensures ReadFailure(entries[..n]) == n
  {
  }

  /** A path is a reserved file with base name `name` when it lies under `META-INF`. */
  predicate IsReservedAs(p: string, name: string) {
    OcfUtils.RootDirectory(p) == MetaInfDirectoryName && Paths.Base(p) == name
  }

  predicate IsReserved(p: string) {
    OcfUtils.RootDirectory(p) == MetaInfDirectoryName && Paths.Base(p) in MetaInfReservedFiles
  }

  /** Some file under `META-INF` is called `container.xml`. */
  predicate HasRequiredFiles(files: map<string, Bytes>) {
    exists p :: p in files && IsReservedAs(p, ContainerFile)
  }

  /** The bytes of `mimetype` in a file map, empty when absent. */
  function MimeTypeOf(files: map<string, Bytes>): (b: Bytes)
    ensures MimeTypePath in files ==> b == files[MimeTypePath]
    ensures MimeTypePath !in files ==> b == []
  {
    if MimeTypePath in files then files[MimeTypePath] else []
  }

  /** The compression `addFileToZip` chooses: `mimetype` is stored, every
      other file is deflated. */
  function CompressionFor(name: string): (m: CompressionMethod)
    ensures m == Store <==> name == MimeTypePath
  {
    if name == MimeTypePath then Store else Deflate
  }

  /** The descriptor `AddContainerXML` builds: one root file per path, in
      order, each declared as an OPF package. */
  function ContainerFor(rootFiles: seq<string>): (doc: ContainerDoc)
    ensures doc.version == "1.0" && doc.namespace == ContainerNamespace
    ensures |doc.rootFiles| == |rootFiles|
    ensures forall i :: 0 <= i < |rootFiles| ==>
              doc.rootFiles[i] == RootFile(rootFiles[i], EPUBContainerMime, "", "", "", "", "")
  {
    ContainerDoc(ContainerNamespace, "1.0",
      seq(|rootFiles|, i requires 0 <= i < |rootFiles| => RootFile(rootFiles[i], EPUBContainerMime, "", "", "", "", "")))
  }

  /** The first loop of `parseAllMetaInfFiles`: the reserved files found
      under `META-INF`, keyed by base name. Each key holds the bytes of some
      file of that name (map order decides which when several qualify), and
      every reserved file's name is present. */
  method ReservedFiles(files: map<string, Bytes>) returns (reserved: map<string, Bytes>)
    ensures forall n :: n in reserved ==>
              n in MetaInfReservedFiles && exists p :: p in files && IsReservedAs(p, n) && reserved[n] == files[p]
    ensures forall p :: p in files && IsReserved(p) ==> Paths.Base(p) in reserved
  {
    reserved := map[];
    var todo := files.Keys;
    while todo != {}
      invariant todo <= files.Keys
      invariant forall n :: n in reserved ==>
                  n in MetaInfReservedFiles && exists p :: p in files && IsReservedAs(p, n) && reserved[n] == files[p]
      invariant forall p :: p in files && p !in todo && IsReserved(p) ==> Paths.Base(p) in reserved
      decreases todo
    {
      var filePath :| filePath in todo;
      todo := todo - {filePath};
      if OcfUtils.RootDirectory(filePath) != MetaInfDirectoryName {
        continue;
      }
      var filename := Paths.Base(filePath);
      if filename !in MetaInfReservedFiles {
        continue;
      }
      reserved := reserved[filename := files[filePath]];
    }
  }

  class OCFZipContainer {
    var files: map<string, Bytes>
    /** The decoded `META-INF/container.xml`. */
    var container: ContainerDoc

    /** `NewOCFZipContainer`: an empty container. */
    constructor ()
      ensures files == map[] && container == EmptyContainerDoc
    {
      files := map[];
      container := EmptyContainerDoc;
    }

    /** `readFiles`: store every file entry under its name; skip directories;
        stop at the first entry that cannot be read, keeping what was stored. */
    method ReadFiles(entries: seq<ZipEntry>) returns (err: Option<string>)
      modifies this`files
      ensures var k := ReadFailure(entries);
              files == StoredFiles(entries[..k])
              && err == if k < |entries| then Some(entries[k].content.error) else None
    {
      files := map[];
      var i := 0;
      while i < |entries|
        invariant 0 <= i <= ReadFailure(entries)
        invariant files == StoredFiles(entries[..i])
      {
        var e := entries[i];
        assert entries[..i + 1][..i] == entries[..i];
        if e.isDir {
          i := i + 1;
          continue;
        }
        if e.content.Err? {
          return Some(e.content.error);
        }
        files := files[e.name := e.content.value];
        i := i + 1;
      }
      assert entries[..i] == entries;
      return None;
    }

    /** `parseAllMetaInfFiles`: gather the reserved files under `META-INF`,
        fail unless `container.xml` is among them, then decode it (decoding
        errors are discarded, so `parseContainer` returns whatever the
        decoder left behind). */
    method ParseAllMetaInfFiles(parseContainer: Bytes -> ContainerDoc) returns (err: Option<string>)
      modifies this`container
      ensures err.None? <==> HasRequiredFiles(files)
      ensures err.Some? ==> err.value == MissingRequiredFiles && container == old(container)
      ensures err.None? ==>
                exists p :: p in files && IsReservedAs(p, ContainerFile) && container == parseContainer(files[p])
    {
      var reserved := ReservedFiles(files);

      for i := 0 to |RequiredMetaInfFiles|
        invariant forall k :: 0 <= k < i ==> RequiredMetaInfFiles[k] in reserved
      {
        if RequiredMetaInfFiles[i] !in reserved {
          assert !HasRequiredFiles(files);
          return Some(MissingRequiredFiles);
        }
      }
      // Of the reserved files only the container descriptor feeds the rest
      // of the library; the decoders of the other five are not modelled.
      assert RequiredMetaInfFiles[0] == ContainerFile;
      container := parseContainer(reserved[ContainerFile]);
      return None;
    }

    /** `MimeType`: the bytes of the `mimetype` entry, empty when absent. */
    function MimeTypeContent(): Bytes
      reads this
    {
      MimeTypeOf(files)
    }

    /** `SelectFile`: the bytes of the named file, or an error naming it. */
    function SelectFile(name: string): (r: Result<Bytes, string>)
      reads this
      ensures r.Ok? <==> name in files
      ensures r.Ok? ==> r.value == files[name]
      ensures r.Err? ==> r.error == "No file found with name " + name
    {
      if name in files then Ok(files[name]) else Err("No file found with name " + name)
    }

    /** `NonMetaInfFiles`: exactly the files outside `META-INF`, bytes unchanged. */
    method NonMetaInfFiles() returns (result: map<string, Bytes>)
      ensures forall p :: p in result <==> p in files && OcfUtils.RootDirectory(p) != MetaInfDirectoryName
      ensures forall p :: p in result ==> result[p] == files[p]
    {
      result := map[];
      var todo := files.Keys;
      while todo != {}
        invariant todo <= files.Keys
        invariant forall p :: p in result <==> p in files && p !in todo && OcfUtils.RootDirectory(p) != MetaInfDirectoryName
        invariant forall p :: p in result ==> result[p] == files[p]
        decreases todo
      {
        var filePath :| filePath in todo;
        todo := todo - {filePath};
        if OcfUtils.RootDirectory(filePath) != MetaInfDirectoryName {
          result := result[filePath := files[filePath]];
        }
      }
    }

    /** `AddFile`: bind the path to the content, replacing any earlier binding. */
    method AddFile(filePath: string, content: Bytes)
      modifies this`files
      ensures files == old(files)[filePath := content]
    {
      files := files[filePath := content];
    }

    /** `AddMimeType`: bind `mimetype` to the EPUB media type. */
    method AddMimeType()
      modifies this`files
      ensures files == old(files)[MimeTypePath := MimeTypeBytes()]
    {
      AddFile(MimeTypePath, MimeTypeBytes());
    }

    /** `AddContainerXML`: build the descriptor naming the given package
        paths and store its encoding, after the XML header, at
        `META-INF/container.xml`. */
    method AddContainerXML(rootFiles: seq<string>, encode: ContainerDoc -> Bytes)
      modifies this`files
      ensures files == old(files)[ContainerXmlPath := XmlHeaderBytes() + encode(ContainerFor(rootFiles))]
    {
      var declared: seq<RootFile> := [];
      for i := 0 to |rootFiles|
        invariant declared == ContainerFor(rootFiles[..i]).rootFiles
      {
        declared := declared + [RootFile(rootFiles[i], EPUBContainerMime, "", "", "", "", "")];
      }
      assert rootFiles[..|rootFiles|] == rootFiles;
      var doc := ContainerDoc(ContainerNamespace, "1.0", declared);
      AddFile(ContainerXmlPath, XmlHeaderBytes() + encode(doc));
    }

    /** The files `Write` hands to the zip writer: every entry exactly once,
        in map iteration order (so `mimetype` is not necessarily first), each
        with the compression `addFileToZip` chooses. */
    method WriteEntries() returns (out: seq<ZipOutEntry>)
      ensures |out| == |files|
      ensures forall i, j :: 0 <= i < j < |out| ==> out[i].name != out[j].name
      ensures forall i :: 0 <= i < |out| ==>
                out[i].name in files && out[i].content == files[out[i].name]
                && out[i].compression == CompressionFor(out[i].name)
      ensures forall p :: p in files ==> exists i :: 0 <= i < |out| && out[i].name == p
    {
      out := [];
      var todo := files.Keys;
      while todo != {}
        invariant todo <= files.Keys
        invariant |out| + |todo| == |files.Keys|
        invariant forall i, j :: 0 <= i < j < |out| ==> out[i].name != out[j].name
        invariant forall i :: 0 <= i < |out| ==>
                    out[i].name in files && out[i].name !in todo && out[i].content == files[out[i].name]
                    && out[i].compression == CompressionFor(out[i].name)
        invariant forall p :: p in files && p !in todo ==> exists i :: 0 <= i < |out| && out[i].name == p
        decreases todo
      {
        var name :| name in todo;
        ghost var before := out;
        out := out + [ZipOutEntry(name, CompressionFor(name), files[name])];
        todo := todo - {name};
        assert out[|out| - 1].name == name;
        forall p | p in files && p !in todo
          ensures exists i :: 0 <= i < |out| && out[i].name == p
        {
          if p != name {
            var i :| 0 <= i < |before| && before[i].name == p;
            assert out[i].name == p;
          }
        }
      }
    }
  }
}
