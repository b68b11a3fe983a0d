/** Opening an OCF zip container: read its files, check `META-INF`, check the media type. */
module OcfReader {
  import opened Wrappers
  import opened Ocf

  const MimetypeMismatch := "Mimetype mismatch"

  /** `newContainerAndParse`. The three failures are reported in this order:
      an unreadable file (the container read so far is still returned), a
      missing `container.xml` (likewise), and a `mimetype` entry other than
      `application/epub+zip` (no container is returned). */
  method NewContainerAndParse(entries: seq<ZipEntry>, parseContainer: Bytes -> ContainerDoc)
    returns (c: OCFZipContainer?, err: Option<string>)
    ensures var k := ReadFailure(entries);
            k < |entries| ==> c != null && c.files == StoredFiles(entries[..k])
                              && err == Some(entries[k].content.error)
    ensures ReadFailure(entries) == |entries| && !HasRequiredFiles(StoredFiles(entries)) ==>
              c != null && c.files == StoredFiles(entries) && err == Some(MissingRequiredFiles)
    ensures ReadFailure(entries) == |entries| && HasRequiredFiles(StoredFiles(entries))
            && MimeTypeOf(StoredFiles(entries)) != MimeTypeBytes() ==>
              c == null && err == Some(MimetypeMismatch)
    ensures err.None? <==> ReadFailure(entries) == |entries| && HasRequiredFiles(StoredFiles(entries))
                           && MimeTypeOf(StoredFiles(entries)) == MimeTypeBytes()
    ensures err.None? ==>
              c != null && c.files == StoredFiles(entries)
              && exists p :: p in c.files && IsReservedAs(p, ContainerFile) && c.container == parseContainer(c.files[p])
  {
    c := new OCFZipContainer();
    err := c.ReadFiles(entries);
    assert entries[..|entries|] == entries;
    if err.Some? {
      return;
    }
    err := c.ParseAllMetaInfFiles(parseContainer);
    if err.Some? {
      return;
    }
    if c.MimeTypeContent() != MimeTypeBytes() {
      return null, Some(MimetypeMismatch);
    }
  }

  /** `NewReader` / `OpenReader`: the zip layer either yields the archive's
      entries or an error, which is returned as is. */
  method NewReader(archive: Result<seq<ZipEntry>, string>, parseContainer: Bytes -> ContainerDoc)
    returns (c: OCFZipContainer?, err: Option<string>)
    ensures archive.Err? ==> c == null && err == Some(archive.error)
    ensures archive.Ok? ==>
              (err.None? <==> ReadFailure(archive.value) == |archive.value|
                              && HasRequiredFiles(StoredFiles(archive.value))
                              && MimeTypeOf(StoredFiles(archive.value)) == MimeTypeBytes())
    ensures err.None? ==> c != null && archive.Ok? && c.files == StoredFiles(archive.value)
  {
    if archive.Err? {
      return null, Some(archive.error);
    }
    c, err := NewContainerAndParse(archive.value, parseContainer);
  }
}
