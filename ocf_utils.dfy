/** The root-directory helper of the container layer (ocf/utils.go). */
module OcfUtils {
  import Text
  import Paths

  /**
   * `getRootDirectory`: the first segment of the cleaned path, or the
   * separator for a rooted path. Only `/`-separated paths without a volume
   * name are modelled.
   */
  function RootDirectory(p: string): (r: string)
    ensures r != ""
    ensures p != "" && p[0] == '/' ==> r == "/"
    ensures r != "/" ==> '/' !in r && Text.HasPrefix(Paths.Clean(p), r)
  {
    var parts := Paths.Split(Paths.Clean(p));
    if parts[0] != "" then parts[0] else "/"
  }

  /** For a relative path the root directory is the first segment that
      survives cleaning, and `.` when none does. */
  lemma RootDirectoryRelative(p: string)
    requires p != "" && p[0] != '/'
    ensures var out := Paths.Fold([], Paths.Split(p), false);
            RootDirectory(p) == if out == [] then "." else out[0]
  {
    var out := Paths.Fold([], Paths.Split(p), false);
    Paths.FoldNormal(Paths.Split(p), false);
    if out == [] {
      Paths.SplitNoSlash(".");
    } else {
      Paths.SplitOfJoin(out);
      Paths.JoinFirst(out);
    }
  }

  /** A path lies under a directory `d` exactly when its cleaned form is `d`
      or starts with `d/`. */
  lemma RootDirectoryIs(p: string, d: string)
    requires d != "" && '/' !in d
    ensures RootDirectory(p) == d <==> (Paths.Clean(p) == d || Text.HasPrefix(Paths.Clean(p), d + "/"))
  {
    var c := Paths.Clean(p);
    if c == d {
      Paths.SplitNoSlash(d);
    } else if Text.HasPrefix(c, d + "/") {
      var rest := c[|d| + 1..];
      assert c == d + "/" + rest;
      Paths.SplitPrefix(d, rest);
    }
  }

  /** A plain segment: kept as is by cleaning. */
  predicate PlainSegment(s: string) {
    s != "" && s != "." && s != ".." && '/' !in s
  }

  /** `dir/name` with two plain segments has root directory `dir`. */
  lemma RootDirectoryOfChild(dir: string, name: string)
    requires PlainSegment(dir) && PlainSegment(name)
    ensures RootDirectory(dir + "/" + name) == dir
  {
    var p := dir + "/" + name;
    Paths.SplitPrefix(dir, name);
    Paths.SplitNoSlash(name);
    var segs := [dir, name];
    assert Paths.Split(p) == segs;
    assert segs[..1] == [dir] && segs[..1][..0] == [];
    assert Paths.Fold([], segs[..1], false) == [dir];
    assert Paths.Fold([], segs, false) == [dir, name];
    RootDirectoryRelative(p);
  }

  lemma SplitDotted(dir: string, name: string)
    requires PlainSegment(dir) && PlainSegment(name)
    ensures Paths.Split("./" + dir + "//" + name) == [".", dir, "", name]
  {
    SplitDottedParts(".", dir, name);
    DottedShape(dir, name);
  }

  lemma SplitDottedParts(w: string, dir: string, name: string)
    requires '/' !in w && PlainSegment(dir) && PlainSegment(name)
    ensures Paths.Split(w + "/" + (dir + "/" + ("" + "/" + name))) == [w, dir, "", name]
  {
    SplitDirEmptyName(dir, name);
    Paths.SplitPrefix(w, dir + "/" + ("" + "/" + name));
  }

  lemma SplitDirEmptyName(dir: string, name: string)
    requires PlainSegment(dir) && PlainSegment(name)
    ensures Paths.Split(dir + "/" + ("" + "/" + name)) == [dir, "", name]
  {
    Paths.SplitNoSlash(name);
    Paths.SplitPrefix("", name);
    Paths.SplitPrefix(dir, "" + "/" + name);
  }

  lemma DottedShape(dir: string, name: string)
    ensures "./" + dir + "//" + name == "." + "/" + (dir + "/" + ("" + "/" + name))
  {
    assert "./" == "." + "/" && "//" == "/" + "/";
  }

  /** `./dir//name` cleans to `dir/name`, so its root directory is `dir`. */
  lemma RootDirectoryOfDotted(dir: string, name: string)
    requires PlainSegment(dir) && PlainSegment(name)
    ensures RootDirectory("./" + dir + "//" + name) == dir
  {
    var p := "./" + dir + "//" + name;
    var segs := [".", dir, "", name];
    SplitDotted(dir, name);
    assert segs[..3] == [".", dir, ""];
    assert segs[..3][..2] == [".", dir];
    assert segs[..3][..2][..1] == ["."];
    assert segs[..3][..2][..1][..0] == [];
    assert Paths.Fold([], segs[..3][..2][..1], false) == [];
    assert Paths.Fold([], segs[..3][..2], false) == [dir];
    assert Paths.Fold([], segs[..3], false) == [dir];
    assert Paths.Fold([], segs, false) == [dir, name];
    RootDirectoryRelative(p);
  }

  lemma RootDirectoryOfEmpty()
    ensures RootDirectory("") == "."
  {
    Paths.SplitNoSlash(".");
  }
}
