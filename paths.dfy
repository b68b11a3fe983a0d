/**
 * Lexical slash-separated paths as Go's `path` and `path/filepath` packages
 * treat them on a system whose separator is `/`: `strings.Split` on the
 * separator, `Clean`, `Dir`, `Base` and two-element `Join`.
 */
module Paths {
  import Text

  /** `strings.Split(s, "/")`: the segments between separators, at least one. */
  function Split(s: string): (r: seq<string>)
    ensures |r| >= 1
    ensures forall k :: 0 <= k < |r| ==> '/' !in r[k]
    ensures Text.HasPrefix(s, r[0]) && (|r[0]| == |s| || s[|r[0]|] == '/')
    ensures |r| == 1 <==> '/' !in s
  {
    if s == [] then [""]
    else if s[0] == '/' then [""] + Split(s[1..])
    else
      var t := Split(s[1..]);
      assert s[1..][..|t[0]|] == t[0];
      [[s[0]] + t[0]] + t[1..]
  }

  /** `strings.Join(segs, "/")`. */
  function JoinSegments(segs: seq<string>): string {
    Text.Join(segs, "/")
  }

  lemma {:induction false} SplitOfJoin(segs: seq<string>)
    requires |segs| >= 1
    requires forall k :: 0 <= k < |segs| ==> '/' !in segs[k]
    ensures Split(JoinSegments(segs)) == segs
    decreases segs
  {
    if |segs| > 1 {
      SplitOfJoin(segs[1..]);
      SplitPrefix(segs[0], JoinSegments(segs[1..]));
    } else {
      SplitNoSlash(segs[0]);
    }
  }

  lemma {:induction false} SplitNoSlash(w: string)
    requires '/' !in w
    ensures Split(w) == [w]
  {
    var r := Split(w);
    assert |r| == 1;
    assert r[0] == w[..|r[0]|] == w;
    assert r == [r[0]];
  }

  lemma {:induction false} SplitPrefix(w: string, rest: string)
    requires '/' !in w
    ensures Split(w + "/" + rest) == [w] + Split(rest)
    decreases |w|
  {
    if w == [] {
      assert w + "/" + rest == ['/'] + rest;
      assert (['/'] + rest)[1..] == rest;
    } else {
      assert (w + "/" + rest)[1..] == w[1..] + "/" + rest;
      SplitPrefix(w[1..], rest);
      assert [w[0]] + w[1..] == w;
    }
  }

  /** The segments a cleaned path keeps: no empty or `.` segment, `..` only
      at the front, and none at all below the root. */
  ghost predicate Normal(out: seq<string>, rooted: bool) {
    && (forall k :: 0 <= k < |out| ==> out[k] != "" && out[k] != "." && '/' !in out[k])
    && (forall i, j :: 0 <= i < j < |out| && out[j] == ".." ==> out[i] == "..")
    && (rooted ==> forall k :: 0 <= k < |out| ==> out[k] != "..")
  }

  /** One segment of Go's `Clean`: drop empty and `.` segments; `..` removes
      the previous real segment, is kept at the front of a relative path and
      dropped at the root. */
  function Step(out: seq<string>, seg: string, rooted: bool): seq<string> {
    if seg == "" || seg == "." then out
    else if seg == ".." then
      if |out| > 0 && out[|out| - 1] != ".." then out[..|out| - 1]
      else if rooted then out
      else out + [".."]
    else out + [seg]
  }

  function Fold(init: seq<string>, segs: seq<string>, rooted: bool): seq<string>
    decreases |segs|
  {
    if segs == [] then init
    else Step(Fold(init, segs[..|segs| - 1], rooted), segs[|segs| - 1], rooted)
  }

  lemma {:induction false} StepNormal(out: seq<string>, seg: string, rooted: bool)
    requires Normal(out, rooted) && '/' !in seg
    ensures Normal(Step(out, seg, rooted), rooted)
  {
  }

  lemma {:induction false} FoldNormal(segs: seq<string>, rooted: bool)
    requires forall k :: 0 <= k < |segs| ==> '/' !in segs[k]
    ensures Normal(Fold([], segs, rooted), rooted)
    decreases |segs|
  {
    if segs != [] {
      FoldNormal(segs[..|segs| - 1], rooted);
      StepNormal(Fold([], segs[..|segs| - 1], rooted), segs[|segs| - 1], rooted);
    }
  }

  lemma {:induction false} FoldAppend(init: seq<string>, a: seq<string>, b: seq<string>, rooted: bool)
    ensures Fold(init, a + b, rooted) == Fold(Fold(init, a, rooted), b, rooted)
    decreases |b|
  {
    if b == [] {
      assert a + b == a;
    } else {
      assert (a + b)[..|a + b| - 1] == a + b[..|b| - 1];
      FoldAppend(init, a, b[..|b| - 1], rooted);
    }
  }

  /** Folding a normal sequence gives it back unchanged. */
  lemma {:induction false} FoldOfNormal(out: seq<string>, rooted: bool)
    requires Normal(out, rooted)
    ensures Fold([], out, rooted) == out
    decreases |out|
  {
    if out != [] {
      var n := |out| - 1;
      var init := out[..n];
      NormalSnoc(out, rooted);
      FoldOfNormal(init, rooted);
    }
  }

  /** A normal sequence is its normal prefix with one segment that `Step`
      appends. */
  lemma NormalSnoc(out: seq<string>, rooted: bool)
    requires Normal(out, rooted) && out != []
    ensures Normal(out[..|out| - 1], rooted)
    ensures Step(out[..|out| - 1], out[|out| - 1], rooted) == out
  {
    var n := |out| - 1;
    var init := out[..n];
    var last := out[n];
    assert forall k :: 0 <= k < n ==> init[k] == out[k];
    if last == ".." && init != [] {
      assert init[n - 1] == out[n - 1];
    }
    assert init + [last] == out;
  }

  /** `path.Clean`: the shortest lexically equivalent path. */
  function Clean(p: string): (r: string)
    ensures r != ""
  {
    if p == [] then "."
    else
      var rooted := p[0] == '/';
      var body := JoinSegments(Fold([], Split(p), rooted));
      var r := if rooted then "/" + body else body;
      if r == [] then "." else r
  }

  lemma JoinFirst(segs: seq<string>)
    requires |segs| >= 1 && segs[0] != ""
    ensures JoinSegments(segs) != [] && JoinSegments(segs)[0] == segs[0][0]
  {
  }

  /** Cleaning is idempotent: a cleaned path is its own clean form. */
  lemma CleanIdempotent(p: string)
    ensures Clean(Clean(p)) == Clean(p)
  {
    if p != [] {
      var rooted := p[0] == '/';
      var out := Fold([], Split(p), rooted);
      FoldNormal(Split(p), rooted);
      if out == [] {
        if rooted {
          CleanOfRoot();
        } else {
          CleanOfDot();
        }
      } else {
        JoinFirst(out);
        if rooted {
          CleanOfRootedNormal(out);
        } else {
          CleanOfRelativeNormal(out);
        }
      }
    }
  }

  lemma CleanOfDot()
    ensures Clean(".") == "."
  {
    SplitNoSlash(".");
  }

  lemma CleanOfRoot()
    ensures Clean("/") == "/"
  {
    assert Split("/") == ["", ""];
    assert Fold([], ["", ""], true) == [] by {
      assert ["", ""][..1] == [""];
      assert [""][..0] == [];
    }
  }

  lemma CleanOfRelativeNormal(out: seq<string>)
    requires out != [] && Normal(out, false)
    ensures Clean(JoinSegments(out)) == JoinSegments(out)
  {
    SplitOfJoin(out);
    JoinFirst(out);
    FoldOfNormal(out, false);
  }

  lemma CleanOfRootedNormal(out: seq<string>)
    requires out != [] && Normal(out, true)
    ensures Clean("/" + JoinSegments(out)) == "/" + JoinSegments(out)
  {
    var c := "/" + JoinSegments(out);
    assert c[1..] == JoinSegments(out);
    SplitOfJoin(out);
    assert Split(c) == [""] + out;
    FoldAppend([], [""], out, true);
    FoldOfNormalFrom(out, true);
  }

  lemma FoldOfNormalFrom(out: seq<string>, rooted: bool)
    requires Normal(out, rooted)
    ensures Fold(Fold([], [""], rooted), out, rooted) == out
  {
    assert Fold([], [""], rooted) == [] by { assert [""][..0] == []; }
    FoldOfNormal(out, rooted);
  }

  /** Index of the last `/` in `s`, or -1. */
  function LastSlash(s: string): (i: int)
    ensures -1 <= i < |s|
    ensures i >= 0 ==> s[i] == '/'
    ensures forall k :: i < k < |s| ==> s[k] != '/'
  {
    if s == [] then -1
    else if s[|s| - 1] == '/' then |s| - 1
    else LastSlash(s[..|s| - 1])
  }

  /** `filepath.Dir`: everything up to the last separator, cleaned. */
  function Dir(p: string): (r: string)
    ensures r != ""
  {
    Clean(p[..LastSlash(p) + 1])
  }

  function TrimTrailingSlashes(p: string): (r: string)
    ensures Text.HasPrefix(p, r) && (r == [] || r[|r| - 1] != '/')
  {
    if p != [] && p[|p| - 1] == '/' then TrimTrailingSlashes(p[..|p| - 1]) else p
  }

  /** `path.Base`: the last element, trailing slashes removed. */
  function Base(p: string): (r: string)
    ensures r != ""
    ensures r != "/" ==> '/' !in r
  {
    if p == [] then "."
    else
      var t := TrimTrailingSlashes(p);
      if t == [] then "/"
      else t[LastSlash(t) + 1..]
  }

  /** `filepath.Join(a, b)`: the non-empty elements joined by `/` and cleaned. */
  function JoinPath(a: string, b: string): (r: string)
    ensures r == "" <==> a == "" && b == ""
  {
    if a != "" then Clean(a + "/" + b)
    else if b != "" then Clean(b)
    else ""
  }
}
