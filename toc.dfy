/**
 * The table of contents (`toc.go`): one tree of entries built either from
 * the EPUB 3 navigation document (the `nav` element whose attribute value
 * is `toc`, EPUB 3.3 section 7) or from the legacy NCX, with flattening and
 * per-level views of the NCX tree.
 */
module Toc {
  import opened Wrappers
  import Text
  import Html
  import Ncx
  import Pkg
  import opened EpubModel
  import Resources
  import Content

  type Bytes = seq<Text.byte>

  /** An entry of the table of contents, whether it carries the reader
      (the unexported `reader` field is non-nil), and the NCX it was built
      from. Only the root that `TableOfContents` returns carries the reader
      and the NCX; the entries below it are built without either. */
  datatype TOC = TOC(title: string, href: string, items: seq<TOC>, hasReader: bool, ncx: Option<Ncx.NCX>)

  /** The zero value `TOC{}`. */
  const EmptyTOC := TOC("", "", [], false, None)

  /** The zero value with the reader attached, where `TableOfContents` starts. */
  const RootTOC := TOC("", "", [], true, None)

  const NavNotFound := "nav element with id='toc' not found"

  // ---------------------------------------------------------------------
  // The nav element

  /** An element with some attribute whose value is `toc`. */
  predicate IsNavCandidate(n: Html.Node) {
    n.kind == Html.ElementNode && exists i :: 0 <= i < |n.attrs| && n.attrs[i].val == "toc"
  }

  /** `findNavNode`: the last candidate found by a search that does not
      look inside a candidate. */
  function FindNav(n: Html.Node): (nav: Option<Html.Node>)
    ensures nav.None? <==> Html.NoMatch([n] + Html.Descendants(n), IsNavCandidate)
    ensures nav.Some? ==> IsNavCandidate(nav.value) && nav.value in [n] + Html.Descendants(n)
    ensures nav.Some? ==> exists i :: Html.IsLastOutermost([n] + Html.Descendants(n), i, IsNavCandidate)
                                      && ([n] + Html.Descendants(n))[i] == nav.value
  {
    Html.LastMatchAt(n, IsNavCandidate);
    Html.LastMatch(n, IsNavCandidate)
  }

  // ---------------------------------------------------------------------
  // Text content

  /** The text of the text nodes of the tree, in document order. */
  function TextOf(n: Html.Node): string
    decreases n
  {
    (if n.kind == Html.TextNode then n.data else "") + TextsOf(n.children)
  }

  function TextsOf(cs: seq<Html.Node>): string
    decreases cs
  {
    if cs == [] then "" else var n := |cs| - 1; TextsOf(cs[..n]) + TextOf(cs[n])
  }

  /** The text of the text nodes of a list of nodes, ignoring what is below them. */
  function TextData(ns: seq<Html.Node>): string
    decreases |ns|
  {
    if ns == [] then ""
    else
      var n := |ns| - 1;
      TextData(ns[..n]) + (if ns[n].kind == Html.TextNode then ns[n].data else "")
  }

  lemma {:induction false} TextDataAppend(a: seq<Html.Node>, b: seq<Html.Node>)
    ensures TextData(a + b) == TextData(a) + TextData(b)
    decreases |b|
  {
    if b == [] {
      assert a + b == a;
    } else {
      var n := |b| - 1;
      assert (a + b)[..|a| + n] == a + b[..n];
      TextDataAppend(a, b[..n]);
    }
  }

  /** The text of a tree is the text of its nodes listed in pre-order. */
  lemma {:induction false} TextOfPreorder(n: Html.Node)
    ensures TextOf(n) == TextData([n] + Html.Descendants(n))
    decreases n, 1
  {
    TextsOfPreorder(n.children);
    TextDataAppend([n], Html.Descendants(n));
    assert [n][..0] == [];
  }

  lemma {:induction false} TextsOfPreorder(cs: seq<Html.Node>)
    ensures TextsOf(cs) == TextData(Html.DescendantsOf(cs))
    decreases cs, 0
  {
    if cs != [] {
      var n := |cs| - 1;
      var c := cs[n];
      assert cs == cs[..n] + [c];
      Html.DescendantsOfAppend(cs[..n], [c]);
      assert [c][1..] == [];
      assert Html.DescendantsOf([c]) == [c] + Html.Descendants(c);
      TextsOfPreorder(cs[..n]);
      TextOfPreorder(c);
      TextDataAppend(Html.DescendantsOf(cs[..n]), [c] + Html.Descendants(c));
    }
  }

  /** The text of the tree with surrounding white space trimmed. */
  function TextContent(n: Html.Node): string {
    Text.TrimSpace(TextOf(n))
  }

  /** The recursive walk that writes the text nodes into a builder. */
  method ExtractText(n: Html.Node, text: string) returns (r: string)
    ensures r == text + TextOf(n)
    decreases n
  {
    r := text;
    if n.kind == Html.TextNode {
      r := r + n.data;
    }
    ghost var own := if n.kind == Html.TextNode then n.data else "";
    for i := 0 to |n.children|
      invariant r == text + own + TextsOf(n.children[..i])
    {
      assert n.children[..i + 1][..i] == n.children[..i];
      r := ExtractText(n.children[i], r);
    }
    assert n.children[..|n.children|] == n.children;
  }

  /** `getTextContent`: the text nodes of the tree in pre-order,
      concatenated and trimmed. */
  method GetTextContent(n: Html.Node) returns (s: string)
    ensures s == TextContent(n)
    ensures s == Text.TrimSpace(TextData([n] + Html.Descendants(n)))
  {
    var text := ExtractText(n, "");
    assert text == TextOf(n);
    TextOfPreorder(n);
    s := Text.TrimSpace(text);
  }

  // ---------------------------------------------------------------------
  // Lists

  predicate IsTagged(n: Html.Node, tags: set<string>) {
    n.kind == Html.ElementNode && n.data in tags
  }

  const ListTags := {"ol", "ul"}

  /** Index of the first element of `cs` whose tag is one of `tags`, or -1. */
  function FirstTagged(cs: seq<Html.Node>, tags: set<string>): (k: int)
    ensures -1 <= k < |cs|
    ensures k >= 0 ==> IsTagged(cs[k], tags)
    ensures forall j :: 0 <= j < |cs| && (k < 0 || j < k) ==> !IsTagged(cs[j], tags)
    decreases |cs|
  {
    if cs == [] then -1
    else
      var n := |cs| - 1;
      var k := FirstTagged(cs[..n], tags);
      if k >= 0 then k else if IsTagged(cs[n], tags) then n else -1
  }

  /** Index of the last element of `cs` whose tag is one of `tags`, or -1. */
  function LastTagged(cs: seq<Html.Node>, tags: set<string>): (k: int)
    ensures -1 <= k < |cs|
    ensures k >= 0 ==> IsTagged(cs[k], tags)
    ensures forall j :: k < j < |cs| ==> !IsTagged(cs[j], tags)
    decreases |cs|
  {
    if cs == [] then -1
    else
      var n := |cs| - 1;
      if IsTagged(cs[n], tags) then n else LastTagged(cs[..n], tags)
  }

  /** One step of the scans for the first and the last tagged child. */
  lemma TaggedStep(cs: seq<Html.Node>, i: nat, tags: set<string>)
    requires i < |cs|
    ensures FirstTagged(cs[..i + 1], tags) ==
              var k := FirstTagged(cs[..i], tags);
              if k >= 0 then k else if IsTagged(cs[i], tags) then i else -1
    ensures LastTagged(cs[..i + 1], tags) ==
              if IsTagged(cs[i], tags) then i else LastTagged(cs[..i], tags)
  {
    assert cs[..i + 1][..i] == cs[..i];
  }

  /** Index of the first element of `cs`, or -1. */
  function FirstElement(cs: seq<Html.Node>): (k: int)
    ensures -1 <= k < |cs|
    ensures k >= 0 ==> cs[k].kind == Html.ElementNode
    ensures forall j :: 0 <= j < |cs| && (k < 0 || j < k) ==> cs[j].kind != Html.ElementNode
    decreases |cs|
  {
    if cs == [] then -1
    else
      var n := |cs| - 1;
      var k := FirstElement(cs[..n]);
      if k >= 0 then k else if cs[n].kind == Html.ElementNode then n else -1
  }

  lemma {:induction false} FirstElementAt(cs: seq<Html.Node>, i: int)
    requires 0 <= i < |cs| && cs[i].kind == Html.ElementNode
    requires forall k :: 0 <= k < i ==> cs[k].kind != Html.ElementNode
    ensures FirstElement(cs) == i
  {
  }

  /** `parseList`: one entry per `li` child, in order. */
  function ListItems(list: Html.Node): seq<TOC>
    decreases list, 1
  {
    ItemsOf(list.children)
  }

  function ItemsOf(cs: seq<Html.Node>): seq<TOC>
    decreases cs, 0
  {
    if cs == [] then []
    else
      var n := |cs| - 1;
      ItemsOf(cs[..n]) + (if Html.IsElement(cs[n], "li") then [ListItem(cs[n])] else [])
  }

  /** `parseListItem`: title and href from the first `a` child (empty when
      there is none), entries from the last `ol` or `ul` child. */
  function ListItem(li: Html.Node): (item: TOC)
    decreases li, 0
  {
    var a := FirstTagged(li.children, {"a"});
    var s := LastTagged(li.children, ListTags);
    TOC(if a >= 0 then TextContent(li.children[a]) else "",
        if a >= 0 then Html.AttrValue(li.children[a].attrs, "href") else "",
        if s >= 0 then ListItems(li.children[s]) else [],
        false, None)
  }

  /** The `li` children, in order. */
  function ListElements(cs: seq<Html.Node>): (lis: seq<Html.Node>)
    ensures forall j :: 0 <= j < |lis| ==> Html.IsElement(lis[j], "li")
    decreases |cs|
  {
    if cs == [] then []
    else
      var n := |cs| - 1;
      ListElements(cs[..n]) + (if Html.IsElement(cs[n], "li") then [cs[n]] else [])
  }

  /** Exactly one entry per `li` child, in the children's order. */
  lemma {:induction false} ItemsOfElements(cs: seq<Html.Node>)
    ensures |ItemsOf(cs)| == |ListElements(cs)|
    ensures forall j :: 0 <= j < |ItemsOf(cs)| ==> ItemsOf(cs)[j] == ListItem(ListElements(cs)[j])
    decreases |cs|
  {
    if cs != [] {
      ItemsOfElements(cs[..|cs| - 1]);
    }
  }

  /** `parseList` with its loop over the children. */
  method ParseList(list: Html.Node) returns (items: seq<TOC>)
    ensures items == ListItems(list)
    decreases list, 1
  {
    items := [];
    var cs := list.children;
    for i := 0 to |cs|
      invariant items == ItemsOf(cs[..i])
    {
      assert cs[..i + 1][..i] == cs[..i];
      var li := cs[i];
      if li.kind == Html.ElementNode && li.data == "li" {
        var item := ParseListItem(li);
        items := items + [item];
      }
    }
    assert cs[..|cs|] == cs;
  }

  /** The value of the first `href` attribute, found by a scan that stops there. */
  method AnchorHref(anchor: Html.Node) returns (href: string)
    ensures href == Html.AttrValue(anchor.attrs, "href")
  {
    href := "";
    var i := 0;
    while i < |anchor.attrs|
      invariant 0 <= i <= |anchor.attrs|
      invariant forall k :: 0 <= k < i ==> anchor.attrs[k].key != "href"
    {
      if anchor.attrs[i].key == "href" {
        href := anchor.attrs[i].val;
        return;
      }
      i := i + 1;
    }
  }

  /** The loop of `parseListItem`: the first anchor child and the last
      nested list child, each -1 when there is none. */
  method ScanListItem(cs: seq<Html.Node>) returns (anchor: int, subList: int)
    ensures anchor == FirstTagged(cs, {"a"})
    ensures subList == LastTagged(cs, ListTags)
  {
    anchor := -1;
    subList := -1;
    for i := 0 to |cs|
      invariant anchor == FirstTagged(cs[..i], {"a"})
      invariant subList == LastTagged(cs[..i], ListTags)
    {
      TaggedStep(cs, i, {"a"});
      TaggedStep(cs, i, ListTags);
      var c := cs[i];
      if c.kind == Html.ElementNode {
        if c.data == "a" && anchor == -1 {
          anchor := i;
        } else if c.data == "ol" || c.data == "ul" {
          subList := i;
        }
      }
    }
    assert cs[..|cs|] == cs;
  }

  /** `parseListItem` with its loop over the children. */
  method ParseListItem(li: Html.Node) returns (item: TOC)
    ensures item == ListItem(li)
    decreases li, 0
  {
    item := EmptyTOC;
    var cs := li.children;
    var anchor, subList := ScanListItem(cs);
    if anchor >= 0 {
      var href := AnchorHref(cs[anchor]);
      var title := GetTextContent(cs[anchor]);
      item := item.(href := href, title := title);
    }
    if subList >= 0 {
      var items := ParseList(cs[subList]);
      item := item.(items := items);
    }
  }

  // ---------------------------------------------------------------------
  // The navigation document

  /** `parseNav` on the root: the title is the text of the first element
      child; the entries come from the first `ol` or `ul` child only. */
  function NavTOC(nav: Html.Node): TOC {
    var t := FirstElement(nav.children);
    var l := FirstTagged(nav.children, ListTags);
    TOC(if t >= 0 then TextContent(nav.children[t]) else "", "",
        if l >= 0 then ListItems(nav.children[l]) else [], true, None)
  }

  /** The first loop of `parseNav`: the text of the first element child. */
  method NavTitle(cs: seq<Html.Node>) returns (title: string)
    ensures var t := FirstElement(cs); title == if t >= 0 then TextContent(cs[t]) else ""
  {
    title := "";
    var i := 0;
    while i < |cs|
      invariant 0 <= i <= |cs|
      invariant forall k :: 0 <= k < i ==> cs[k].kind != Html.ElementNode
    {
      if cs[i].kind == Html.ElementNode {
        FirstElementAt(cs, i);
        title := GetTextContent(cs[i]);
        return;
      }
      i := i + 1;
    }
  }

  /** The second loop of `parseNav`: the entries of the first list child. */
  method NavItems(cs: seq<Html.Node>) returns (items: seq<TOC>)
    ensures var l := FirstTagged(cs, ListTags); items == if l >= 0 then ListItems(cs[l]) else []
  {
    items := [];
    var j := 0;
    while j < |cs|
      invariant 0 <= j <= |cs|
      invariant forall k :: 0 <= k < j ==> !IsTagged(cs[k], ListTags)
    {
      if cs[j].kind == Html.ElementNode && (cs[j].data == "ol" || cs[j].data == "ul") {
        items := ParseList(cs[j]);
        return;
      }
      j := j + 1;
    }
  }

  method ParseNav(nav: Html.Node) returns (toc: TOC)
    ensures toc == NavTOC(nav)
  {
    var title := NavTitle(nav.children);
    var items := NavItems(nav.children);
    toc := TOC(title, "", items, true, None);
  }

  /** `parseFromHTML`: the entries of the nav element, or the error when
      the document has none. */
  function FromHTML(node: Html.Node): (Option<string>, TOC) {
    var nav := FindNav(node);
    if nav.None? then (Some(NavNotFound), RootTOC) else (None, NavTOC(nav.value))
  }

  method ParseFromHTML(node: Html.Node) returns (err: Option<string>, toc: TOC)
    ensures (err, toc) == FromHTML(node)
    ensures err.Some? <==> Html.NoMatch([node] + Html.Descendants(node), IsNavCandidate)
  {
    var navNode := FindNav(node);
    if navNode.None? {
      return Some(NavNotFound), RootTOC;
    }
    toc := ParseNav(navNode.value);
    err := None;
  }

  /** An `li` with no direct `a` child has an empty title and href. */
  lemma ListItemWithoutAnchor(li: Html.Node)
    requires forall j :: 0 <= j < |li.children| ==> !Html.IsElement(li.children[j], "a")
    ensures ListItem(li).title == "" && ListItem(li).href == ""
  {
    var a := FirstTagged(li.children, {"a"});
    if a >= 0 {
      assert IsTagged(li.children[a], {"a"});
      assert Html.IsElement(li.children[a], "a");
    }
  }

  // ---------------------------------------------------------------------
  // The NCX

  /** The entry for one nav point, without its nested entries. */
  function Entry(p: Ncx.NavPoint): TOC {
    TOC(p.navLabel, p.src, [], false, None)
  }

  /** `convertNavPointsToTOCItems`: the nav point tree as entries. */
  function ConvertNavPoints(nps: seq<Ncx.NavPoint>): (ts: seq<TOC>)
    ensures |ts| == |nps|
    decreases nps
  {
    if nps == [] then []
    else
      var n := |nps| - 1;
      ConvertNavPoints(nps[..n]) + [Entry(nps[n]).(items := ConvertNavPoints(nps[n].children))]
  }

  /** One call of the `rangeNavPoints` callback: an entry and its depth. */
  datatype Visit = Visit(entry: TOC, depth: int)

  /** The callbacks `rangeNavPoints` makes, in order: each nav point at
      its depth, followed by its nested nav points one level deeper. */
  function Walk(nps: seq<Ncx.NavPoint>, depth: int): seq<Visit>
    decreases nps
  {
    if nps == [] then []
    else
      var n := |nps| - 1;
      Walk(nps[..n], depth) + [Visit(Entry(nps[n]), depth)] + Walk(nps[n].children, depth + 1)
  }

  /** The same walk over a tree of entries. */
  function WalkTOC(ts: seq<TOC>, depth: int): seq<Visit>
    decreases ts
  {
    if ts == [] then []
    else
      var n := |ts| - 1;
      WalkTOC(ts[..n], depth) + [Visit(TOC(ts[n].title, ts[n].href, [], false, None), depth)] + WalkTOC(ts[n].items, depth + 1)
  }

  /** The converted entries have the labels, targets, order and nesting of
      the nav points: walking both trees makes the same visits. */
  lemma {:induction false} WalkConverted(nps: seq<Ncx.NavPoint>, depth: int)
    ensures WalkTOC(ConvertNavPoints(nps), depth) == Walk(nps, depth)
    decreases nps
  {
    if nps != [] {
      var n := |nps| - 1;
      var ts := ConvertNavPoints(nps);
      assert ts[..n] == ConvertNavPoints(nps[..n]);
      WalkConverted(nps[..n], depth);
      WalkConverted(nps[n].children, depth + 1);
    }
  }

  /** The number of nav points in the tree. */
  function Count(nps: seq<Ncx.NavPoint>): nat
    decreases nps
  {
    if nps == [] then 0 else var n := |nps| - 1; Count(nps[..n]) + 1 + Count(nps[n].children)
  }

  /** The entries of `flattenNavPoints`, in pre-order. */
  function Flatten(nps: seq<Ncx.NavPoint>): seq<TOC>
    decreases nps
  {
    if nps == [] then []
    else
      var n := |nps| - 1;
      Flatten(nps[..n]) + [Entry(nps[n])] + Flatten(nps[n].children)
  }

  /** The entries of a list of visits. */
  function Entries(vs: seq<Visit>): (es: seq<TOC>)
    ensures |es| == |vs| && forall i :: 0 <= i < |vs| ==> es[i] == vs[i].entry
  {
    seq(|vs|, i requires 0 <= i < |vs| => vs[i].entry)
  }

  lemma EntriesAppend(x: seq<Visit>, y: seq<Visit>)
    ensures Entries(x + y) == Entries(x) + Entries(y)
  {
  }

  /** Flattening lists every visited nav point in the walk's order, and
      there are as many entries as nav points. */
  lemma {:induction false} FlattenIsWalk(nps: seq<Ncx.NavPoint>, depth: int)
    ensures Flatten(nps) == Entries(Walk(nps, depth))
    ensures |Flatten(nps)| == Count(nps)
    decreases nps
  {
    if nps != [] {
      var n := |nps| - 1;
      FlattenIsWalk(nps[..n], depth);
      FlattenIsWalk(nps[n].children, depth + 1);
      var a := Walk(nps[..n], depth);
      var b := [Visit(Entry(nps[n]), depth)];
      var c := Walk(nps[n].children, depth + 1);
      assert Walk(nps, depth) == a + b + c;
      EntriesAppend(a + b, c);
      EntriesAppend(a, b);
      assert Entries(b) == [Entry(nps[n])];
    }
  }

  /** `flattenNavPoints` appending through `*result`. */
  method FlattenNavPoints(nps: seq<Ncx.NavPoint>, result: seq<TOC>) returns (r: seq<TOC>)
    ensures r == result + Flatten(nps)
    decreases nps
  {
    r := result;
    for i := 0 to |nps|
      invariant r == result + Flatten(nps[..i])
    {
      assert nps[..i + 1][..i] == nps[..i];
      var p := nps[i];
      r := r + [TOC(p.navLabel, p.src, [], false, None)];
      if |p.children| > 0 {
        r := FlattenNavPoints(p.children, r);
      }
    }
    assert nps[..|nps|] == nps;
  }

  /** `flattenTOC`: nothing when no NCX is attached. */
  method FlattenTOC(t: TOC) returns (flat: seq<TOC>)
    ensures t.ncx.None? ==> flat == []
    ensures t.ncx.Some? ==> flat == Flatten(t.ncx.value.navPoints)
    ensures WithoutReader(flat)
  {
    if t.ncx.None? {
      return [];
    }
    flat := FlattenNavPoints(t.ncx.value.navPoints, []);
    FlattenWithoutReader(t.ncx.value.navPoints);
  }

  /** The entries `getTOCByLevel` collects while walking from `depth`. */
  function AtLevel(nps: seq<Ncx.NavPoint>, depth: int, level: int): seq<TOC>
    decreases nps
  {
    if nps == [] then []
    else
      var n := |nps| - 1;
      AtLevel(nps[..n], depth, level) + (if depth == level then [Entry(nps[n])] else [])
        + AtLevel(nps[n].children, depth + 1, level)
  }

  /** The visits made at one depth. */
  function AtDepth(vs: seq<Visit>, level: int): seq<Visit>
    decreases |vs|
  {
    if vs == [] then []
    else
      var n := |vs| - 1;
      AtDepth(vs[..n], level) + (if vs[n].depth == level then [vs[n]] else [])
  }

  lemma {:induction false} AtDepthAppend(a: seq<Visit>, b: seq<Visit>, level: int)
    ensures AtDepth(a + b, level) == AtDepth(a, level) + AtDepth(b, level)
    decreases |b|
  {
    if b == [] {
      assert a + b == a;
    } else {
      var n := |b| - 1;
      assert (a + b)[..|a| + n] == a + b[..n];
      AtDepthAppend(a, b[..n], level);
    }
  }

  /** `getTOCByLevel` yields exactly the nav points the walk visits at
      that depth, in the walk's order. */
  lemma {:induction false} AtLevelIsWalkAtDepth(nps: seq<Ncx.NavPoint>, depth: int, level: int)
    ensures AtLevel(nps, depth, level) == Entries(AtDepth(Walk(nps, depth), level))
    decreases nps
  {
    if nps != [] {
      var n := |nps| - 1;
      AtLevelIsWalkAtDepth(nps[..n], depth, level);
      AtLevelIsWalkAtDepth(nps[n].children, depth + 1, level);
      var a := Walk(nps[..n], depth);
      var b := [Visit(Entry(nps[n]), depth)];
      var c := Walk(nps[n].children, depth + 1);
      assert Walk(nps, depth) == a + b + c;
      AtDepthAppend(a + b, c, level);
      AtDepthAppend(a, b, level);
      var x := AtDepth(a, level);
      var y := AtDepth(b, level);
      var z := AtDepth(c, level);
      assert Entries(y) == if depth == level then [Entry(nps[n])] else [] by {
        assert b[..0] == [];
      }
      EntriesAppend(x + y, z);
      EntriesAppend(x, y);
    }
  }

  /** No nav point is visited above the depth the walk starts at. */
  lemma {:induction false} AtLevelAbove(nps: seq<Ncx.NavPoint>, depth: int, level: int)
    requires level < depth
    ensures AtLevel(nps, depth, level) == []
    decreases nps
  {
    if nps != [] {
      var n := |nps| - 1;
      AtLevelAbove(nps[..n], depth, level);
      AtLevelAbove(nps[n].children, depth + 1, level);
    }
  }

  /** `rangeNavPoints` with the callback of `getTOCByLevel`, which appends
      the entries at the requested depth. */
  method RangeNavPoints(nps: seq<Ncx.NavPoint>, depth: int, level: int, result: seq<TOC>) returns (r: seq<TOC>)
    ensures r == result + AtLevel(nps, depth, level)
    decreases nps
  {
    r := result;
    for i := 0 to |nps|
      invariant r == result + AtLevel(nps[..i], depth, level)
    {
      AtLevelStep(nps, depth, level, i);
      var p := nps[i];
      if depth == level {
        r := r + [TOC(p.navLabel, p.src, [], false, None)];
      }
      if |p.children| > 0 {
        r := RangeNavPoints(p.children, depth + 1, level, r);
      } else {
        assert AtLevel(p.children, depth + 1, level) == [];
      }
    }
    assert nps[..|nps|] == nps;
  }

  /** One more nav point: its own entry at the requested depth, then those
      of its children. */
  lemma AtLevelStep(nps: seq<Ncx.NavPoint>, depth: int, level: int, i: nat)
    requires i < |nps|
    ensures AtLevel(nps[..i + 1], depth, level)
            == AtLevel(nps[..i], depth, level) + (if depth == level then [Entry(nps[i])] else [])
               + AtLevel(nps[i].children, depth + 1, level)
  {
    assert nps[..i + 1][..i] == nps[..i];
  }

  /** `getTOCByLevel`: the entries at depth `level`, top level 0; nothing
      when no NCX is attached. */
  method GetTOCByLevel(t: TOC, level: int) returns (items: seq<TOC>)
    ensures t.ncx.None? ==> items == []
    ensures t.ncx.Some? ==> items == Entries(AtDepth(Walk(t.ncx.value.navPoints, 0), level))
    ensures WithoutReader(items)
  {
    if t.ncx.None? {
      return [];
    }
    items := RangeNavPoints(t.ncx.value.navPoints, 0, level, []);
    AtLevelIsWalkAtDepth(t.ncx.value.navPoints, 0, level);
    AtLevelWithoutReader(t.ncx.value.navPoints, 0, level);
  }

  /** `parseNCX` on the root: the document title and the converted nav
      map, with the NCX attached. */
  function NcxTOC(ncx: Ncx.NCX): (t: TOC)
    ensures t.ncx == Some(ncx) && t.title == ncx.docTitle && t.href == "" && t.hasReader
    ensures |t.items| == |ncx.navPoints|
  {
    TOC(ncx.docTitle, "", ConvertNavPoints(ncx.navPoints), true, Some(ncx))
  }

  // ---------------------------------------------------------------------
  // Choosing the source

  /** Index of the first resource whose properties are exactly `nav`, or -1. */
  function NavResourceIndex(rs: seq<PublicationResource>): (k: int)
    ensures -1 <= k < |rs|
    ensures k >= 0 ==> rs[k].properties == Pkg.PropertyNav
    ensures forall j :: 0 <= j < |rs| && (k < 0 || j < k) ==> rs[j].properties != Pkg.PropertyNav
    decreases |rs|
  {
    if rs == [] then -1
    else
      var n := |rs| - 1;
      var k := NavResourceIndex(rs[..n]);
      if k >= 0 then k else if rs[n].properties == Pkg.PropertyNav then n else -1
  }

  /** The navigation document, when there is one, is an XHTML resource
      (its document would otherwise be nil and parsing it would fail). */
  predicate NavReadable(rs: seq<PublicationResource>, parseHtml: Bytes -> Html.Node) {
    var k := NavResourceIndex(rs);
    k >= 0 ==> Content.ReadContentHTMLById(rs, rs[k].id, parseHtml).Some?
  }

  /** `TableOfContents`: the navigation document if a resource is marked
      `nav`; else the NCX if one was parsed; else an empty table. */
  function TableOfContentsOf(rs: seq<PublicationResource>, ncx: Option<Ncx.NCX>, parseHtml: Bytes -> Html.Node): (res: (TOC, Option<string>))
    requires NavReadable(rs, parseHtml)
    ensures var k := NavResourceIndex(rs);
            (res.1.Some? ==> k >= 0 && res.1 == Some(NavNotFound) && res.0 == RootTOC)
            && (k < 0 ==> res.1.None? && res.0 == if ncx.Some? then NcxTOC(ncx.value) else RootTOC)
            && (k >= 0 ==> res.0.ncx.None? && res.0.href == "")
    ensures var k := NavResourceIndex(rs);
            res.1.Some? <==>
              k >= 0 && var doc := Content.ReadContentHTMLById(rs, rs[k].id, parseHtml).value;
                        Html.NoMatch([doc] + Html.Descendants(doc), IsNavCandidate)
  {
    var k := NavResourceIndex(rs);
    if k >= 0 then
      var doc := Content.ReadContentHTMLById(rs, rs[k].id, parseHtml).value;
      var (err, toc) := FromHTML(doc);
      (toc, err)
    else if ncx.Some? then (NcxTOC(ncx.value), None)
    else (RootTOC, None)
  }

  method TableOfContents(e: Epub, parseHtml: Bytes -> Html.Node) returns (toc: TOC, err: Option<string>)
    requires NavReadable(e.resources, parseHtml)
    ensures (toc, err) == TableOfContentsOf(e.resources, e.ncx, parseHtml)
  {
    toc, err := RootTOC, None;
    var rs := e.resources;
    var i := 0;
    while i < |rs|
      invariant 0 <= i <= |rs|
      invariant forall j :: 0 <= j < i ==> rs[j].properties != Pkg.PropertyNav
    {
      if rs[i].properties == Pkg.PropertyNav {
        var doc := Content.ReadContentHTMLById(rs, rs[i].id, parseHtml);
        err, toc := ParseFromHTML(doc.value);
        return;
      }
      i := i + 1;
    }
    if e.ncx.Some? {
      toc := NcxTOC(e.ncx.value);
    }
  }

  // ---------------------------------------------------------------------
  // Reading the document of an entry

  /** No entry of the list, nor any entry nested below one, carries the reader. */
  predicate WithoutReader(ts: seq<TOC>)
    decreases ts
  {
    forall i :: 0 <= i < |ts| ==> !ts[i].hasReader && WithoutReader(ts[i].items)
  }

  lemma WithoutReaderAppend(a: seq<TOC>, b: seq<TOC>)
    requires WithoutReader(a) && WithoutReader(b)
    ensures WithoutReader(a + b)
  {
    forall i | 0 <= i < |a + b|
      ensures !(a + b)[i].hasReader && WithoutReader((a + b)[i].items)
    {
      if i < |a| {
        assert (a + b)[i] == a[i];
      } else {
        assert (a + b)[i] == b[i - |a|];
      }
    }
  }

  /** The entries `parseList` builds carry no reader (`item := TOC{}`). */
  lemma {:induction false} ListItemsWithoutReader(list: Html.Node)
    ensures WithoutReader(ListItems(list))
    decreases list, 1
  {
    ItemsOfWithoutReader(list.children);
  }

  lemma {:induction false} ItemsOfWithoutReader(cs: seq<Html.Node>)
    ensures WithoutReader(ItemsOf(cs))
    decreases cs, 0
  {
    if cs != [] {
      var n := |cs| - 1;
      ItemsOfWithoutReader(cs[..n]);
      if Html.IsElement(cs[n], "li") {
        ListItemWithoutReader(cs[n]);
        assert WithoutReader([ListItem(cs[n])]);
      }
      WithoutReaderAppend(ItemsOf(cs[..n]), if Html.IsElement(cs[n], "li") then [ListItem(cs[n])] else []);
    }
  }

  lemma {:induction false} ListItemWithoutReader(li: Html.Node)
    ensures !ListItem(li).hasReader && WithoutReader(ListItem(li).items)
    decreases li, 0
  {
    var s := LastTagged(li.children, ListTags);
    if s >= 0 {
      ListItemsWithoutReader(li.children[s]);
    }
  }

  /** The entries `convertNavPointsToTOCItems` builds carry no reader. */
  lemma {:induction false} ConvertWithoutReader(nps: seq<Ncx.NavPoint>)
    ensures WithoutReader(ConvertNavPoints(nps))
    decreases nps
  {
    if nps != [] {
      var n := |nps| - 1;
      ConvertWithoutReader(nps[..n]);
      ConvertWithoutReader(nps[n].children);
      var e := Entry(nps[n]).(items := ConvertNavPoints(nps[n].children));
      assert WithoutReader([e]);
      WithoutReaderAppend(ConvertNavPoints(nps[..n]), [e]);
    }
  }

  /** The entries `flattenNavPoints` builds carry no reader. */
  lemma {:induction false} FlattenWithoutReader(nps: seq<Ncx.NavPoint>)
    ensures WithoutReader(Flatten(nps))
    decreases nps
  {
    if nps != [] {
      var n := |nps| - 1;
      FlattenWithoutReader(nps[..n]);
      FlattenWithoutReader(nps[n].children);
      assert WithoutReader([Entry(nps[n])]);
      WithoutReaderAppend(Flatten(nps[..n]), [Entry(nps[n])]);
      WithoutReaderAppend(Flatten(nps[..n]) + [Entry(nps[n])], Flatten(nps[n].children));
    }
  }

  /** The entries `getTOCByLevel` builds carry no reader. */
  lemma {:induction false} AtLevelWithoutReader(nps: seq<Ncx.NavPoint>, depth: int, level: int)
    ensures WithoutReader(AtLevel(nps, depth, level))
    decreases nps
  {
    if nps != [] {
      var n := |nps| - 1;
      AtLevelWithoutReader(nps[..n], depth, level);
      AtLevelWithoutReader(nps[n].children, depth + 1, level);
      var own := if depth == level then [Entry(nps[n])] else [];
      assert WithoutReader(own);
      WithoutReaderAppend(AtLevel(nps[..n], depth, level), own);
      WithoutReaderAppend(AtLevel(nps[..n], depth, level) + own, AtLevel(nps[n].children, depth + 1, level));
    }
  }

  /** The table `TableOfContents` returns: the root carries the reader and
      has no href; no entry below it carries the reader. */
  lemma TableOfContentsReaders(rs: seq<PublicationResource>, ncx: Option<Ncx.NCX>, parseHtml: Bytes -> Html.Node)
    requires NavReadable(rs, parseHtml)
    ensures var t := TableOfContentsOf(rs, ncx, parseHtml).0;
            t.hasReader && t.href == "" && WithoutReader(t.items)
  {
    var k := NavResourceIndex(rs);
    if k >= 0 {
      var doc := Content.ReadContentHTMLById(rs, rs[k].id, parseHtml).value;
      var nav := FindNav(doc);
      if nav.Some? {
        var l := FirstTagged(nav.value.children, ListTags);
        if l >= 0 {
          ListItemsWithoutReader(nav.value.children[l]);
        }
      }
    } else if ncx.Some? {
      ConvertWithoutReader(ncx.value.navPoints);
    }
  }

  /** `TOC.ReadContentHTML` as written: an entry with an href makes the
      lookup through its reader, which must be set (a nil reader is
      dereferenced otherwise); the document found is discarded and nil is
      always returned. */
  function ReadContentHTMLAsWritten(t: TOC, rs: seq<PublicationResource>, parseHtml: Bytes -> Html.Node): (doc: Option<Html.Node>)
    requires t.href != "" ==> t.hasReader
    ensures doc.None?
  {
    None
  }

  /** The document of an entry: the one its href names, none for an entry
      without href. This is the evidently intended method, on entries that
      carry the reader whose resources are `rs`. */
  function ReadContentHTML(t: TOC, rs: seq<PublicationResource>, parseHtml: Bytes -> Html.Node): (doc: Option<Html.Node>)
    ensures doc.Some? ==> t.href != "" && Resources.IndexByHref(rs, t.href) >= 0
    ensures t.href != "" ==> doc == Content.ReadContentHTMLByHref(rs, t.href, parseHtml)
  {
    if t.href != "" then Content.ReadContentHTMLByHref(rs, t.href, parseHtml) else None
  }

  /** An entry pointing at an XHTML resource reads that resource's document. */
  lemma ReadContentHTMLOwnDocument(t: TOC, rs: seq<PublicationResource>, i: nat, parseHtml: Bytes -> Html.Node)
    requires i < |rs| && rs[i].mimeType == Pkg.MediaTypeXHTML && rs[i].href != "" && t.href == rs[i].href
    requires forall j :: 0 <= j < |rs| && j != i ==> rs[j].href != rs[i].href && rs[j].id != rs[i].id
    ensures ReadContentHTML(t, rs, parseHtml) == Some(parseHtml(rs[i].content))
  {
    Content.ReadByHrefOwnDocument(rs, i, parseHtml);
  }

  /** A one-chapter publication whose NCX points at the chapter. The entry
      the library builds for the chapter carries no reader, so the call as
      written dereferences nil on it; and on the same entry with the reader
      attached, the call as written still returns nil although the
      chapter's document exists. */
  lemma ReadContentHTMLDiscardsDocument(parseHtml: Bytes -> Html.Node)
    ensures var rs := [PublicationResource("c1", "c1.xhtml", Pkg.MediaTypeXHTML, [], "OEBPS/c1.xhtml", "")];
            var ncx := Ncx.NCX("Book", "", [Ncx.NavPoint("np1", "1", "Chapter 1", "c1.xhtml", [])]);
            NavReadable(rs, parseHtml)
            && var t := TableOfContentsOf(rs, Some(ncx), parseHtml).0;
               |t.items| == 1 && t.items[0].href == "c1.xhtml" && !t.items[0].hasReader
               && ReadContentHTML(t.items[0], rs, parseHtml) == Some(parseHtml([]))
               && ReadContentHTMLAsWritten(t.items[0].(hasReader := true), rs, parseHtml) != ReadContentHTML(t.items[0], rs, parseHtml)
  {
    var rs := [PublicationResource("c1", "c1.xhtml", Pkg.MediaTypeXHTML, [], "OEBPS/c1.xhtml", "")];
    var np := Ncx.NavPoint("np1", "1", "Chapter 1", "c1.xhtml", []);
    var ncx := Ncx.NCX("Book", "", [np]);
    assert NavResourceIndex(rs[..0]) == -1;
    assert NavResourceIndex(rs) == -1;
    var t := TableOfContentsOf(rs, Some(ncx), parseHtml).0;
    assert t == NcxTOC(ncx);
    assert [np][..0] == [];
    assert ConvertNavPoints([np]) == [Entry(np).(items := [])];
    ReadContentHTMLOwnDocument(t.items[0], rs, 0, parseHtml);
  }
}
