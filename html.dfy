/**
 * The parse tree produced by the external HTML parser, as the library reads
 * it: typed nodes with a tag or text (`Data`), attributes and children in
 * document order.
 */
module Html {
  import opened Wrappers

  datatype NodeType = ErrorNode | TextNode | DocumentNode | ElementNode | CommentNode | DoctypeNode | RawNode

  datatype Attribute = Attribute(namespace: string, key: string, val: string)

  datatype Node = Node(kind: NodeType, data: string, attrs: seq<Attribute>, children: seq<Node>)

  predicate IsElement(n: Node, tag: string) {
    n.kind == ElementNode && n.data == tag
  }

  /** `Descendants()`: every node strictly below `n`, in depth-first pre-order. */
  function Descendants(n: Node): seq<Node>
    decreases n
  {
    DescendantsOf(n.children)
  }

  /** The nodes of a forest in pre-order. */
  function DescendantsOf(cs: seq<Node>): seq<Node>
    decreases cs
  {
    if cs == [] then [] else [cs[0]] + Descendants(cs[0]) + DescendantsOf(cs[1..])
  }

  lemma {:induction false} DescendantsOfAppend(a: seq<Node>, b: seq<Node>)
    ensures DescendantsOf(a + b) == DescendantsOf(a) + DescendantsOf(b)
    decreases a
  {
    if a == [] {
      assert a + b == b;
    } else {
      assert (a + b)[0] == a[0] && (a + b)[1..] == a[1..] + b;
      DescendantsOfAppend(a[1..], b);
    }
  }

  /** Index of the first attribute with the given key, or -1 (`slices.IndexFunc`). */
  function AttrIndex(attrs: seq<Attribute>, key: string): (i: int)
    ensures -1 <= i < |attrs|
    ensures i >= 0 ==> attrs[i].key == key
    ensures forall k :: 0 <= k < |attrs| && (i < 0 || k < i) ==> attrs[k].key != key
  {
    FirstIndex(attrs, (a: Attribute) => a.key == key)
  }

  /** The value of the first attribute with the given key, `""` when there is none. */
  function AttrValue(attrs: seq<Attribute>, key: string): (v: string)
    ensures var i := AttrIndex(attrs, key);
            (i < 0 ==> v == "") && (i >= 0 ==> v == attrs[i].val)
  {
    var i := AttrIndex(attrs, key);
    if i >= 0 then attrs[i].val else ""
  }

  /**
   * The search `findNavNode` and `getBody` both run: a node satisfying `p`
   * is taken without looking inside it; otherwise its children are searched
   * in order, and a match in a later child replaces one in an earlier child.
   */
  function LastMatch(n: Node, p: Node -> bool): Option<Node>
    decreases n
  {
    if p(n) then Some(n) else LastMatchIn(n.children, p)
  }

  function LastMatchIn(cs: seq<Node>, p: Node -> bool): Option<Node>
    decreases cs
  {
    if cs == [] then None
    else
      var n := |cs| - 1;
      var r := LastMatch(cs[n], p);
      if r.Some? then r else LastMatchIn(cs[..n], p)
  }

  predicate NoMatch(ns: seq<Node>, p: Node -> bool) {
    forall i :: 0 <= i < |ns| ==> !p(ns[i])
  }

  lemma NoMatchAppend(a: seq<Node>, b: seq<Node>, p: Node -> bool)
    ensures NoMatch(a + b, p) <==> NoMatch(a, p) && NoMatch(b, p)
  {
    if NoMatch(a, p) && NoMatch(b, p) {
      forall i | 0 <= i < |a + b| ensures !p((a + b)[i]) {
        if i >= |a| {
          assert (a + b)[i] == b[i - |a|];
        }
      }
    }
    if NoMatch(a + b, p) {
      forall i | 0 <= i < |a| ensures !p(a[i]) {
        assert (a + b)[i] == a[i];
      }
      forall i | 0 <= i < |b| ensures !p(b[i]) {
        assert (a + b)[|a| + i] == b[i];
      }
    }
  }

  /** Nothing is found exactly when no node of the tree satisfies `p`; what
      is found is a node of the tree that satisfies it, and in pre-order it
      is the last match that lies under no other match. */
  lemma {:induction false} LastMatchAt(n: Node, p: Node -> bool)
    ensures LastMatch(n, p).None? <==> NoMatch([n] + Descendants(n), p)
    ensures LastMatch(n, p).Some? ==> p(LastMatch(n, p).value) && LastMatch(n, p).value in [n] + Descendants(n)
    ensures LastMatch(n, p).Some? ==>
              exists i :: IsLastOutermost([n] + Descendants(n), i, p) && ([n] + Descendants(n))[i] == LastMatch(n, p).value
    decreases n, 2
  {
    NoMatchAppend([n], Descendants(n), p);
    LastMatchInAt(n.children, p);
    LastMatchIsLastOutermost(n, p);
  }

  lemma {:induction false} LastMatchInAt(cs: seq<Node>, p: Node -> bool)
    ensures LastMatchIn(cs, p).None? <==> NoMatch(DescendantsOf(cs), p)
    ensures LastMatchIn(cs, p).Some? ==> p(LastMatchIn(cs, p).value) && LastMatchIn(cs, p).value in DescendantsOf(cs)
    decreases cs, 0
  {
    if cs != [] {
      var n := |cs| - 1;
      var c := cs[n];
      assert cs == cs[..n] + [c];
      DescendantsOfAppend(cs[..n], [c]);
      assert [c][1..] == [];
      assert DescendantsOf([c]) == [c] + Descendants(c);
      LastMatchAt(c, p);
      LastMatchInAt(cs[..n], p);
      NoMatchAppend(DescendantsOf(cs[..n]), [c] + Descendants(c), p);
    }
  }

  /** In the pre-order sequence of a tree, the subtree of the node at
      position `k` occupies the positions right after it: its descendants
      follow it, all of them, and nothing else in between. */
  lemma {:induction false} SubtreeSpan(n: Node, k: int)
    requires 0 <= k < 1 + |Descendants(n)|
    ensures var ds := [n] + Descendants(n);
            k + 1 + |Descendants(ds[k])| <= |ds| && ds[k + 1..k + 1 + |Descendants(ds[k])|] == Descendants(ds[k])
    decreases n, 1
  {
    var ds := [n] + Descendants(n);
    if k > 0 {
      var fs := Descendants(n);
      SubtreeSpanIn(n.children, k - 1);
      assert ds[k] == fs[k - 1];
      assert ds[k + 1..k + 1 + |Descendants(ds[k])|] == fs[k..k + |Descendants(ds[k])|];
    }
  }

  lemma {:induction false} SubtreeSpanIn(cs: seq<Node>, k: int)
    requires 0 <= k < |DescendantsOf(cs)|
    ensures var fs := DescendantsOf(cs);
            k + 1 + |Descendants(fs[k])| <= |fs| && fs[k + 1..k + 1 + |Descendants(fs[k])|] == Descendants(fs[k])
    decreases cs, 0
  {
    var fs := DescendantsOf(cs);
    var h := [cs[0]] + Descendants(cs[0]);
    var t := DescendantsOf(cs[1..]);
    assert fs == h + t;
    if k < |h| {
      SubtreeSpan(cs[0], k);
      assert fs[k] == h[k];
      assert fs[k + 1..k + 1 + |Descendants(fs[k])|] == h[k + 1..k + 1 + |Descendants(fs[k])|];
    } else {
      var k' := k - |h|;
      SubtreeSpanIn(cs[1..], k');
      assert fs[k] == t[k'];
      assert fs[k + 1..k + 1 + |Descendants(fs[k])|] == t[k' + 1..k' + 1 + |Descendants(fs[k])|];
    }
  }

  /** Position `i` of the pre-order sequence `ds` holds the last outermost
      match of `p`: it matches, nothing after its subtree matches, and every
      earlier match ends its subtree before `i` (no match lies above it). */
  predicate IsLastOutermost(ds: seq<Node>, i: int, p: Node -> bool) {
    0 <= i < |ds| && p(ds[i])
    && (forall j :: i + 1 + |Descendants(ds[i])| <= j < |ds| ==> !p(ds[j]))
    && (forall k :: 0 <= k < i && p(ds[k]) ==> k + |Descendants(ds[k])| < i)
  }

  /** At most one position is the last outermost match. */
  lemma LastOutermostUnique(ds: seq<Node>, i: int, i': int, p: Node -> bool)
    requires IsLastOutermost(ds, i, p) && IsLastOutermost(ds, i', p)
    ensures i == i'
  {
  }

  /** What `LastMatch` finds is the last outermost match of the tree. */
  lemma {:induction false} LastMatchIsLastOutermost(n: Node, p: Node -> bool)
    ensures LastMatch(n, p).Some? ==>
              exists i :: IsLastOutermost([n] + Descendants(n), i, p) && ([n] + Descendants(n))[i] == LastMatch(n, p).value
    decreases n, 1
  {
    var ds := [n] + Descendants(n);
    if p(n) {
      assert IsLastOutermost(ds, 0, p);
    } else if LastMatchIn(n.children, p).Some? {
      var fs := DescendantsOf(n.children);
      assert ds == [n] + fs;
      LastMatchInIsLastOutermost(n.children, p);
      var i :| IsLastOutermost(fs, i, p) && fs[i] == LastMatchIn(n.children, p).value;
      ShiftLastOutermost(n, fs, i, p);
      assert ds[i + 1] == fs[i] && LastMatch(n, p) == LastMatchIn(n.children, p);
      assert IsLastOutermost(ds, i + 1, p) && ds[i + 1] == LastMatch(n, p).value;
    }
  }

  /** Putting a non-matching node in front shifts the last outermost match by one. */
  lemma ShiftLastOutermost(n: Node, fs: seq<Node>, i: int, p: Node -> bool)
    requires !p(n) && IsLastOutermost(fs, i, p)
    ensures IsLastOutermost([n] + fs, i + 1, p)
  {
    var ds := [n] + fs;
    assert ds[i + 1] == fs[i];
    forall j | i + 2 + |Descendants(ds[i + 1])| <= j < |ds|
      ensures !p(ds[j])
    {
      assert ds[j] == fs[j - 1];
    }
    forall k | 0 <= k < i + 1 && p(ds[k])
      ensures k + |Descendants(ds[k])| < i + 1
    {
      assert k > 0 && ds[k] == fs[k - 1];
    }
  }

  lemma {:induction false} LastMatchInIsLastOutermost(cs: seq<Node>, p: Node -> bool)
    ensures var fs := DescendantsOf(cs);
            LastMatchIn(cs, p).Some? ==> exists i :: IsLastOutermost(fs, i, p) && fs[i] == LastMatchIn(cs, p).value
    decreases cs, 0
  {
    if cs != [] {
      var n := |cs| - 1;
      var c := cs[n];
      var init := cs[..n];
      assert cs == init + [c];
      DescendantsOfAppend(init, [c]);
      assert [c][1..] == [];
      assert DescendantsOf([c]) == [c] + Descendants(c);
      var fs := DescendantsOf(cs);
      assert fs == DescendantsOf(init) + ([c] + Descendants(c));
      if LastMatch(c, p).Some? {
        LastMatchIsLastOutermost(c, p);
        var i :| IsLastOutermost([c] + Descendants(c), i, p) && ([c] + Descendants(c))[i] == LastMatch(c, p).value;
        var a := DescendantsOf(init);
        forall k | 0 <= k < |a|
          ensures k + 1 + |Descendants(a[k])| <= |a|
        {
          SubtreeSpanIn(init, k);
        }
        LastOutermostAfter(a, [c] + Descendants(c), i, p);
        assert fs[|a| + i] == ([c] + Descendants(c))[i];
      } else {
        LastMatchAt(c, p);
        LastMatchInIsLastOutermost(init, p);
        if LastMatchIn(init, p).Some? {
          var i :| IsLastOutermost(DescendantsOf(init), i, p) && DescendantsOf(init)[i] == LastMatchIn(init, p).value;
          LastOutermostBefore(DescendantsOf(init), [c] + Descendants(c), i, p);
          assert fs[i] == DescendantsOf(init)[i];
        }
      }
    }
  }

  /** A last outermost match of `t` stays the last one behind a sequence
      `a` in which every subtree ends inside `a`. */
  lemma LastOutermostAfter(a: seq<Node>, t: seq<Node>, i: int, p: Node -> bool)
    requires IsLastOutermost(t, i, p)
    requires forall k :: 0 <= k < |a| ==> k + 1 + |Descendants(a[k])| <= |a|
    ensures IsLastOutermost(a + t, |a| + i, p)
  {
    var fs := a + t;
    var i' := |a| + i;
    assert fs[i'] == t[i];
    forall j | i' + 1 + |Descendants(fs[i'])| <= j < |fs|
      ensures !p(fs[j])
    {
      assert fs[j] == t[j - |a|];
    }
    forall k | 0 <= k < i' && p(fs[k])
      ensures k + |Descendants(fs[k])| < i'
    {
      if k < |a| {
        assert fs[k] == a[k];
      } else {
        assert fs[k] == t[k - |a|];
      }
    }
  }

  /** A last outermost match followed only by non-matching nodes stays the last one. */
  lemma LastOutermostBefore(a: seq<Node>, t: seq<Node>, i: int, p: Node -> bool)
    requires IsLastOutermost(a, i, p) && NoMatch(t, p)
    ensures IsLastOutermost(a + t, i, p)
  {
    var fs := a + t;
    assert fs[i] == a[i];
    forall j | i + 1 + |Descendants(fs[i])| <= j < |fs|
      ensures !p(fs[j])
    {
      if j < |a| {
        assert fs[j] == a[j];
      } else {
        assert fs[j] == t[j - |a|];
      }
    }
    forall k | 0 <= k < i && p(fs[k])
      ensures k + |Descendants(fs[k])| < i
    {
      assert fs[k] == a[k];
    }
  }
}
