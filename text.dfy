/**
 * The parts of Go's `strings` package (and of literal-word `regexp` matching)
 * that the library relies on, on strings as sequences of runes.
 */
module Text {

  /** A byte of a file in the container. */
  newtype byte = b: int | 0 <= b < 256

  /** The bytes of an ASCII string (its UTF-8 encoding). */
  function Ascii(s: string): (r: seq<byte>)
    requires forall i :: 0 <= i < |s| ==> s[i] as int < 128
    ensures |r| == |s|
    ensures forall i :: 0 <= i < |s| ==> r[i] as int == s[i] as int
  {
    seq(|s|, i requires 0 <= i < |s| => s[i] as int as byte)
  }

  predicate HasPrefix(s: string, prefix: string) {
    |prefix| <= |s| && s[..|prefix|] == prefix
  }

  /**
   * `strings.Contains(s, sub)`; also what `regexp.MatchString` does for a
   * pattern that is a plain word, which is the only kind the library uses.
   */
  predicate Contains(s: string, sub: string)
    decreases |s|
  {
    HasPrefix(s, sub) || (|s| > 0 && Contains(s[1..], sub))
  }

  lemma {:induction false} ContainsAt(s: string, sub: string, i: nat)
    requires i + |sub| <= |s| && s[i..i + |sub|] == sub
    ensures Contains(s, sub)
    decreases i
  {
    if i > 0 {
      assert s[1..][i - 1..i - 1 + |sub|] == sub;
      ContainsAt(s[1..], sub, i - 1);
    }
  }

  lemma {:induction false} ContainsWitness(s: string, sub: string) returns (i: nat)
    requires Contains(s, sub)
    ensures i + |sub| <= |s| && s[i..i + |sub|] == sub
    decreases |s|
  {
    if HasPrefix(s, sub) {
      i := 0;
    } else {
      var j := ContainsWitness(s[1..], sub);
      assert s[1..][j..j + |sub|] == s[j + 1..j + 1 + |sub|];
      i := j + 1;
    }
  }

  /** Containment is transitive. */
  lemma ContainsTransitive(s: string, mid: string, sub: string)
    requires Contains(s, mid) && Contains(mid, sub)
    ensures Contains(s, sub)
  {
    var p := ContainsWitness(s, mid);
    var k := ContainsWitness(mid, sub);
    assert s[p + k..p + k + |sub|] == sub by {
      forall j | 0 <= j < |sub| ensures s[p + k + j] == sub[j] {
        assert sub[j] == mid[k + j] == s[p..p + |mid|][k + j];
      }
    }
    ContainsAt(s, sub, p + k);
  }

  /** `strings.Join(parts, sep)`. */
  function Join(parts: seq<string>, sep: string): (r: string)
    ensures parts == [] ==> r == ""
    ensures |parts| == 1 ==> r == parts[0]
    ensures |parts| > 1 ==> r == parts[0] + sep + Join(parts[1..], sep)
  {
    if parts == [] then ""
    else if |parts| == 1 then parts[0]
    else parts[0] + sep + Join(parts[1..], sep)
  }

  /** The runes `unicode.IsSpace` reports as white space. */
  predicate IsSpace(c: char) {
    c == ' ' || c == '\t' || c == '\n' || c == '\r' || c == '\U{B}' || c == '\U{C}'
    || c == '\U{85}' || c == '\U{A0}' || c == '\U{1680}'
    || ('\U{2000}' <= c <= '\U{200A}') || c == '\U{2028}' || c == '\U{2029}'
    || c == '\U{202F}' || c == '\U{205F}' || c == '\U{3000}'
  }

  function TrimLeftSpace(s: string): (r: string)
    ensures |r| <= |s| && r == s[|s| - |r|..]
    ensures r == [] || !IsSpace(r[0])
    decreases |s|
  {
    if |s| > 0 && IsSpace(s[0]) then TrimLeftSpace(s[1..]) else s
  }

  /** Only white space is cut from the left. */
  lemma {:induction false} TrimLeftSpaceCut(s: string, k: nat)
    requires k < |s| - |TrimLeftSpace(s)|
    ensures IsSpace(s[k])
    decreases |s|
  {
    if k > 0 {
      TrimLeftSpaceCut(s[1..], k - 1);
    }
  }

  function TrimRightSpace(s: string): (r: string)
    ensures |r| <= |s| && r == s[..|r|]
    ensures r == [] || !IsSpace(r[|r| - 1])
    decreases |s|
  {
    if |s| > 0 && IsSpace(s[|s| - 1]) then TrimRightSpace(s[..|s| - 1]) else s
  }

  /** Only white space is cut from the right. */
  lemma {:induction false} TrimRightSpaceCut(s: string, k: nat)
    requires |TrimRightSpace(s)| <= k < |s|
    ensures IsSpace(s[k])
    decreases |s|
  {
    if k < |s| - 1 {
      TrimRightSpaceCut(s[..|s| - 1], k);
    }
  }

  /**
   * `strings.TrimSpace`: an infix of `s` that neither starts nor ends with
   * white space.
   */
  function TrimSpace(s: string): (r: string)
    ensures var i := |s| - |TrimLeftSpace(s)|; i + |r| <= |s| && r == s[i..i + |r|]
    ensures r == [] || (!IsSpace(r[0]) && !IsSpace(r[|r| - 1]))
  {
    var left := TrimLeftSpace(s);
    var r := TrimRightSpace(left);
    InfixOfSuffix(s, left, r);
    r
  }

  /** A prefix of a suffix is an infix. */
  lemma InfixOfSuffix(s: string, suffix: string, r: string)
    requires |suffix| <= |s| && suffix == s[|s| - |suffix|..]
    requires |r| <= |suffix| && r == suffix[..|r|]
    ensures var i := |s| - |suffix|; i + |r| <= |s| && r == s[i..i + |r|]
    ensures r != [] ==> r[0] == suffix[0]
  {
  }

  /** Only white space is cut away, so the infix is the longest one without
      white space at its ends. */
  lemma TrimSpaceCuts(s: string)
    ensures var i := |s| - |TrimLeftSpace(s)|;
            (forall k :: 0 <= k < i ==> IsSpace(s[k]))
            && (forall k :: i + |TrimSpace(s)| <= k < |s| ==> IsSpace(s[k]))
  {
    var left := TrimLeftSpace(s);
    var r := TrimSpace(s);
    var i := |s| - |left|;
    forall k | 0 <= k < i ensures IsSpace(s[k]) {
      TrimLeftSpaceCut(s, k);
    }
    forall k | i + |r| <= k < |s| ensures IsSpace(s[k]) {
      TrimRightSpaceCut(left, k - i);
    }
  }

  /** `strings.Trim(s, cutset)` for a one-rune cutset. */
  function TrimRune(s: string, c: char): (r: string)
    ensures |r| <= |s|
    ensures r == [] || (r[0] != c && r[|r| - 1] != c)
    decreases |s|
  {
    if |s| > 0 && s[0] == c then TrimRune(s[1..], c)
    else if |s| > 0 && s[|s| - 1] == c then TrimRune(s[..|s| - 1], c)
    else s
  }

  /** Trimming a rune the string does not contain changes nothing, and
      trimming twice is trimming once. */
  lemma TrimRuneStable(s: string, c: char)
    ensures (forall k :: 0 <= k < |s| ==> s[k] != c) ==> TrimRune(s, c) == s
    ensures TrimRune(TrimRune(s, c), c) == TrimRune(s, c)
  {
  }
}
