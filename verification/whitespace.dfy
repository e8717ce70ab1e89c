/** JavaScript `String.prototype.trim`: removal of leading and trailing
    white space and line terminators (section 22.1.3.32 of ECMA-262). */
module Whitespace {

  /** The characters `trim` removes: the WhiteSpace and LineTerminator
      productions of ECMA-262 (tab, vertical tab, form feed, space, no-break
      space, byte order mark, the Unicode space separators, and the four
      line terminators). */
  predicate IsSpace(c: char)
  {
    var n := c as int;
    n == 0x09 || n == 0x0A || n == 0x0B || n == 0x0C || n == 0x0D || n == 0x20
    || n == 0xA0 || n == 0x1680 || (0x2000 <= n <= 0x200A) || n == 0x2028
    || n == 0x2029 || n == 0x202F || n == 0x205F || n == 0x3000 || n == 0xFEFF
  }

  predicate AllSpace(s: string)
  {
    forall i :: 0 <= i < |s| ==> IsSpace(s[i])
  }

  /** Neither the first nor the last character of `s` is white space. */
  predicate NoEdgeSpace(s: string)
  {
    s == [] || (!IsSpace(s[0]) && !IsSpace(s[|s| - 1]))
  }

  /** `r` sits at offset `a` of `s` with only white space before and after it. */
  predicate TrimmedAt(s: string, r: string, a: int)
  {
    0 <= a && a + |r| <= |s| && s[a..a + |r|] == r
    && AllSpace(s[..a]) && AllSpace(s[a + |r|..])
  }

  function TrimStart(s: string): (r: string)
    ensures |r| <= |s| && r == s[|s| - |r|..]
    ensures AllSpace(s[..|s| - |r|])
    ensures r == [] || !IsSpace(r[0])
  {
    if s != [] && IsSpace(s[0]) then TrimStart(s[1..]) else s
  }

  function TrimEnd(s: string): (r: string)
    ensures |r| <= |s| && r == s[..|r|]
    ensures AllSpace(s[|r|..])
    ensures r == [] || !IsSpace(r[|r| - 1])
  {
    if s != [] && IsSpace(s[|s| - 1]) then TrimEnd(s[..|s| - 1]) else s
  }

  /** `s.trim()`: the text of `s` between its leading and trailing white space. */
  function Trim(s: string): (r: string)
    ensures NoEdgeSpace(r)
    ensures exists a :: TrimmedAt(s, r, a)
  {
    var t := TrimStart(s);
    var r := TrimEnd(t);
    var a := |s| - |t|;
    assert TrimmedAt(s, r, a) by {
      SuffixSlices(s, a, |r|);
    }
    r
  }

  /** Slicing a suffix of `s` is slicing `s` further along. */
  lemma SuffixSlices(s: string, a: nat, n: nat)
    requires a + n <= |s|
    ensures s[a..][..n] == s[a..a + n] && s[a..][n..] == s[a + n..]
  {
  }

  /** Where a trimmed text starts and ends inside `s`: white space before
      its first character, white space after its last one. */
  lemma TrimmedBounds(s: string, r: string, a: int)
    requires TrimmedAt(s, r, a)
    ensures forall i :: 0 <= i < a ==> IsSpace(s[i])
    ensures forall i :: a + |r| <= i < |s| ==> IsSpace(s[i])
    ensures forall i :: 0 <= i < |r| ==> s[a + i] == r[i]
  {
    forall i | 0 <= i < a ensures IsSpace(s[i]) {
      assert s[..a][i] == s[i];
    }
    forall i | a + |r| <= i < |s| ensures IsSpace(s[i]) {
      assert s[a + |r|..][i - a - |r|] == s[i];
    }
    forall i | 0 <= i < |r| ensures s[a + i] == r[i] {
      assert s[a..a + |r|][i] == s[a + i];
    }
  }

  /** Trim is determined by its contract: any text without edge white space
      that is surrounded only by white space in `s` is `Trim(s)`. */
  lemma TrimUnique(s: string, x: string, a: int)
    requires TrimmedAt(s, x, a) && NoEdgeSpace(x)
    ensures Trim(s) == x
  {
    var r := Trim(s);
    var b :| TrimmedAt(s, r, b);
    TrimmedBounds(s, x, a);
    TrimmedBounds(s, r, b);
    assert r != [] ==> !IsSpace(s[b]) && !IsSpace(s[b + |r| - 1]);
    assert x != [] ==> !IsSpace(s[a]) && !IsSpace(s[a + |x| - 1]);
    assert |r| == |x|;
    assert r != [] ==> a == b;
    assert r == x;
  }

  /** Trimming padded text: white space added on either side of a trimmed
      text is exactly what `trim` removes again. */
  lemma TrimPadded(ws1: string, x: string, ws2: string)
    requires AllSpace(ws1) && AllSpace(ws2) && NoEdgeSpace(x)
    ensures Trim(ws1 + x + ws2) == x
  {
    var s := ws1 + x + ws2;
    assert s[..|ws1|] == ws1;
    assert s[|ws1|..|ws1| + |x|] == x;
    assert s[|ws1| + |x|..] == ws2;
    TrimUnique(s, x, |ws1|);
  }

  /** Text without white space at its ends is left as it is. */
  lemma TrimNoEdge(s: string)
    requires NoEdgeSpace(s)
    ensures Trim(s) == s
  {
    assert TrimmedAt(s, s, 0) by {
      assert s[..0] == [] && s[|s|..] == [] && s[0..|s|] == s;
    }
    TrimUnique(s, s, 0);
  }
}
