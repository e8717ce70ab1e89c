/** The JavaScript string operations the record parser is built from:
    `includes`, `indexOf`, `split` and `join` with a string separator, and
    the global deletion `replace(/p/g, '')` of a literal pattern. */
module Strings {
  import opened Wrappers

  /** `p` occurs in `s` starting at index `i`. */
  predicate OccursAt(s: string, p: string, i: int)
  {
    0 <= i && i + |p| <= |s| && s[i..i + |p|] == p
  }

  /** `s.includes(p)`: `p` is a substring of `s`. */
  predicate Contains(s: string, p: string)
  {
    exists i :: 0 <= i <= |s| && OccursAt(s, p, i)
  }

  /** `s.indexOf(p, from)`: the first occurrence of `p` at or after `from`. */
  function IndexOf(s: string, p: string, from: nat): (r: Option<nat>)
    requires from <= |s|
    ensures r.Some? ==> from <= r.value && OccursAt(s, p, r.value)
    ensures r.Some? ==> forall j :: from <= j < r.value ==> !OccursAt(s, p, j)
    ensures r.None? ==> forall j :: from <= j ==> !OccursAt(s, p, j)
    decreases |s| - from
  {
    if OccursAt(s, p, from) then Some(from)
    else if from == |s| then None
    else IndexOf(s, p, from + 1)
  }

  /** `parts.join(sep)`. */
  function Join(parts: seq<string>, sep: string): string
  {
    if |parts| == 0 then ""
    else if |parts| == 1 then parts[0]
    else parts[0] + sep + Join(parts[1..], sep)
  }

  /** A character absent from the parts and the separator is absent from
      their join. */
  lemma JoinLacks(parts: seq<string>, sep: string, c: char)
    requires c !in sep && forall k :: 0 <= k < |parts| ==> c !in parts[k]
    ensures c !in Join(parts, sep)
  {
  }

  /** Every character of a join comes from a part or a separator. */
  lemma {:induction false} JoinChars(parts: seq<string>, sep: string, ok: char -> bool)
    requires forall i :: 0 <= i < |sep| ==> ok(sep[i])
    requires forall k, i :: 0 <= k < |parts| && 0 <= i < |parts[k]| ==> ok(parts[k][i])
    ensures forall i :: 0 <= i < |Join(parts, sep)| ==> ok(Join(parts, sep)[i])
    decreases |parts|
  {
    if |parts| > 1 {
      JoinChars(parts[1..], sep, ok);
      var rest := Join(parts[1..], sep);
      var s := parts[0] + sep + rest;
      forall i | 0 <= i < |s| ensures ok(s[i]) {
        if i < |parts[0]| {
          assert ok(parts[0][i]);
        } else if i < |parts[0]| + |sep| {
          assert s[i] == sep[i - |parts[0]|];
        } else {
          assert s[i] == rest[i - |parts[0]| - |sep|];
        }
      }
    }
  }

  /** Joining one more part appends the separator and that part. */
  lemma {:induction false} JoinSnoc(parts: seq<string>, sep: string, x: string)
    requires |parts| >= 1
    ensures Join(parts + [x], sep) == Join(parts, sep) + sep + x
    decreases |parts|
  {
    if |parts| > 1 {
      assert (parts + [x])[1..] == parts[1..] + [x];
      JoinSnoc(parts[1..], sep, x);
    }
  }

  /** A join of four parts, written out. */
  lemma JoinFour(a: string, b: string, c: string, d: string, sep: string)
    ensures Join([a, b, c, d], sep) == a + sep + b + sep + c + sep + d
  {
    var parts := [a, b, c, d];
    assert parts[1..] == [b, c, d] && parts[1..][1..] == [c, d] && parts[1..][1..][1..] == [d];
    assert Join([c, d], sep) == c + sep + d;
    assert Join([b, c, d], sep) == b + sep + (c + sep + d);
    assert Join(parts, sep) == a + sep + (b + sep + (c + sep + d));
  }

  /** The concatenation of all parts, `parts.join('')`. */
  function Concat(parts: seq<string>): string
  {
    if |parts| == 0 then "" else parts[0] + Concat(parts[1..])
  }

  /** `s.split(sep)` for a non-empty separator: the texts between the
      successive non-overlapping occurrences of `sep`, found left to right. */
  function Split(s: string, sep: string): (parts: seq<string>)
    requires sep != []
    ensures |parts| >= 1
    ensures forall k :: 0 <= k < |parts| ==> !Contains(parts[k], sep)
    decreases |s|
  {
    match IndexOf(s, sep, 0)
    case None =>
      assert forall j :: 0 <= j <= |s| ==> !OccursAt(s, sep, j);
      [s]
    case Some(i) =>
      var rest := Split(s[i + |sep|..], sep);
      PrefixBeforeFirst(s, sep, i);
      assert ([s[..i]] + rest)[1..] == rest;
      [s[..i]] + rest
  }

  /** Joining the parts with the separator gives the text back. */
  lemma {:induction false} SplitJoinsBack(s: string, sep: string)
    requires sep != []
    ensures Join(Split(s, sep), sep) == s
    decreases |s|
  {
    match IndexOf(s, sep, 0)
    case None =>
    case Some(i) =>
      SplitJoinsBack(s[i + |sep|..], sep);
      var rest := Split(s[i + |sep|..], sep);
      assert Split(s, sep) == [s[..i]] + rest;
      assert ([s[..i]] + rest)[1..] == rest;
      assert s == s[..i] + sep + s[i + |sep|..] by {
        assert s[i..i + |sep|] == sep;
        assert s == s[..i] + s[i..i + |sep|] + s[i + |sep|..];
      }
  }

  /** Nothing before the first occurrence of `p` contains `p`. */
  lemma PrefixBeforeFirst(s: string, p: string, i: nat)
    requires p != [] && i <= |s|
    requires forall j :: 0 <= j < i ==> !OccursAt(s, p, j)
    ensures !Contains(s[..i], p)
  {
    forall j | 0 <= j <= i && OccursAt(s[..i], p, j)
      ensures OccursAt(s, p, j)
    {
      assert s[..i][j..j + |p|] == s[j..j + |p|];
    }
  }

  /** `s.replace(/p/g, '')` for a literal pattern: every non-overlapping
      occurrence of `p`, found left to right, is deleted. The text never
      grows, and it is left as it was exactly when `p` does not occur. */
  function DeleteAll(s: string, p: string): (r: string)
    requires p != []
    ensures |r| <= |s|
    ensures r == s <==> !Contains(s, p)
    decreases |s|
  {
    match IndexOf(s, p, 0)
    case None => s
    case Some(i) => s[..i] + DeleteAll(s[i + |p|..], p)
  }

  /** Deleting every occurrence is splitting on the pattern and joining the
      parts back with nothing: `s.split(p).join('')`. */
  lemma {:induction false} DeleteAllIsSplitJoin(s: string, p: string)
    requires p != []
    ensures DeleteAll(s, p) == Concat(Split(s, p))
    decreases |s|
  {
    match IndexOf(s, p, 0)
    case None =>
    case Some(i) =>
      var parts := Split(s, p);
      assert parts == [s[..i]] + Split(s[i + |p|..], p);
      assert parts[0] == s[..i] && parts[1..] == Split(s[i + |p|..], p);
      DeleteAllIsSplitJoin(s[i + |p|..], p);
  }

  /** For a one-character separator, containment is membership. */
  lemma ContainsChar(s: string, c: char)
    ensures Contains(s, [c]) <==> c in s
  {
    if c in s {
      var i :| 0 <= i < |s| && s[i] == c;
      assert OccursAt(s, [c], i);
    }
    if Contains(s, [c]) {
      var i :| 0 <= i <= |s| && OccursAt(s, [c], i);
      assert s[i..i + 1][0] == s[i];
    }
  }

  /** The first occurrence of a character, in terms of the text before it. */
  lemma IndexOfChar(s: string, c: char, i: nat)
    requires i < |s| && s[i] == c && c !in s[..i]
    ensures IndexOf(s, [c], 0) == Some(i)
  {
    assert OccursAt(s, [c], i);
    forall j | 0 <= j < i ensures !OccursAt(s, [c], j) {
      assert s[..i][j] == s[j];
      assert s[j..j + 1][0] == s[j];
    }
    var r := IndexOf(s, [c], 0);
    assert r.Some?;
    assert r.value <= i;
  }

  /** `s.indexOf(c)` for one character: its first position, if any. */
  function Find(s: string, c: char): (r: Option<nat>)
    ensures r.Some? ==> r.value < |s| && s[r.value] == c && c !in s[..r.value]
    ensures r.None? <==> c !in s
  {
    var r := IndexOf(s, [c], 0);
    if r.Some? then
      assert s[r.value..r.value + 1][0] == s[r.value];
      assert forall j :: 0 <= j < r.value && s[j] == c ==> OccursAt(s, [c], j);
      r
    else
      assert forall j :: 0 <= j < |s| && s[j] == c ==> OccursAt(s, [c], j);
      r
  }

  /** `Find` is determined by its contract. */
  lemma FindAt(s: string, c: char, i: nat)
    requires i < |s| && s[i] == c && c !in s[..i]
    ensures Find(s, c) == Some(i)
  {
  }

  /** Splitting on a character whose first occurrence is at `i`: the first
      part is the text before it, and the other parts are those of the text
      after it, which they rejoin to with later separators included. */
  lemma SplitAtFirst(s: string, c: char, i: nat)
    requires i < |s| && s[i] == c && c !in s[..i]
    ensures |Split(s, [c])| >= 2
    ensures Split(s, [c])[0] == s[..i]
    ensures Split(s, [c])[1..] == Split(s[i + 1..], [c])
    ensures Join(Split(s, [c])[1..], [c]) == s[i + 1..]
  {
    IndexOfChar(s, c, i);
    assert Split(s, [c]) == [s[..i]] + Split(s[i + 1..], [c]);
    assert Split(s, [c])[1..] == Split(s[i + 1..], [c]);
    SplitJoinsBack(s[i + 1..], [c]);
  }

  /** Splitting text without the separator gives the text back whole. */
  lemma SplitWithout(s: string, c: char)
    requires c !in s
    ensures Split(s, [c]) == [s]
  {
    ContainsChar(s, c);
  }

  /** `s.split(c).length` is one more than the number of `c` in `s`. */
  lemma {:induction false} SplitCount(s: string, c: char)
    ensures |Split(s, [c])| == multiset(s)[c] + 1
    decreases |s|
  {
    if c in s {
      var i :| 0 <= i < |s| && s[i] == c && c !in s[..i] by {
        var k :| 0 <= k < |s| && s[k] == c;
        FirstOccurrence(s, c, k);
      }
      IndexOfChar(s, c, i);
      var a, b := s[..i], s[i + 1..];
      assert Split(s, [c]) == [a] + Split(b, [c]);
      SplitCount(b, c);
      assert s == a + [c] + b;
      CountAround(a, c, b);
    } else {
      SplitWithout(s, c);
    }
  }

  lemma CountAround(a: string, c: char, b: string)
    requires c !in a
    ensures multiset(a + [c] + b)[c] == multiset(b)[c] + 1
  {
    assert multiset(a + [c]) == multiset(a) + multiset([c]);
    assert multiset(a)[c] == 0;
  }

  /** Some occurrence implies a first occurrence. */
  lemma {:induction false} FirstOccurrence(s: string, c: char, k: nat)
    requires k < |s| && s[k] == c
    ensures exists i :: 0 <= i < |s| && s[i] == c && c !in s[..i]
    decreases k
  {
    if c in s[..k] {
      var k' :| 0 <= k' < k && s[..k][k'] == c;
      FirstOccurrence(s, c, k');
    } else {
      assert 0 <= k < |s| && s[k] == c && c !in s[..k];
    }
  }

  /** Joining separator-free parts with a character and splitting on that
      character again gives the parts back. */
  lemma {:induction false} SplitJoin(parts: seq<string>, c: char)
    requires |parts| >= 1
    requires forall k :: 0 <= k < |parts| ==> c !in parts[k]
    ensures Split(Join(parts, [c]), [c]) == parts
    decreases |parts|
  {
    if |parts| == 1 {
      SplitWithout(parts[0], c);
    } else {
      var s := Join(parts, [c]);
      var i := |parts[0]|;
      assert s == parts[0] + [c] + Join(parts[1..], [c]);
      assert s[..i] == parts[0];
      assert s[i + 1..] == Join(parts[1..], [c]);
      SplitAtFirst(s, c, i);
      IndexOfChar(s, c, i);
      assert Split(s, [c]) == [parts[0]] + Split(s[i + 1..], [c]);
      SplitJoin(parts[1..], c);
    }
  }

  /** `indexOf` finds an occurrence with none before it. */
  lemma FirstAt(s: string, p: string, i: nat)
    requires OccursAt(s, p, i) && forall j :: 0 <= j < i ==> !OccursAt(s, p, j)
    ensures IndexOf(s, p, 0) == Some(i)
  {
    var r := IndexOf(s, p, 0);
    assert r.Some?;
    assert r.value <= i;
  }

  /** Text without the separator is one part. */
  lemma SplitWhole(s: string, sep: string)
    requires sep != [] && !Contains(s, sep)
    ensures Split(s, sep) == [s]
  {
  }

  /** In `x + y`, a two-character pattern starts at no position of `x` when
      `x` lacks it and the seam does not form it. */
  lemma SeamFree(x: string, y: string, p: string)
    requires |p| == 2 && !Contains(x, p)
    requires x == [] || y == [] || x[|x| - 1] != p[0] || y[0] != p[1]
    ensures forall j :: 0 <= j < |x| ==> !OccursAt(x + y, p, j)
  {
    var s := x + y;
    forall j | 0 <= j < |x| && OccursAt(s, p, j)
      ensures false
    {
      assert s[j] == p[0] && s[j + 1] == p[1] by {
        assert s[j..j + 2][0] == s[j] && s[j..j + 2][1] == s[j + 1];
      }
      if j + 2 <= |x| {
        assert x[j..j + 2] == s[j..j + 2];
        assert OccursAt(x, p, j);
      }
    }
  }

  /** A slice of a text without `p` has no `p` either. */
  lemma SliceAvoids(s: string, p: string, a: int, b: int)
    requires 0 <= a <= b <= |s|
    requires !Contains(s, p)
    ensures !Contains(s[a..b], p)
  {
    forall j | 0 <= j <= b - a && OccursAt(s[a..b], p, j)
      ensures OccursAt(s, p, a + j)
    {
      var u, v := s[a..b][j..j + |p|], s[a + j..a + j + |p|];
      forall k | 0 <= k < |p| ensures u[k] == v[k] { }
      assert u == v;
    }
  }

  /** A two-character pattern found in `x + y` lies in `x`, in `y`, or across
      the seam with its first character ending `x` and its second starting `y`. */
  lemma ConcatAvoids(x: string, y: string, p: string)
    requires |p| == 2
    requires !Contains(x, p) && !Contains(y, p)
    requires x == [] || y == [] || x[|x| - 1] != p[0] || y[0] != p[1]
    ensures !Contains(x + y, p)
  {
    var s := x + y;
    forall j | 0 <= j <= |s| && OccursAt(s, p, j)
      ensures false
    {
      assert s[j] == p[0] && s[j + 1] == p[1] by {
        assert s[j..j + 2][0] == s[j] && s[j..j + 2][1] == s[j + 1];
      }
      if j + 2 <= |x| {
        assert x[j..j + 2] == s[j..j + 2];
        assert OccursAt(x, p, j);
      } else if j >= |x| {
        assert y[j - |x|..j - |x| + 2] == s[j..j + 2];
        assert OccursAt(y, p, j - |x|);
      }
    }
  }
}
