/** The PROJECT sub-record: `key=value` pairs separated by `;`, each value
    stored as a number when it parses as one and as trimmed text otherwise. */
module Project {
  import opened Wrappers
  import opened Whitespace
  import opened Strings
  import opened Numbers

  datatype ProjectValue = Number(n: Num) | Text(s: string)

  type ProjectRecord = map<string, ProjectValue>

  /** Assigning the property `__proto__` of a plain JavaScript object runs
      the prototype setter, which ignores numbers and strings: that key is
      never stored. */
  const ProtoKey := "__proto__"

  /** `isNaN(v) ? v.trim() : Number(v)`: the value is text exactly when it
      does not read as a number, and then it is the trimmed value; a stored
      number is never NaN. */
  function Coerce(v: string): (r: ProjectValue)
    ensures r.Text? <==> ParseNum(v).NaN?
    ensures r.Text? ==> r.s == Trim(v) && NoEdgeSpace(r.s)
    ensures r.Number? ==> r.n == ParseNum(v) && !r.n.NaN?
  {
    if ParseNum(v).NaN? then Text(Trim(v)) else Number(ParseNum(v))
  }

  /** A whole number, however padded, is stored as that number. */
  lemma CoerceShownNat(ws1: string, n: nat, ws2: string)
    requires AllSpace(ws1) && AllSpace(ws2)
    ensures Coerce(ws1 + ShowNat(n) + ws2) == Number(Int(n))
  {
    ParseShownNat(ws1, n, ws2);
  }

  /** A value holding a character no number uses is stored as its trimmed text. */
  lemma CoerceRemark(v: string, k: nat)
    requires k < |Trim(v)| && !IsLiteralChar(Trim(v)[k])
    ensures Coerce(v) == Text(Trim(v))
  {
    ForeignCharIsNaN(v, k);
  }

  /** The text a value is read from: everything after the first `=` up to
      the next `=`, or to the end when there is none. */
  function ValueText(rest: string): string
  {
    match Find(rest, '=')
    case None => rest
    case Some(j) => rest[..j]
  }

  /** `const [k, v] = seg.split('=')`, giving the entry `k.trim() -> v`
      coerced. Only the first two `=`-separated parts are read: any text
      from a second `=` on is dropped. */
  function Entry(seg: string): (e: (string, ProjectValue))
    requires '=' in seg
    ensures e.0 == Trim(seg[..Find(seg, '=').value])
    ensures e.1 == Coerce(ValueText(seg[Find(seg, '=').value + 1..]))
  {
    var parts := Split(seg, "=");
    SplitFirstTwo(seg);
    (Trim(parts[0]), Coerce(parts[1]))
  }

  /** The first two parts of `seg.split('=')`. */
  lemma SplitFirstTwo(seg: string)
    requires '=' in seg
    ensures |Split(seg, "=")| >= 2
    ensures Split(seg, "=")[0] == seg[..Find(seg, '=').value]
    ensures Split(seg, "=")[1] == ValueText(seg[Find(seg, '=').value + 1..])
  {
    var i := Find(seg, '=').value;
    SplitAtFirst(seg, '=', i);
    var rest := seg[i + 1..];
    if '=' in rest {
      SplitAtFirst(rest, '=', Find(rest, '=').value);
    } else {
      SplitWithout(rest, '=');
    }
  }

  /** A segment `key=value` whose key holds no `=`. */
  lemma KeyedSegment(key: string, val: string)
    requires '=' !in key
    ensures Entry(key + "=" + val) == (Trim(key), Coerce(ValueText(val)))
  {
    var seg := key + "=" + val;
    assert seg[..|key|] == key && seg[|key| + 1..] == val;
    FindAt(seg, '=', |key|);
  }

  /** A segment with a second `=` reads as if it ended there: `a=1=2` gives
      the same entry as `a=1`. */
  lemma ExtraEqualsDropped(key: string, val: string, extra: string)
    requires '=' !in key && '=' !in val
    ensures Entry(key + "=" + val + "=" + extra) == Entry(key + "=" + val)
  {
    assert key + "=" + val + "=" + extra == key + "=" + (val + "=" + extra);
    KeyedSegment(key, val + "=" + extra);
    KeyedSegment(key, val);
    ValueTextStops(val, extra);
  }

  lemma ValueTextStops(val: string, extra: string)
    requires '=' !in val
    ensures ValueText(val + "=" + extra) == val == ValueText(val)
  {
    FindAt(val + "=" + extra, '=', |val|);
    assert (val + "=" + extra)[..|val|] == val;
  }

  /** `val.split(';').filter(p => p.includes('='))`, keeping order. */
  function AssignmentParts(parts: seq<string>): (segs: seq<string>)
    ensures |segs| <= |parts|
    ensures forall k :: 0 <= k < |segs| ==> '=' in segs[k]
    ensures forall p :: p in parts ==> ('=' in p <==> p in segs)
    ensures forall p :: p in segs ==> p in parts
  {
    if parts == [] then []
    else (if '=' in parts[0] then [parts[0]] else []) + AssignmentParts(parts[1..])
  }

  /** The filter works part by part: filtering a concatenation is
      concatenating the filtered halves, so kept parts stay in their order
      and each occurrence of a kept part is kept. */
  lemma {:induction false} AssignmentPartsConcat(a: seq<string>, b: seq<string>)
    ensures AssignmentParts(a + b) == AssignmentParts(a) + AssignmentParts(b)
  {
    if a == [] {
      assert a + b == b;
    } else {
      assert (a + b)[0] == a[0];
      assert (a + b)[1..] == a[1..] + b;
      AssignmentPartsConcat(a[1..], b);
    }
  }

  /** When every part holds an `=`, the filter keeps them all. */
  lemma {:induction false} KeepsAssignmentParts(parts: seq<string>)
    requires forall k :: 0 <= k < |parts| ==> '=' in parts[k]
    ensures AssignmentParts(parts) == parts
  {
    if parts != [] {
      assert '=' in parts[0];
      assert forall k :: 0 <= k < |parts| - 1 ==> parts[1..][k] == parts[k + 1];
      KeepsAssignmentParts(parts[1..]);
      assert [parts[0]] + parts[1..] == parts;
    }
  }

  function Segments(text: string): seq<string>
  {
    AssignmentParts(Split(text, ";"))
  }

  /** The entries of the segments, in order. */
  function Entries(segs: seq<string>): (es: seq<(string, ProjectValue)>)
    requires forall k :: 0 <= k < |segs| ==> '=' in segs[k]
    ensures |es| == |segs| && forall k :: 0 <= k < |segs| ==> es[k] == Entry(segs[k])
  {
    seq(|segs|, k requires 0 <= k < |segs| => Entry(segs[k]))
  }

  /** The `forEach` storing each entry into the object `proj`, in order.
      `__proto__` is never stored, and every stored key and value is one of
      the entries. */
  function Store(es: seq<(string, ProjectValue)>): (proj: ProjectRecord)
    ensures ProtoKey !in proj
    ensures forall key :: key in proj ==> exists k :: 0 <= k < |es| && es[k] == (key, proj[key])
  {
    if es == [] then map[]
    else
      var init := es[..|es| - 1];
      var proj := Store(init);
      var e := es[|es| - 1];
      assert forall k :: 0 <= k < |init| ==> init[k] == es[k];
      if e.0 == ProtoKey then proj else proj[e.0 := e.1]
  }

  /** The PROJECT record read from a value: `__proto__` is never stored,
      every key is trimmed, and so is every text value. */
  function ParseProject(text: string): (proj: ProjectRecord)
    ensures ProtoKey !in proj
    ensures forall key :: key in proj ==> NoEdgeSpace(key)
    ensures forall key :: key in proj && proj[key].Text? ==> NoEdgeSpace(proj[key].s)
  {
    var es := Entries(Segments(text));
    EntriesTrimmed(Segments(text));
    var proj := Store(es);
    assert forall key :: key in proj ==> Trimmed((key, proj[key]));
    proj
  }

  /** An entry whose key is trimmed and whose text value, if any, is too. */
  predicate Trimmed(e: (string, ProjectValue))
  {
    NoEdgeSpace(e.0) && (e.1.Text? ==> NoEdgeSpace(e.1.s))
  }

  /** Every entry is trimmed: its key by `k.trim()`, its text value by the
      coercion. */
  lemma EntriesTrimmed(segs: seq<string>)
    requires forall k :: 0 <= k < |segs| ==> '=' in segs[k]
    ensures forall k :: 0 <= k < |segs| ==> Trimmed(Entries(segs)[k])
  {
  }

  /** Entry `k` is the last one naming `key`. */
  predicate LastNaming(es: seq<(string, ProjectValue)>, k: int, key: string)
  {
    0 <= k < |es| && es[k].0 == key && forall j :: k < j < |es| ==> es[j].0 != key
  }

  predicate Names(es: seq<(string, ProjectValue)>, key: string)
  {
    exists k :: 0 <= k < |es| && es[k].0 == key
  }

  /** The stored record holds a key exactly when some entry names it (other
      than `__proto__`), and then holds the value of the last entry naming it. */
  lemma {:induction false} StoreLastWins(es: seq<(string, ProjectValue)>, key: string)
    ensures key in Store(es) <==> key != ProtoKey && Names(es, key)
    ensures forall k :: LastNaming(es, k, key) && key in Store(es) ==> Store(es)[key] == es[k].1
  {
    if es != [] {
      var n := |es| - 1;
      var init := es[..n];
      var e := es[n];
      var proj := Store(init);
      StoreLastWins(init, key);
      assert Store(es) == if e.0 == ProtoKey then proj else proj[e.0 := e.1];
      forall k | LastNaming(es, k, key) && key in Store(es)
        ensures Store(es)[key] == es[k].1
      {
        if k < n {
          assert e.0 != key;
          assert LastNaming(init, k, key);
        }
      }
      NamesSnoc(es, key);
    }
  }

  /** An entry list names a key when its last entry or an earlier one does. */
  lemma NamesSnoc(es: seq<(string, ProjectValue)>, key: string)
    requires es != []
    ensures Names(es, key) <==> Names(es[..|es| - 1], key) || es[|es| - 1].0 == key
  {
    var init := es[..|es| - 1];
    if Names(es, key) && es[|es| - 1].0 != key {
      var k :| 0 <= k < |es| && es[k].0 == key;
      assert init[k].0 == key;
    }
    if Names(init, key) {
      var k :| 0 <= k < |init| && init[k].0 == key;
      assert es[k].0 == key;
    }
  }

  /** The PROJECT record of a value: a key is present exactly when some
      `;`-segment holding `=` names it, and its value comes from the last
      such segment. */
  lemma ProjectLastWins(text: string, key: string)
    ensures key in ParseProject(text) <==> key != ProtoKey && Names(Entries(Segments(text)), key)
    ensures forall k :: LastNaming(Entries(Segments(text)), k, key) && key in ParseProject(text)
              ==> ParseProject(text)[key] == Entry(Segments(text)[k]).1
  {
    StoreLastWins(Entries(Segments(text)), key);
  }
}
