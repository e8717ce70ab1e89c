/** The parser of one record block: the block is split into lines, each
    line into a key and a value at its first `:`, and the trimmed key picks
    the property the value is stored in. */
module BlockParser {
  import opened Wrappers
  import opened Whitespace
  import opened Strings
  import opened Record

  /** What `line.split(':')` gives: the text before the first `:`, and the
      remaining parts rejoined with `:` (so later colons are kept). */
  lemma ColonSplit(line: string)
    ensures Find(line, ':').None? ==> Split(line, ":") == [line]
    ensures Find(line, ':').Some? ==>
              var i := Find(line, ':').value;
              |Split(line, ":")| >= 2 && Split(line, ":")[0] == line[..i]
              && Join(Split(line, ":")[1..], ":") == line[i + 1..]
  {
    match Find(line, ':')
    case None => SplitWithout(line, ':');
    case Some(i) => SplitAtFirst(line, ':', i);
  }

  /** `const [key, ...rest] = line.split(':')`, then
      `if (!key || rest.length === 0) return` and
      `const val = rest.join(':').trim()`: the untrimmed key and the value,
      or None for a line the handler skips. */
  function SplitKeyValue(line: string): (kv: Option<(string, string)>)
    ensures kv.None? <==> Find(line, ':').None? || Find(line, ':') == Some(0)
    ensures kv.Some? ==>
              var i := Find(line, ':').value;
              kv.value.0 == line[..i] && kv.value.1 == Trim(line[i + 1..])
  {
    var parts := Split(line, ":");
    ColonSplit(line);
    if parts[0] == "" || |parts| == 1 then None
    else Some((parts[0], Trim(Join(parts[1..], ":"))))
  }

  /** The field a line sets and the value text it sets it from, or None when
      the line changes nothing: no `:`, nothing before the first `:`, or a
      trimmed key outside the vocabulary. */
  function Assignment(line: string): (a: Option<(Field, string)>)
    ensures Find(line, ':').None? ==> a.None?
    ensures Find(line, ':') == Some(0) ==> a.None?
    ensures Find(line, ':').Some? && Find(line, ':').value > 0 ==>
              var i := Find(line, ':').value;
              (a.Some? <==> FieldOf(Trim(line[..i])).Some?)
              && (a.Some? ==> Key(a.value.0) == Trim(line[..i]) && a.value.1 == Trim(line[i + 1..]))
  {
    match SplitKeyValue(line)
    case None => None
    case Some((key, val)) =>
      match FieldOf(Trim(key))
      case None => None
      case Some(f) => Some((f, val))
  }

  /** A line `key:value` whose key holds no colon: the key is trimmed and
      looked up, and the value is the whole trimmed text after that first
      colon, later colons included. */
  lemma KeyedLine(key: string, val: string)
    requires key != "" && ':' !in key
    ensures Assignment(key + ":" + val) ==
              if FieldOf(Trim(key)).Some? then Some((FieldOf(Trim(key)).value, Trim(val))) else None
  {
    var line := key + ":" + val;
    assert line[..|key|] == key && line[|key| + 1..] == val;
    FindAt(line, ':', |key|);
  }

  /** Every key is a non-empty word without a colon, a line feed or
      surrounding space. */
  lemma KeyShape(f: Field)
    ensures Key(f) != "" && ':' !in Key(f) && '\n' !in Key(f) && NoEdgeSpace(Key(f))
  {
    KeySeparators(f);
    match f
    case Nim =>
    case Nama =>
    case Grade =>
    case Kelas =>
    case Rank =>
    case TugasTeori =>
    case TugasPraktikum =>
    case Portofolio =>
    case ResponsiPraktikum =>
    case KuisTeori =>
    case UtsPrak =>
    case ProjectField =>
  }

  lemma KeySeparators(f: Field)
    ensures ':' !in Key(f) && '\n' !in Key(f)
  {
    match f
    case Nim =>
    case Nama =>
    case Grade =>
    case Kelas =>
    case Rank =>
    case TugasTeori =>
    case TugasPraktikum =>
    case Portofolio =>
    case ResponsiPraktikum =>
    case KuisTeori =>
    case UtsPrak =>
    case ProjectField =>
  }

  lemma LeadingSpace(val: string)
    requires NoEdgeSpace(val)
    ensures Trim(" " + val) == val
  {
    assert AllSpace(" ") && AllSpace("");
    TrimPadded(" ", val, "");
    assert " " + val + "" == " " + val;
  }

  lemma NamedLine(key: string, f: Field, val: string)
    requires key != "" && ':' !in key && NoEdgeSpace(key) && FieldOf(key) == Some(f)
    requires NoEdgeSpace(val)
    ensures Assignment(key + ": " + val) == Some((f, val))
  {
    var line := key + ":" + (" " + val);
    assert key + ": " + val == line;
    KeyedLine(key, " " + val);
    assert Assignment(line) == Some((FieldOf(Trim(key)).value, Trim(" " + val))) by {
      TrimNoEdge(key);
    }
    LeadingSpace(val);
  }

  /** A well-formed line `KEY: value` assigns the value to the field the
      key names. */
  lemma WellFormedLine(f: Field, val: string)
    requires NoEdgeSpace(val)
    ensures Assignment(Key(f) + ": " + val) == Some((f, val))
  {
    KeysName(f);
    KeyShape(f);
    NamedLine(Key(f), f, val);
  }
  /** A line holding a name and a colon but no value sets that property to
      the empty text: an empty remainder is not skipped. */
  lemma EmptyValueLine(f: Field)
    ensures Assignment(Key(f) + ":") == Some((f, ""))
  {
    KeysName(f);
    KeyShape(f);
    BareKeyLine(Key(f), f);
  }

  lemma BareKeyLine(key: string, f: Field)
    requires key != "" && ':' !in key && NoEdgeSpace(key) && FieldOf(key) == Some(f)
    ensures Assignment(key + ":") == Some((f, ""))
  {
    TrimNoEdge(key);
    TrimNoEdge("");
    assert key + ":" + "" == key + ":";
    KeyedLine(key, "");
  }

  /** One iteration of the `forEach` over the lines. A line that assigns
      nothing leaves the object as it was; otherwise only the property its
      key names changes, to that line's value. */
  function ParseLine(st: Student, line: string): (st': Student)
    ensures Assignment(line).None? ==> st' == st
    ensures Assignment(line).Some? ==>
              var (f, val) := Assignment(line).value;
              Get(st', f) == Some(Decode(f, val)) && forall g :: g != f ==> Get(st', g) == Get(st, g)
  {
    match Assignment(line)
    case None => st
    case Some((f, val)) => Assign(st, f, val)
  }

  /** The lines read in order, starting from `st`. */
  function ParseLines(st: Student, lines: seq<string>): Student
  {
    if lines == [] then st
    else ParseLine(ParseLines(st, lines[..|lines| - 1]), lines[|lines| - 1])
  }

  /** `parseBlock(text)`: the object built from an empty one by the lines of
      `text.split('\n')`. A property is absent exactly when no line assigns
      it: the parser invents no default values. */
  function ParseBlock(block: string): (st: Student)
    ensures forall f :: Get(st, f).None? <==> NeverSets(Assignments(Split(block, "\n")), f)
  {
    var lines := Split(block, "\n");
    ParseLinesApply(Empty, lines);
    ApplyAbsent(Assignments(lines));
    ParseLines(Empty, lines)
  }

  /** What each line assigns, in order. */
  function Assignments(lines: seq<string>): (acts: seq<Option<(Field, string)>>)
    ensures |acts| == |lines| && forall k :: 0 <= k < |lines| ==> acts[k] == Assignment(lines[k])
  {
    seq(|lines|, k requires 0 <= k < |lines| => Assignment(lines[k]))
  }

  /** Assignments applied in order, starting from `st`. */
  function Apply(st: Student, acts: seq<Option<(Field, string)>>): Student
  {
    if acts == [] then st
    else
      var prev := Apply(st, acts[..|acts| - 1]);
      match acts[|acts| - 1]
      case None => prev
      case Some((f, val)) => Assign(prev, f, val)
  }

  /** Reading lines is applying what they assign. */
  lemma {:induction false} ParseLinesApply(st: Student, lines: seq<string>)
    ensures ParseLines(st, lines) == Apply(st, Assignments(lines))
  {
    if lines != [] {
      var n := |lines| - 1;
      var init := lines[..n];
      var acts := Assignments(lines);
      ParseLinesApply(st, init);
      assert acts[..n] == Assignments(init);
      assert acts[n] == Assignment(lines[n]);
    }
  }

  predicate Sets(a: Option<(Field, string)>, f: Field)
  {
    a.Some? && a.value.0 == f
  }

  /** No assignment sets `f`. */
  predicate NeverSets(acts: seq<Option<(Field, string)>>, f: Field)
  {
    forall k :: 0 <= k < |acts| ==> !Sets(acts[k], f)
  }

  /** Assignment `k` is the last one setting `f`. */
  predicate LastSetting(acts: seq<Option<(Field, string)>>, k: int, f: Field)
  {
    0 <= k < |acts| && Sets(acts[k], f) && forall j :: k < j < |acts| ==> !Sets(acts[j], f)
  }

  /** A property nothing sets keeps its starting value. */
  lemma {:induction false} ApplyUnset(st: Student, acts: seq<Option<(Field, string)>>, f: Field)
    requires NeverSets(acts, f)
    ensures Get(Apply(st, acts), f) == Get(st, f)
  {
    if acts != [] {
      var n := |acts| - 1;
      var init := acts[..n];
      assert forall k :: 0 <= k < n ==> init[k] == acts[k];
      ApplyUnset(st, init, f);
      assert !Sets(acts[n], f);
    }
  }

  /** The last assignment setting a property decides its value. */
  lemma {:induction false} ApplyLast(st: Student, acts: seq<Option<(Field, string)>>, f: Field, k: int)
    requires LastSetting(acts, k, f)
    ensures Get(Apply(st, acts), f) == Some(Decode(f, acts[k].value.1))
  {
    var n := |acts| - 1;
    var init := acts[..n];
    if k < n {
      assert !Sets(acts[n], f);
      assert LastSetting(init, k, f) by {
        assert init[k] == acts[k];
        forall j | k < j < n ensures !Sets(init[j], f) {
          assert init[j] == acts[j];
        }
      }
      ApplyLast(st, init, f, k);
      if acts[n].Some? {
        assert acts[n].value.0 != f;
      }
    } else {
      assert acts[n] == Some((f, acts[k].value.1));
    }
  }

  /** If something sets `f`, one assignment is the last to. */
  lemma {:induction false} LastExists(acts: seq<Option<(Field, string)>>, k: int, f: Field)
    requires 0 <= k < |acts| && Sets(acts[k], f)
    ensures exists m :: LastSetting(acts, m, f)
    decreases |acts| - k
  {
    if !LastSetting(acts, k, f) {
      var j :| k < j < |acts| && Sets(acts[j], f);
      LastExists(acts, j, f);
    }
  }

  /** Starting from an empty record, a property is absent exactly when
      nothing sets it. */
  lemma ApplyAbsent(acts: seq<Option<(Field, string)>>)
    ensures forall f :: Get(Apply(Empty, acts), f).None? <==> NeverSets(acts, f)
  {
    forall f ensures Get(Apply(Empty, acts), f).None? <==> NeverSets(acts, f) {
      if NeverSets(acts, f) {
        ApplyUnset(Empty, acts, f);
        EmptyHasNothing(f);
      } else {
        var k :| 0 <= k < |acts| && Sets(acts[k], f);
        LastExists(acts, k, f);
        var m :| LastSetting(acts, m, f);
        ApplyLast(Empty, acts, f, m);
      }
    }
  }

  /** When lines assign a property more than once, the last one decides
      its value. */
  lemma BlockLastWins(block: string, f: Field, k: int)
    requires LastSetting(Assignments(Split(block, "\n")), k, f)
    ensures Get(ParseBlock(block), f) == Some(Decode(f, Assignment(Split(block, "\n")[k]).value.1))
  {
    var lines := Split(block, "\n");
    ParseLinesApply(Empty, lines);
    ApplyLast(Empty, Assignments(lines), f, k);
  }

  /** The line `KEY: value` of a block. */
  function Line(f: Field, val: string): string
  {
    Key(f) + ": " + val
  }

  /** The lines of a block holding the values `vals` under the fields `fs`. */
  function Lines(fs: seq<Field>, vals: seq<string>): (lines: seq<string>)
    requires |fs| == |vals|
    ensures |lines| == |fs| && forall k :: 0 <= k < |fs| ==> lines[k] == Line(fs[k], vals[k])
  {
    seq(|fs|, k requires 0 <= k < |fs| => Line(fs[k], vals[k]))
  }

  /** The block text of those lines, one per line. */
  function Render(fs: seq<Field>, vals: seq<string>): string
    requires |fs| == |vals|
  {
    Join(Lines(fs, vals), "\n")
  }

  /** A value that can be written on one line and read back unchanged. */
  predicate Writable(val: string)
  {
    '\n' !in val && NoEdgeSpace(val)
  }

  /** No field appears twice. */
  predicate Distinct(fs: seq<Field>)
  {
    forall i, j :: 0 <= i < j < |fs| ==> fs[i] != fs[j]
  }

  /** The lines of a rendered block assign the values to their fields. */
  lemma RenderedAssignments(fs: seq<Field>, vals: seq<string>)
    requires |fs| == |vals| >= 1 && forall k :: 0 <= k < |vals| ==> Writable(vals[k])
    ensures |Assignments(Split(Render(fs, vals), "\n"))| == |fs|
    ensures forall k :: 0 <= k < |fs| ==> Assignments(Split(Render(fs, vals), "\n"))[k] == Some((fs[k], vals[k]))
  {
    var lines := Lines(fs, vals);
    forall k | 0 <= k < |lines| ensures '\n' !in lines[k] {
      KeyShape(fs[k]);
    }
    SplitJoin(lines, '\n');
    forall k | 0 <= k < |fs| ensures Assignment(lines[k]) == Some((fs[k], vals[k])) {
      WellFormedLine(fs[k], vals[k]);
    }
  }

  /** Parsing a rendered block gives back every field with its value
      decoded, and no other field. */
  lemma ParseRendered(fs: seq<Field>, vals: seq<string>)
    requires |fs| == |vals| >= 1
    requires Distinct(fs) && forall k :: 0 <= k < |vals| ==> Writable(vals[k])
    ensures forall k :: 0 <= k < |fs| ==> Get(ParseBlock(Render(fs, vals)), fs[k]) == Some(Decode(fs[k], vals[k]))
    ensures forall g :: g !in fs ==> Get(ParseBlock(Render(fs, vals)), g).None?
  {
    forall k | 0 <= k < |fs|
      ensures Get(ParseBlock(Render(fs, vals)), fs[k]) == Some(Decode(fs[k], vals[k]))
    {
      RenderedPresent(fs, vals, k);
    }
    forall g | g !in fs ensures Get(ParseBlock(Render(fs, vals)), g).None? {
      RenderedAbsent(fs, vals, g);
    }
  }

  lemma RenderedPresent(fs: seq<Field>, vals: seq<string>, k: int)
    requires |fs| == |vals| >= 1 && 0 <= k < |fs|
    requires Distinct(fs) && forall k :: 0 <= k < |vals| ==> Writable(vals[k])
    ensures Get(ParseBlock(Render(fs, vals)), fs[k]) == Some(Decode(fs[k], vals[k]))
  {
    var block := Render(fs, vals);
    var acts := Assignments(Split(block, "\n"));
    RenderedAssignments(fs, vals);
    assert Sets(acts[k], fs[k]);
    forall j | k < j < |acts| ensures !Sets(acts[j], fs[k]) {
      assert fs[k] != fs[j];
    }
    assert LastSetting(acts, k, fs[k]);
    BlockLastWins(block, fs[k], k);
  }

  lemma RenderedAbsent(fs: seq<Field>, vals: seq<string>, g: Field)
    requires |fs| == |vals| >= 1 && g !in fs
    requires forall k :: 0 <= k < |vals| ==> Writable(vals[k])
    ensures Get(ParseBlock(Render(fs, vals)), g).None?
  {
    var block := Render(fs, vals);
    var acts := Assignments(Split(block, "\n"));
    RenderedAssignments(fs, vals);
    assert NeverSets(acts, g);
  }

  /** A block of one line. */
  lemma SingleLine(line: string, f: Field, val: string)
    requires '\n' !in line && Assignment(line) == Some((f, val))
    ensures Get(ParseBlock(line), f) == Some(Decode(f, val))
  {
    SplitWithout(line, '\n');
    assert Assignments([line])[0] == Some((f, val));
    BlockLastWins(line, f, 0);
  }

  /** A block `NAME:` on its own gives the property the value decoded from
      the empty text. */
  lemma EmptyValueBlock(f: Field)
    ensures Get(ParseBlock(Key(f) + ":"), f) == Some(Decode(f, ""))
  {
    EmptyValueLine(f);
    KeyShape(f);
    SingleLine(Key(f) + ":", f, "");
  }
}
