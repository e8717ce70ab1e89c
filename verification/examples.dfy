/** Concrete records: the block of the repository's parser test, and
    behaviours of the parser a reader may not expect. */
module Examples {
  import opened Wrappers
  import opened Whitespace
  import opened Strings
  import opened Numbers
  import opened Scores
  import opened Project
  import opened Record
  import opened BlockParser
  import opened BlockStore

  /** The PROJECT value of the test block, as its `;`-separated entries. */
  predicate TestSegments(segs: seq<string>)
  {
    |segs| == 8
    && segs[0] == "topik=88" && segs[1] == "syntax=90" && segs[2] == "visualisasi=85"
    && segs[3] == "laporan=18" && segs[4] == "video=80" && segs[5] == "nilai=88"
    && segs[6] == "saran=Keep it up" && segs[7] == "tim=2"
  }

  /** The test block, as the field and the value text of each of its lines
      in order: `NIM: 123`, `NAMA: Test Student`, `GRADE: B`,
      `TUGAS_TEORI: 90,80`, `TUGAS_PRAKTIKUM: 85,80,75,70`, `KUIS_TEORI: 88`,
      `UTS_PRAK: 77`, `PORTOFOLIO: 90,90,90,90`, and PROJECT with the
      entries `segs` joined by `;`. The block itself is
      `Render(fs, vals)`. */
  predicate TestBlock(fs: seq<Field>, vals: seq<string>, segs: seq<string>)
  {
    TestSegments(segs) && |fs| == 9 && |vals| == 9
    && fs[0] == Nim && vals[0] == "123"
    && fs[1] == Nama && vals[1] == "Test Student"
    && fs[2] == Grade && vals[2] == "B"
    && fs[3] == TugasTeori && vals[3] == "90,80"
    && fs[4] == TugasPraktikum && vals[4] == "85,80,75,70"
    && fs[5] == KuisTeori && vals[5] == "88"
    && fs[6] == UtsPrak && vals[6] == "77"
    && fs[7] == Portofolio && vals[7] == "90,90,90,90"
    && fs[8] == ProjectField && vals[8] == Join(segs, ";")
  }

  /** The test block's PROJECT entries exist: the predicates describing
      the test block can be met, so the lemmas about it are not vacuous. */
  lemma TestSegmentsExist()
    ensures exists segs :: TestSegments(segs)
  {
    var segs := ["topik=88", "syntax=90", "visualisasi=85", "laporan=18", "video=80", "nilai=88",
                 "saran=Keep it up", "tim=2"];
    assert TestSegments(segs);
  }

  /** And so does the test block with those entries. */
  lemma TestBlockExists(segs: seq<string>, project: string)
    requires TestSegments(segs) && project == Join(segs, ";")
    ensures exists fs, vals :: TestBlock(fs, vals, segs)
  {
    var fs := [Nim, Nama, Grade, TugasTeori, TugasPraktikum, KuisTeori, UtsPrak, Portofolio, ProjectField];
    var vals := ["123", "Test Student", "B", "90,80", "85,80,75,70", "88", "77", "90,90,90,90", project];
    assert TestBlock(fs, vals, segs);
  }

  /** Each entry of the PROJECT value holds an `=` and neither a `;` nor
      a line feed. */
  lemma SegmentsShape(segs: seq<string>)
    requires TestSegments(segs)
    ensures forall k :: 0 <= k < |segs| ==> '=' in segs[k] && ';' !in segs[k] && '\n' !in segs[k]
  {
    forall k | 0 <= k < |segs| ensures '=' in segs[k] && ';' !in segs[k] && '\n' !in segs[k] {
      assert k == 0 || k == 1 || k == 2 || k == 3 || k == 4 || k == 5 || k == 6 || k == 7;
    }
  }

  lemma ProjectNoLineFeed(segs: seq<string>)
    requires TestSegments(segs)
    ensures '\n' !in Join(segs, ";")
  {
    SegmentsShape(segs);
    JoinLacks(segs, ";", '\n');
  }

  lemma ProjectEdges(segs: seq<string>)
    requires TestSegments(segs)
    ensures NoEdgeSpace(Join(segs, ";"))
  {
    assert Join(segs, ";") == segs[0] + ";" + Join(segs[1..], ";");
    assert segs[..7] + [segs[7]] == segs;
    JoinSnoc(segs[..7], ";", segs[7]);
    assert segs[0][0] == 't' && segs[7][|segs[7]| - 1] == '2';
  }

  lemma ProjectSplits(segs: seq<string>)
    requires TestSegments(segs)
    ensures Split(Join(segs, ";"), ";") == segs
  {
    SegmentsShape(segs);
    SplitJoin(segs, ';');
  }

  /** Every entry of the PROJECT value is kept: each holds an `=`. */
  lemma ProjectSegmentsKept(segs: seq<string>)
    requires TestSegments(segs)
    ensures Segments(Join(segs, ";")) == segs
  {
    ProjectSplits(segs);
    SegmentsShape(segs);
    KeepsAssignmentParts(segs);
  }

  lemma TextsWritable()
    ensures Writable("123") && Writable("Test Student") && Writable("B")
  {
    assert "Test Student"[0] == 'T' && "Test Student"[11] == 't';
  }

  /** The score texts of the test block are the decimal texts of its
      scores, separated by commas. */
  lemma TheoryText()
    ensures ShowNat(90) + "," + ShowNat(80) == "90,80"
  {
  }

  lemma PracticeText()
    ensures ShowNat(85) + "," + ShowNat(80) + "," + ShowNat(75) + "," + ShowNat(70) == "85,80,75,70"
  {
  }

  lemma PortfolioText()
    ensures ShowNat(90) + "," + ShowNat(90) + "," + ShowNat(90) + "," + ShowNat(90) == "90,90,90,90"
  {
  }

  lemma QuizText()
    ensures ShowNat(88) == "88" && ShowNat(77) == "77"
  {
  }

  lemma NumbersWritable()
    ensures Writable("90,80") && Writable("85,80,75,70") && Writable("88") && Writable("77")
    ensures Writable("90,90,90,90")
  {
  }

  /** Every value of the test block fits on its line. */
  lemma TestWritable(fs: seq<Field>, vals: seq<string>, segs: seq<string>)
    requires TestBlock(fs, vals, segs)
    ensures forall k :: 0 <= k < |vals| ==> Writable(vals[k])
  {
    TextsWritable();
    NumbersWritable();
    ProjectNoLineFeed(segs);
    ProjectEdges(segs);
    forall k | 0 <= k < |vals| ensures Writable(vals[k]) {
      assert k == 0 || k == 1 || k == 2 || k == 3 || k == 4 || k == 5 || k == 6 || k == 7 || k == 8;
    }
  }

  /** No key holds a `/`. */
  lemma KeyNoSlash(f: Field)
    ensures '/' !in Key(f)
  {
    match f
    case Nim =>
    case Nama =>
    case Grade =>
    case Kelas =>
    case Rank =>
    case TugasTeori =>
    case TugasPraktikum =>
    case Portofolio =>
    case ResponsiPraktikum =>
    case KuisTeori =>
    case UtsPrak =>
    case ProjectField =>
  }

  /** The PROJECT value of the test block holds no `/`. */
  lemma ProjectNoSlash(segs: seq<string>)
    requires TestSegments(segs)
    ensures '/' !in Join(segs, ";")
  {
    forall k | 0 <= k < |segs| ensures '/' !in segs[k] {
      assert k == 0 || k == 1 || k == 2 || k == 3 || k == 4 || k == 5 || k == 6 || k == 7;
    }
    JoinLacks(segs, ";", '/');
  }

  /** The test block holds no `/`. */
  lemma TestNoSlash(fs: seq<Field>, vals: seq<string>, segs: seq<string>)
    requires TestBlock(fs, vals, segs)
    ensures '/' !in Render(fs, vals)
  {
    ProjectNoSlash(segs);
    var lines := Lines(fs, vals);
    forall k | 0 <= k < |lines| ensures '/' !in lines[k] {
      KeyNoSlash(fs[k]);
      assert k == 0 || k == 1 || k == 2 || k == 3 || k == 4 || k == 5 || k == 6 || k == 7 || k == 8;
    }
    JoinLacks(lines, "\n", '/');
  }

  /** The test block starts with `NIM: 123` and ends with the last
      character of its PROJECT value, so it has no white space at its
      ends. */
  lemma TestBlockEdges(fs: seq<Field>, vals: seq<string>, segs: seq<string>)
    requires TestBlock(fs, vals, segs)
    ensures NoEdgeSpace(Render(fs, vals))
    ensures OccursAt(Render(fs, vals), Needle("123"), 0)
  {
    var lines := Lines(fs, vals);
    var b := Render(fs, vals);
    assert lines[0] == Needle("123");
    assert b == lines[0] + "\n" + Join(lines[1..], "\n");
    assert b[..|lines[0]|] == lines[0];
    assert lines[..8] + [lines[8]] == lines;
    JoinSnoc(lines[..8], "\n", lines[8]);
    ProjectEdges(segs);
    assert vals[8] == segs[0] + ";" + Join(segs[1..], ";");
    assert lines[8] == Key(ProjectField) + ": " + vals[8];
    assert b[|b| - 1] == vals[8][|vals[8]| - 1];
  }

  /** The handler finds the test block when the store holds it: looking
      up `123` answers with its parse. */
  lemma TestLookup(fs: seq<Field>, vals: seq<string>, segs: seq<string>)
    requires TestBlock(fs, vals, segs)
    ensures Lookup(StoreText([Render(fs, vals)]), "123") == Found(ParseBlock(Render(fs, vals)))
  {
    var b := Render(fs, vals);
    TestNoSlash(fs, vals, segs);
    TestBlockEdges(fs, vals, segs);
    SlashFreeStorable(b);
    assert FirstMatch([b], 0, Needle("123"));
    LookupStore([b], "123", 0);
  }

  lemma TestDistinct(fs: seq<Field>, vals: seq<string>, segs: seq<string>)
    requires TestBlock(fs, vals, segs)
    ensures Distinct(fs)
  {
  }

  /** Line `k` of the test block sets its field. */
  lemma TestRead(fs: seq<Field>, vals: seq<string>, segs: seq<string>, k: nat)
    requires TestBlock(fs, vals, segs) && k < |fs|
    ensures Get(ParseBlock(Render(fs, vals)), fs[k]) == Some(Decode(fs[k], vals[k]))
  {
    TestWritable(fs, vals, segs);
    TestDistinct(fs, vals, segs);
    RenderedPresent(fs, vals, k);
  }

  lemma TestAbsentFields(fs: seq<Field>, vals: seq<string>, segs: seq<string>)
    requires TestBlock(fs, vals, segs)
    ensures Kelas !in fs && Rank !in fs && ResponsiPraktikum !in fs
  {
    forall i | 0 <= i < |fs| ensures fs[i] !in {Kelas, Rank, ResponsiPraktikum} {
    }
  }

  /** A field without a line in the test block is absent. */
  lemma TestUnread(fs: seq<Field>, vals: seq<string>, segs: seq<string>, g: Field)
    requires TestBlock(fs, vals, segs) && g !in fs
    ensures Get(ParseBlock(Render(fs, vals)), g).None?
  {
    TestWritable(fs, vals, segs);
    RenderedAbsent(fs, vals, g);
  }

  /** The test's expectations on `nim`, `nama` and `grade`. */
  lemma TestTexts(fs: seq<Field>, vals: seq<string>, segs: seq<string>)
    requires TestBlock(fs, vals, segs)
    ensures Get(ParseBlock(Render(fs, vals)), Nim) == Some(Str("123"))
    ensures Get(ParseBlock(Render(fs, vals)), Nama) == Some(Str("Test Student"))
    ensures Get(ParseBlock(Render(fs, vals)), Grade) == Some(Str("B"))
  {
    TestRead(fs, vals, segs, 0);
    DecodeText(fs[0], vals[0]);
    TestRead(fs, vals, segs, 1);
    DecodeText(fs[1], vals[1]);
    TestRead(fs, vals, segs, 2);
    DecodeText(fs[2], vals[2]);
  }

  /** A score-list line of two whole numbers reads back as those numbers. */
  lemma TestTwo(fs: seq<Field>, vals: seq<string>, segs: seq<string>, k: nat, a: nat, b: nat)
    requires TestBlock(fs, vals, segs) && k < |fs| && IsScoreList(fs[k])
    requires vals[k] == ShowNat(a) + "," + ShowNat(b)
    ensures Get(ParseBlock(Render(fs, vals)), fs[k]) == Some(List([Int(a), Int(b)]))
  {
    TestRead(fs, vals, segs, k);
    ShownTwo(a, b);
  }

  /** A score-list line of four whole numbers reads back as those numbers. */
  lemma TestFour(fs: seq<Field>, vals: seq<string>, segs: seq<string>, k: nat, a: nat, b: nat, c: nat, d: nat)
    requires TestBlock(fs, vals, segs) && k < |fs| && IsScoreList(fs[k])
    requires vals[k] == ShowNat(a) + "," + ShowNat(b) + "," + ShowNat(c) + "," + ShowNat(d)
    ensures Get(ParseBlock(Render(fs, vals)), fs[k]) == Some(List([Int(a), Int(b), Int(c), Int(d)]))
  {
    TestRead(fs, vals, segs, k);
    ShownFour(a, b, c, d);
  }

  lemma ScalarDecode(f: Field, n: nat)
    requires IsScore(f)
    ensures Decode(f, ShowNat(n)) == Scalar(Int(n))
  {
    DecodeScalar(f, ShowNat(n));
    ShownScore(n);
  }

  /** A scalar line written from a whole number reads back as that number. */
  lemma TestScalar(fs: seq<Field>, vals: seq<string>, segs: seq<string>, k: nat, n: nat)
    requires TestBlock(fs, vals, segs) && k < |fs| && IsScore(fs[k])
    requires vals[k] == ShowNat(n)
    ensures Get(ParseBlock(Render(fs, vals)), fs[k]) == Some(Scalar(Int(n)))
  {
    TestRead(fs, vals, segs, k);
    ScalarDecode(fs[k], n);
  }

  /** The two theory scores: `teori.length` is 2. */
  lemma TestTheory(fs: seq<Field>, vals: seq<string>, segs: seq<string>)
    requires TestBlock(fs, vals, segs)
    ensures Get(ParseBlock(Render(fs, vals)), TugasTeori) == Some(List([Int(90), Int(80)]))
  {
    TheoryText();
    TestTwo(fs, vals, segs, 3, 90, 80);
  }

  /** The four practice scores: `praktikum.length` is 4. */
  lemma TestPractice(fs: seq<Field>, vals: seq<string>, segs: seq<string>)
    requires TestBlock(fs, vals, segs)
    ensures Get(ParseBlock(Render(fs, vals)), TugasPraktikum)
              == Some(List([Int(85), Int(80), Int(75), Int(70)]))
  {
    PracticeText();
    TestFour(fs, vals, segs, 4, 85, 80, 75, 70);
  }

  lemma TestScalars(fs: seq<Field>, vals: seq<string>, segs: seq<string>)
    requires TestBlock(fs, vals, segs)
    ensures Get(ParseBlock(Render(fs, vals)), KuisTeori) == Some(Scalar(Int(88)))
    ensures Get(ParseBlock(Render(fs, vals)), UtsPrak) == Some(Scalar(Int(77)))
  {
    QuizText();
    TestScalar(fs, vals, segs, 5, 88);
    TestScalar(fs, vals, segs, 6, 77);
  }

  lemma TestPortfolio(fs: seq<Field>, vals: seq<string>, segs: seq<string>)
    requires TestBlock(fs, vals, segs)
    ensures Get(ParseBlock(Render(fs, vals)), Portofolio)
              == Some(List([Int(90), Int(90), Int(90), Int(90)]))
  {
    PortfolioText();
    TestFour(fs, vals, segs, 7, 90, 90, 90, 90);
  }

  /** Fields the block has no line for stay absent. */
  lemma TestMissing(fs: seq<Field>, vals: seq<string>, segs: seq<string>)
    requires TestBlock(fs, vals, segs)
    ensures Get(ParseBlock(Render(fs, vals)), Kelas).None?
    ensures Get(ParseBlock(Render(fs, vals)), Rank).None?
    ensures Get(ParseBlock(Render(fs, vals)), ResponsiPraktikum).None?
  {
    TestAbsentFields(fs, vals, segs);
    TestUnread(fs, vals, segs, Kelas);
    TestUnread(fs, vals, segs, Rank);
    TestUnread(fs, vals, segs, ResponsiPraktikum);
  }

  /** An entry with a trimmed key and a value free of `=`. */
  lemma PlainEntry(key: string, v: string)
    requires '=' !in key && NoEdgeSpace(key) && '=' !in v
    ensures Entry(key + "=" + v) == (key, Coerce(v))
  {
    KeyedSegment(key, v);
    TrimNoEdge(key);
  }

  lemma CoerceWhole(n: nat)
    ensures Coerce(ShowNat(n)) == Number(Int(n))
  {
    ShownScore(n);
  }

  /** A PROJECT entry `key=n` with a whole number `n`. */
  lemma WholeEntry(key: string, n: nat)
    requires '=' !in key && NoEdgeSpace(key)
    ensures Entry(key + "=" + ShowNat(n)) == (key, Number(Int(n)))
  {
    var v := ShowNat(n);
    assert IsDigits(v);
    assert '=' !in v;
    PlainEntry(key, v);
    CoerceWhole(n);
  }

  /** A PROJECT entry `key=text` whose text holds a character no number
      literal has. */
  lemma RemarkEntry(key: string, text: string, k: nat)
    requires '=' !in key && NoEdgeSpace(key)
    requires '=' !in text && NoEdgeSpace(text) && k < |text| && !IsLiteralChar(text[k])
    ensures Entry(key + "=" + text) == (key, Text(text))
  {
    PlainEntry(key, text);
    TrimNoEdge(text);
    CoerceRemark(text, k);
  }

  lemma TimEntry()
    ensures Entry("tim=2") == ("tim", Number(Int(2)))
  {
    assert "tim" + "=" + ShowNat(2) == "tim=2";
    WholeEntry("tim", 2);
  }

  lemma SaranEntry()
    ensures Entry("saran=Keep it up") == ("saran", Text("Keep it up"))
  {
    assert "saran" + "=" + "Keep it up" == "saran=Keep it up";
    RemarkEntry("saran", "Keep it up", 4);
  }

  /** The value of `key` in a PROJECT record is that of the last segment
      naming it. */
  lemma SegmentWins(text: string, segs: seq<string>, k: nat, key: string, v: ProjectValue)
    requires Segments(text) == segs && k < |segs| && key != ProtoKey
    requires Entry(segs[k]) == (key, v)
    requires forall j :: k < j < |segs| ==> Entry(segs[j]).0 != key
    ensures key in ParseProject(text) && ParseProject(text)[key] == v
  {
    ProjectLastWins(text, key);
    assert LastNaming(Entries(segs), k, key);
  }

  /** The test's expectation `project.tim == 2`. */
  lemma TestTim(segs: seq<string>)
    requires TestSegments(segs)
    ensures "tim" in ParseProject(Join(segs, ";")) && ParseProject(Join(segs, ";"))["tim"] == Number(Int(2))
  {
    ProjectSegmentsKept(segs);
    TimEntry();
    SegmentWins(Join(segs, ";"), segs, 7, "tim", Number(Int(2)));
  }

  /** The remark is kept as text. */
  lemma TestSaran(segs: seq<string>)
    requires TestSegments(segs)
    ensures "saran" in ParseProject(Join(segs, ";"))
    ensures ParseProject(Join(segs, ";"))["saran"] == Text("Keep it up")
  {
    ProjectSegmentsKept(segs);
    SaranEntry();
    TimEntry();
    forall j | 6 < j < |segs| ensures Entry(segs[j]).0 != "saran" {
      assert j == 7;
    }
    SegmentWins(Join(segs, ";"), segs, 6, "saran", Text("Keep it up"));
  }

  /** A project value holding `key` with the whole number `n`. */
  predicate HasNumber(v: Option<Value>, key: string, n: int)
  {
    v.Some? && v.value.Proj? && key in v.value.project
    && v.value.project[key] == Number(Int(n))
  }

  /** In it `tim` is 2. */
  lemma TestProject(fs: seq<Field>, vals: seq<string>, segs: seq<string>)
    requires TestBlock(fs, vals, segs)
    ensures HasNumber(Get(ParseBlock(Render(fs, vals)), ProjectField), "tim", 2)
  {
    TestRead(fs, vals, segs, 8);
    TestTim(segs);
  }

  // The end marker can survive cleaning: deleting the end marker from the
  // piece `**//` leaves the end marker `*/`.
  lemma EndMarkerSurvives()
    ensures CleanBlock("**//") == EndMarker
  {
    var piece := "**//";
    assert piece[0..2] == "**" && piece[1..3] == EndMarker;
    assert !OccursAt(piece, EndMarker, 0) && OccursAt(piece, EndMarker, 1);
    assert IndexOf(piece, EndMarker, 0) == Some(1);
    assert IndexOf("/", EndMarker, 0) == None;
    assert DeleteAll("/", EndMarker) == "/";
    assert piece[..1] == "*" && piece[3..] == "/";
    assert DeleteAll(piece, EndMarker) == "*/";
    TrimNoEdge("*/");
  }

  /** A block ending in `/` does not come back whole: its last character
      and the `*` of its end marker form a start marker, so the store
      written from the one block `x/` reads back as the two blocks `x` and
      `/`. */
  lemma SlashEndSplits(x: string)
    requires x != "" && NoEdgeSpace(x) && '/' !in x
    ensures Blocks(StoreText([x + "/"])) == [x, "/"]
  {
    var kept := [x, "/"];
    SlashEndPieces(x);
    SlashEndClean(x);
    assert NonEmpty(["", x, "/"]) == kept by {
      assert ["", x, "/"][1..] == kept;
      KeepsNonEmpty(kept);
    }
  }

  /** Its three pieces clean to the empty text, `x` and `/`. */
  lemma SlashEndClean(x: string)
    requires x != "" && NoEdgeSpace(x) && '/' !in x
    ensures CleanEach(["", x, "/\n"]) == ["", x, "/"]
  {
    var c := CleanEach(["", x, "/\n"]);
    var want := ["", x, "/"];
    forall k | 0 <= k < 3 ensures c[k] == want[k] {
      SlashEndPiece(x, k);
    }
  }

  /** One piece of it. */
  lemma SlashEndPiece(x: string, k: int)
    requires x != "" && NoEdgeSpace(x) && '/' !in x
    requires 0 <= k < 3
    ensures CleanBlock(["", x, "/\n"][k]) == ["", x, "/"][k]
  {
    if k == 0 {
      TrimNoEdge("");
    } else if k == 1 {
      SlashFreeStorable(x);
      TrimNoEdge(x);
    } else {
      SlashLineClean();
    }
  }

  /** The store of that one block cuts into three pieces. */
  lemma SlashEndPieces(x: string)
    requires x != "" && NoEdgeSpace(x) && '/' !in x
    ensures Split(StoreText([x + "/"]), StartMarker) == ["", x, "/\n"]
  {
    var rest := StartMarker + "/\n";
    var t := x + rest;
    var later := Split(t, StartMarker);
    assert later == [x, "/\n"] by {
      SlashFreeStorable(x);
      assert t[|x|..|x| + 2] == StartMarker;
      SeamFree(x, rest, StartMarker);
      FirstAt(t, StartMarker, |x|);
      assert later == [t[..|x|]] + Split(t[|x| + 2..], StartMarker);
      assert t[..|x|] == x && t[|x| + 2..] == "/\n";
      SlashLineClean();
    }
    assert Split(StoreText([x + "/"]), StartMarker) == [""] + later by {
      assert [x + "/"][1..] == [];
      assert StoreText([x + "/"]) == StartMarker + t;
      SplitAtStart(t);
    }
  }

  /** The last piece of that store: `/` and the line feed, which splits no
      further and cleans to `/`. */
  lemma SlashLineClean()
    ensures Split("/\n", StartMarker) == ["/\n"]
    ensures CleanBlock("/\n") == "/"
  {
    var u := "/\n";
    assert !Contains(u, StartMarker) && !Contains(u, EndMarker) by {
      assert u[0..2] == u;
    }
    SplitWhole(u, StartMarker);
    assert IndexOf(u, EndMarker, 0) == None;
    assert "" + "/" + "\n" == u;
    TrimPadded("", "/", "\n");
  }

  /** An empty score list is one score, 0. */
  lemma EmptyScores()
    ensures ParseScores("") == [Int(0)]
  {
    ScoresOfTokens([""]);
  }

  /** A string-field key with nothing after the colon, such as `KELAS:`,
      sets that field to the empty text. */
  lemma EmptyText(f: Field)
    requires IsText(f)
    ensures Get(ParseBlock(Key(f) + ":"), f) == Some(Str(""))
  {
    EmptyValueBlock(f);
    DecodeText(f, "");
  }

  /** `90,abc` reads as 90 and NaN. */
  lemma NotANumber()
    ensures ParseScores(ShowNat(90) + "," + "abc") == [Int(90), NaN]
  {
    var w := "abc";
    assert w[0] == 'a' && w[|w| - 1] == 'c';
    WordIsNaN(w);
    DigitsHaveNoComma(ShowNat(90));
    TwoScores(ShowNat(90), w);
    ShownScore(90);
  }

}
