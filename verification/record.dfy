/** The student record the handler builds: one optional property per key of
    the record store's closed vocabulary. A property is absent until a line
    naming its key is read. */
module Record {
  import opened Wrappers
  import opened Numbers
  import opened Scores
  import opened Project

  /** The twelve keys of the record store. */
  datatype Field =
    | Nim | Nama | Grade | Kelas | Rank
    | TugasTeori | TugasPraktikum | Portofolio
    | ResponsiPraktikum | KuisTeori | UtsPrak
    | ProjectField

  /** The key a field is written under in the record store. */
  function Key(f: Field): string
  {
    match f
    case Nim => "NIM"
    case Nama => "NAMA"
    case Grade => "GRADE"
    case Kelas => "KELAS"
    case Rank => "RANK"
    case TugasTeori => "TUGAS_TEORI"
    case TugasPraktikum => "TUGAS_PRAKTIKUM"
    case Portofolio => "PORTOFOLIO"
    case ResponsiPraktikum => "RESPONSI_PRAKTIKUM"
    case KuisTeori => "KUIS_TEORI"
    case UtsPrak => "UTS_PRAK"
    case ProjectField => "PROJECT"
  }

  /** The `switch` on a trimmed key: case-sensitive, and no field for a key
      outside the vocabulary. */
  function FieldOf(key: string): (f: Option<Field>)
    ensures f.Some? ==> Key(f.value) == key
    ensures f.None? ==> forall g :: Key(g) != key
  {
    if key == "NIM" then Some(Nim)
    else if key == "NAMA" then Some(Nama)
    else if key == "GRADE" then Some(Grade)
    else if key == "KELAS" then Some(Kelas)
    else if key == "RANK" then Some(Rank)
    else if key == "TUGAS_TEORI" then Some(TugasTeori)
    else if key == "TUGAS_PRAKTIKUM" then Some(TugasPraktikum)
    else if key == "PORTOFOLIO" then Some(Portofolio)
    else if key == "RESPONSI_PRAKTIKUM" then Some(ResponsiPraktikum)
    else if key == "KUIS_TEORI" then Some(KuisTeori)
    else if key == "UTS_PRAK" then Some(UtsPrak)
    else if key == "PROJECT" then Some(ProjectField)
    else None
  }

  /** Each key names exactly one field. */
  lemma KeysName(f: Field)
    ensures FieldOf(Key(f)) == Some(f)
  {
  }

  /** The value of one property, by kind. */
  datatype Value =
    | Str(text: string)
    | List(scores: seq<Num>)
    | Scalar(score: Num)
    | Proj(project: ProjectRecord)

  /** How a field's value text is read: string fields keep the text, list
      fields split it on commas, scalar fields convert it with `Number`, and
      PROJECT reads its `;`/`=` sub-record. Each field gets a value of its
      own kind. */
  function Decode(f: Field, val: string): (v: Value)
    ensures Fits(f, v)
  {
    if f == ProjectField then Proj(ParseProject(val)) else DecodeLine(f, val)
  }

  predicate IsScoreList(f: Field)
  {
    f == TugasTeori || f == TugasPraktikum || f == Portofolio
  }

  predicate IsScore(f: Field)
  {
    f == ResponsiPraktikum || f == KuisTeori || f == UtsPrak
  }

  predicate IsText(f: Field)
  {
    f == Nim || f == Nama || f == Grade || f == Kelas || f == Rank
  }

  /** The fields other than PROJECT. Each kind is read by its own guarded
      function, so that reading one kind never brings another kind's parser
      into a proof. */
  function DecodeLine(f: Field, val: string): (v: Value)
    requires f != ProjectField
    ensures Fits(f, v)
  {
    if IsScoreList(f) then List(ParseScores(val)) else DecodeWord(f, val)
  }

  /** The scalar fields and the string fields. */
  function DecodeWord(f: Field, val: string): (v: Value)
    requires f != ProjectField && !IsScoreList(f)
    ensures Fits(f, v)
  {
    if IsScore(f) then Scalar(ParseNum(val)) else Str(val)
  }

  /** The JSON object `obj`, one optional property per field. */
  datatype Student = Student(
    nim: Option<string>,
    nama: Option<string>,
    grade: Option<string>,
    kelas: Option<string>,
    rank: Option<string>,
    teori: Option<seq<Num>>,
    praktikum: Option<seq<Num>>,
    responsiPraktikum: Option<Num>,
    kuisTeori: Option<Num>,
    utsPrak: Option<Num>,
    portofolio: Option<seq<Num>>,
    project: Option<ProjectRecord>)

  /** `const obj = {}`. */
  const Empty := Student(None, None, None, None, None, None, None, None, None, None, None, None)

  /** The property of `st` a field names, if it has been set. */
  function Get(st: Student, f: Field): Option<Value>
  {
    match f
    case Nim => if st.nim.Some? then Some(Str(st.nim.value)) else None
    case Nama => if st.nama.Some? then Some(Str(st.nama.value)) else None
    case Grade => if st.grade.Some? then Some(Str(st.grade.value)) else None
    case Kelas => if st.kelas.Some? then Some(Str(st.kelas.value)) else None
    case Rank => if st.rank.Some? then Some(Str(st.rank.value)) else None
    case TugasTeori => if st.teori.Some? then Some(List(st.teori.value)) else None
    case TugasPraktikum => if st.praktikum.Some? then Some(List(st.praktikum.value)) else None
    case Portofolio => if st.portofolio.Some? then Some(List(st.portofolio.value)) else None
    case ResponsiPraktikum =>
      if st.responsiPraktikum.Some? then Some(Scalar(st.responsiPraktikum.value)) else None
    case KuisTeori => if st.kuisTeori.Some? then Some(Scalar(st.kuisTeori.value)) else None
    case UtsPrak => if st.utsPrak.Some? then Some(Scalar(st.utsPrak.value)) else None
    case ProjectField => if st.project.Some? then Some(Proj(st.project.value)) else None
  }

  /** A fresh record has no property at all. */
  lemma EmptyHasNothing(f: Field)
    ensures Get(Empty, f) == None
  {
  }

  /** The `case` of one field: its property becomes the decoded value and
      every other property is left as it was. */
  function Assign(st: Student, f: Field, val: string): (st': Student)
    ensures Get(st', f) == Some(Decode(f, val))
    ensures forall g :: g != f ==> Get(st', g) == Get(st, g)
  {
    var v := Decode(f, val);
    PutHits(st, f, v);
    forall g | g != f ensures Get(Put(st, f, v), g) == Get(st, g) {
      PutKeeps(st, f, v, g);
    }
    Put(st, f, v)
  }

  /** A value of the kind a field holds. */
  predicate Fits(f: Field, v: Value)
  {
    match f
    case Nim | Nama | Grade | Kelas | Rank => v.Str?
    case TugasTeori | TugasPraktikum | Portofolio => v.List?
    case ResponsiPraktikum | KuisTeori | UtsPrak => v.Scalar?
    case ProjectField => v.Proj?
  }

  /** The string fields keep the value text as it is. */
  lemma DecodeText(f: Field, val: string)
    requires IsText(f)
    ensures Decode(f, val) == Str(val)
  {
    assert f != ProjectField && !IsScoreList(f) && !IsScore(f);
  }

  /** The scalar fields hold `Number(val)`. */
  lemma DecodeScalar(f: Field, val: string)
    requires IsScore(f)
    ensures Decode(f, val) == Scalar(ParseNum(val))
  {
    assert f != ProjectField && !IsScoreList(f);
  }

  /** The score-list fields hold `val.split(',').map(Number)`. */
  lemma DecodeList(f: Field, val: string)
    requires IsScoreList(f)
    ensures Decode(f, val) == List(ParseScores(val))
  {
    assert f != ProjectField;
  }

  /** PROJECT holds the sub-record read from the value. */
  lemma DecodeProject(val: string)
    ensures Decode(ProjectField, val) == Proj(ParseProject(val))
  {
  }

  /** The record with the property `f` names set to `v`. */
  function Put(st: Student, f: Field, v: Value): Student
    requires Fits(f, v)
  {
    Student(
      if f == Nim then Some(v.text) else st.nim,
      if f == Nama then Some(v.text) else st.nama,
      if f == Grade then Some(v.text) else st.grade,
      if f == Kelas then Some(v.text) else st.kelas,
      if f == Rank then Some(v.text) else st.rank,
      if f == TugasTeori then Some(v.scores) else st.teori,
      if f == TugasPraktikum then Some(v.scores) else st.praktikum,
      if f == ResponsiPraktikum then Some(v.score) else st.responsiPraktikum,
      if f == KuisTeori then Some(v.score) else st.kuisTeori,
      if f == UtsPrak then Some(v.score) else st.utsPrak,
      if f == Portofolio then Some(v.scores) else st.portofolio,
      if f == ProjectField then Some(v.project) else st.project)
  }

  lemma PutHits(st: Student, f: Field, v: Value)
    requires Fits(f, v)
    ensures Get(Put(st, f, v), f) == Some(v)
  {
    match f
    case Nim =>
    case Nama =>
    case Grade =>
    case Kelas =>
    case Rank =>
    case TugasTeori =>
    case TugasPraktikum =>
    case Portofolio =>
    case ResponsiPraktikum =>
    case KuisTeori =>
    case UtsPrak =>
    case ProjectField =>
  }

  lemma PutKeeps(st: Student, f: Field, v: Value, g: Field)
    requires Fits(f, v) && g != f
    ensures Get(Put(st, f, v), g) == Get(st, g)
  {
    match g
    case Nim =>
    case Nama =>
    case Grade =>
    case Kelas =>
    case Rank =>
    case TugasTeori =>
    case TugasPraktikum =>
    case Portofolio =>
    case ResponsiPraktikum =>
    case KuisTeori =>
    case UtsPrak =>
    case ProjectField =>
  }

  /** A record is determined by its properties. */
  lemma {:induction false} Extensional(a: Student, b: Student)
    requires forall f :: Get(a, f) == Get(b, f)
    ensures a == b
  {
    assert a.nim == b.nim by { assert Get(a, Nim) == Get(b, Nim); }
    assert a.nama == b.nama by { assert Get(a, Nama) == Get(b, Nama); }
    assert a.grade == b.grade by { assert Get(a, Grade) == Get(b, Grade); }
    assert a.kelas == b.kelas by { assert Get(a, Kelas) == Get(b, Kelas); }
    assert a.rank == b.rank by { assert Get(a, Rank) == Get(b, Rank); }
    assert a.teori == b.teori by { assert Get(a, TugasTeori) == Get(b, TugasTeori); }
    assert a.praktikum == b.praktikum by { assert Get(a, TugasPraktikum) == Get(b, TugasPraktikum); }
    assert a.portofolio == b.portofolio by { assert Get(a, Portofolio) == Get(b, Portofolio); }
    assert a.responsiPraktikum == b.responsiPraktikum by { assert Get(a, ResponsiPraktikum) == Get(b, ResponsiPraktikum); }
    assert a.kuisTeori == b.kuisTeori by { assert Get(a, KuisTeori) == Get(b, KuisTeori); }
    assert a.utsPrak == b.utsPrak by { assert Get(a, UtsPrak) == Get(b, UtsPrak); }
    assert a.project == b.project by { assert Get(a, ProjectField) == Get(b, ProjectField); }
  }
}
