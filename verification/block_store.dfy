/** The record store and the handler's lookup: the raw store text is cut
    into blocks at every start marker, each block is cleaned of end markers
    and surrounding white space, empty blocks are dropped, and the first block containing
    `NIM: <id>` is parsed. */
module BlockStore {
  import opened Wrappers
  import opened Whitespace
  import opened Strings
  import opened Record
  import opened BlockParser

  const StartMarker := "/*"
  const EndMarker := "*/"

  /** `b.replace(/\*\//g, '').trim()`: every end marker deleted, then
      trimmed. The result has no white space at either end, and holds no
      start marker when the piece held none. */
  function CleanBlock(piece: string): (r: string)
    ensures NoEdgeSpace(r)
    ensures !Contains(piece, StartMarker) ==> !Contains(r, StartMarker)
  {
    var d := DeleteAll(piece, EndMarker);
    if Contains(piece, StartMarker) then Trim(d)
    else
      DeleteKeepsNoStart(piece);
      TrimAvoids(d, StartMarker);
      Trim(d)
  }

  /** `.filter(b => b)`: the texts that are not empty, in order. */
  function NonEmpty(texts: seq<string>): (kept: seq<string>)
    ensures |kept| <= |texts|
    ensures forall k :: 0 <= k < |kept| ==> kept[k] != "" && kept[k] in texts
    ensures forall t :: t in texts && t != "" ==> t in kept
  {
    if texts == [] then []
    else (if texts[0] == "" then [] else [texts[0]]) + NonEmpty(texts[1..])
  }

  /** The filter works piece by piece: filtering a concatenation is
      concatenating the filtered halves, so the kept texts stay in their
      order and each occurrence of a kept text is kept. */
  lemma {:induction false} NonEmptyConcat(a: seq<string>, b: seq<string>)
    ensures NonEmpty(a + b) == NonEmpty(a) + NonEmpty(b)
  {
    if a == [] {
      assert a + b == b;
    } else {
      assert (a + b)[0] == a[0];
      assert (a + b)[1..] == a[1..] + b;
      NonEmptyConcat(a[1..], b);
    }
  }

  /** `.map(b => b.replace(/\*\//g, '').trim())`. */
  function CleanEach(pieces: seq<string>): (cleaned: seq<string>)
    ensures |cleaned| == |pieces| && forall k :: 0 <= k < |pieces| ==> cleaned[k] == CleanBlock(pieces[k])
  {
    seq(|pieces|, k requires 0 <= k < |pieces| => CleanBlock(pieces[k]))
  }

  /** Deleting end markers never creates a start marker: a `/` left right
      before a deleted end marker would have formed a start marker with its
      `*` already. */
  lemma {:induction false} DeleteKeepsNoStart(s: string)
    requires !Contains(s, StartMarker)
    ensures !Contains(DeleteAll(s, EndMarker), StartMarker)
    decreases |s|
  {
    match IndexOf(s, EndMarker, 0)
    case None =>
    case Some(i) =>
      var rest := s[i + 2..];
      SliceAvoids(s, StartMarker, 0, i);
      SliceAvoids(s, StartMarker, i + 2, |s|);
      assert s[..i] == s[0..i] && rest == s[i + 2..|s|];
      DeleteKeepsNoStart(rest);
      NoSlashBeforeEnd(s, i);
      ConcatAvoids(s[..i], DeleteAll(rest, EndMarker), StartMarker);
  }

  /** The character before an end marker is not `/` when the text holds no
      start marker: `/` and the marker's `*` would form one. */
  lemma NoSlashBeforeEnd(s: string, i: nat)
    requires !Contains(s, StartMarker) && OccursAt(s, EndMarker, i)
    ensures i == 0 || s[i - 1] != '/'
  {
    assert s[i] == '*' by { assert s[i..i + 2][0] == s[i]; }
    assert i > 0 ==> !OccursAt(s, StartMarker, i - 1);
    assert i > 0 ==> s[i - 1..i + 1] == [s[i - 1], s[i]];
  }

  /** Trimming keeps a text free of any pattern it was free of. */
  lemma TrimAvoids(s: string, p: string)
    requires !Contains(s, p)
    ensures !Contains(Trim(s), p)
  {
    var r := Trim(s);
    var a :| TrimmedAt(s, r, a);
    var e := a + |r|;
    assert 0 <= a <= e <= |s| && s[a..e] == r;
    SliceAvoids(s, p, a, e);
  }

  /** The blocks of the store: the raw text split at every start marker,
      each piece cleaned, and the empty pieces dropped.
      Every block is non-empty, has no white space at either end and holds
      no start marker. */
  function Blocks(raw: string): (blocks: seq<string>)
    ensures forall k :: 0 <= k < |blocks| ==>
              blocks[k] != "" && NoEdgeSpace(blocks[k]) && !Contains(blocks[k], StartMarker)
  {
    var pieces := Split(raw, StartMarker);
    var cleaned := CleanEach(pieces);
    assert forall b :: b in cleaned ==> NoEdgeSpace(b) && !Contains(b, StartMarker);
    NonEmpty(cleaned)
  }

  /** A store text written from blocks: each block between a start and an
      end marker, followed by a line feed. */
  function StoreText(bs: seq<string>): (text: string)
    ensures text == "" <==> bs == []
    ensures bs != [] ==> |text| >= 2 && text[..2] == StartMarker
  {
    if bs == [] then "" else StartMarker + bs[0] + EndMarker + "\n" + StoreText(bs[1..])
  }

  /** A block the store gives back as it was written: not empty, no white
      space at its ends, no marker inside, and not ending in `/`. A block
      ending in `/` would form a start marker with the `*` of its end
      marker. */
  predicate Storable(b: string)
  {
    b != "" && NoEdgeSpace(b) && !Contains(b, StartMarker) && !Contains(b, EndMarker)
    && b[|b| - 1] != '/'
  }

  /** A block without any `/` cannot hold a marker or end in `/`, so it is
      storable as soon as it is not empty and has no white space at its
      ends. */
  lemma SlashFreeStorable(b: string)
    requires b != "" && NoEdgeSpace(b) && '/' !in b
    ensures Storable(b)
  {
    forall j | 0 <= j <= |b| ensures !OccursAt(b, StartMarker, j) && !OccursAt(b, EndMarker, j) {
      if j + 2 <= |b| {
        assert b[j..j + 2][0] == b[j] && b[j..j + 2][1] == b[j + 1];
      }
    }
  }

  /** The pieces between the start markers of a store text: each block
      with its end marker and line feed. */
  function Framed(bs: seq<string>): (pieces: seq<string>)
    ensures |pieces| == |bs|
  {
    seq(|bs|, k requires 0 <= k < |bs| => bs[k] + EndMarker + "\n")
  }

  /** A text beginning with a start marker splits into an empty piece and
      the pieces of the rest. */
  lemma SplitAtStart(t: string)
    ensures Split(StartMarker + t, StartMarker) == [""] + Split(t, StartMarker)
  {
    var s := StartMarker + t;
    assert OccursAt(s, StartMarker, 0);
    assert IndexOf(s, StartMarker, 0) == Some(0);
    assert s[..0] == "" && s[2..] == t;
  }

  /** A piece ending in a line feed and free of start markers is cut off
      whole, whatever store text follows it. */
  lemma SplitPiece(u: string, rest: string)
    requires u != "" && u[|u| - 1] == '\n' && !Contains(u, StartMarker)
    requires |rest| >= 2 && rest[..2] == StartMarker
    ensures Split(u + rest, StartMarker) == [u] + Split(rest[2..], StartMarker)
  {
    var s := u + rest;
    assert s[|u|..|u| + 2] == rest[..2];
    SeamFree(u, rest, StartMarker);
    FirstAt(s, StartMarker, |u|);
    assert s[..|u|] == u && s[|u| + 2..] == rest[2..];
  }

  /** A framed block holds no start marker: its last character is not `/`. */
  lemma FramedAvoids(b: string)
    requires Storable(b)
    ensures !Contains(b + EndMarker + "\n", StartMarker)
  {
    var tail := "*/\n";
    assert !Contains(tail, StartMarker) by {
      assert tail[0] == '*' && tail[1] == '/' && tail[2] == '\n';
      forall j | 0 <= j <= |tail| ensures !OccursAt(tail, StartMarker, j) {
        if j + 2 <= |tail| {
          assert tail[j..j + 2][1] == tail[j + 1];
        }
      }
    }
    ConcatAvoids(b, tail, StartMarker);
    assert b + tail == b + EndMarker + "\n";
  }

  /** Framing works block by block. */
  lemma FramedCons(bs: seq<string>)
    requires bs != []
    ensures Framed(bs) == [bs[0] + EndMarker + "\n"] + Framed(bs[1..])
  {
  }

  /** A framed piece in front of the rest of a store text is cut off whole,
      and the empty piece in front of the rest goes. */
  lemma SplitFramed(u: string, rest: string)
    requires u != "" && u[|u| - 1] == '\n' && !Contains(u, StartMarker)
    requires rest == "" || (|rest| >= 2 && rest[..2] == StartMarker)
    ensures Split(u + rest, StartMarker) == [u] + Split(rest, StartMarker)[1..]
  {
    if rest == "" {
      assert u + rest == u;
      SplitWhole(u, StartMarker);
      assert Split(rest, StartMarker) == [""];
    } else {
      var more := rest[2..];
      assert rest == StartMarker + more;
      SplitPiece(u, rest);
      SplitAtStart(more);
    }
  }

  /** Splitting a store text at its start markers gives an empty piece,
      then each block framed by its end marker and line feed. */
  lemma {:induction false} SplitStore(bs: seq<string>)
    requires forall k :: 0 <= k < |bs| ==> Storable(bs[k])
    ensures Split(StoreText(bs), StartMarker) == [""] + Framed(bs)
  {
    if bs == [] {
      assert IndexOf("", StartMarker, 0) == None;
    } else {
      var u := bs[0] + EndMarker + "\n";
      var rest := StoreText(bs[1..]);
      assert StoreText(bs) == StartMarker + (u + rest);
      SplitAtStart(u + rest);
      FramedAvoids(bs[0]);
      SplitFramed(u, rest);
      assert forall k :: 0 <= k < |bs| - 1 ==> bs[1..][k] == bs[k + 1];
      SplitStore(bs[1..]);
      assert Split(rest, StartMarker)[1..] == Framed(bs[1..]);
      FramedCons(bs);
    }
  }

  lemma {:induction false} KeepsNonEmpty(texts: seq<string>)
    requires forall k :: 0 <= k < |texts| ==> texts[k] != ""
    ensures NonEmpty(texts) == texts
  {
    if texts != [] {
      assert forall k :: 0 <= k < |texts| - 1 ==> texts[1..][k] == texts[k + 1];
      KeepsNonEmpty(texts[1..]);
      assert [texts[0]] + texts[1..] == texts;
    }
  }

  /** Cleaning a framed block gives the block back. */
  lemma CleanFramed(b: string)
    requires Storable(b)
    ensures CleanBlock(b + EndMarker + "\n") == b
  {
    DeleteFramed(b);
    assert "" + b + "\n" == b + "\n";
    TrimPadded("", b, "\n");
  }

  /** Deleting the end markers from a framed block leaves the block and
      its line feed. */
  lemma DeleteFramed(b: string)
    requires !Contains(b, EndMarker)
    ensures DeleteAll(b + EndMarker + "\n", EndMarker) == b + "\n"
  {
    var tail := EndMarker + "\n";
    var s := b + tail;
    assert s == b + EndMarker + "\n";
    assert s[|b|..|b| + 2] == EndMarker;
    SeamFree(b, tail, EndMarker);
    FirstAt(s, EndMarker, |b|);
    assert s[..|b|] == b && s[|b| + 2..] == "\n";
    assert DeleteAll("\n", EndMarker) == "\n";
  }

  /** Cleaning the pieces of a store text gives an empty text, then the
      blocks. */
  lemma CleanStore(bs: seq<string>)
    requires forall k :: 0 <= k < |bs| ==> Storable(bs[k])
    ensures CleanEach([""] + Framed(bs)) == [""] + bs
  {
    var cleaned := CleanEach([""] + Framed(bs));
    var want := [""] + bs;
    forall k | 0 <= k < |want| ensures cleaned[k] == want[k] {
      CleanPiece(bs, k);
    }
  }

  /** Piece `k` of a store text cleans to the empty text when `k` is 0 and
      to block `k - 1` otherwise. */
  lemma CleanPiece(bs: seq<string>, k: int)
    requires forall j :: 0 <= j < |bs| ==> Storable(bs[j])
    requires 0 <= k <= |bs|
    ensures CleanBlock(([""] + Framed(bs))[k]) == ([""] + bs)[k]
  {
    var piece := ([""] + Framed(bs))[k];
    if k == 0 {
      assert piece == "";
      assert DeleteAll(piece, EndMarker) == "";
      TrimNoEdge("");
    } else {
      assert piece == Framed(bs)[k - 1] == bs[k - 1] + EndMarker + "\n";
      assert ([""] + bs)[k] == bs[k - 1];
      CleanFramed(bs[k - 1]);
    }
  }

  /** The filter drops the leading empty text and keeps the blocks. */
  lemma KeepsBlocks(bs: seq<string>)
    requires forall k :: 0 <= k < |bs| ==> Storable(bs[k])
    ensures NonEmpty([""] + bs) == bs
  {
    assert ([""] + bs)[1..] == bs;
    KeepsNonEmpty(bs);
  }

  /** The store read back: a store text written from storable blocks cuts
      into exactly those blocks, in order. */
  lemma BlocksOfStore(bs: seq<string>)
    requires forall k :: 0 <= k < |bs| ==> Storable(bs[k])
    ensures Blocks(StoreText(bs)) == bs
  {
    SplitStore(bs);
    CleanStore(bs);
    KeepsBlocks(bs);
  }

  /** Looking up an id in a store of storable blocks answers with the
      parse of the first block containing `NIM: <id>`. */
  lemma LookupStore(bs: seq<string>, id: string, k: nat)
    requires forall j :: 0 <= j < |bs| ==> Storable(bs[j])
    requires FirstMatch(bs, k, Needle(id))
    ensures Lookup(StoreText(bs), id) == Found(ParseBlock(bs[k]))
  {
    BlocksOfStore(bs);
    LookupFirst(StoreText(bs), id, k);
  }

  /** And with not-found when no block contains it. */
  lemma LookupStoreMissing(bs: seq<string>, id: string)
    requires forall j :: 0 <= j < |bs| ==> Storable(bs[j])
    requires forall j :: 0 <= j < |bs| ==> !Contains(bs[j], Needle(id))
    ensures Lookup(StoreText(bs), id) == NotFound
  {
    BlocksOfStore(bs);
  }

  /** The text a block must contain to be the record of `id`. */
  function Needle(id: string): string
  {
    "NIM: " + id
  }

  /** Block `k` is the first one containing `needle`. */
  predicate FirstMatch(blocks: seq<string>, k: int, needle: string)
  {
    0 <= k < |blocks| && Contains(blocks[k], needle)
    && forall j :: 0 <= j < k ==> !Contains(blocks[j], needle)
  }

  /** `blocks.find(b => b.includes(needle))`, as a position. */
  function FindFirst(blocks: seq<string>, needle: string): (r: Option<nat>)
    ensures r.Some? ==> FirstMatch(blocks, r.value, needle)
    ensures r.None? <==> forall j :: 0 <= j < |blocks| ==> !Contains(blocks[j], needle)
  {
    if blocks == [] then None
    else if Contains(blocks[0], needle) then Some(0)
    else
      match FindFirst(blocks[1..], needle)
      case None =>
        assert forall j :: 1 <= j < |blocks| ==> blocks[1..][j - 1] == blocks[j];
        None
      case Some(k) =>
        assert forall j :: 1 <= j <= k + 1 ==> blocks[1..][j - 1] == blocks[j];
        Some(k + 1)
  }

  /** The block of student `id`: the first block of the store containing
      `NIM: <id>` as a substring, or None when no block does. */
  function ExtractBlock(raw: string, id: string): (r: Option<string>)
    ensures r.None? <==> forall k :: 0 <= k < |Blocks(raw)| ==> !Contains(Blocks(raw)[k], Needle(id))
    ensures r.Some? ==> exists k :: FirstMatch(Blocks(raw), k, Needle(id)) && r.value == Blocks(raw)[k]
  {
    var blocks := Blocks(raw);
    match FindFirst(blocks, Needle(id))
    case None => None
    case Some(k) => Some(blocks[k])
  }

  /** What the handler answers: the parsed record, or not-found. */
  datatype Response = Found(student: Student) | NotFound

  /** The handler after the file is read: not-found exactly when no block
      contains `NIM: <id>`, and otherwise the parse of the first block that
      does. */
  function Lookup(raw: string, id: string): (resp: Response)
    ensures resp.NotFound? <==> forall k :: 0 <= k < |Blocks(raw)| ==> !Contains(Blocks(raw)[k], Needle(id))
    ensures resp.Found? ==>
              exists k :: FirstMatch(Blocks(raw), k, Needle(id)) && resp.student == ParseBlock(Blocks(raw)[k])
  {
    match ExtractBlock(raw, id)
    case None => NotFound
    case Some(block) => Found(ParseBlock(block))
  }

  /** At most one block is the first to contain a needle. */
  lemma FirstMatchUnique(blocks: seq<string>, needle: string, j: int, k: int)
    requires FirstMatch(blocks, j, needle) && FirstMatch(blocks, k, needle)
    ensures j == k
  {
  }

  /** Whenever block `k` is the first to contain `NIM: <id>`, the handler
      answers with its parse. */
  lemma LookupFirst(raw: string, id: string, k: int)
    requires FirstMatch(Blocks(raw), k, Needle(id))
    ensures Lookup(raw, id) == Found(ParseBlock(Blocks(raw)[k]))
  {
    var blocks := Blocks(raw);
    var r := FindFirst(blocks, Needle(id));
    assert r.Some?;
    FirstMatchUnique(blocks, Needle(id), r.value, k);
  }

  /** The match is a substring test: a block holding `NIM: <id><more>`
      also holds `NIM: <id>`. */
  lemma NeedlePrefix(block: string, id: string, more: string)
    requires Contains(block, Needle(id + more))
    ensures Contains(block, Needle(id))
  {
    var i :| 0 <= i <= |block| && OccursAt(block, Needle(id + more), i);
    var n := Needle(id);
    assert Needle(id + more) == n + more;
    assert block[i..i + |n|] == block[i..i + |n| + |more|][..|n|];
    assert OccursAt(block, n, i);
  }

  /** So looking up a prefix of a stored NIM finds a block too, the one of
      the longer NIM or an earlier one. */
  lemma FirstMatchPrefix(blocks: seq<string>, id: string, more: string)
    requires FindFirst(blocks, Needle(id + more)).Some?
    ensures FindFirst(blocks, Needle(id)).Some?
    ensures FindFirst(blocks, Needle(id)).value <= FindFirst(blocks, Needle(id + more)).value
  {
    var k := FindFirst(blocks, Needle(id + more)).value;
    NeedlePrefix(blocks[k], id, more);
  }

  /** Looking up `12` can answer with the record of `123`. */
  lemma PrefixIdFound(raw: string, id: string, more: string)
    requires Lookup(raw, id + more).Found?
    ensures Lookup(raw, id).Found?
  {
    var blocks := Blocks(raw);
    assert FindFirst(blocks, Needle(id + more)).Some?;
    FirstMatchPrefix(blocks, id, more);
  }
}
