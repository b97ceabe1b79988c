/** The consistency graph of the stereo fusion (StereoFusion::ConsistencyGraph
    in src/mvs/fusion.cc). For every image it keeps the flat list written by
    the patch-match stage, made of records [col, row, count, id x count], and
    an index that maps each pixel to the position of the `count` field of the
    record naming it, or to -1 when no record names it. */
module ConsistencyGraphs {

  /** The index value of a pixel that no record names. */
  const NoConsistentImageIds: int := -1

  /** One decoded record of a flat consistency list. */
  datatype Record = Record(col: int, row: int, imageIds: seq<int>)

  /** Height and width of an image, in pixels. */
  datatype Extent = Extent(height: nat, width: nat)

  /** The flat list is a sequence of whole records from cursor `i` on: every
      record has its three header fields and `count >= 0` identifiers after
      them. */
  ghost predicate Framed(list: seq<int>, i: nat)
    decreases |list| - i
  {
    i == |list| ||
    (i + 3 <= |list| && 0 <= list[i + 2] && i + 3 + list[i + 2] <= |list| &&
     Framed(list, i + 3 + list[i + 2]))
  }

  /** The cursor of the record after the one starting at `i`: the constructor
      advances by 3 + count. */
  function Next(list: seq<int>, i: nat): (j: nat)
    requires Framed(list, i) && i < |list|
    ensures i + 3 <= j <= |list| && Framed(list, j)
  {
    i + 3 + list[i + 2]
  }

  /** The records from cursor `i` on, in list order. */
  function Records(list: seq<int>, i: nat): seq<Record>
    requires Framed(list, i)
    decreases |list| - i
  {
    if i == |list| then []
    else [Record(list[i], list[i + 1], list[i + 3..Next(list, i)])] + Records(list, Next(list, i))
  }

  /** The cursor positions at which records start, from `i` on. */
  function Starts(list: seq<int>, i: nat): seq<nat>
    requires Framed(list, i)
    decreases |list| - i
  {
    if i == |list| then [] else [i] + Starts(list, Next(list, i))
  }

  /** Record `r` is about pixel (row, col). */
  predicate Names(r: Record, row: int, col: int) {
    r.row == row && r.col == col
  }

  /** The record starting at cursor `s` is about pixel (row, col). */
  predicate NamesAt(list: seq<int>, s: nat, row: int, col: int) {
    s + 1 < |list| && list[s] == col && list[s + 1] == row
  }

  /** Every record names a pixel inside a `height` x `width` image. */
  ghost predicate RecordsFit(rs: seq<Record>, e: Extent) {
    forall k :: 0 <= k < |rs| ==> 0 <= rs[k].row < e.height && 0 <= rs[k].col < e.width
  }

  /** Every partner identifier of every record is an image index below `n`. */
  ghost predicate IdsBelow(rs: seq<Record>, n: nat) {
    forall k, m :: 0 <= k < |rs| && 0 <= m < |rs[k].imageIds| ==> 0 <= rs[k].imageIds[m] < n
  }

  /** A flat list the constructor can index for an image of extent `e`. */
  ghost predicate WellFormed(list: seq<int>, e: Extent) {
    Framed(list, 0) && RecordsFit(Records(list, 0), e)
  }

  /** The index the constructor stores for pixel (row, col) once it has
      walked the records from cursor `i` to the end: the position of the
      count field of the last of them that names the pixel, or -1. */
  function Found(list: seq<int>, i: nat, row: int, col: int): (f: int)
    requires Framed(list, i)
    ensures f == NoConsistentImageIds ||
            (i + 2 <= f < |list| && 0 <= list[f] && f + 1 + list[f] <= |list|)
    decreases |list| - i
  {
    if i == |list| then NoConsistentImageIds
    else
      var later := Found(list, Next(list, i), row, col);
      if later != NoConsistentImageIds then later
      else if list[i] == col && list[i + 1] == row then i + 2
      else NoConsistentImageIds
  }

  /** The partner identifiers stored after the count field at `index`. */
  function Partners(list: seq<int>, row: int, col: int): seq<int>
    requires Framed(list, 0)
  {
    var index := Found(list, 0, row, col);
    if index == NoConsistentImageIds then [] else list[index + 1..index + 1 + list[index]]
  }

  /** No record starting at a cursor of `ss` names pixel (row, col). */
  predicate NoStartNames(list: seq<int>, ss: seq<nat>, row: int, col: int) {
    forall k :: 0 <= k < |ss| ==> !NamesAt(list, ss[k], row, col)
  }

  /** `ss[k]` starts the last record of `ss` that names pixel (row, col). */
  predicate IsLastStart(list: seq<int>, ss: seq<nat>, k: int, row: int, col: int) {
    0 <= k < |ss| && NamesAt(list, ss[k], row, col) &&
    forall j :: k < j < |ss| ==> !NamesAt(list, ss[j], row, col)
  }

  /** No record of `rs` names pixel (row, col). */
  predicate NoneNames(rs: seq<Record>, row: int, col: int) {
    forall k :: 0 <= k < |rs| ==> !Names(rs[k], row, col)
  }

  /** `rs[k]` is the last record of `rs` that names pixel (row, col). */
  predicate IsLastNaming(rs: seq<Record>, k: int, row: int, col: int) {
    0 <= k < |rs| && Names(rs[k], row, col) &&
    forall j :: k < j < |rs| ==> !Names(rs[j], row, col)
  }

  /** The index is -1 exactly for pixels no record names; otherwise it is the
      start of the last record naming the pixel, plus 2 (its count field). */
  lemma {:induction false} FoundIsLastStart(list: seq<int>, i: nat, row: int, col: int)
    requires Framed(list, i)
    ensures Found(list, i, row, col) == NoConsistentImageIds <==> NoStartNames(list, Starts(list, i), row, col)
    ensures Found(list, i, row, col) != NoConsistentImageIds ==>
      exists k :: IsLastStart(list, Starts(list, i), k, row, col) &&
        Found(list, i, row, col) == Starts(list, i)[k] + 2
    decreases |list| - i
  {
    if i < |list| {
      var n := Next(list, i);
      FoundIsLastStart(list, n, row, col);
      var ss, tail := Starts(list, i), Starts(list, n);
      assert ss == [i] + tail;
      assert forall k :: 0 < k < |ss| ==> ss[k] == tail[k - 1];
      var f := Found(list, n, row, col);
      if f != NoConsistentImageIds {
        assert Found(list, i, row, col) == f;
        var k :| IsLastStart(list, tail, k, row, col) && f == tail[k] + 2;
        assert IsLastStart(list, ss, k + 1, row, col);
        assert !NoStartNames(list, ss, row, col);
      } else if NamesAt(list, i, row, col) {
        assert Found(list, i, row, col) == i + 2;
        assert IsLastStart(list, ss, 0, row, col);
        assert !NoStartNames(list, ss, row, col);
      } else {
        assert Found(list, i, row, col) == NoConsistentImageIds;
        assert NoStartNames(list, ss, row, col);
      }
    }
  }

  /** Looking pixel (row, col) up from cursor `i` yields -1 exactly when no
      record names it, and otherwise the count field of the last record
      naming it, followed by that record's partners. */
  ghost predicate LookupIsLastRecord(list: seq<int>, i: nat, row: int, col: int)
    requires Framed(list, i)
  {
    var f := Found(list, i, row, col);
    (f == NoConsistentImageIds <==> NoneNames(Records(list, i), row, col)) &&
    (f != NoConsistentImageIds ==>
      exists k :: IsLastNaming(Records(list, i), k, row, col) &&
        list[f + 1..f + 1 + list[f]] == Records(list, i)[k].imageIds)
  }

  /** Looking a pixel up yields the partner list of the last record naming
      it, and nothing when no record names it. */
  lemma {:induction false} FoundIsLastRecord(list: seq<int>, i: nat, row: int, col: int)
    requires Framed(list, i)
    ensures LookupIsLastRecord(list, i, row, col)
    decreases |list| - i
  {
    if i < |list| {
      var n := Next(list, i);
      FoundIsLastRecord(list, n, row, col);
      if Found(list, n, row, col) != NoConsistentImageIds {
        FoundInLaterRecord(list, i, row, col);
      } else if list[i] == col && list[i + 1] == row {
        FoundInFirstRecord(list, i, row, col);
      } else {
        FoundInNoRecord(list, i, row, col);
      }
    }
  }

  lemma FoundInLaterRecord(list: seq<int>, i: nat, row: int, col: int)
    requires Framed(list, i) && i < |list| && LookupIsLastRecord(list, Next(list, i), row, col)
    requires Found(list, Next(list, i), row, col) != NoConsistentImageIds
    ensures LookupIsLastRecord(list, i, row, col)
  {
    var n := Next(list, i);
    var rs, tail := Records(list, i), Records(list, n);
    assert rs == [rs[0]] + tail;
    var f := Found(list, n, row, col);
    assert Found(list, i, row, col) == f;
    var k :| IsLastNaming(tail, k, row, col) && list[f + 1..f + 1 + list[f]] == tail[k].imageIds;
    assert forall j :: 0 < j < |rs| ==> rs[j] == tail[j - 1];
    assert IsLastNaming(rs, k + 1, row, col);
    assert !NoneNames(rs, row, col);
  }

  lemma FoundInFirstRecord(list: seq<int>, i: nat, row: int, col: int)
    requires Framed(list, i) && i < |list| && LookupIsLastRecord(list, Next(list, i), row, col)
    requires Found(list, Next(list, i), row, col) == NoConsistentImageIds
    requires list[i] == col && list[i + 1] == row
    ensures LookupIsLastRecord(list, i, row, col)
  {
    var n := Next(list, i);
    var rs, tail := Records(list, i), Records(list, n);
    assert rs == [rs[0]] + tail;
    assert Found(list, i, row, col) == i + 2;
    assert rs[0].imageIds == list[i + 3..n];
    assert forall j :: 0 < j < |rs| ==> rs[j] == tail[j - 1];
    assert IsLastNaming(rs, 0, row, col);
    assert !NoneNames(rs, row, col);
  }

  lemma FoundInNoRecord(list: seq<int>, i: nat, row: int, col: int)
    requires Framed(list, i) && i < |list| && LookupIsLastRecord(list, Next(list, i), row, col)
    requires Found(list, Next(list, i), row, col) == NoConsistentImageIds
    requires !(list[i] == col && list[i + 1] == row)
    ensures LookupIsLastRecord(list, i, row, col)
  {
    var n := Next(list, i);
    var rs, tail := Records(list, i), Records(list, n);
    assert rs == [rs[0]] + tail;
    assert Found(list, i, row, col) == NoConsistentImageIds;
    assert forall j :: 0 < j < |rs| ==> rs[j] == tail[j - 1];
    assert NoneNames(rs, row, col);
  }

  /** The partners of a pixel are the identifiers of the last record naming
      it, or none. */
  lemma PartnersIsLastRecord(list: seq<int>, row: int, col: int)
    requires Framed(list, 0)
    ensures NoneNames(Records(list, 0), row, col) ==> Partners(list, row, col) == []
    ensures !NoneNames(Records(list, 0), row, col) ==>
      exists k :: IsLastNaming(Records(list, 0), k, row, col) &&
        Partners(list, row, col) == Records(list, 0)[k].imageIds
  {
    FoundIsLastRecord(list, 0, row, col);
  }

  /** Partner identifiers of a lookup are image indices whenever all those
      of the list are. */
  lemma PartnersBelow(list: seq<int>, row: int, col: int, n: nat)
    requires Framed(list, 0) && IdsBelow(Records(list, 0), n)
    ensures forall m :: 0 <= m < |Partners(list, row, col)| ==> 0 <= Partners(list, row, col)[m] < n
  {
    FoundIsLastRecord(list, 0, row, col);
  }

  /** The writer-side layout: one [col, row, count, ids...] run per record. */
  function Encode(rs: seq<Record>): seq<int>
  {
    if rs == [] then []
    else [rs[0].col, rs[0].row, |rs[0].imageIds|] + rs[0].imageIds + Encode(rs[1..])
  }

  /** The records `rs` lie in `list` from cursor `p` to its end, one
      [col, row, count, ids...] run each. */
  ghost predicate LaidOut(list: seq<int>, p: nat, rs: seq<Record>)
    decreases |rs|
  {
    if rs == [] then p == |list|
    else
      var n := |rs[0].imageIds|;
      p + 3 + n <= |list| && list[p] == rs[0].col && list[p + 1] == rs[0].row &&
      list[p + 2] == n && list[p + 3..p + 3 + n] == rs[0].imageIds && LaidOut(list, p + 3 + n, rs[1..])
  }

  lemma {:induction false} EncodeIsLaidOut(list: seq<int>, p: nat, rs: seq<Record>)
    requires p <= |list| && list[p..] == Encode(rs)
    ensures LaidOut(list, p, rs)
    decreases |rs|
  {
    if rs == [] {
      assert |list[p..]| == 0;
    } else {
      HeadOfEncode(list, p, rs);
      EncodeIsLaidOut(list, p + 3 + |rs[0].imageIds|, rs[1..]);
    }
  }

  lemma {:induction false} RecordsOfLaidOut(list: seq<int>, p: nat, rs: seq<Record>)
    requires p <= |list| && LaidOut(list, p, rs)
    ensures Framed(list, p) && Records(list, p) == rs
    decreases |rs|
  {
    if rs != [] {
      RecordsOfLaidOut(list, p + 3 + |rs[0].imageIds|, rs[1..]);
      RecordsConsStep(list, p, rs);
    }
  }

  /** Decoding what the writer encodes gives back the records, wherever the
      encoding starts. */
  lemma RecordsOfEncode(list: seq<int>, p: nat, rs: seq<Record>)
    requires p <= |list| && list[p..] == Encode(rs)
    ensures Framed(list, p) && Records(list, p) == rs
  {
    EncodeIsLaidOut(list, p, rs);
    RecordsOfLaidOut(list, p, rs);
  }

  /** One record read back, given the rest already is. */
  lemma RecordsConsStep(list: seq<int>, p: nat, rs: seq<Record>)
    requires rs != []
    requires var n := |rs[0].imageIds|;
      p + 3 + n <= |list| && list[p] == rs[0].col && list[p + 1] == rs[0].row &&
      list[p + 2] == n && list[p + 3..p + 3 + n] == rs[0].imageIds
    requires Framed(list, p + 3 + |rs[0].imageIds|) && Records(list, p + 3 + |rs[0].imageIds|) == rs[1..]
    ensures Framed(list, p) && Records(list, p) == rs
  {
    RecordsStep(list, p);
    assert rs[0] == Record(list[p], list[p + 1], list[p + 3..p + 3 + list[p + 2]]);
    assert rs == [rs[0]] + rs[1..];
  }

  /** The first run of an encoding, read back at cursor `p`. */
  lemma HeadOfEncode(list: seq<int>, p: nat, rs: seq<Record>)
    requires p <= |list| && list[p..] == Encode(rs) && rs != []
    ensures var n := |rs[0].imageIds|;
      p + 3 + n <= |list| && list[p] == rs[0].col && list[p + 1] == rs[0].row &&
      list[p + 2] == n && list[p + 3..p + 3 + n] == rs[0].imageIds &&
      list[p + 3 + n..] == Encode(rs[1..])
  {
    var r := rs[0];
    var n := |r.imageIds|;
    var s := list[p..];
    assert s == [r.col, r.row, n] + r.imageIds + Encode(rs[1..]);
    assert s[0] == r.col && s[1] == r.row && s[2] == n;
    assert s[3..3 + n] == r.imageIds;
    assert s[3 + n..] == Encode(rs[1..]);
    assert list[p + 3..p + 3 + n] == s[3..3 + n];
    assert list[p + 3 + n..] == s[3 + n..];
  }

  /** One framing step: a record at `p` whose count stays inside the list,
      followed by framed records. */
  lemma RecordsStep(list: seq<int>, p: nat)
    requires p + 3 <= |list| && 0 <= list[p + 2] && p + 3 + list[p + 2] <= |list|
    requires Framed(list, p + 3 + list[p + 2])
    ensures Framed(list, p)
    ensures Records(list, p) ==
      [Record(list[p], list[p + 1], list[p + 3..p + 3 + list[p + 2]])] + Records(list, p + 3 + list[p + 2])
  {
  }

  /** Fills the index of one image: every pixel starts at -1, then the cursor
      walks the records and stores, for the pixel each names, the position of
      its count field. */
  method BuildImageMap(list: seq<int>, e: Extent) returns (m: array2<int>)
    requires WellFormed(list, e)
    ensures m.Length0 == e.height && m.Length1 == e.width
    ensures forall r, c :: 0 <= r < e.height && 0 <= c < e.width ==> m[r, c] == Found(list, 0, r, c)
  {
    m := new int[e.height, e.width]((r, c) => NoConsistentImageIds);
    var i: nat := 0;
    while i < |list|
      invariant i <= |list| && Framed(list, i)
      invariant RecordsFit(Records(list, i), e)
      invariant m.Length0 == e.height && m.Length1 == e.width
      invariant forall r, c :: 0 <= r < e.height && 0 <= c < e.width ==>
        (if Found(list, i, r, c) != NoConsistentImageIds then Found(list, i, r, c) else m[r, c]) ==
        Found(list, 0, r, c)
      decreases |list| - i
    {
      ghost var start := i;
      ghost var rs := Records(list, i);
      assert rs[0] == Record(list[i], list[i + 1], list[i + 3..Next(list, i)]);
      assert forall k :: 0 <= k < |rs| - 1 ==> Records(list, Next(list, i))[k] == rs[k + 1];
      var col := list[i];
      i := i + 1;
      var row := list[i];
      i := i + 1;
      m[row, col] := i;
      var numConsistent := list[i];
      i := i + 1;
      i := i + numConsistent;
      assert i == Next(list, start);
    }
  }

  /** The consistency graph of all images: read-only once built. */
  class ConsistencyGraph {
    const lists: seq<seq<int>>
    const imageMaps: seq<array2<int>>

    ghost predicate Valid()
      reads this, imageMaps
    {
      |imageMaps| == |lists| &&
      forall i :: 0 <= i < |lists| ==>
        Framed(lists[i], 0) &&
        forall r, c :: 0 <= r < imageMaps[i].Length0 && 0 <= c < imageMaps[i].Length1 ==>
          imageMaps[i][r, c] == Found(lists[i], 0, r, c)
    }

    /** Builds the index of every image. The source aborts when the number of
        lists differs from the number of images. */
    constructor (extents: seq<Extent>, consistencyGraph: seq<seq<int>>)
      requires |extents| == |consistencyGraph|
      requires forall i :: 0 <= i < |extents| ==> WellFormed(consistencyGraph[i], extents[i])
      ensures Valid() && lists == consistencyGraph && |imageMaps| == |extents|
      ensures forall i :: 0 <= i < |extents| ==>
        imageMaps[i].Length0 == extents[i].height && imageMaps[i].Length1 == extents[i].width
    {
      var maps: seq<array2<int>> := [];
      var imageId := 0;
      while imageId < |extents|
        invariant 0 <= imageId <= |extents| && |maps| == imageId
        invariant forall i :: 0 <= i < imageId ==>
          maps[i].Length0 == extents[i].height && maps[i].Length1 == extents[i].width &&
          forall r, c :: 0 <= r < extents[i].height && 0 <= c < extents[i].width ==>
            maps[i][r, c] == Found(consistencyGraph[i], 0, r, c)
      {
        var m := BuildImageMap(consistencyGraph[imageId], extents[imageId]);
        maps := maps + [m];
        imageId := imageId + 1;
      }
      lists := consistencyGraph;
      imageMaps := maps;
    }

    /** GetConsistentImageIds: the partners recorded for pixel (row, col) of
        an image; the count the source returns is the length. */
    function GetConsistentImageIds(imageId: int, row: int, col: int): (ids: seq<int>)
      reads this, imageMaps
      requires Valid() && 0 <= imageId < |lists|
      requires 0 <= row < imageMaps[imageId].Length0 && 0 <= col < imageMaps[imageId].Length1
      ensures ids == Partners(lists[imageId], row, col)
    {
      var index := imageMaps[imageId][row, col];
      assert index == Found(lists[imageId], 0, row, col);
      if index == NoConsistentImageIds then []
      else lists[imageId][index + 1..index + 1 + lists[imageId][index]]
    }
  }
}
