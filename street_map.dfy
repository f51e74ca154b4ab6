/**
 * StreetMapImpl: the road-graph index.  Every coordinate is mapped, through
 * an ExpandableHashMap, to the list of street segments that start there; each
 * street record of the map data is stored twice, forward under its start and
 * reversed under its end.
 *
 * The pure functions describe the index as a value (what the map stands for);
 * the class keeps the real hash map and its methods are proved against them.
 */
module StreetMaps {
  import opened Geo
  import opened BucketTables
  import opened ExpandableHashMaps

  /** What the index stands for: coordinate to the segments starting there, in insertion order. */
  type SegmentIndex = map<GeoCoord, seq<StreetSegment>>

  /** One parsed line group of the map data: a street name and one of its start/end pairs. */
  datatype StreetRecord = StreetRecord(name: string, start: GeoCoord, end: GeoCoord)

  function Forward(r: StreetRecord): StreetSegment
  {
    StreetSegment(r.start, r.end, r.name)
  }

  function Backward(r: StreetRecord): StreetSegment
  {
    StreetSegment(r.end, r.start, r.name)
  }

  /** The same street walked the other way. */
  function Reverse(s: StreetSegment): StreetSegment
  {
    StreetSegment(s.end, s.start, s.name)
  }

  /** The segments stored under g, or none. */
  function SegmentsAt(m: SegmentIndex, g: GeoCoord): seq<StreetSegment>
  {
    if g in m then m[g] else []
  }

  /** addToMap on values: g's list with seg appended, every other entry as it was. */
  function AddSegment(m: SegmentIndex, g: GeoCoord, seg: StreetSegment): SegmentIndex
  {
    m[g := SegmentsAt(m, g) + [seg]]
  }

  /** The body of the record loop of load: forward under start, then backward under end. */
  function AddRecord(m: SegmentIndex, r: StreetRecord): SegmentIndex
  {
    AddSegment(AddSegment(m, r.start, Forward(r)), r.end, Backward(r))
  }

  /** Every record in order. */
  function LoadAll(m: SegmentIndex, rs: seq<StreetRecord>): SegmentIndex
  {
    if |rs| == 0 then m else AddRecord(LoadAll(m, rs[..|rs| - 1]), rs[|rs| - 1])
  }

  /** Every segment stored under g starts at g. */
  ghost predicate StartsAtKey(m: SegmentIndex)
  {
    forall g, i :: g in m && 0 <= i < |m[g]| ==> m[g][i].start == g
  }

  /** Every stored segment's reverse is stored under the segment's end. */
  ghost predicate Bidirectional(m: SegmentIndex)
  {
    forall g, i :: g in m && 0 <= i < |m[g]| ==> m[g][i].end in m && Reverse(m[g][i]) in m[m[g][i].end]
  }

  /** m' keeps every list of m as a prefix of its own. */
  ghost predicate Extends(m: SegmentIndex, m': SegmentIndex)
  {
    forall g :: g in m ==> g in m' && m[g] <= m'[g]
  }

  // ---------------------------------------------------------------------------
  // Properties of a single addToMap
  // ---------------------------------------------------------------------------

  /**
   * addToMap on an unknown coordinate stores the one-element list; on a known
   * one it appends at the end; nothing else changes.
   */
  lemma AddSegmentEffect(m: SegmentIndex, g: GeoCoord, seg: StreetSegment)
    ensures g !in m ==> AddSegment(m, g, seg)[g] == [seg]
    ensures g in m ==> AddSegment(m, g, seg)[g] == m[g] + [seg]
    ensures AddSegment(m, g, seg).Keys == m.Keys + {g}
    ensures forall h :: h in m && h != g ==> AddSegment(m, g, seg)[h] == m[h]
  {
  }

  lemma AddSegmentExtends(m: SegmentIndex, g: GeoCoord, seg: StreetSegment)
    ensures Extends(m, AddSegment(m, g, seg))
  {
    var m' := AddSegment(m, g, seg);
    forall h | h in m
      ensures h in m' && m[h] <= m'[h]
    {
      if h == g {
        assert m'[h] == m[h] + [seg];
      }
    }
  }

  lemma ExtendsTrans(a: SegmentIndex, b: SegmentIndex, c: SegmentIndex)
    requires Extends(a, b) && Extends(b, c)
    ensures Extends(a, c)
  {
    forall g | g in a
      ensures g in c && a[g] <= c[g]
    {
      assert a[g] == b[g][..|a[g]|];
      assert b[g] == c[g][..|b[g]|];
    }
  }

  /** Anything stored in m is still stored in an index that extends it. */
  lemma ExtendsKeeps(m: SegmentIndex, m': SegmentIndex, g: GeoCoord, s: StreetSegment)
    requires Extends(m, m') && g in m && s in m[g]
    ensures g in m' && s in m'[g]
  {
    var i :| 0 <= i < |m[g]| && m[g][i] == s;
    assert m'[g][i] == s;
  }

  // ---------------------------------------------------------------------------
  // Properties of one record and of a whole load
  // ---------------------------------------------------------------------------

  /** A record adds exactly its two segments and keeps everything else. */
  lemma AddRecordEffect(m: SegmentIndex, r: StreetRecord)
    ensures Extends(m, AddRecord(m, r))
    ensures r.start in AddRecord(m, r) && Forward(r) in AddRecord(m, r)[r.start]
    ensures r.end in AddRecord(m, r) && Backward(r) in AddRecord(m, r)[r.end]
    ensures forall g, s :: g in AddRecord(m, r) && s in AddRecord(m, r)[g] ==>
      (g in m && s in m[g]) || s == Forward(r) || s == Backward(r)
  {
    var m1 := AddSegment(m, r.start, Forward(r));
    var m2 := AddSegment(m1, r.end, Backward(r));
    AddSegmentExtends(m, r.start, Forward(r));
    AddSegmentExtends(m1, r.end, Backward(r));
    ExtendsTrans(m, m1, m2);
    assert Forward(r) in m1[r.start];
    ExtendsKeeps(m1, m2, r.start, Forward(r));
    assert Backward(r) in m2[r.end];
    forall g, s | g in m2 && s in m2[g]
      ensures (g in m && s in m[g]) || s == Forward(r) || s == Backward(r)
    {
      if g == r.end {
        assert m2[g] == SegmentsAt(m1, g) + [Backward(r)];
      }
      if s != Backward(r) {
        assert g in m1 && s in m1[g];
        if g == r.start {
          assert m1[g] == SegmentsAt(m, g) + [Forward(r)];
        }
      }
    }
  }

  /** A record keeps every stored segment starting at its key. */
  lemma AddRecordStartsAtKey(m: SegmentIndex, r: StreetRecord)
    requires StartsAtKey(m)
    ensures StartsAtKey(AddRecord(m, r))
  {
    var m': SegmentIndex := AddRecord(m, r);
    AddRecordEffect(m, r);
    forall g: GeoCoord, i: int | g in m' && 0 <= i < |m'[g]|
      ensures m'[g][i].start == g
    {
      var s := m'[g][i];
      assert s in m'[g];
      var m1 := AddSegment(m, r.start, Forward(r));
      if g == r.end && i == |m'[g]| - 1 {
      } else if g in m1 && i < |m1[g]| {
        if g == r.start && i == |m1[g]| - 1 {
        } else {
          assert i < |m[g]| && m1[g][i] == m[g][i];
        }
      }
    }
  }

  /** A record keeps every stored segment's reverse stored too. */
  lemma AddRecordBidirectional(m: SegmentIndex, r: StreetRecord)
    requires Bidirectional(m)
    ensures Bidirectional(AddRecord(m, r))
  {
    var m': SegmentIndex := AddRecord(m, r);
    AddRecordEffect(m, r);
    forall g: GeoCoord, i: int | g in m' && 0 <= i < |m'[g]|
      ensures m'[g][i].end in m' && Reverse(m'[g][i]) in m'[m'[g][i].end]
    {
      var s := m'[g][i];
      assert s in m'[g];
      if s == Forward(r) {
        assert Reverse(s) == Backward(r);
      } else if s == Backward(r) {
        assert Reverse(s) == Forward(r);
      } else {
        var j :| 0 <= j < |m[g]| && m[g][j] == s;
        ExtendsKeeps(m, m', s.end, Reverse(s));
      }
    }
  }

  /** Loading only ever appends: every earlier list is a prefix of its new one. */
  lemma {:induction false} LoadAllExtends(m: SegmentIndex, rs: seq<StreetRecord>)
    ensures Extends(m, LoadAll(m, rs))
    decreases |rs|
  {
    if |rs| > 0 {
      var p := LoadAll(m, rs[..|rs| - 1]);
      LoadAllExtends(m, rs[..|rs| - 1]);
      AddRecordEffect(p, rs[|rs| - 1]);
      ExtendsTrans(m, p, LoadAll(m, rs));
    }
  }

  /** Every segment stored under a key starts at that key, after any load. */
  lemma {:induction false} LoadAllStartsAtKey(m: SegmentIndex, rs: seq<StreetRecord>)
    requires StartsAtKey(m)
    ensures StartsAtKey(LoadAll(m, rs))
    decreases |rs|
  {
    if |rs| > 0 {
      LoadAllStartsAtKey(m, rs[..|rs| - 1]);
      AddRecordStartsAtKey(LoadAll(m, rs[..|rs| - 1]), rs[|rs| - 1]);
    }
  }

  /** Every street can be walked both ways, after any load. */
  lemma {:induction false} LoadAllBidirectional(m: SegmentIndex, rs: seq<StreetRecord>)
    requires Bidirectional(m)
    ensures Bidirectional(LoadAll(m, rs))
    decreases |rs|
  {
    if |rs| > 0 {
      LoadAllBidirectional(m, rs[..|rs| - 1]);
      AddRecordBidirectional(LoadAll(m, rs[..|rs| - 1]), rs[|rs| - 1]);
    }
  }

  /** Every record's forward segment is stored under its start, its backward one under its end. */
  lemma {:induction false} LoadAllStoresRecords(m: SegmentIndex, rs: seq<StreetRecord>)
    ensures forall k :: 0 <= k < |rs| ==>
      && rs[k].start in LoadAll(m, rs) && Forward(rs[k]) in LoadAll(m, rs)[rs[k].start]
      && rs[k].end in LoadAll(m, rs) && Backward(rs[k]) in LoadAll(m, rs)[rs[k].end]
    decreases |rs|
  {
    if |rs| > 0 {
      var front := rs[..|rs| - 1];
      var p := LoadAll(m, front);
      var r := rs[|rs| - 1];
      LoadAllStoresRecords(m, front);
      AddRecordEffect(p, r);
      forall k | 0 <= k < |rs| - 1
        ensures && rs[k].start in LoadAll(m, rs) && Forward(rs[k]) in LoadAll(m, rs)[rs[k].start]
                && rs[k].end in LoadAll(m, rs) && Backward(rs[k]) in LoadAll(m, rs)[rs[k].end]
      {
        assert rs[k] == front[k];
        ExtendsKeeps(p, LoadAll(m, rs), rs[k].start, Forward(rs[k]));
        ExtendsKeeps(p, LoadAll(m, rs), rs[k].end, Backward(rs[k]));
      }
    }
  }

  /** Nothing is stored but what was there before and the segments of the records. */
  lemma {:induction false} LoadAllOnlyRecords(m: SegmentIndex, rs: seq<StreetRecord>, g: GeoCoord, s: StreetSegment)
    requires g in LoadAll(m, rs) && s in LoadAll(m, rs)[g]
    ensures (g in m && s in m[g]) || exists k :: 0 <= k < |rs| && (s == Forward(rs[k]) || s == Backward(rs[k]))
    decreases |rs|
  {
    if |rs| > 0 {
      var front := rs[..|rs| - 1];
      var p := LoadAll(m, front);
      AddRecordEffect(p, rs[|rs| - 1]);
      if g in p && s in p[g] {
        LoadAllOnlyRecords(m, front, g, s);
        if !(g in m && s in m[g]) {
          var k :| 0 <= k < |front| && (s == Forward(front[k]) || s == Backward(front[k]));
          assert front[k] == rs[k];
        }
      }
    }
  }

  // ---------------------------------------------------------------------------
  // The index object
  // ---------------------------------------------------------------------------

  class StreetMap {
    /** m_streetMap, with the default maximum load factor 0.5 and the coordinate hasher. */
    const segMap: ExpandableHashMap<GeoCoord, seq<StreetSegment>>

    ghost function Segs(): SegmentIndex
      reads this, segMap
    {
      segMap.Contents
    }

    /** The hash map is valid and every stored list is a well-formed adjacency list. */
    ghost predicate Valid()
      reads this, segMap
    {
      && segMap.Valid()
      && segMap.maxLoadFactor == 0.5
      && StartsAtKey(Segs())
      && Bidirectional(Segs())
    }

    constructor (strHash: string -> nat)
      ensures Valid() && Segs() == map[]
      ensures fresh(segMap)
    {
      segMap := new ExpandableHashMap(0.5, (g: GeoCoord) => CoordHash(strHash, g));
    }

    /** addToMap: append seg to the list stored under g, creating the list if g is unknown. */
    method AddToMap(g: GeoCoord, seg: StreetSegment)
      requires segMap.Valid()
      modifies segMap
      ensures segMap.Valid()
      ensures Segs() == AddSegment(old(Segs()), g, seg)
    {
      ghost var m := Segs();
      var found := segMap.Find(g);
      var temp: seq<StreetSegment>;
      if found.None? {
        temp := [seg];
      } else {
        temp := found.value + [seg];
      }
      assert temp == SegmentsAt(m, g) + [seg];
      segMap.Associate(g, temp);
      assert segMap.Contents == m[g := temp];
    }

    /** One pass of the record loop of load. */
    method AddStreetRecord(r: StreetRecord)
      requires Valid()
      modifies segMap
      ensures Valid()
      ensures Segs() == AddRecord(old(Segs()), r)
    {
      ghost var m := Segs();
      AddToMap(r.start, Forward(r));
      AddToMap(r.end, Backward(r));
      AddRecordStartsAtKey(m, r);
      AddRecordBidirectional(m, r);
    }

    /**
     * load, given the outcome of opening the file and the records parsed from
     * it: false when the file could not be opened, otherwise every record is
     * inserted in order and the result is true.
     */
    method Load(fileOpened: bool, records: seq<StreetRecord>) returns (ok: bool)
      requires Valid()
      modifies segMap
      ensures Valid()
      ensures ok == fileOpened
      ensures Segs() == if ok then LoadAll(old(Segs()), records) else old(Segs())
    {
      if !fileOpened {
        return false;
      }
      ghost var m := Segs();
      var i := 0;
      while i < |records|
        invariant 0 <= i <= |records|
        invariant Valid()
        invariant Segs() == LoadAll(m, records[..i])
      {
        AddStreetRecord(records[i]);
        assert records[..i + 1][..i] == records[..i];
        i := i + 1;
      }
      assert records[..|records|] == records;
      return true;
    }

    /**
     * getSegmentsThatStartWith: false and segs untouched for an unknown
     * coordinate; otherwise true and segs replaced by the stored list, whose
     * every segment starts at gc.
     */
    method GetSegmentsThatStartWith(gc: GeoCoord, segsIn: seq<StreetSegment>) returns (found: bool, segs: seq<StreetSegment>)
      requires Valid()
      ensures found <==> gc in Segs()
      ensures !found ==> segs == segsIn
      ensures found ==> segs == Segs()[gc]
      ensures found ==> forall i :: 0 <= i < |segs| ==> segs[i].start == gc
      ensures found ==> forall i :: 0 <= i < |segs| ==> Reverse(segs[i]) in SegmentsAt(Segs(), segs[i].end)
    {
      var f := segMap.Find(gc);
      if f.None? {
        return false, segsIn;
      }
      segs := f.value;
      found := true;
    }
  }
}
