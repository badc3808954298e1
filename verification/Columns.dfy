/** One pipeline stage seen as a column of memory blocks. A block holds the FID of its tenant, or 0
    when it is free. Inelastic tenants (demand above 1) live below the stage's elastic offset,
    elastic tenants (demand 1) at or above it. */
module Columns {
  import opened Ordered

  type Fid = nat

  /** Tenant f occupies exactly the blocks start .. start+len-1, and at least one. */
  ghost predicate IsRun(col: seq<Fid>, f: Fid, start: nat, len: nat)
  {
    && 0 < len
    && start + len <= |col|
    && forall j | 0 <= j < |col| :: col[j] == f <==> start <= j < start + len
  }

  ghost function BlocksOf(col: seq<Fid>, f: Fid): set<nat>
  {
    set j: nat | j < |col| && col[j] == f
  }

  /** The blocks of tenant f in ascending order. */
  function BlockList(col: seq<Fid>, f: Fid): seq<nat>
  {
    if col == [] then [] else
      var last := |col| - 1;
      BlockList(col[..last], f) + if col[last] == f then [last] else []
  }

  lemma {:induction false} BlockListMembers(col: seq<Fid>, f: Fid)
    ensures forall j: nat :: j in BlockList(col, f) <==> j < |col| && col[j] == f
  {
    if col != [] {
      BlockListMembers(col[..|col| - 1], f);
    }
  }

  /** The list of a contiguous run counts up from its first block. */
  lemma {:induction false} BlockListOfRun(col: seq<Fid>, f: Fid, start: nat, len: nat)
    requires IsRun(col, f, start, len)
    ensures |BlockList(col, f)| == len && forall k | 0 <= k < len :: BlockList(col, f)[k] == start + k
    decreases |col|
  {
    var last := |col| - 1;
    var front := col[..last];
    if col[last] != f {
      assert IsRun(front, f, start, len);
      BlockListOfRun(front, f, start, len);
    } else if len == 1 {
      assert start == last;
      BlockListMembers(front, f);
      MemberOrEmpty(BlockList(front, f));
    } else {
      assert IsRun(front, f, start, len - 1);
      BlockListOfRun(front, f, start, len - 1);
    }
  }

  function Elastic(dem: map<Fid, nat>): set<Fid>
  {
    set f | f in dem && dem[f] == 1
  }

  /** Tenant f has one contiguous run of blocks, of exactly its demand if it is inelastic. */
  ghost predicate Hosted(col: seq<Fid>, f: Fid, demand: nat)
  {
    exists start: nat, len: nat :: IsRun(col, f, start, len) && (demand > 1 ==> len == demand)
  }

  /** The tenants of a column and their demands, dem, agree with its blocks: every block is free or
      a tenant's, and every tenant is hosted. */
  ghost predicate ColumnOk(col: seq<Fid>, dem: map<Fid, nat>)
  {
    && 0 !in dem
    && (forall f | f in dem :: 1 <= dem[f])
    && (forall j | 0 <= j < |col| :: col[j] == 0 || col[j] in dem)
    && (forall f | f in dem :: Hosted(col, f, dem[f]))
  }

  /** The elastic offset separates the two kinds of tenants and leaves every elastic one a block. */
  ghost predicate OffsetOk(col: seq<Fid>, off: nat, dem: map<Fid, nat>)
  {
    && off <= |col|
    && (forall j | 0 <= j < |col| && col[j] in dem :: dem[col[j]] > 1 <==> j < off)
    && |Elastic(dem)| <= |col| - off
  }

  ghost predicate StageOk(col: seq<Fid>, off: nat, dem: map<Fid, nat>)
  {
    ColumnOk(col, dem) && OffsetOk(col, off, dem)
  }
}

/** Holes left below the elastic offset by departed inelastic tenants: the scan that lists them, and
    their reuse by inelastic arrivals. */
module Holes {
  import opened Columns

  /** An entry of a stage's fragmentation list: first block and number of blocks. */
  datatype Hole = Hole(start: int, len: int)

  /** A maximal run of free blocks that ends strictly below the offset, at an occupied block. */
  ghost predicate ClosedRun(col: seq<Fid>, off: nat, start: int, len: int)
  {
    && 0 <= start && 0 < len && start + len < off <= |col|
    && (forall j | start <= j < start + len :: col[j] == 0)
    && (start == 0 || col[start - 1] != 0)
    && col[start + len] != 0
  }

  /** The scan of blocks j, j+1, .. below the offset. `first` is the first block of the hole being
      read, or negative; `last` is the last block recorded for a hole, which is never reset. */
  function Scan(col: seq<Fid>, off: nat, j: nat, first: int, last: int): seq<Hole>
    requires off <= |col|
    decreases off - j
  {
    if j >= off then []
    else if col[j] == 0 then
      if first < 0 then Scan(col, off, j + 1, j, last) else Scan(col, off, j + 1, first, j)
    else if first >= 0 then
      var last' := if last < 0 then first else last;
      [Hole(first, last' - first + 1)] + Scan(col, off, j + 1, -1, last')
    else Scan(col, off, j + 1, -1, last)
  }

  /** What the two scan variables stand for when block j is next. */
  ghost predicate ScanState(col: seq<Fid>, off: nat, j: nat, first: int, last: int)
  {
    && j <= off <= |col|
    && (first < 0 ==> (j == 0 || col[j - 1] != 0) && (last < 0 || last < j - 1))
    && (first >= 0 ==>
          && first < j
          && (forall i | first <= i < j :: col[i] == 0)
          && (first == 0 || col[first - 1] != 0)
          && (if first == j - 1 then last < 0 || last < first - 1 else last == j - 1))
  }

  function NextBlock(j: nat, first: int): int { if first >= 0 then first else j }

  ghost predicate NoHoleBefore(col: seq<Fid>, j: int)
  {
    forall i | 0 <= i < j && i < |col| :: col[i] != 0
  }

  /** Every entry starts at a closed run, in ascending order; its length is that of the run, or
      negative when the run is a single block and a hole was recorded before it. */
  lemma {:induction false} ScanSound(col: seq<Fid>, off: nat, j: nat, first: int, last: int)
    requires ScanState(col, off, j, first, last)
    ensures SoundFrom(col, off, Scan(col, off, j, first, last), NextBlock(j, first))
    decreases off - j
  {
    hide SoundFrom;
    if j < off {
      var free := col[j] == 0;
      var closes := !free && first >= 0;
      var first' := if free then (if first < 0 then j else first) else -1;
      var last' := if (free && first >= 0) then j else if closes && last < 0 then first else last;
      var rest := Scan(col, off, j + 1, first', last');
      ScanSound(col, off, j + 1, first', last');
      if closes {
        var h := Hole(first, last' - first + 1);
        assert ClosedRun(col, off, first, j - first);
        SoundCons(col, off, h, rest, j + 1);
      } else {
        SoundLower(col, off, rest, NextBlock(j, first), NextBlock(j + 1, first'));
      }
    } else {
      SoundNil(col, off, NextBlock(j, first));
    }
  }

  lemma SoundNil(col: seq<Fid>, off: nat, lo: int)
    ensures SoundFrom(col, off, [], lo)
  {
  }

  lemma SoundLower(col: seq<Fid>, off: nat, s: seq<Hole>, lo: int, hi: int)
    requires SoundFrom(col, off, s, hi) && lo <= hi
    ensures SoundFrom(col, off, s, lo)
  {
  }

  lemma SoundCons(col: seq<Fid>, off: nat, h: Hole, rest: seq<Hole>, lo: int)
    requires SoundFrom(col, off, rest, lo) && h.start < lo
    requires if h.len > 0 then ClosedRun(col, off, h.start, h.len) else h.len < 0 && ClosedRun(col, off, h.start, 1)
    ensures SoundFrom(col, off, [h] + rest, h.start)
  {
  }

  ghost predicate SoundFrom(col: seq<Fid>, off: nat, s: seq<Hole>, lo: int)
  {
    && (forall k | 0 <= k < |s| :: lo <= s[k].start)
    && (forall k | 0 <= k < |s| && s[k].len > 0 :: ClosedRun(col, off, s[k].start, s[k].len))
    && (forall k | 0 <= k < |s| && s[k].len <= 0 :: s[k].len < 0 && ClosedRun(col, off, s[k].start, 1))
    && (forall k, l | 0 <= k < l < |s| :: s[k].start < s[l].start)
  }

  /** The run a .. a+l-1 is listed, exactly unless it is a single block preceded by another hole. */
  ghost predicate Listed(col: seq<Fid>, s: seq<Hole>, a: int, l: int, firstHole: bool)
  {
    exists k :: 0 <= k < |s| && s[k].start == a && (s[k].len == l || (l == 1 && !(firstHole && NoHoleBefore(col, a))))
  }

  /** Every closed run is listed. */
  lemma {:induction false} ScanComplete(col: seq<Fid>, off: nat, j: nat, first: int, last: int, a: int, l: int)
    requires ScanState(col, off, j, first, last)
    requires ClosedRun(col, off, a, l) && NextBlock(j, first) <= a
    ensures Listed(col, Scan(col, off, j, first, last), a, l, last < 0)
    decreases off - j
  {
    if j < off {
      var free := col[j] == 0;
      var closes := !free && first >= 0;
      var first' := if free then (if first < 0 then j else first) else -1;
      var last' := if (free && first >= 0) then j else if closes && last < 0 then first else last;
      var s, rest := Scan(col, off, j, first, last), Scan(col, off, j + 1, first', last');
      if closes {
        assert s == [Hole(first, last' - first + 1)] + rest;
        if a == first {
          assert col[a + l] != 0;
          assert l == j - first;
          assert s[0].start == a;
        } else {
          ScanComplete(col, off, j + 1, first', last', a, l);
          var k :| 0 <= k < |rest| && rest[k].start == a && (rest[k].len == l || (l == 1 && !(last' < 0 && NoHoleBefore(col, a))));
          assert s[k + 1] == rest[k];
          assert !NoHoleBefore(col, a) by { assert col[first] == 0; }
        }
      } else {
        assert s == rest;
        ScanComplete(col, off, j + 1, first', last', a, l);
      }
    }
  }

  /** A run of one block that comes after an earlier hole is never listed with a positive length: the
      scan subtracts its start from the last block it recorded, which lies before it. */
  lemma {:induction false} ScanStale(col: seq<Fid>, off: nat, j: nat, first: int, last: int, a: int, k: nat)
    requires ScanState(col, off, j, first, last)
    requires ClosedRun(col, off, a, 1) && (last >= 0 || !NoHoleBefore(col, a))
    requires last < 0 ==> forall i | 0 <= i < NextBlock(j, first) :: col[i] != 0
    requires k < |Scan(col, off, j, first, last)| && Scan(col, off, j, first, last)[k].start == a
    ensures Scan(col, off, j, first, last)[k].len < 0
    decreases off - j
  {
    var free := col[j] == 0;
    var closes := !free && first >= 0;
    var first' := if free then (if first < 0 then j else first) else -1;
    var last' := if (free && first >= 0) then j else if closes && last < 0 then first else last;
    var s, rest := Scan(col, off, j, first, last), Scan(col, off, j + 1, first', last');
    if closes {
      assert s == [Hole(first, last' - first + 1)] + rest;
      if k == 0 {
        assert first == j - 1;
      } else {
        ScanStale(col, off, j + 1, first', last', a, k - 1);
      }
    } else {
      assert s == rest;
      ScanStale(col, off, j + 1, first', last', a, k);
    }
  }

  // ---- the fragmentation list -----------------------------------------------------------

  /** The list entry is negative or empty, or stands for free blocks below the offset. */
  ghost predicate HoleOk(col: seq<Fid>, off: nat, h: Hole)
    requires off <= |col|
  {
    h.len > 0 ==> 0 <= h.start && h.start + h.len <= off && forall j | h.start <= j < h.start + h.len :: col[j] == 0
  }

  ghost predicate Apart(g: Hole, h: Hole)
  {
    g.len > 0 && h.len > 0 ==> g.start + g.len <= h.start || h.start + h.len <= g.start
  }

  ghost predicate AllApart(holes: seq<Hole>)
  {
    forall i, j | 0 <= i < j < |holes| :: Apart(holes[i], holes[j])
  }

  /** Entries of positive length are pairwise disjoint free ranges below the offset. */
  ghost predicate HolesOk(col: seq<Fid>, off: nat, holes: seq<Hole>)
    requires off <= |col|
  {
    (forall h | h in holes :: HoleOk(col, off, h)) && AllApart(holes)
  }

  ghost predicate Descending(holes: seq<Hole>)
  {
    forall i, j | 0 <= i < j < |holes| :: holes[i].len >= holes[j].len
  }

  function Insert(h: Hole, holes: seq<Hole>): seq<Hole>
  {
    if holes == [] || h.len >= holes[0].len then [h] + holes else [holes[0]] + Insert(h, holes[1..])
  }

  lemma {:induction false} InsertMembers(h: Hole, holes: seq<Hole>)
    ensures |Insert(h, holes)| == |holes| + 1
    ensures forall g :: g in Insert(h, holes) <==> g == h || g in holes
  {
    if holes == [] || h.len >= holes[0].len {
      assert forall g :: g in [h] + holes <==> g == h || g in holes;
    } else {
      InsertMembers(h, holes[1..]);
      assert holes == [holes[0]] + holes[1..];
    }
  }

  lemma {:induction false} InsertDescending(h: Hole, holes: seq<Hole>)
    requires Descending(holes)
    ensures Descending(Insert(h, holes))
  {
    if holes == [] || h.len >= holes[0].len {
    } else {
      InsertDescending(h, holes[1..]);
      InsertMembers(h, holes[1..]);
      var rest := Insert(h, holes[1..]);
      forall j | 0 <= j < |rest| ensures holes[0].len >= rest[j].len {
        assert rest[j] in rest;
        if rest[j] != h {
          var i :| 0 <= i < |holes[1..]| && holes[1..][i] == rest[j];
          assert holes[0].len >= holes[i + 1].len;
        }
      }
    }
  }

  lemma {:induction false} InsertApart(h: Hole, holes: seq<Hole>)
    requires AllApart(holes) && forall g | g in holes :: Apart(h, g)
    ensures AllApart(Insert(h, holes))
  {
    if holes == [] || h.len >= holes[0].len {
    } else {
      InsertApart(h, holes[1..]);
      InsertMembers(h, holes[1..]);
      var rest := Insert(h, holes[1..]);
      forall g | g in rest ensures Apart(holes[0], g) {
        if g == h {
          assert Apart(h, holes[0]);
        } else {
          var i :| 0 <= i < |holes[1..]| && holes[1..][i] == g;
          assert Apart(holes[0], holes[i + 1]);
        }
      }
    }
  }

  /** The list sorted by descending length; equal lengths keep their order. */
  function ByLength(holes: seq<Hole>): seq<Hole>
  {
    if holes == [] then [] else Insert(holes[0], ByLength(holes[1..]))
  }

  /** Sorting keeps the entries and puts the longest first. */
  lemma {:induction false} ByLengthMembers(holes: seq<Hole>)
    ensures Descending(ByLength(holes)) && |ByLength(holes)| == |holes|
    ensures forall h :: h in ByLength(holes) <==> h in holes
  {
    if holes != [] {
      var rest := holes[1..];
      assert holes == [holes[0]] + rest;
      ByLengthMembers(rest);
      InsertMembers(holes[0], ByLength(rest));
      InsertDescending(holes[0], ByLength(rest));
    }
  }

  lemma {:induction false} ByLengthOk(col: seq<Fid>, off: nat, holes: seq<Hole>)
    requires off <= |col| && HolesOk(col, off, holes)
    ensures HolesOk(col, off, ByLength(holes))
  {
    ByLengthMembers(holes);
    if holes == [] {
    } else {
      ByLengthOk(col, off, holes[1..]);
      forall g | g in holes[1..] ensures Apart(holes[0], g) {
        var i :| 0 <= i < |holes[1..]| && holes[1..][i] == g;
        assert Apart(holes[0], holes[i + 1]);
      }
      ByLengthMembers(holes[1..]);
      InsertApart(holes[0], ByLength(holes[1..]));
    }
  }

  /** Entry k is the first of the largest ones, and large enough. */
  ghost predicate IsLargestFit(holes: seq<Hole>, demand: nat, k: int)
  {
    && 0 <= k < |holes|
    && demand <= holes[k].len
    && (forall i | 0 <= i < |holes| :: holes[i].len <= holes[k].len)
    && (forall i | 0 <= i < k :: holes[i].len < holes[k].len)
  }

  ghost predicate Fits(holes: seq<Hole>, demand: nat)
  {
    exists h :: h in holes && demand <= h.len
  }

  /** The list after `demand` blocks at the front of entry k were taken. */
  function TakeFrom(holes: seq<Hole>, k: nat, demand: nat): (r: seq<Hole>)
    requires k < |holes|
  {
    if demand == holes[k].len then holes[..k] + holes[k + 1..]
    else holes[k := Hole(holes[k].start + demand, holes[k].len - demand)]
  }

  /** Block j lies in one of the listed holes. */
  ghost predicate InHole(holes: seq<Hole>, j: int)
  {
    exists k :: 0 <= k < |holes| && Contains(holes[k], j)
  }

  predicate Contains(h: Hole, j: int)
  {
    h.start <= j < h.start + h.len
  }

  lemma InHoleMembers(holes: seq<Hole>, holes': seq<Hole>, j: int)
    requires forall h :: h in holes <==> h in holes'
    ensures InHole(holes, j) <==> InHole(holes', j)
  {
    if k :| 0 <= k < |holes| && Contains(holes[k], j) {
      assert holes[k] in holes';
    }
    if k :| 0 <= k < |holes'| && Contains(holes'[k], j) {
      assert holes'[k] in holes;
    }
  }

  /** Taking blocks from a hole takes exactly these off the list, and nothing of the rest gets lost. */
  lemma TakeFromExactly(holes: seq<Hole>, k: nat, demand: nat, j: int)
    requires AllApart(holes) && k < |holes| && 0 < demand <= holes[k].len
    ensures InHole(TakeFrom(holes, k, demand), j) <==>
              InHole(holes, j) && !(holes[k].start <= j < holes[k].start + demand)
  {
    var r := TakeFrom(holes, k, demand);
    if i :| 0 <= i < |holes| && Contains(holes[i], j) {
      if i != k {
        assert if i < k then Apart(holes[i], holes[k]) else Apart(holes[k], holes[i]);
        var i' := if demand == holes[k].len && i > k then i - 1 else i;
        assert r[i'] == holes[i];
      } else if demand < holes[k].len && holes[k].start + demand <= j {
        assert Contains(r[k], j);
      }
    }
    if i :| 0 <= i < |r| && Contains(r[i], j) {
      var i' := if demand == holes[k].len && i >= k then i + 1 else i;
      assert Contains(holes[i'], j);
      if i' != k {
        assert if i' < k then Apart(holes[i'], holes[k]) else Apart(holes[k], holes[i']);
      }
    }
  }

  lemma TakeFromOk(col: seq<Fid>, off: nat, holes: seq<Hole>, k: nat, demand: nat, col': seq<Fid>)
    requires off <= |col| == |col'| && HolesOk(col, off, holes)
    requires k < |holes| && 0 < demand <= holes[k].len
    requires forall j | 0 <= j < off && !(holes[k].start <= j < holes[k].start + demand) :: col'[j] == col[j]
    ensures HolesOk(col', off, TakeFrom(holes, k, demand))
  {
    var r := TakeFrom(holes, k, demand);
    forall h | h in r ensures HoleOk(col', off, h) {
      var i :| 0 <= i < |r| && r[i] == h;
      var i' := if demand == holes[k].len && i >= k then i + 1 else i;
      assert HoleOk(col, off, holes[i']) && HoleOk(col, off, holes[k]);
      if i' != k {
        assert h == holes[i'];
        assert if i' < k then Apart(holes[i'], holes[k]) else Apart(holes[k], holes[i']);
      }
    }
    forall i, j | 0 <= i < j < |r| ensures Apart(r[i], r[j]) {
      if demand == holes[k].len {
        var i', j' := if i < k then i else i + 1, if j < k then j else j + 1;
        assert Apart(holes[i'], holes[j']);
      } else {
        assert Apart(holes[i], holes[j]);
      }
    }
  }

  /** The rescan of a column below its offset. */
  function Rescan(col: seq<Fid>, off: nat): seq<Hole>
    requires off <= |col|
  {
    Scan(col, off, 0, -1, -1)
  }

  /** The rescan lists disjoint free ranges, all strictly below the offset. */
  lemma RescanOk(col: seq<Fid>, off: nat)
    requires off <= |col|
    ensures HolesOk(col, off, Rescan(col, off))
    ensures forall h | h in Rescan(col, off) && h.len > 0 :: ClosedRun(col, off, h.start, h.len)
  {
    ScanSound(col, off, 0, -1, -1);
    var s := Rescan(col, off);
    forall i, j | 0 <= i < j < |s| ensures Apart(s[i], s[j]) {
      if s[i].len > 0 && s[j].len > 0 {
        assert ClosedRun(col, off, s[i].start, s[i].len) && ClosedRun(col, off, s[j].start, s[j].len);
        assert s[i].start < s[j].start;
        assert col[s[j].start - 1] != 0;
      }
    }
  }

  /** Which holes the rescan records right: exactly those of two blocks or more, and the first one. */
  lemma RescanRecords(col: seq<Fid>, off: nat, a: int, l: int)
    requires ClosedRun(col, off, a, l)
    ensures Hole(a, l) in Rescan(col, off) <==> l > 1 || NoHoleBefore(col, a)
    ensures exists k :: 0 <= k < |Rescan(col, off)| && Rescan(col, off)[k].start == a
              && (Rescan(col, off)[k].len == l || (Rescan(col, off)[k].len < 0 && l == 1))
  {
    var s := Rescan(col, off);
    ScanComplete(col, off, 0, -1, -1, a, l);
    var k :| 0 <= k < |s| && s[k].start == a && (s[k].len == l || (l == 1 && !NoHoleBefore(col, a)));
    if l == 1 && !NoHoleBefore(col, a) {
      forall i | 0 <= i < |s| && s[i].start == a ensures s[i].len < 0 {
        ScanStale(col, off, 0, -1, -1, a, i);
      }
    } else {
      assert s[k] == Hole(a, l);
    }
  }

  /** Three inelastic programs of two blocks with a free block after each of the first two: the second hole
      is recorded with a negative length, so that no demand ever finds it. */
  lemma SecondHoleLost(col: seq<Fid>, dem: map<Fid, nat>)
    requires col == [1, 1, 0, 2, 2, 0, 3, 3] && dem == map[1 := 2, 2 := 2, 3 := 2]
    ensures StageOk(col, 8, dem) && NoTrailingHole(col, 8) && ClosedRun(col, 8, 5, 1)
    ensures Rescan(col, 8) == [Hole(2, 1), Hole(5, -2)]
  {
    assert IsRun(col, 1, 0, 2) && IsRun(col, 2, 3, 2) && IsRun(col, 3, 6, 2);
    assert Elastic(dem) == {};
    assert Scan(col, 8, 6, 5, 2) == [Hole(5, -2)] + Scan(col, 8, 7, -1, 2);
    assert Scan(col, 8, 7, -1, 2) == [];
    assert Scan(col, 8, 3, 2, -1) == [Hole(2, 1)] + Scan(col, 8, 4, -1, 2);
  }

  /** The rescan finds room for an inelastic demand exactly if some closed run is long enough. */
  lemma RescanFits(col: seq<Fid>, off: nat, demand: nat)
    requires off <= |col| && 2 <= demand
    ensures Fits(Rescan(col, off), demand) <==> exists a: int, l: int :: ClosedRun(col, off, a, l) && demand <= l
  {
    RescanOk(col, off);
    if a: int, l: int :| ClosedRun(col, off, a, l) && demand <= l {
      ScanComplete(col, off, 0, -1, -1, a, l);
      var s := Rescan(col, off);
      var k :| 0 <= k < |s| && s[k].start == a && s[k].len == l;
      assert s[k] in s;
    }
  }

  /** No trailing hole: the block just below the offset is occupied. */
  predicate NoTrailingHole(col: seq<Fid>, off: nat)
    requires off <= |col|
  {
    off == 0 || col[off - 1] != 0
  }

  /** Without a trailing hole every free range below the offset lies in a closed run. */
  lemma FreeRangeInClosedRun(col: seq<Fid>, off: nat, start: nat, len: nat) returns (a: nat, l: nat)
    requires off <= |col| && NoTrailingHole(col, off)
    requires 0 < len && start + len <= off && forall j | start <= j < start + len :: col[j] == 0
    ensures ClosedRun(col, off, a, l) && a <= start && start + len <= a + l
  {
    a := start;
    while a > 0 && col[a - 1] == 0
      invariant 0 <= a <= start
      invariant forall j | a <= j < start + len :: col[j] == 0
    {
      a := a - 1;
    }
    var b := start + len;
    while b < off && col[b] == 0
      invariant start + len <= b <= off
      invariant forall j | a <= j < b :: col[j] == 0
    {
      b := b + 1;
    }
    l := b - a;
  }
}
