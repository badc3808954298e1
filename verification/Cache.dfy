/** The switch cache of the key-value client: the requests it counts, and the image of the most frequently
    requested keys it writes to the switch. */
module Cache {
  import opened Wrappers

  const MAX_DATA: nat := 94208
  const MAX_CACHE_SIZE: nat := 100000
  const HALF: nat := 0x1_0000_0000

  /** A requested key and how often it was requested. */
  datatype Item = Item(key: nat, freq: nat)

  /** The upper and the lower word of a key. */
  function Upper(key: nat): nat { key / HALF % HALF }

  function Lower(key: nat): nat { key % HALF }

  /** The two words make up a 64-bit key. */
  lemma HalvesMakeKey(key: nat)
    requires key < HALF * HALF
    ensures key == Upper(key) * HALF + Lower(key) && Upper(key) < HALF && Lower(key) < HALF
  {
    assert key / HALF < HALF;
  }

  lemma HalvesTellKey(k: nat, l: nat)
    requires k < HALF * HALF && l < HALF * HALF
    ensures Upper(k) == Upper(l) && Lower(k) == Lower(l) <==> k == l
  {
    assert k == k / HALF * HALF + k % HALF && l == l / HALF * HALF + l % HALF;
    assert k / HALF < HALF && l / HALF < HALF;
  }

  /** The memory region of the cache, and the hash that places keys in it. */
  datatype Region = Region(start: nat, size: nat, crc: nat -> nat)

  predicate Within(region: Region)
  {
    region.start + region.size <= MAX_DATA
  }

  /** The slot of a key. */
  function Slot(region: Region, key: nat): (p: nat)
    requires 0 < region.size
    ensures region.start <= p < region.start + region.size
  {
    region.start + region.crc(key) % region.size
  }

  predicate MapsTo(region: Region, items: seq<Item>, i: nat, p: nat)
    requires i < |items|
  {
    0 < region.size && Slot(region, items[i].key) == p
  }

  /** Item w is the first of the first n items that maps to slot p. */
  ghost predicate Wins(region: Region, items: seq<Item>, n: nat, w: nat, p: nat)
    requires n <= |items|
  {
    w < n && MapsTo(region, items, w, p) && forall i: nat | i < w :: !MapsTo(region, items, i, p)
  }

  /** Some of the first n items maps to slot p. */
  ghost predicate Taken(region: Region, items: seq<Item>, n: nat, p: nat)
    requires n <= |items|
  {
    exists i: nat :: i < n && MapsTo(region, items, i, p)
  }

  ghost predicate Sorted(items: seq<Item>)
  {
    forall i, j | 0 <= i < j < |items| :: items[i].freq >= items[j].freq
  }

  /** What slot p of the image holds after n items: the first of them that maps to it, or nothing. */
  ghost predicate HoldsAt(region: Region, items: seq<Item>, n: nat, keys0: seq<nat>, keys1: seq<nat>, values: seq<nat>, p: nat)
    requires n <= |items| && p < |keys0| == |keys1| == |values|
  {
    if Taken(region, items, n, p) then
      exists w: nat :: Wins(region, items, n, w, p)
                       && keys0[p] == Upper(items[w].key) && keys1[p] == Lower(items[w].key) && values[p] == 1
    else keys0[p] == 0 && keys1[p] == 0 && values[p] == 0
  }

  ghost predicate ImageOf(region: Region, items: seq<Item>, n: nat, keys0: seq<nat>, keys1: seq<nat>, values: seq<nat>)
    requires n <= |items|
  {
    |keys0| == |keys1| == |values| && forall p: nat | p < |keys0| :: HoldsAt(region, items, n, keys0, keys1, values, p)
  }

  lemma TakenNext(region: Region, items: seq<Item>, n: nat, p: nat)
    requires n < |items|
    ensures Taken(region, items, n + 1, p) <==> Taken(region, items, n, p) || MapsTo(region, items, n, p)
  {
    if Taken(region, items, n, p) {
      var i: nat :| i < n && MapsTo(region, items, i, p);
      assert i < n + 1 && MapsTo(region, items, i, p);
    }
    if MapsTo(region, items, n, p) {
      assert n < n + 1 && MapsTo(region, items, n, p);
    }
  }

  lemma {:induction false} WinnerExists(region: Region, items: seq<Item>, n: nat, i: nat, p: nat)
    requires i < n <= |items| && MapsTo(region, items, i, p)
    ensures exists w: nat :: Wins(region, items, n, w, p)
    decreases i
  {
    if j: nat :| j < i && MapsTo(region, items, j, p) {
      WinnerExists(region, items, n, j, p);
    } else {
      assert Wins(region, items, n, i, p);
    }
  }

  lemma WinnerUnique(region: Region, items: seq<Item>, n: nat, v: nat, w: nat, p: nat)
    requires n <= |items| && Wins(region, items, n, v, p) && Wins(region, items, n, w, p)
    ensures v == w
  {
  }

  /** One more item: it goes into its slot if that is free. */
  lemma ImageNext(region: Region, items: seq<Item>, n: nat, keys0: seq<nat>, keys1: seq<nat>, values: seq<nat>, slot: nat,
                  keys0': seq<nat>, keys1': seq<nat>, values': seq<nat>)
    requires n < |items| && 0 < region.size && slot == Slot(region, items[n].key)
    requires ImageOf(region, items, n, keys0, keys1, values) && slot < |keys0|
    requires if Taken(region, items, n, slot) then keys0' == keys0 && keys1' == keys1 && values' == values
             else keys0' == keys0[slot := Upper(items[n].key)] && keys1' == keys1[slot := Lower(items[n].key)]
                  && values' == values[slot := 1]
    ensures ImageOf(region, items, n + 1, keys0', keys1', values')
  {
    var m := n + 1;
    forall p: nat | p < |keys0'| ensures HoldsAt(region, items, m, keys0', keys1', values', p) {
      assert HoldsAt(region, items, n, keys0, keys1, values, p);
      TakenNext(region, items, n, p);
      if Taken(region, items, n, p) {
        var w: nat :| Wins(region, items, n, w, p)
                      && keys0[p] == Upper(items[w].key) && keys1[p] == Lower(items[w].key) && values[p] == 1;
        assert Wins(region, items, m, w, p);
      } else if MapsTo(region, items, n, p) {
        assert Wins(region, items, m, n, p);
      }
    }
  }

  /** When every slot is taken the remaining items change nothing. */
  lemma FullImage(region: Region, items: seq<Item>, n: nat, keys0: seq<nat>, keys1: seq<nat>, values: seq<nat>)
    requires n <= |items| && ImageOf(region, items, n, keys0, keys1, values)
    requires forall p: nat | region.start <= p < region.start + region.size :: Taken(region, items, n, p)
    ensures ImageOf(region, items, |items|, keys0, keys1, values)
  {
    var m := |items|;
    forall p: nat | p < |keys0| ensures HoldsAt(region, items, m, keys0, keys1, values, p) {
      assert HoldsAt(region, items, n, keys0, keys1, values, p);
      if Taken(region, items, n, p) {
        var i: nat :| i < n && MapsTo(region, items, i, p);
        assert i < m && MapsTo(region, items, i, p);
        var w: nat :| Wins(region, items, n, w, p)
                      && keys0[p] == Upper(items[w].key) && keys1[p] == Lower(items[w].key) && values[p] == 1;
        assert Wins(region, items, m, w, p);
      } else {
        assert !(region.start <= p < region.start + region.size);
      }
    }
  }

  // ---- counting slots -------------------------------------------------------------------

  function Slots(lo: nat, n: nat): (s: set<nat>)
    ensures |s| == n && forall p: nat :: p in s <==> lo <= p < lo + n
  {
    if n == 0 then {} else Slots(lo, n - 1) + {lo + n - 1}
  }

  /** As many taken slots as there are slots: all of them. */
  lemma AllTaken(region: Region, taken: set<nat>)
    requires taken <= Slots(region.start, region.size) && |taken| >= region.size
    ensures taken == Slots(region.start, region.size)
  {
    var all := Slots(region.start, region.size);
    assert all == taken + (all - taken);
  }

  /** The taken slots after n items. */
  ghost predicate TakenAre(region: Region, items: seq<Item>, n: nat, taken: set<nat>)
    requires n <= |items|
  {
    taken <= Slots(region.start, region.size) && forall p: nat :: p in taken <==> Taken(region, items, n, p)
  }

  lemma TakenAreNext(region: Region, items: seq<Item>, n: nat, taken: set<nat>)
    requires n < |items| && 0 < region.size && TakenAre(region, items, n, taken)
    ensures TakenAre(region, items, n + 1, taken + {Slot(region, items[n].key)})
  {
    var m := n + 1;
    forall p: nat ensures p in taken + {Slot(region, items[n].key)} <==> Taken(region, items, m, p) {
      TakenNext(region, items, n, p);
    }
  }

  // ---- the client -----------------------------------------------------------------------

  /** How often a key was requested. */
  function Count(sent: seq<nat>, key: nat): nat
  {
    if sent == [] then 0 else Count(sent[..|sent| - 1], key) + if sent[|sent| - 1] == key then 1 else 0
  }

  /** How often a key with this lower word was requested. */
  function LowCount(sent: seq<nat>, low: nat): nat
  {
    if sent == [] then 0 else LowCount(sent[..|sent| - 1], low) + if Lower(sent[|sent| - 1]) == low then 1 else 0
  }

  /** The key is the first requested one with this lower word. */
  ghost predicate FirstWith(sent: seq<nat>, low: nat, key: nat)
  {
    exists i :: 0 <= i < |sent| && sent[i] == key && Lower(key) == low && forall j | 0 <= j < i :: Lower(sent[j]) != low
  }

  /** The table finds a key by its lower word: the entry is the first key requested with that word, and
      counts the requests of all of them. */
  ghost predicate CountedAt(requested: map<nat, Item>, sent: seq<nat>, low: nat)
  {
    && (low in requested <==> LowCount(sent, low) > 0)
    && (low in requested ==> requested[low].freq == LowCount(sent, low) && FirstWith(sent, low, requested[low].key))
  }

  ghost predicate Counted(requested: map<nat, Item>, sent: seq<nat>)
  {
    forall low: nat :: CountedAt(requested, sent, low)
  }

  /** The table after one more request. */
  function Requested(requested: map<nat, Item>, key: nat): map<nat, Item>
  {
    var low := Lower(key);
    requested[low := if low in requested then Item(requested[low].key, requested[low].freq + 1) else Item(key, 1)]
  }

  lemma {:induction false} LowCountZero(sent: seq<nat>, low: nat)
    ensures LowCount(sent, low) == 0 <==> forall j | 0 <= j < |sent| :: Lower(sent[j]) != low
  {
    if sent != [] {
      LowCountZero(sent[..|sent| - 1], low);
      assert forall j | 0 <= j < |sent| - 1 :: sent[..|sent| - 1][j] == sent[j];
    }
  }

  lemma FirstWithNext(sent: seq<nat>, low: nat, key: nat, next: nat)
    requires FirstWith(sent, low, key)
    ensures FirstWith(sent + [next], low, key)
  {
    var i :| 0 <= i < |sent| && sent[i] == key && Lower(key) == low && forall j | 0 <= j < i :: Lower(sent[j]) != low;
    var sent' := sent + [next];
    assert sent'[i] == key && forall j | 0 <= j < i :: sent'[j] == sent[j];
  }

  lemma CountedNext(requested: map<nat, Item>, sent: seq<nat>, key: nat)
    requires Counted(requested, sent)
    ensures Counted(Requested(requested, key), sent + [key])
  {
    var sent' := sent + [key];
    assert sent'[..|sent|] == sent;
    forall low: nat ensures CountedAt(Requested(requested, key), sent', low) {
      assert CountedAt(requested, sent, low);
      if low in requested {
        FirstWithNext(sent, low, requested[low].key, key);
      } else if low == Lower(key) {
        LowCountZero(sent, low);
        assert sent'[|sent|] == key && FirstWith(sent', low, key);
      }
    }
  }

  lemma {:induction false} CountZero(sent: seq<nat>, key: nat)
    ensures Count(sent, key) > 0 <==> key in sent
  {
    if sent != [] {
      CountZero(sent[..|sent| - 1], key);
      assert sent == sent[..|sent| - 1] + [sent[|sent| - 1]];
    }
  }

  /** Key was requested, and no other key with its lower word. */
  ghost predicate Alone(sent: seq<nat>, key: nat)
  {
    forall l | l in sent && Lower(l) == Lower(key) :: l == key
  }

  /** A key's entry counts at least its own requests, and exactly those if it shares its lower word with no
      other requested key. */
  lemma {:induction false} CountIsLow(sent: seq<nat>, key: nat)
    ensures Count(sent, key) <= LowCount(sent, Lower(key))
    ensures Count(sent, key) == LowCount(sent, Lower(key)) <==> Alone(sent, key)
  {
    if sent != [] {
      var front, last := sent[..|sent| - 1], sent[|sent| - 1];
      CountIsLow(front, key);
      assert sent == front + [last];
    }
  }

  ghost predicate EntryAt(requested: map<nat, Item>, low: nat, item: Item)
  {
    low in requested && requested[low] == item
  }

  /** The items are the table's entries for the given lower words, by falling count. */
  ghost predicate ListedFor(items: seq<Item>, requested: map<nat, Item>, lows: set<nat>)
  {
    && Sorted(items)
    && (forall i | 0 <= i < |items| :: exists low :: low in lows && EntryAt(requested, low, items[i]))
    && forall low | low in lows && low in requested :: requested[low] in items
  }

  ghost predicate Listed(items: seq<Item>, requested: map<nat, Item>)
  {
    ListedFor(items, requested, requested.Keys)
  }

  /** Inserts an item behind all that are at least as frequent. */
  method InsertItem(items: seq<Item>, item: Item) returns (r: seq<Item>, ghost p: nat)
    requires Sorted(items)
    ensures p <= |items| && r == items[..p] + [item] + items[p..] && Sorted(r)
  {
    var i := |items|;
    while i > 0 && items[i - 1].freq < item.freq
      invariant 0 <= i <= |items| && forall j | i <= j < |items| :: items[j].freq < item.freq
    {
      i := i - 1;
    }
    r, p := items[..i] + [item] + items[i..], i;
  }

  lemma ListedNext(items: seq<Item>, requested: map<nat, Item>, lows: set<nat>, low: nat, p: nat, r: seq<Item>)
    requires ListedFor(items, requested, lows) && low in requested && p <= |items|
    requires r == items[..p] + [requested[low]] + items[p..] && Sorted(r)
    ensures ListedFor(r, requested, lows + {low})
  {
    forall i | 0 <= i < |r| ensures exists l :: l in lows + {low} && EntryAt(requested, l, r[i]) {
      if i == p {
        assert EntryAt(requested, low, r[i]);
      } else {
        var k := if i < p then i else i - 1;
        assert r[i] == items[k];
        var l :| l in lows && EntryAt(requested, l, items[k]);
        assert l in lows + {low};
      }
    }
    forall l | l in lows + {low} && l in requested ensures requested[l] in r {
      if l == low {
        assert r[p] == requested[low];
      } else {
        var k :| 0 <= k < |items| && items[k] == requested[l];
        assert r[if k < p then k else k + 1] == items[k];
      }
    }
  }

  /** Sorts the requested items by falling count. */
  method SortItems(requested: map<nat, Item>) returns (items: seq<Item>)
    ensures Listed(items, requested)
  {
    items := [];
    var rest := requested.Keys;
    ghost var done: set<nat> := {};
    while rest != {}
      invariant rest + done == requested.Keys && ListedFor(items, requested, done)
      decreases rest
    {
      hide ListedFor;
      var low :| low in rest;
      ListedSorted(items, requested, done);
      var r, p := InsertItem(items, requested[low]);
      ListedNext(items, requested, done, low, p, r);
      items, rest, done := r, rest - {low}, done + {low};
    }
    assert done == requested.Keys;
  }

  lemma ListedSorted(items: seq<Item>, requested: map<nat, Item>, lows: set<nat>)
    requires ListedFor(items, requested, lows)
    ensures Sorted(items)
  {
  }

  class CacheContext {
    const keydist: seq<nat>
    const region: Region
    var currentKeyIdx: nat
    const frequentItemMonitor: bool
    var requested: map<nat, Item>
    /** What the monitor has read from the switch, in the order of its cells. */
    var frequentItems: seq<Item>
    var keys0: array<nat>
    var keys1: array<nat>
    var values: array<nat>
    ghost var sent: seq<nat>

    ghost predicate Valid()
      reads this
    {
      && Within(region) && keydist != [] && currentKeyIdx < |keydist| && Counted(requested, sent)
      && keys0.Length == keys1.Length == values.Length == MAX_DATA
      && keys0 != keys1 && keys0 != values && keys1 != values
    }

    /** The next request: the address of its key's slot and the two words of the key. Nothing is sent while
        the region has fewer than two slots. */
    method TxUpdateArgs() returns (args: Option<(nat, nat, nat)>)
      requires Valid()
      modifies this`currentKeyIdx, this`requested, this`sent
      ensures Valid()
      ensures region.size < 2 ==> args == None && sent == old(sent) && requested == old(requested)
      ensures region.size < 2 ==> currentKeyIdx == old(currentKeyIdx)
      ensures region.size >= 2 ==>
                var key := keydist[old(currentKeyIdx)];
                && args == Some((Slot(region, key), Upper(key), Lower(key))) && sent == old(sent) + [key]
                && currentKeyIdx == (old(currentKeyIdx) + 1) % |keydist|
    {
      if region.size < 2 {
        return None;
      }
      var key := keydist[currentKeyIdx];
      currentKeyIdx := (currentKeyIdx + 1) % |keydist|;
      args := Some((region.start + region.crc(key) % region.size, Upper(key), Lower(key)));
      CountedNext(requested, sent, key);
      requested := Requested(requested, key);
      sent := sent + [key];
    }

    /** Writes the image of a list of items: each slot gets the first item that maps to it. With `limited`,
        stops once as many items are stored as there are slots. Fails on an item without a key. */
    method StoreItems(items: seq<Item>, limited: bool) returns (ok: bool, numStored: nat)
      requires Valid() && (limited || items == [] || 0 < region.size)
      modifies keys0, keys1, values
      ensures ok ==> ImageOf(region, items, |items|, keys0[..], keys1[..], values[..])
      ensures !ok ==> exists i :: 0 <= i < |items| && Upper(items[i].key) == 0 && Lower(items[i].key) == 0
      ensures ok ==> (numStored > 0 <==> items != [] && 0 < region.size)
    {
      hide ImageOf, TakenAre, Counted;
      ok, numStored := true, 0;
      var bloom := ClearImage();
      ghost var taken: set<nat> := {};
      NothingStored(items);
      var i := 0;
      while i < |items| && (!limited || numStored < region.size)
        invariant 0 <= i <= |items| && fresh(bloom) && Valid()
        invariant ImageOf(region, items, i, keys0[..], keys1[..], values[..])
        invariant TakenAre(region, items, i, taken) && |taken| == numStored && (i > 0 <==> numStored > 0)
        invariant FilterIs(bloom, taken) && (i > 0 ==> 0 < region.size)
      {
        var key := items[i].key;
        if !(Upper(key) > 0 || Lower(key) > 0) {
          return false, numStored;
        }
        var stored := StoreItem(items, i, bloom, taken);
        if stored {
          numStored := numStored + 1;
        }
        taken := taken + {Slot(region, key)};
        i := i + 1;
      }
      if i < |items| {
        EverySlotTaken(items, i, taken);
        FullImage(region, items, i, keys0[..], keys1[..], values[..]);
      }
    }

    /** The timer: writes the image of the requested items, the most frequent first, or with a monitor that
        of the items it has found. The slot is a remainder, so the monitor's items need a region. */
    method TimerCache() returns (ok: bool, numStored: nat, ghost items: seq<Item>)
      requires Valid() && (frequentItemMonitor && frequentItems != [] ==> 0 < region.size)
      modifies keys0, keys1, values
      ensures Valid() && if frequentItemMonitor then items == frequentItems else Listed(items, requested)
      ensures ok ==> ImageOf(region, items, |items|, keys0[..], keys1[..], values[..])
      ensures ok ==> (numStored > 0 <==> items != [] && 0 < region.size)
      ensures !frequentItemMonitor ==> (items != [] <==> sent != [])
      ensures !ok ==> exists i :: 0 <= i < |items| && Upper(items[i].key) == 0 && Lower(items[i].key) == 0
      ensures !ok && !frequentItemMonitor ==> exists key :: key in sent && Upper(key) == 0 && Lower(key) == 0
    {
      hide ImageOf;
      var list := SortItems(requested);
      if !frequentItemMonitor {
        items := list;
        ok, numStored := StoreItems(list, true);
        ListedNonempty(list, requested, sent);
        if !ok {
          var i :| 0 <= i < |list| && Upper(list[i].key) == 0 && Lower(list[i].key) == 0;
          ListedWasSent(list, requested, sent, i);
        }
      } else {
        items := frequentItems;
        ok, numStored := StoreItems(frequentItems, false);
      }
    }

    /** The filter knows exactly the taken slots. */
    ghost predicate FilterIs(bloom: array<bool>, taken: set<nat>)
      reads bloom
    {
      bloom.Length == MAX_CACHE_SIZE && forall p: nat | p < MAX_CACHE_SIZE :: bloom[p] <==> p in taken
    }

    /** Stores item i in its slot unless the slot is taken. */
    method StoreItem(items: seq<Item>, i: nat, bloom: array<bool>, ghost taken: set<nat>) returns (stored: bool)
      requires Valid() && i < |items| && 0 < region.size && FilterIs(bloom, taken)
      requires ImageOf(region, items, i, keys0[..], keys1[..], values[..]) && TakenAre(region, items, i, taken)
      modifies bloom, keys0, keys1, values
      ensures ImageOf(region, items, i + 1, keys0[..], keys1[..], values[..])
      ensures var taken' := taken + {Slot(region, items[i].key)};
              TakenAre(region, items, i + 1, taken') && FilterIs(bloom, taken') && |taken'| == |taken| + if stored then 1 else 0
    {
      var key := items[i].key;
      var paddr := region.start + region.crc(key) % region.size;
      ghost var k0, k1, vs := keys0[..], keys1[..], values[..];
      TakenAreNext(region, items, i, taken);
      stored := !bloom[paddr];
      if stored {
        keys0[paddr] := Upper(key);
        keys1[paddr] := Lower(key);
        values[paddr] := 1;
        bloom[paddr] := true;
      } else {
        assert taken + {paddr} == taken;
      }
      ImageNext(region, items, i, k0, k1, vs, paddr, keys0[..], keys1[..], values[..]);
    }

    lemma NothingStored(items: seq<Item>)
      requires Valid() && forall p | 0 <= p < MAX_DATA :: keys0[p] == 0 && keys1[p] == 0 && values[p] == 0
      ensures ImageOf(region, items, 0, keys0[..], keys1[..], values[..]) && TakenAre(region, items, 0, {})
    {
    }

    lemma EverySlotTaken(items: seq<Item>, i: nat, taken: set<nat>)
      requires i <= |items| && TakenAre(region, items, i, taken) && |taken| >= region.size
      ensures forall p: nat | region.start <= p < region.start + region.size :: Taken(region, items, i, p)
    {
      AllTaken(region, taken);
    }

    /** Clears the image and makes an empty filter. */
    method ClearImage() returns (bloom: array<bool>)
      requires Valid()
      modifies keys0, keys1, values
      ensures fresh(bloom) && FilterIs(bloom, {})
      ensures forall p | 0 <= p < MAX_DATA :: keys0[p] == 0 && keys1[p] == 0 && values[p] == 0
    {
      bloom := new bool[MAX_CACHE_SIZE](i => false);
      var p := 0;
      while p < MAX_DATA
        invariant 0 <= p <= MAX_DATA && FilterIs(bloom, {})
        invariant forall q | 0 <= q < p :: keys0[q] == 0 && keys1[q] == 0 && values[q] == 0
      {
        keys0[p], keys1[p], values[p] := 0, 0, 0;
        p := p + 1;
      }
    }
  }

  // ---- what the image means -------------------------------------------------------------

  /** Key k is stored: it is the first of the items that map to its slot. */
  ghost predicate Stored(region: Region, items: seq<Item>, k: nat)
  {
    exists w: nat :: w < |items| && items[w].key == k && 0 < region.size && Wins(region, items, |items|, w, Slot(region, k))
  }

  lemma ListedNonempty(items: seq<Item>, requested: map<nat, Item>, sent: seq<nat>)
    requires Counted(requested, sent) && Listed(items, requested)
    ensures items != [] <==> sent != []
  {
    if sent != [] {
      LowCountZero(sent, Lower(sent[0]));
      assert CountedAt(requested, sent, Lower(sent[0]));
    }
    if items != [] {
      ListedWasSent(items, requested, sent, 0);
    }
  }

  /** Every listed key was requested, and its count is that of its lower word. */
  lemma ListedWasSent(items: seq<Item>, requested: map<nat, Item>, sent: seq<nat>, i: nat)
    requires Counted(requested, sent) && Listed(items, requested) && i < |items|
    ensures items[i].key in sent && items[i].freq == LowCount(sent, Lower(items[i].key))
  {
    var item := items[i];
    var low :| low in requested.Keys && EntryAt(requested, low, item);
    assert CountedAt(requested, sent, low);
  }

  /** A requested key that is the first with its lower word is listed. */
  lemma FirstIsListed(items: seq<Item>, requested: map<nat, Item>, sent: seq<nat>, k: nat)
    requires Counted(requested, sent) && Listed(items, requested) && FirstWith(sent, Lower(k), k)
    ensures exists i :: 0 <= i < |items| && items[i].key == k
  {
    var low := Lower(k);
    LowCountZero(sent, low);
    assert CountedAt(requested, sent, low);
    FirstUnique(sent, low, k, requested[low].key);
    assert requested[low] in items;
  }

  lemma FirstUnique(sent: seq<nat>, low: nat, k: nat, l: nat)
    requires FirstWith(sent, low, k) && FirstWith(sent, low, l)
    ensures k == l
  {
    var i :| 0 <= i < |sent| && sent[i] == k && Lower(k) == low && forall j | 0 <= j < i :: Lower(sent[j]) != low;
    var i' :| 0 <= i' < |sent| && sent[i'] == l && Lower(l) == low && forall j | 0 <= j < i' :: Lower(sent[j]) != low;
    assert i == i';
  }

  lemma {:induction false} FirstExists(sent: seq<nat>, i: nat)
    requires i < |sent|
    ensures exists k :: k in sent && FirstWith(sent, Lower(sent[i]), k)
    decreases i
  {
    if j :| 0 <= j < i && Lower(sent[j]) == Lower(sent[i]) {
      FirstExists(sent, j);
    } else {
      assert FirstWith(sent, Lower(sent[i]), sent[i]);
    }
  }

  /** Which requested keys the image can hold at all: exactly the first of those with the same lower word. */
  lemma ListedExactly(items: seq<Item>, requested: map<nat, Item>, sent: seq<nat>, k: nat)
    requires Counted(requested, sent) && Listed(items, requested)
    ensures (exists i :: 0 <= i < |items| && items[i].key == k) <==> FirstWith(sent, Lower(k), k)
  {
    if i :| 0 <= i < |items| && items[i].key == k {
      var item := items[i];
      var low :| low in requested.Keys && EntryAt(requested, low, item);
      assert CountedAt(requested, sent, low);
    }
    if FirstWith(sent, Lower(k), k) {
      FirstIsListed(items, requested, sent, k);
    }
  }

  /** The cache holds what is asked for most: no requested key that maps to a slot was requested more often
      than the key stored there, as long as neither shares its lower word with another requested key. */
  lemma StoredIsMostRequested(region: Region, items: seq<Item>, requested: map<nat, Item>, sent: seq<nat>, w: nat, k: nat)
    requires Counted(requested, sent) && Listed(items, requested) && 0 < region.size
    requires Wins(region, items, |items|, w, Slot(region, k))
    requires k in sent && Alone(sent, k) && Alone(sent, items[w].key)
    ensures Count(sent, k) <= Count(sent, items[w].key)
  {
    AloneIsFirst(sent, k);
    FirstIsListed(items, requested, sent, k);
    var i :| 0 <= i < |items| && items[i].key == k;
    assert MapsTo(region, items, i, Slot(region, k)) && w <= i;
    ListedWasSent(items, requested, sent, i);
    ListedWasSent(items, requested, sent, w);
    CountIsLow(sent, k);
    CountIsLow(sent, items[w].key);
  }

  lemma AloneIsFirst(sent: seq<nat>, k: nat)
    requires k in sent && Alone(sent, k)
    ensures FirstWith(sent, Lower(k), k)
  {
    var i :| 0 <= i < |sent| && sent[i] == k;
    FirstExists(sent, i);
    var l :| l in sent && FirstWith(sent, Lower(k), l);
  }

  /** The image is right for key k: its slot holds a key requested at least as often. */
  ghost predicate RightFor(region: Region, items: seq<Item>, sent: seq<nat>, k: nat)
    requires 0 < region.size
  {
    exists w: nat :: Wins(region, items, |items|, w, Slot(region, k)) && Count(sent, k) <= Count(sent, items[w].key)
  }

  /** The image is right for every requested key. */
  ghost predicate RightOn(region: Region, items: seq<Item>, sent: seq<nat>)
  {
    0 < region.size && forall k | k in sent :: RightFor(region, items, sent, k)
  }

  lemma RightIfAlone(region: Region, items: seq<Item>, requested: map<nat, Item>, sent: seq<nat>)
    requires Counted(requested, sent) && Listed(items, requested) && 0 < region.size
    requires forall k | k in sent :: Alone(sent, k)
    ensures RightOn(region, items, sent)
  {
    forall k | k in sent ensures RightFor(region, items, sent, k) {
      AloneIsFirst(sent, k);
      FirstIsListed(items, requested, sent, k);
      var i: nat :| i < |items| && items[i].key == k;
      WinnerExists(region, items, |items|, i, Slot(region, k));
      var w: nat :| Wins(region, items, |items|, w, Slot(region, k));
      ListedWasSent(items, requested, sent, w);
      StoredIsMostRequested(region, items, requested, sent, w, k);
    }
  }

  /** A hash that keeps a key to itself shows whether the key is listed. */
  lemma WrongIfShared(items: seq<Item>, requested: map<nat, Item>, sent: seq<nat>, k: nat) returns (region: Region)
    requires Counted(requested, sent) && Listed(items, requested)
    requires k in sent && !FirstWith(sent, Lower(k), k)
    ensures 2 <= region.size && Within(region) && !RightOn(region, items, sent)
  {
    region := Region(0, 2, key => if key == k then 0 else 1);
    if RightFor(region, items, sent, k) {
      var w: nat :| Wins(region, items, |items|, w, Slot(region, k)) && Count(sent, k) <= Count(sent, items[w].key);
      assert items[w].key == k;
      ListedExactly(items, requested, sent, k);
    }
  }

  /** Exactly when the cache holds what is asked for most. The image has, in the slot of every requested key,
      a key requested at least as often, whatever the region and the hash, if and only if no two requested
      keys share their lower word. */
  lemma RightExactly(items: seq<Item>, requested: map<nat, Item>, sent: seq<nat>)
    requires Counted(requested, sent) && Listed(items, requested)
    ensures (forall region: Region | 2 <= region.size && Within(region) :: RightOn(region, items, sent))
            <==> forall k | k in sent :: Alone(sent, k)
  {
    if forall k | k in sent :: Alone(sent, k) {
      forall region: Region | 2 <= region.size && Within(region) ensures RightOn(region, items, sent) {
        RightIfAlone(region, items, requested, sent);
      }
    } else {
      var k :| k in sent && !Alone(sent, k);
      var l :| l in sent && Lower(l) == Lower(k) && l != k;
      if FirstWith(sent, Lower(k), k) && FirstWith(sent, Lower(l), l) {
        FirstUnique(sent, Lower(k), k, l);
        assert false;
      }
      var region := WrongIfShared(items, requested, sent, if FirstWith(sent, Lower(k), k) then l else k);
    }
  }

  /** For the hash at hand: a slot has a value if and only if some requested key maps to it that is the
      first with its lower word. */
  lemma SlotUsed(region: Region, items: seq<Item>, requested: map<nat, Item>, sent: seq<nat>,
                 keys0: seq<nat>, keys1: seq<nat>, values: seq<nat>, p: nat)
    requires Counted(requested, sent) && Listed(items, requested) && 0 < region.size
    requires ImageOf(region, items, |items|, keys0, keys1, values) && p < |keys0|
    ensures values[p] != 0 <==> exists k :: k in sent && FirstWith(sent, Lower(k), k) && Slot(region, k) == p
  {
    assert HoldsAt(region, items, |items|, keys0, keys1, values, p);
    if Taken(region, items, |items|, p) {
      var i: nat :| i < |items| && MapsTo(region, items, i, p);
      ListedWasSent(items, requested, sent, i);
      ListedExactly(items, requested, sent, items[i].key);
    }
    if k :| k in sent && FirstWith(sent, Lower(k), k) && Slot(region, k) == p {
      FirstIsListed(items, requested, sent, k);
      var i: nat :| i < |items| && items[i].key == k;
      assert MapsTo(region, items, i, p);
    }
  }

  /** A key that shares its lower word with one requested before it is never stored, however often it is
      requested: its requests count for the other. */
  lemma SharedWordNotStored(region: Region, items: seq<Item>, requested: map<nat, Item>, sent: seq<nat>, n: nat)
    requires sent == [1] + seq(n, i => HALF + 1) && 0 < n
    requires Counted(requested, sent) && Listed(items, requested)
    ensures Lower(HALF + 1) == Lower(1) == 1 && HALF + 1 in sent && !Stored(region, items, HALF + 1)
    ensures LowCount(sent, 1) == n + 1 && exists i :: 0 <= i < |items| && items[i] == Item(1, n + 1)
  {
    assert sent[0] == 1 && sent[1] == HALF + 1;
    assert FirstWith(sent, 1, 1);
    AllShareWord(sent, |sent|);
    if Stored(region, items, HALF + 1) {
      ListedExactly(items, requested, sent, HALF + 1);
      FirstUnique(sent, 1, 1, HALF + 1);
      assert false;
    }
    FirstIsListed(items, requested, sent, 1);
    var i :| 0 <= i < |items| && items[i].key == 1;
    ListedWasSent(items, requested, sent, i);
  }

  lemma {:induction false} AllShareWord(sent: seq<nat>, n: nat)
    requires n == |sent| && forall i | 0 <= i < n :: Lower(sent[i]) == 1
    ensures LowCount(sent, 1) == n
    decreases n
  {
    if n > 0 {
      AllShareWord(sent[..n - 1], n - 1);
    }
  }

  /** A slot reads as a key exactly if that key is stored there; only taken slots have a value. */
  lemma SlotTellsStored(region: Region, items: seq<Item>, keys0: seq<nat>, keys1: seq<nat>, values: seq<nat>, k: nat)
    requires 0 < region.size && Within(region) && |keys0| == MAX_DATA && ImageOf(region, items, |items|, keys0, keys1, values)
    requires k < HALF * HALF && forall i | 0 <= i < |items| :: items[i].key < HALF * HALF
    ensures var p := Slot(region, k);
            keys0[p] == Upper(k) && keys1[p] == Lower(k) && values[p] != 0 <==> Stored(region, items, k)
  {
    var p := Slot(region, k);
    assert HoldsAt(region, items, |items|, keys0, keys1, values, p);
    if Taken(region, items, |items|, p) {
      var w: nat :| Wins(region, items, |items|, w, p)
                    && keys0[p] == Upper(items[w].key) && keys1[p] == Lower(items[w].key) && values[p] == 1;
      HalvesTellKey(items[w].key, k);
      if Stored(region, items, k) {
        var v: nat :| v < |items| && items[v].key == k && Wins(region, items, |items|, v, p);
        WinnerUnique(region, items, |items|, v, w, p);
      }
    }
  }
}
