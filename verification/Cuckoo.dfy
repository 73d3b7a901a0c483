/**
 The (4,2) cuckoo hash table of ckh.c: search, insertion with eviction chains, growing and
 shrinking by rebuilding into a fresh table, with back-out when the rebuild fails.

 The pseudo-random draws are arbitrary choices.  `fuel` bounds the length of one eviction
 chain: a chain that uses it up ends like one that has come back to its first bucket.
 */
module Cuckoo {
  import opened Common

  const LG_CELLS: nat := 2
  const CELLS: nat := 4

  datatype Cell<K, D> = Empty | Item(key: K, data: D)

  datatype Outcome<K, D> =
    | Inserted
    | Homeless(key: K, data: D)   // the chain ended with this item in hand

  /** h & (2^lg - 1): the lg low bits of a hash. */
  function LowBits(h: nat, lg: nat): (b: nat)
    ensures b < Pow2(lg)
  {
    if lg == 0 then 0 else 2 * LowBits(h / 2, lg - 1) + h % 2
  }

  /** The stored items; a key stored twice counts twice. */
  ghost function Items<K, D>(cells: seq<Cell<K, D>>): multiset<Cell<K, D>> {
    multiset(cells)[Empty := 0]
  }

  ghost function InHand<K, D>(o: Outcome<K, D>): multiset<Cell<K, D>> {
    if o.Inserted? then multiset{} else multiset{Item(o.key, o.data)}
  }

  lemma SetCell<K, D>(cells: seq<Cell<K, D>>, i: nat, c: Cell<K, D>)
    requires i < |cells|
    ensures Items(cells[i := c]) == Items(cells) - Items([cells[i]]) + Items([c])
  {
    assert cells == cells[..i] + [cells[i]] + cells[i + 1..];
    assert cells[i := c] == cells[..i] + [c] + cells[i + 1..];
  }

  lemma Single<K, D>(c: Cell<K, D>)
    ensures Items([c]) == if c.Item? then multiset{c} else multiset{}
  {
  }

  lemma Append<K, D>(a: seq<Cell<K, D>>, b: seq<Cell<K, D>>)
    ensures Items(a + b) == Items(a) + Items(b)
  {
  }

  lemma NoItems<K, D>(cells: seq<Cell<K, D>>)
    requires forall i :: 0 <= i < |cells| ==> cells[i].Empty?
    ensures Items(cells) == multiset{}
  {
    assert forall c :: c in cells ==> c == Empty;
  }

  lemma NextCell<K, D>(cells: seq<Cell<K, D>>, i: nat)
    requires i < |cells|
    ensures Items(cells[..i + 1])
            == Items(cells[..i]) + if cells[i].Item? then multiset{cells[i]} else multiset{}
  {
    assert cells[..i + 1] == cells[..i] + [cells[i]];
    Append(cells[..i], [cells[i]]);
    Single(cells[i]);
  }

  /** A stretch of cells holds at most as many items as it has cells, and that many if none is empty. */
  lemma {:induction false} Occupied<K, D>(cells: seq<Cell<K, D>>)
    ensures |Items(cells)| <= |cells|
    ensures |Items(cells)| == |cells| <==> forall i :: 0 <= i < |cells| ==> cells[i].Item?
  {
    if cells != [] {
      var n := |cells| - 1;
      Occupied(cells[..n]);
      NextCell(cells, n);
      assert cells[..n + 1] == cells;
    }
  }

  /** The items of a stretch, of what is before it and of what is behind it. */
  lemma Stretch<K, D>(cells: seq<Cell<K, D>>, b: nat, e: nat)
    requires b <= e <= |cells|
    ensures |Items(cells)| == |Items(cells[..b])| + |Items(cells[b..e])| + |Items(cells[e..])|
  {
    assert cells == cells[..b] + cells[b..e] + cells[e..];
    Append(cells[..b], cells[b..e]);
    Append(cells[..b] + cells[b..e], cells[e..]);
  }

  ghost predicate Full<K, D>(cells: seq<Cell<K, D>>, bucket: nat) {
    && CELLS * bucket + CELLS <= |cells|
    && forall i :: CELLS * bucket <= i < CELLS * bucket + CELLS ==> cells[i].Item?
  }

  lemma OneFull<K, D>(cells: seq<Cell<K, D>>, b: nat)
    requires CELLS * b + CELLS <= |cells|
    ensures var n := |Items(cells)| - |Items(cells[..CELLS * b])| - |Items(cells[CELLS * b + CELLS..])|;
      n <= CELLS && (n == CELLS <==> Full(cells, b))
  {
    var bucket := cells[CELLS * b..CELLS * b + CELLS];
    Stretch(cells, CELLS * b, CELLS * b + CELLS);
    Occupied(bucket);
    if forall i :: 0 <= i < CELLS ==> bucket[i].Item? {
      forall i | CELLS * b <= i < CELLS * b + CELLS ensures cells[i].Item? {
        assert bucket[i - CELLS * b].Item?;
      }
    }
  }

  lemma TwoFull<K, D>(cells: seq<Cell<K, D>>, x: nat, y: nat)
    requires x <= y && Full(cells, x) && Full(cells, y)
    ensures |Items(cells)| >= if x == y then CELLS else 2 * CELLS
  {
    OneFull(cells, y);
    if x < y {
      OneFull(cells[..CELLS * y], x);
    }
  }

  /** Two buckets that hold all items, as many as they have cells, are full. */
  lemma FillTwo<K, D>(cells: seq<Cell<K, D>>, x: nat, y: nat)
    requires x <= y && CELLS * y + CELLS <= |cells|
    requires |Items(cells)| == if x == y then CELLS else 2 * CELLS
    requires forall i :: 0 <= i < |cells| && cells[i].Item? ==> i / CELLS == x || i / CELLS == y
    ensures Full(cells, x) && Full(cells, y)
  {
    OneFull(cells, y);
    NoItems(cells[CELLS * y + CELLS..]);
    var before := cells[..CELLS * y];
    if x == y {
      NoItems(before);
    } else {
      OneFull(before, x);
      NoItems(before[..CELLS * x]);
      NoItems(before[CELLS * x + CELLS..]);
      assert Full(before, x) ==> Full(cells, x);
    }
  }

  lemma FirstItems<K, D>(cells: seq<Cell<K, D>>, i: nat)
    requires i <= |cells|
    ensures Items(cells[..i]) <= Items(cells)
  {
    assert cells == cells[..i] + cells[i..];
    Append(cells[..i], cells[i..]);
  }

  lemma AllFound<K, D>(cells: seq<Cell<K, D>>, i: nat)
    requires i <= |cells| && |Items(cells[..i])| >= |Items(cells)|
    ensures Items(cells[..i]) == Items(cells)
  {
    assert cells == cells[..i] + cells[i..];
    Append(cells[..i], cells[i..]);
    assert Items(cells[i..]) == multiset{};
  }

  /** Swapping the item in hand with a stored one conserves the two together. */
  lemma Trade<T>(stored: multiset<T>, inHand: T, evicted: T)
    ensures evicted in stored ==>
              stored - multiset{evicted} + multiset{inHand} + multiset{evicted}
              == stored + multiset{inHand}
  {
  }

  // ------------------------------------------------------------------ the finite map

  /** No key occurs twice. */
  ghost predicate Unique<K(!new), D(!new)>(items: multiset<Cell<K, D>>) {
    forall k: K, d: D, e: D {:trigger items[Item(k, d)], items[Item(k, e)]} ::
      Item(k, d) in items && Item(k, e) in items ==> d == e && items[Item(k, d)] == 1
  }

  ghost predicate Stores<K, D(!new)>(items: multiset<Cell<K, D>>, k: K) {
    exists d: D :: Item(k, d) in items
  }

  /** The table read as a finite map: `items` holds each binding of m once and nothing else. */
  ghost predicate Refines<K(!new), D(!new)>(items: multiset<Cell<K, D>>, m: map<K, D>) {
    && items[Empty] == 0
    && forall k: K, d: D :: items[Item(k, d)] == if k in m && m[k] == d then 1 else 0
  }

  lemma RefinesUnique<K(!new), D(!new)>(items: multiset<Cell<K, D>>, m: map<K, D>)
    requires Refines(items, m)
    ensures Unique(items)
    ensures forall k: K :: Stores(items, k) <==> k in m
  {
    forall k: K ensures Stores(items, k) <==> k in m {
      if k in m {
        assert Item(k, m[k]) in items;
      }
    }
  }

  lemma RefinesInsert<K(!new), D(!new)>(items: multiset<Cell<K, D>>, m: map<K, D>, k: K, d: D)
    requires Refines(items, m) && k !in m
    ensures Refines(items + multiset{Item(k, d)}, m[k := d])
  {
  }

  lemma RefinesRemove<K(!new), D(!new)>(items: multiset<Cell<K, D>>, m: map<K, D>, k: K)
    requires Refines(items, m) && k in m
    ensures Refines(items - multiset{Item(k, m[k])}, m - {k})
  {
  }

  /** What a failed insertion may leave behind, and all it may: the new item is in hand and the map
      as it was, or an old binding is in hand and the new key is in the map instead of it. */
  lemma FailureLeaves<K(!new), D(!new)>(items: multiset<Cell<K, D>>, m: map<K, D>, key: K, data: D,
                                        k: K, d: D)
    requires key !in m && items[Empty] == 0
    ensures Refines(items + multiset{Item(k, d)}, m[key := data])
            <==> k in m[key := data] && m[key := data][k] == d && Refines(items, m[key := data] - {k})
    ensures k == key ==> m[key := data] - {k} == m
  {
  }

  // ------------------------------------------------------------------ the table

  class Ckh<K(==, !new), D(==, !new)> {
    const hash1: K -> nat
    const hash2: K -> nat
    const lgMaxCells: nat     // the allocator refuses tables of more than 2^lgMaxCells cells
    var tab: array<Cell<K, D>>
    var count: nat
    var lgMinBuckets: nat
    var lgCurBuckets: nat

    function Bucket1(key: K, lg: nat): (b: nat)
      ensures b < Pow2(lg)
    {
      LowBits(hash1(key), lg)
    }

    function Bucket2(key: K, lg: nat): (b: nat)
      ensures b < Pow2(lg)
    {
      LowBits(hash2(key), lg)
    }

    /** Every stored item sits in one of the two buckets its key hashes to. */
    ghost predicate Placed(cells: seq<Cell<K, D>>, lg: nat) {
      && |cells| == CELLS * Pow2(lg)
      && forall i :: 0 <= i < |cells| && cells[i].Item? ==>
           i / CELLS == Bucket1(cells[i].key, lg) || i / CELLS == Bucket2(cells[i].key, lg)
    }

    /** The table is consistent: items are placed, and count is the number of occupied cells. */
    ghost predicate Valid()
      reads this, tab
    {
      && Placed(tab[..], lgCurBuckets) && count == |Items(tab[..])|
      && lgMinBuckets <= lgCurBuckets && lgCurBuckets + LG_CELLS <= lgMaxCells
    }

    /** The two keys hash to the same pair of buckets. */
    predicate Mates(k: K, key: K, lg: nat) {
      || (Bucket1(k, lg) == Bucket1(key, lg) && Bucket2(k, lg) == Bucket2(key, lg))
      || (Bucket1(k, lg) == Bucket2(key, lg) && Bucket2(k, lg) == Bucket1(key, lg))
    }

    /** Neither bucket of the key has room. */
    ghost predicate NoRoom(cells: seq<Cell<K, D>>, key: K, lg: nat) {
      Full(cells, Bucket1(key, lg)) && Full(cells, Bucket2(key, lg))
    }

    /** Neither bucket of the key has room, and no item there can go anywhere else. */
    ghost predicate Trapped(cells: seq<Cell<K, D>>, key: K, lg: nat) {
      NoRoom(cells, key, lg) && AllMates(cells, key, lg, Bucket1(key, lg)) && AllMates(cells, key, lg, Bucket2(key, lg))
    }

    ghost predicate AllMates(cells: seq<Cell<K, D>>, key: K, lg: nat, bucket: nat) {
      forall i :: 0 <= i < |cells| && i / CELLS == bucket ==> cells[i].Item? && Mates(cells[i].key, key, lg)
    }

    /** How many items fit the buckets of a key. */
    function Room(key: K, lg: nat): nat {
      if Bucket1(key, lg) == Bucket2(key, lg) then CELLS else 2 * CELLS
    }

    /** A key without room has its buckets' worth of items in the table. */
    lemma NoRoomCount(cells: seq<Cell<K, D>>, key: K, lg: nat)
      requires NoRoom(cells, key, lg)
      ensures |Items(cells)| >= Room(key, lg)
    {
      var b1, b2 := Bucket1(key, lg), Bucket2(key, lg);
      TwoFull(cells, if b1 <= b2 then b1 else b2, if b1 <= b2 then b2 else b1);
    }

    /** One of the buckets of k is a bucket of the key. */
    predicate Touches(k: K, key: K, lg: nat) {
      || Bucket1(k, lg) == Bucket1(key, lg) || Bucket1(k, lg) == Bucket2(key, lg)
      || Bucket2(k, lg) == Bucket1(key, lg) || Bucket2(k, lg) == Bucket2(key, lg)
    }

    /** The others have a claim to the buckets of the key, and are as many as those have cells. */
    ghost predicate Claim(others: multiset<Cell<K, D>>, key: K, lg: nat) {
      |others| == Room(key, lg) && forall c :: c in others ==> c.Item? && Touches(c.key, key, lg)
    }

    /** Besides the item itself, enough items to fill the buckets of its key have a claim to them. */
    ghost predicate Crowded(items: multiset<Cell<K, D>>, item: Cell<K, D>, lg: nat) {
      && item in items && item.Item?
      && exists others :: others <= items - multiset{item} && Claim(others, item.key, lg)
    }

    /** In a table of 2^lg buckets some item is crowded. */
    ghost predicate TooCrowded(items: multiset<Cell<K, D>>, lg: nat) {
      exists item :: Crowded(items, item, lg)
    }

    /** So it is at the sizes behind `from` up to `to`. */
    ghost predicate PassedOver(items: multiset<Cell<K, D>>, from: nat, to: int) {
      forall lg: nat :: from < lg <= to ==> TooCrowded(items, lg)
    }

    /** More items make a table no less crowded. */
    lemma CrowdStays(items: multiset<Cell<K, D>>, more: multiset<Cell<K, D>>, lg: nat)
      requires TooCrowded(items, lg) && items <= more
      ensures TooCrowded(more, lg)
    {
      var item :| Crowded(items, item, lg);
      var others :| others <= items - multiset{item} && Claim(others, item.key, lg);
      assert others <= more - multiset{item};
      assert Crowded(more, item, lg);
    }

    /** If the next item of an old table finds no room among those before it, the old one is crowded. */
    lemma PartCrowded(moved: seq<Cell<K, D>>, cells: seq<Cell<K, D>>, i: nat, lg: nat)
      requires i < |cells| && cells[i].Item? && Placed(moved, lg) && Items(moved) == Items(cells[..i])
      ensures NoRoom(moved, cells[i].key, lg) ==> TooCrowded(Items(cells), lg)
    {
      if NoRoom(moved, cells[i].key, lg) {
        NoRoomCrowds(moved, cells[i], lg);
        NextCell(cells, i);
        FirstItems(cells, i + 1);
        CrowdStays(Items(cells[..i + 1]), Items(cells), lg);
      }
    }

    /** Keys of m, as many as the buckets of the key have cells, that have a claim to these buckets. */
    ghost predicate CrowdedKey(m: map<K, D>, key: K, lg: nat) {
      key in m && |set k | k in m && k != key && Touches(k, key, lg)| >= Room(key, lg)
    }

    /** At 2^lg buckets some key of m shares its buckets with too many others. */
    ghost predicate CrowdedMap(m: map<K, D>, lg: nat) {
      exists key :: CrowdedKey(m, key, lg)
    }

    /** So it is at all these sizes. */
    ghost predicate CrowdedSizes(m: map<K, D>, from: nat, to: int) {
      forall lg: nat :: from <= lg <= to ==> CrowdedMap(m, lg)
    }

    /** The largest size that the allocator allows and that so many more tables reach. */
    function Reach(lg: nat, granted: nat): int {
      if lg + granted <= lgMaxCells - LG_CELLS then lg + granted else lgMaxCells - LG_CELLS
    }

    /** Items that each occur once are no more than their keys. */
    lemma {:induction false} KeysOf(items: multiset<Cell<K, D>>, keys: set<K>)
      requires forall c :: c in items ==> c.Item? && c.key in keys && items[c] == 1
      requires forall c, d :: c in items && d in items && c.Item? && d.Item? && c.key == d.key ==> c == d
      ensures |items| <= |keys|
      decreases |items|
    {
      if items != multiset{} {
        var c :| c in items;
        KeysOf(items - multiset{c}, keys - {c.key});
      }
    }

    /** A table that holds the bindings of m is crowded only if the keys of m are. */
    lemma CrowdedKeys(items: multiset<Cell<K, D>>, m: map<K, D>, lg: nat)
      requires Refines(items, m) && TooCrowded(items, lg)
      ensures CrowdedMap(m, lg)
    {
      var item :| Crowded(items, item, lg);
      var others :| others <= items - multiset{item} && Claim(others, item.key, lg);
      var keys := set k | k in m && k != item.key && Touches(k, item.key, lg);
      assert items[Item(item.key, item.data)] == 1;
      forall c | c in others ensures c.Item? && c.key in keys && others[c] == 1 {
        assert c == Item(c.key, c.data) && c in items && items[Item(c.key, c.data)] == 1;
      }
      KeysOf(others, keys);
      assert CrowdedKey(m, item.key, lg);
    }

    /** The items of a bucket of the key have a claim to it. */
    lemma BucketClaims(cells: seq<Cell<K, D>>, key: K, lg: nat, bucket: nat)
      requires Placed(cells, lg) && Full(cells, bucket)
      requires bucket == Bucket1(key, lg) || bucket == Bucket2(key, lg)
      ensures var here := Items(cells[CELLS * bucket..CELLS * bucket + CELLS]);
        |here| == CELLS && forall c :: c in here ==> c.Item? && Touches(c.key, key, lg)
    {
      var here := cells[CELLS * bucket..CELLS * bucket + CELLS];
      Occupied(here);
      forall c | c in Items(here) ensures c.Item? && Touches(c.key, key, lg) {
        var i :| 0 <= i < |here| && here[i] == c;
        assert cells[CELLS * bucket + i] == c && (CELLS * bucket + i) / CELLS == bucket;
      }
    }

    /** Two stretches that do not overlap are parts of the whole. */
    lemma TwoStretches(cells: seq<Cell<K, D>>, x: nat, y: nat)
      requires x < y && CELLS * y + CELLS <= |cells|
      ensures Items(cells[CELLS * x..CELLS * x + CELLS]) + Items(cells[CELLS * y..CELLS * y + CELLS])
              <= Items(cells)
    {
      var a, b := CELLS * x, CELLS * y;
      assert cells == cells[..a] + cells[a..a + CELLS] + cells[a + CELLS..b] + cells[b..b + CELLS]
                      + cells[b + CELLS..];
      Append(cells[..a], cells[a..a + CELLS]);
      Append(cells[..a] + cells[a..a + CELLS], cells[a + CELLS..b]);
      Append(cells[..a] + cells[a..a + CELLS] + cells[a + CELLS..b], cells[b..b + CELLS]);
      Append(cells[..a] + cells[a..a + CELLS] + cells[a + CELLS..b] + cells[b..b + CELLS], cells[b + CELLS..]);
    }

    lemma OneStretch(cells: seq<Cell<K, D>>, x: nat)
      requires CELLS * x + CELLS <= |cells|
      ensures Items(cells[CELLS * x..CELLS * x + CELLS]) <= Items(cells)
    {
      var a := CELLS * x;
      assert cells == cells[..a] + cells[a..a + CELLS] + cells[a + CELLS..];
      Append(cells[..a], cells[a..a + CELLS]);
      Append(cells[..a] + cells[a..a + CELLS], cells[a + CELLS..]);
    }

    /** An item without room is crowded among the stored ones and itself. */
    lemma NoRoomCrowds(cells: seq<Cell<K, D>>, item: Cell<K, D>, lg: nat)
      requires Placed(cells, lg) && item.Item? && NoRoom(cells, item.key, lg)
      ensures TooCrowded(Items(cells) + multiset{item}, lg)
    {
      var b1, b2 := Bucket1(item.key, lg), Bucket2(item.key, lg);
      var x, y := if b1 <= b2 then b1 else b2, if b1 <= b2 then b2 else b1;
      BucketClaims(cells, item.key, lg, x);
      BucketClaims(cells, item.key, lg, y);
      var first, second := Items(cells[CELLS * x..CELLS * x + CELLS]), Items(cells[CELLS * y..CELLS * y + CELLS]);
      var others := if x == y then first else first + second;
      if x == y {
        OneStretch(cells, x);
      } else {
        TwoStretches(cells, x, y);
      }
      var items := Items(cells) + multiset{item};
      assert items - multiset{item} == Items(cells);
      assert others <= items - multiset{item} && Claim(others, item.key, lg);
      assert Crowded(items, item, lg);
    }

    /** When all items belong into the buckets of the key and are that many, the key is trapped. */
    lemma MatesTrap(cells: seq<Cell<K, D>>, key: K, lg: nat)
      requires Placed(cells, lg) && |Items(cells)| == Room(key, lg)
      requires forall i :: 0 <= i < |cells| && cells[i].Item? ==> Mates(cells[i].key, key, lg)
      ensures Trapped(cells, key, lg)
    {
      var b1, b2 := Bucket1(key, lg), Bucket2(key, lg);
      FillTwo(cells, if b1 <= b2 then b1 else b2, if b1 <= b2 then b2 else b1);
    }

    /** The i-th cell tried in a bucket, starting at a random offset. */
    static function Slot(i: nat, offset: nat): (c: nat)
      requires i < CELLS && offset < CELLS
      ensures c == if i + offset < CELLS then i + offset else i + offset - CELLS
    {
      (i + offset) % CELLS
    }

    method BucketSearch(bucket: nat, key: K) returns (cell: int)
      requires CELLS * bucket + CELLS <= tab.Length
      ensures cell >= 0 ==> cell < tab.Length && tab[cell].Item? && tab[cell].key == key
      ensures cell < 0 ==> forall i :: CELLS * bucket <= i < CELLS * bucket + CELLS ==>
                             tab[i].Empty? || tab[i].key != key
    {
      for i := 0 to CELLS
        invariant forall j :: CELLS * bucket <= j < CELLS * bucket + i ==>
                    tab[j].Empty? || tab[j].key != key
      {
        var c := tab[CELLS * bucket + i];
        if c.Item? && c.key == key {
          return CELLS * bucket + i;
        }
      }
      return -1;
    }

    /** ckh_isearch: finds a cell with the key exactly when the table stores it. */
    method ISearch(key: K) returns (cell: int)
      requires Valid()
      ensures cell >= 0 ==> cell < tab.Length && tab[cell].Item? && tab[cell].key == key
      ensures cell < 0 <==> !Stores(Items(tab[..]), key)
    {
      var lg := lgCurBuckets;
      cell := BucketSearch(Bucket1(key, lg), key);
      if cell < 0 {
        cell := BucketSearch(Bucket2(key, lg), key);
      }
      if cell >= 0 {
        assert tab[..][cell] in Items(tab[..]);
      }
    }

    static lemma InBucket(bucket: nat, slot: nat, n: nat)
      requires bucket < n && slot < CELLS
      ensures CELLS * bucket + slot < CELLS * n && (CELLS * bucket + slot) / CELLS == bucket
    {
    }

    lemma AllTried(cells: seq<Cell<K, D>>, bucket: nat, offset: nat)
      requires offset < CELLS && CELLS * bucket + CELLS <= |cells|
      requires forall j :: 0 <= j < CELLS ==> cells[CELLS * bucket + Slot(j, offset)].Item?
      ensures forall i :: CELLS * bucket <= i < CELLS * bucket + CELLS ==> cells[i].Item?
    {
      forall i | CELLS * bucket <= i < CELLS * bucket + CELLS ensures cells[i].Item? {
        var r := i - CELLS * bucket;
        var j := if r >= offset then r - offset else r + CELLS - offset;
        assert cells[CELLS * bucket + Slot(j, offset)].Item?;
      }
    }

    /** Stores an item in a cell of one of its buckets. */
    method PutItem(c: nat, key: K, data: D)
      requires Placed(tab[..], lgCurBuckets) && c < tab.Length
      requires c / CELLS == Bucket1(key, lgCurBuckets) || c / CELLS == Bucket2(key, lgCurBuckets)
      modifies tab
      ensures tab[..] == old(tab[..])[c := Item(key, data)]
      ensures Placed(tab[..], lgCurBuckets)
      ensures Items(tab[..]) == old(Items(tab[..]) - Items([tab[c]])) + multiset{Item(key, data)}
      ensures old(tab[c]).Item? ==> old(tab[c] in Items(tab[..]))
      ensures |Items(tab[..])| == |old(Items(tab[..]))| + (if old(tab[c]).Item? then 0 else 1)
    {
      SetCell(tab[..], c, Item(key, data));
      tab[c] := Item(key, data);
      assert tab[..] == old(tab[..])[c := Item(key, data)];
      assert old(tab[..])[c] == old(tab[c]);
      assert old(tab[c]).Item? ==> old(tab[c]) in old(tab[..]);
    }

    /** Stores an item in an empty cell of one of its buckets, and counts it. */
    method PutNew(c: nat, key: K, data: D)
      requires Valid() && c < tab.Length && tab[c].Empty?
      requires c / CELLS == Bucket1(key, lgCurBuckets) || c / CELLS == Bucket2(key, lgCurBuckets)
      modifies `count, tab
      ensures Valid() && count == old(count) + 1
      ensures Items(tab[..]) == old(Items(tab[..])) + multiset{Item(key, data)}
    {
      Single(tab[c]);
      PutItem(c, key, data);
      count := count + 1;
    }

    /** ckh_try_bucket_insert: true when the bucket had no room. */
    method TryBucketInsert(bucket: nat, key: K, data: D) returns (full: bool)
      requires Valid() && bucket < Pow2(lgCurBuckets)
      requires bucket == Bucket1(key, lgCurBuckets) || bucket == Bucket2(key, lgCurBuckets)
      modifies `count, tab
      ensures Valid()
      ensures full <==> Full(old(tab[..]), bucket)
      ensures full ==> tab[..] == old(tab[..]) && count == old(count)
      ensures !full ==> Items(tab[..]) == old(Items(tab[..])) + multiset{Item(key, data)}
      ensures !full ==> count == old(count) + 1
    {
      var offset: nat :| offset < CELLS;
      for i := 0 to CELLS
        invariant tab[..] == old(tab[..]) && count == old(count)
        invariant forall j :: 0 <= j < i ==> tab[CELLS * bucket + Slot(j, offset)].Item?
      {
        var c := CELLS * bucket + Slot(i, offset);
        InBucket(bucket, Slot(i, offset), Pow2(lgCurBuckets));
        if tab[c].Empty? {
          PutNew(c, key, data);
          return false;
        }
      }
      AllTried(tab[..], bucket, offset);
      return true;
    }

    /** Swaps the item in hand with an arbitrary item of a full bucket. */
    method Evict(bucket: nat, inKey: K, inData: D) returns (key: K, data: D, ghost c: nat)
      requires Valid() && bucket < Pow2(lgCurBuckets) && Full(tab[..], bucket)
      requires bucket == Bucket1(inKey, lgCurBuckets) || bucket == Bucket2(inKey, lgCurBuckets)
      modifies tab
      ensures Valid()
      ensures Items(tab[..]) + multiset{Item(key, data)}
              == old(Items(tab[..])) + multiset{Item(inKey, inData)}
      ensures c < tab.Length && c / CELLS == bucket && old(tab[c]) == Item(key, data)
      ensures tab[..] == old(tab[..])[c := Item(inKey, inData)]
      ensures forall b: nat :: Full(old(tab[..]), b) ==> Full(tab[..], b)
    {
      var i: nat :| i < CELLS;
      var cell := CELLS * bucket + i;
      assert cell / CELLS == bucket;
      var evicted := tab[cell];
      Trade(Items(tab[..]), Item(inKey, inData), evicted);
      Single(evicted);
      PutItem(cell, inKey, inData);
      return evicted.key, evicted.data, cell;
    }

    /** ckh_evict_reloc_insert: table plus item in hand is conserved by the whole chain, which gives up
        early, with rounds left, only with an item in hand for which neither bucket has room.  If the
        item is trapped, every chain ends with an old item in hand, whatever is drawn. */
    method EvictRelocInsert(argbucket: nat, argkey: K, argdata: D, fuel: nat)
      returns (outcome: Outcome<K, D>, left: nat)
      requires Valid() && argbucket < Pow2(lgCurBuckets) && NoRoom(tab[..], argkey, lgCurBuckets)
      requires argbucket == Bucket2(argkey, lgCurBuckets)
      modifies `count, tab
      ensures Valid()
      ensures count == old(count) + if outcome.Inserted? then 1 else 0
      ensures Items(tab[..]) + InHand(outcome)
              == old(Items(tab[..])) + multiset{Item(argkey, argdata)}
      ensures fuel > 0 && Trapped(old(tab[..]), argkey, lgCurBuckets) ==>
                outcome.Homeless? && Item(outcome.key, outcome.data) in old(tab[..])
      ensures left <= fuel && (outcome.Homeless? && left > 0 ==> NoRoom(tab[..], outcome.key, lgCurBuckets))
    {
      var bucket: nat, key, data := argbucket, argkey, argdata;
      left := fuel;
      ghost var trapped := Trapped(tab[..], argkey, lgCurBuckets);
      while left > 0
        invariant Valid() && bucket < Pow2(lgCurBuckets) && Full(tab[..], bucket) && count == old(count)
        invariant Full(tab[..], argbucket) && left <= fuel
        invariant bucket == Bucket1(key, lgCurBuckets) || bucket == Bucket2(key, lgCurBuckets)
        invariant Items(tab[..]) + multiset{Item(key, data)}
                  == old(Items(tab[..])) + multiset{Item(argkey, argdata)}
        invariant trapped && left == fuel ==> bucket == argbucket && tab[..] == old(tab[..])
        invariant trapped && left < fuel ==>
                    OneRound(old(tab[..]), tab[..], argkey, lgCurBuckets, bucket, Item(key, data))
      {
        ghost var before, inHand := tab[..], Item(key, data);
        ghost var c;
        key, data, c := Evict(bucket, key, data);
        var tbucket := Bucket2(key, lgCurBuckets);
        if tbucket == bucket {
          tbucket := Bucket1(key, lgCurBuckets);
        }
        if trapped {
          TrapHolds(old(tab[..]), before, argkey, lgCurBuckets, bucket, inHand, c, left == fuel);
        }
        left := left - 1;
        if tbucket == argbucket {
          return Homeless(key, data), left;
        }
        bucket := tbucket;
        var full := TryBucketInsert(bucket, key, data);
        if !full {
          return Inserted, left;
        }
      }
      return Homeless(key, data), 0;
    }

    /** Where an item evicted from a bucket goes next. */
    function Other(key: K, lg: nat, bucket: nat): nat {
      if Bucket2(key, lg) == bucket then Bucket1(key, lg) else Bucket2(key, lg)
    }

    /** One round of the chain of a trapped item: the item evicted is an old one, and either the chain
        is back at its first bucket, or this was the first round. */
    lemma TrapHolds(old': seq<Cell<K, D>>, cells: seq<Cell<K, D>>, argkey: K, lg: nat, bucket: nat,
                    inHand: Cell<K, D>, c: nat, first: bool)
      requires Trapped(old', argkey, lg) && c < |cells| == |old'| && c / CELLS == bucket && cells[c].Item?
      requires if first then cells == old' && bucket == Bucket2(argkey, lg)
               else OneRound(old', cells, argkey, lg, bucket, inHand)
      ensures cells[c] in old'
      ensures var t := Other(cells[c].key, lg, bucket);
        t == Bucket2(argkey, lg)
        || (first && Full(cells[c := inHand], t) && OneRound(old', cells[c := inHand], argkey, lg, t, cells[c]))
    {
      assert cells[c] == old'[c];
    }

    /** A chain that started with a trapped item has an old item of its second bucket in hand, which
        is about to be swapped with one of its first bucket. */
    ghost predicate OneRound(old': seq<Cell<K, D>>, cells: seq<Cell<K, D>>, argkey: K, lg: nat, bucket: nat,
                             inHand: Cell<K, D>)
    {
      match inHand
      case Empty => false
      case Item(_, _) =>
        && inHand in old' && |cells| == |old'|
        && bucket == Bucket1(argkey, lg) && bucket != Bucket2(argkey, lg)
        && forall i :: 0 <= i < |cells| && i / CELLS == bucket ==> cells[i] == old'[i]
    }

    /** An insertion into a table of this size fails only if neither bucket of the key has room, and
        then always if the key is trapped.  Unless the rounds are used up, the item it leaves in hand has
        no room either. */
    method TryInsert(key: K, data: D, fuel: nat) returns (outcome: Outcome<K, D>, left: nat)
      requires Valid()
      modifies `count, tab
      ensures Valid()
      ensures count == old(count) + if outcome.Inserted? then 1 else 0
      ensures Items(tab[..]) + InHand(outcome)
              == old(Items(tab[..])) + multiset{Item(key, data)}
      ensures outcome.Homeless? ==> old(NoRoom(tab[..], key, lgCurBuckets))
      ensures fuel > 0 && old(Trapped(tab[..], key, lgCurBuckets)) ==>
                outcome.Homeless? && Item(outcome.key, outcome.data) in old(tab[..])
      ensures outcome.Homeless? && left > 0 ==> NoRoom(tab[..], outcome.key, lgCurBuckets)
    {
      var full := TryBucketInsert(Bucket1(key, lgCurBuckets), key, data);
      if !full {
        return Inserted, fuel;
      }
      full := TryBucketInsert(Bucket2(key, lgCurBuckets), key, data);
      if !full {
        return Inserted, fuel;
      }
      outcome, left := EvictRelocInsert(Bucket2(key, lgCurBuckets), key, data, fuel);
    }

    /** The i-th cell of the old table is moved behind those before it. */
    method MoveItem(cell: Cell<K, D>, fuel: nat, ghost cells: seq<Cell<K, D>>, ghost i: nat) returns (failed: bool)
      requires Valid() && i < |cells| && cell == cells[i] && cell.Item? && Items(tab[..]) == Items(cells[..i])
      modifies `count, tab
      ensures !failed ==> Valid() && count == old(count) + 1 && Items(tab[..]) == Items(cells[..i + 1])
      ensures failed ==> TooCrowded(Items(cells), lgCurBuckets)
    {
      NextCell(cells, i);
      PartCrowded(tab[..], cells, i, lgCurBuckets);
      var outcome, _ := TryInsert(cell.key, cell.data, fuel);
      failed := outcome.Homeless?;
    }

    /** ckh_rebuild: moves the items of an old table into the current, empty one.  The scan of the
        old table ends by counting items, not cells, and never runs past its end. */
    method Rebuild(from: array<Cell<K, D>>, fuel: nat) returns (failed: bool)
      requires from != tab && Items(tab[..]) == multiset{}
      requires Placed(tab[..], lgCurBuckets)
      requires lgMinBuckets <= lgCurBuckets && lgCurBuckets + LG_CELLS <= lgMaxCells
      requires count == |Items(from[..])|
      modifies `count, tab
      ensures count == old(count)
      ensures !failed ==> Valid() && Items(tab[..]) == Items(from[..])
      ensures failed ==> TooCrowded(Items(from[..]), lgCurBuckets)
    {
      var total := count;
      count := 0;
      var i, nins := 0, 0;
      ghost var cells := from[..];
      assert cells[..from.Length] == cells;
      while nins < total
        invariant 0 <= i <= from.Length && from[..] == cells && nins == count
        invariant Valid() && Items(tab[..]) == Items(cells[..i])
        decreases from.Length - i
      {
        var cell := from[i];
        if cell.Item? {
          failed := MoveItem(cell, fuel, cells, i);
          if failed {
            count := total;
            return true;
          }
          nins := nins + 1;
        } else {
          NextCell(cells, i);
        }
        i := i + 1;
      }
      AllFound(cells, i);
      return false;
    }

    /** ckh_grow: rebuilds into ever larger tables until a rebuild succeeds or memory runs out.  A
        failed rebuild is backed out, so running out of memory leaves the table as it was.  The
        allocator grants `granted` more tables.  It gives up only when they are used up or all sizes
        have been tried, and passes over a size only if some item is crowded there. */
    method Grow(fuel: nat, granted: nat) returns (err: bool, left: nat)
      requires Valid()
      modifies `count, `tab, `lgCurBuckets
      ensures Valid() && Items(tab[..]) == old(Items(tab[..]))
      ensures err ==> tab == old(tab) && lgCurBuckets == old(lgCurBuckets)
      ensures !err ==> fresh(tab) && old(lgCurBuckets) < lgCurBuckets <= lgMaxCells - LG_CELLS
      ensures left <= granted && (granted == 0 ==> err)
      ensures err ==> left == 0 || granted - left == lgMaxCells - LG_CELLS - lgCurBuckets
      ensures !err ==> granted - left == lgCurBuckets - old(lgCurBuckets)
      ensures PassedOver(old(Items(tab[..])), old(lgCurBuckets),
                         old(lgCurBuckets) + granted - left - (if err then 0 else 1))
    {
      left := granted;
      var lgPrev, lgCells := lgCurBuckets, lgCurBuckets + LG_CELLS;
      while true
        invariant Valid() && lgCurBuckets == lgPrev < lgCells - LG_CELLS + 1
        invariant tab == old(tab) && count == old(count) && left <= granted
        invariant granted - left == lgCells - LG_CELLS - lgPrev && lgCells <= lgMaxCells
        invariant PassedOver(old(Items(tab[..])), lgPrev, lgCells - LG_CELLS)
        decreases lgMaxCells - lgCells
      {
        lgCells := lgCells + 1;
        if lgCells > lgMaxCells || left == 0 {
          return true, left;
        }
        left := left - 1;
        var failed := Move(lgCells - LG_CELLS, fuel);
        if !failed {
          return false, left;
        }
      }
    }

    /** Swaps in an empty table of another size and rebuilds; backs out if that fails. */
    method Move(lgBuckets: nat, fuel: nat) returns (failed: bool)
      requires Valid() && lgMinBuckets <= lgBuckets && lgBuckets + LG_CELLS <= lgMaxCells
      modifies `count, `tab, `lgCurBuckets
      ensures Valid() && Items(tab[..]) == old(Items(tab[..]))
      ensures failed ==> tab == old(tab) && lgCurBuckets == old(lgCurBuckets)
      ensures !failed ==> fresh(tab) && lgCurBuckets == lgBuckets
      ensures failed ==> TooCrowded(old(Items(tab[..])), lgBuckets)
    {
      var lgPrev, prev := lgCurBuckets, tab;
      tab := new Cell<K, D>[CELLS * Pow2(lgBuckets)](_ => Empty);
      lgCurBuckets := lgBuckets;
      NoItems(tab[..]);
      failed := Rebuild(prev, fuel);
      if failed {
        tab := prev;
        lgCurBuckets := lgPrev;
      }
    }

    /** ckh_shrink: tries a table of half the size, if `memory` can be had for it. */
    method Shrink(fuel: nat, memory: bool, ghost m: map<K, D>)
      requires Valid() && lgCurBuckets > lgMinBuckets && Refines(Items(tab[..]), m)
      modifies `count, `tab, `lgCurBuckets
      ensures Valid() && Items(tab[..]) == old(Items(tab[..]))
      ensures if lgCurBuckets == old(lgCurBuckets) - 1 then memory && fresh(tab)
              else tab == old(tab) && lgCurBuckets == old(lgCurBuckets)
                   && (memory ==> CrowdedMap(m, lgCurBuckets - 1))
    {
      if lgCurBuckets + LG_CELLS - 1 > lgMaxCells || !memory {
        return;
      }
      var failed := Move(lgCurBuckets - 1, fuel);
      if failed {
        CrowdedKeys(old(Items(tab[..])), m, lgCurBuckets - 1);
      }
    }

    /** ckh_insert.  Success adds exactly the new binding.  On running out of memory the table and
        the item left in hand, which need not be the new one, make up the same map together.  It
        fails only for a key without room, and a trapped key that gets no memory always takes the
        place of an old one.  It does not fail when at some size, from the present one to the largest
        that memory allows, no key has too many others in its buckets. */
    method Insert(key: K, data: D, fuel: nat, granted: nat, ghost m: map<K, D>)
      returns (err: bool, ghost lost: Outcome<K, D>)
      requires Valid() && Refines(Items(tab[..]), m) && key !in m
      modifies this, tab
      ensures Valid() && (err <==> lost.Homeless?)
      ensures Refines(Items(tab[..]) + InHand(lost), m[key := data])
      ensures err ==> lost.key in m[key := data] && m[key := data][lost.key] == lost.data
                      && Refines(Items(tab[..]), m[key := data] - {lost.key})
      ensures err ==> old(NoRoom(tab[..], key, lgCurBuckets)) && old(count) >= CELLS
      ensures !old(NoRoom(tab[..], key, lgCurBuckets)) ==>
                tab == old(tab) && lgCurBuckets == old(lgCurBuckets) && count == old(count) + 1
      ensures fuel > 0 && granted == 0 && old(Trapped(tab[..], key, lgCurBuckets)) ==> err && lost.key in m
      ensures err ==> CrowdedSizes(m[key := data], old(lgCurBuckets), Reach(old(lgCurBuckets), granted))
    {
      RefinesInsert(Items(tab[..]), m, key, data);
      if NoRoom(tab[..], key, lgCurBuckets) {
        NoRoomCount(tab[..], key, lgCurBuckets);
      }
      OldItem(tab[..], m);
      err, lost := InsertLoop(key, data, fuel, granted, m[key := data]);
      if err {
        FailureLeaves(Items(tab[..]), m, key, data, lost.key, lost.data);
      }
    }

    /** An insertion into the table as it is fails only if the keys are crowded. */
    lemma TryCrowds(cells: seq<Cell<K, D>>, item: Cell<K, D>, m: map<K, D>, start: nat)
      requires item.Item? && Placed(cells, lgCurBuckets) && Refines(Items(cells) + multiset{item}, m)
      requires CrowdedSizes(m, start, lgCurBuckets - 1)
      ensures NoRoom(cells, item.key, lgCurBuckets) ==> CrowdedSizes(m, start, lgCurBuckets)
    {
      if NoRoom(cells, item.key, lgCurBuckets) {
        NoRoomCrowds(cells, item, lgCurBuckets);
        CrowdedKeys(Items(cells) + multiset{item}, m, lgCurBuckets);
      }
    }

    /** The sizes that growing passed over are crowded. */
    lemma PassedCrowds(items: multiset<Cell<K, D>>, item: Cell<K, D>, m: map<K, D>, start: nat, from: nat, to: int)
      requires Refines(items + multiset{item}, m) && CrowdedSizes(m, start, from)
      requires PassedOver(items, from, to)
      ensures CrowdedSizes(m, start, to)
    {
      forall lg: nat | from < lg <= to ensures CrowdedMap(m, lg) {
        CrowdStays(items, items + multiset{item}, lg);
        CrowdedKeys(items + multiset{item}, m, lg);
      }
    }

    /** The loop of ckh_insert: grow until the item in hand finds a cell. */
    method InsertLoop(key: K, data: D, fuel: nat, granted: nat, ghost m: map<K, D>)
      returns (err: bool, ghost lost: Outcome<K, D>)
      requires Valid() && Refines(Items(tab[..]) + multiset{Item(key, data)}, m)
      modifies this, tab
      ensures Valid() && (err <==> lost.Homeless?) && Refines(Items(tab[..]) + InHand(lost), m)
      ensures err ==> old(NoRoom(tab[..], key, lgCurBuckets))
      ensures !old(NoRoom(tab[..], key, lgCurBuckets)) ==>
                tab == old(tab) && lgCurBuckets == old(lgCurBuckets) && count == old(count) + 1
      ensures fuel > 0 && granted == 0 && old(Trapped(tab[..], key, lgCurBuckets)) ==>
                err && Item(lost.key, lost.data) in old(tab[..])
      ensures err ==> CrowdedSizes(m, old(lgCurBuckets), Reach(old(lgCurBuckets), granted))
    {
      var left: nat := granted;
      TryCrowds(tab[..], Item(key, data), m, lgCurBuckets);
      var outcome, rounds := TryInsert(key, data, fuel);
      ghost var first := outcome;
      while outcome.Homeless?
        invariant Valid() && (tab == old(tab) || fresh(tab)) && Refines(Items(tab[..]) + InHand(outcome), m)
        invariant first.Inserted? ==> outcome == first && tab == old(tab) && lgCurBuckets == old(lgCurBuckets)
                                      && count == old(count) + 1
        invariant first.Homeless? && granted == 0 ==> outcome == first && left == 0
        invariant lgCurBuckets + left == old(lgCurBuckets) + granted
        invariant outcome.Homeless? ==> CrowdedSizes(m, old(lgCurBuckets), lgCurBuckets)
        decreases lgMaxCells - lgCurBuckets, outcome.Homeless?
      {
        var k, d := outcome.key, outcome.data;
        var failed;
        ghost var items, lgFrom, more := Items(tab[..]), lgCurBuckets, left;
        failed, left := Grow(fuel, left);
        PassedCrowds(items, Item(k, d), m, old(lgCurBuckets), lgFrom,
                     if failed then lgFrom + more - left else lgCurBuckets - 1);
        if failed {
          return true, outcome;
        }
        TryCrowds(tab[..], Item(k, d), m, old(lgCurBuckets));
        outcome, rounds := TryInsert(k, d, fuel);
      }
      return false, outcome;
    }

    /** An insertion for which there is room. */
    method InsertRoomy(key: K, data: D, fuel: nat, ghost m: map<K, D>)
      requires Valid() && Refines(Items(tab[..]), m) && key !in m && count < Room(key, lgCurBuckets)
      modifies this, tab
      ensures Valid() && Refines(Items(tab[..]), m[key := data])
      ensures tab == old(tab) && lgCurBuckets == old(lgCurBuckets) && count == old(count) + 1
    {
      if NoRoom(tab[..], key, lgCurBuckets) {
        NoRoomCount(tab[..], key, lgCurBuckets);
      }
      var err, lost := Insert(key, data, fuel, 0, m);
    }

    lemma OldItem(cells: seq<Cell<K, D>>, m: map<K, D>)
      requires Refines(Items(cells), m)
      ensures forall c :: c in cells && c.Item? ==> c.key in m
    {
      forall c | c in cells && c.Item? ensures c.key in m {
        assert c in Items(cells);
      }
    }

    /** ckh_search agrees with the map. */
    method Search(key: K, ghost m: map<K, D>) returns (absent: bool, found: Cell<K, D>)
      requires Valid() && Refines(Items(tab[..]), m)
      ensures absent <==> key !in m
      ensures !absent ==> found == Item(key, m[key])
    {
      RefinesUnique(Items(tab[..]), m);
      var cell := ISearch(key);
      if cell >= 0 {
        assert tab[cell] in Items(tab[..]) by { assert tab[cell] in tab[..]; }
        return false, tab[cell];
      }
      return true, Empty;
    }

    /** ckh_remove takes exactly one binding out of the map, and halves the table when less than a
        quarter of its cells are in use, unless the table is as small as it began, memory is short, or
        the keys that are left are too crowded for half of it. */
    method Remove(key: K, fuel: nat, memory: bool, ghost m: map<K, D>) returns (absent: bool, found: Cell<K, D>)
      requires Valid() && Refines(Items(tab[..]), m)
      modifies this, tab
      ensures Valid() && (absent <==> key !in m)
      ensures !absent ==> found == Item(key, m[key]) && Refines(Items(tab[..]), m - {key})
      ensures absent ==> tab[..] == old(tab[..]) && Refines(Items(tab[..]), m)
      ensures absent || !old(Sparse(1)) ==> tab == old(tab) && lgCurBuckets == old(lgCurBuckets)
      ensures !absent && old(Sparse(1)) ==>
                if lgCurBuckets == old(lgCurBuckets) - 1 then memory && fresh(tab)
                else tab == old(tab) && lgCurBuckets == old(lgCurBuckets)
                     && (memory ==> CrowdedMap(m - {key}, lgCurBuckets - 1))
    {
      RefinesUnique(Items(tab[..]), m);
      var cell := ISearch(key);
      if cell < 0 {
        return true, Empty;
      }
      found := tab[cell];
      TakeOut(cell, m);
      ghost var rest := m - {key};
      if Sparse(0) {
        Shrink(fuel, memory, rest);
      }
      return false, found;
    }

    /** With n items less, less than a quarter of the cells are in use, and the table has grown before. */
    predicate Sparse(n: nat)
      reads this
    {
      count < Pow2(lgCurBuckets) + n && lgCurBuckets > lgMinBuckets
    }

    /** Takes the binding in a cell out of the table. */
    method TakeOut(cell: nat, ghost m: map<K, D>)
      requires Valid() && Refines(Items(tab[..]), m) && cell < tab.Length && tab[cell].Item?
      modifies `count, tab
      ensures Valid() && count == old(count) - 1
      ensures old(tab[cell]).key in m && m[old(tab[cell]).key] == old(tab[cell]).data
      ensures Refines(Items(tab[..]), m - {old(tab[cell]).key})
    {
      var found := tab[cell];
      assert found in Items(tab[..]) by { assert found in tab[..]; }
      assert found == Item(found.key, found.data);
      RefinesRemove(Items(tab[..]), m, found.key);
      ClearCell(cell);
      count := count - 1;
    }

    method ClearCell(c: nat)
      requires Placed(tab[..], lgCurBuckets) && c < tab.Length && tab[c].Item?
      modifies tab
      ensures Placed(tab[..], lgCurBuckets)
      ensures Items(tab[..]) == old(Items(tab[..])) - multiset{old(tab[c])}
      ensures |Items(tab[..])| == |old(Items(tab[..]))| - 1
    {
      Single(tab[c]);
      Single<K, D>(Empty);
      SetCell(tab[..], c, Empty);
      assert tab[c] in tab[..];
      tab[c] := Empty;
      assert tab[..] == old(tab[..])[c := Empty];
    }

    /** ckh_iter: the next occupied cell at or after tabind, if any. */
    method Iter(tabind: nat) returns (done: bool, found: Cell<K, D>, next: nat)
      requires tabind <= tab.Length
      ensures !done ==> tabind < next <= tab.Length && found == tab[next - 1] && found.Item?
      ensures done ==> next == tabind
      ensures forall i :: tabind <= i < (if done then tab.Length else next - 1) ==> tab[i].Empty?
    {
      for i := tabind to tab.Length
        invariant forall j :: tabind <= j < i ==> tab[j].Empty?
      {
        if tab[i].Item? {
          return false, tab[i], i + 1;
        }
      }
      return true, Empty, tabind;
    }

    /** Iterating from cell 0 until done visits every stored item exactly once. */
    method IterateAll() returns (all: seq<Cell<K, D>>)
      ensures multiset(all) == Items(tab[..])
    {
      all := [];
      var done, found, tabind := false, Empty, 0;
      while !done
        invariant tabind <= tab.Length && multiset(all) == Items(tab[..tabind])
        invariant done ==> forall i :: tabind <= i < tab.Length ==> tab[i].Empty?
        decreases tab.Length - tabind, !done
      {
        var next;
        done, found, next := Iter(tabind);
        if !done {
          SkipEmpty(tab[..], tabind, next - 1);
          assert tab[..][..next - 1] == tab[..next - 1] && tab[..][..tabind] == tab[..tabind];
          NextCell(tab[..], next - 1);
          assert tab[..][..next] == tab[..next];
          all := all + [found];
        }
        tabind := next;
      }
      SkipEmpty(tab[..], tabind, tab.Length);
      assert tab[..][..tab.Length] == tab[..] && tab[..][..tabind] == tab[..tabind];
    }

    lemma {:induction false} SkipEmpty(cells: seq<Cell<K, D>>, from: nat, to: nat)
      requires from <= to <= |cells| && forall i :: from <= i < to ==> cells[i].Empty?
      ensures Items(cells[..to]) == Items(cells[..from])
    {
      if from < to {
        SkipEmpty(cells, from, to - 1);
        NextCell(cells, to - 1);
      }
    }

    /** An empty table of 2^lg buckets. */
    constructor (lg: nat, hash1: K -> nat, hash2: K -> nat, lgMaxCells: nat)
      requires lg + LG_CELLS <= lgMaxCells
      ensures Valid() && Refines(Items(tab[..]), map[]) && fresh(tab)
      ensures tab.Length == CELLS * Pow2(lg) && lgCurBuckets == lgMinBuckets == lg && count == 0
      ensures this.hash1 == hash1 && this.hash2 == hash2 && this.lgMaxCells == lgMaxCells
    {
      this.hash1, this.hash2, this.lgMaxCells := hash1, hash2, lgMaxCells;
      lgMinBuckets, lgCurBuckets, count := lg, lg, 0;
      tab := new Cell<K, D>[CELLS * Pow2(lg)](_ => Empty);
      new;
      NoItems(tab[..]);
    }

    /** The size of a new table. */
    static method LgCells(minitems: nat) returns (lgCells: nat)
      requires minitems > 0
      ensures lgCells >= LG_CELLS && 3 * (CELLS * Pow2(lgCells - LG_CELLS)) >= 4 * minitems
      ensures lgCells == LG_CELLS || 3 * (CELLS * Pow2(lgCells - LG_CELLS)) < 8 * minitems + 24
    {
      var mincells := (minitems + (3 - minitems % 3)) / 3 * 4;
      assert 4 * minitems <= 3 * mincells <= 4 * minitems + 12;
      var cells := CELLS;
      lgCells := LG_CELLS;
      while cells < mincells
        invariant lgCells >= LG_CELLS && cells == CELLS * Pow2(lgCells - LG_CELLS)
        invariant lgCells == LG_CELLS || cells < 2 * mincells
      {
        lgCells, cells := lgCells + 1, 2 * cells;
      }
    }

    /** ckh_new: an empty table with room for a third more cells than the expected items.  It is
        refused when a table of that size may not be allocated or memory has run out. */
    static method New(minitems: nat, hash1: K -> nat, hash2: K -> nat, lgMaxCells: nat, memory: bool)
      returns (err: bool, ckh: Ckh?<K, D>, ghost lg: nat)
      requires minitems > 0
      ensures 3 * (CELLS * Pow2(lg)) >= 4 * minitems
      ensures lg == 0 || 3 * (CELLS * Pow2(lg)) < 8 * minitems + 24
      ensures err <==> lg + LG_CELLS > lgMaxCells || !memory
      ensures err <==> ckh == null
      ensures !err ==> fresh(ckh) && fresh(ckh.tab) && ckh.Valid() && Refines(Items(ckh.tab[..]), map[])
                       && ckh.lgCurBuckets == ckh.lgMinBuckets == lg
                       && ckh.hash1 == hash1 && ckh.hash2 == hash2 && ckh.lgMaxCells == lgMaxCells
    {
      var lgCells := LgCells(minitems);
      lg := lgCells - LG_CELLS;
      if lgCells > lgMaxCells || !memory {
        return true, null, lg;
      }
      ckh := new Ckh(lgCells - LG_CELLS, hash1, hash2, lgMaxCells);
      err := false;
    }
  }

  // ------------------------------------------------------------------ tables that overflow

  /** The buckets a key hashes to. */
  function Pair<K>(hash1: K -> nat, hash2: K -> nat, key: K, lg: nat): (nat, nat) {
    (LowBits(hash1(key), lg), LowBits(hash2(key), lg))
  }

  function Capacity(pair: (nat, nat)): nat {
    if pair.0 == pair.1 then CELLS else 2 * CELLS
  }

  /** Different keys of one pair of buckets, one more than the buckets have cells. */
  predicate Crowd<K(==)>(hash1: K -> nat, hash2: K -> nat, lg: nat, keys: seq<K>) {
    && keys != [] && |keys| == Capacity(Pair(hash1, hash2, keys[0], lg)) + 1
    && (forall i :: 0 <= i < |keys| ==> Pair(hash1, hash2, keys[i], lg) == Pair(hash1, hash2, keys[0], lg))
    && forall i, j :: 0 <= i < j < |keys| ==> keys[i] != keys[j]
  }

  function Bindings<K, D>(keys: seq<K>, data: D): map<K, D> {
    map k | k in keys :: data
  }

  lemma OneMoreKey<K, D>(keys: seq<K>, n: nat, data: D)
    requires n < |keys|
    ensures Bindings(keys[..n + 1], data) == Bindings(keys[..n], data)[keys[n] := data]
  {
    assert keys[..n + 1] == keys[..n] + [keys[n]];
  }

  /** A table into which all keys of a crowd but the last have been inserted. */
  method Fill<K(==, !new), D(==, !new)>(lg: nat, hash1: K -> nat, hash2: K -> nat, lgMaxCells: nat,
                                        keys: seq<K>, data: D, fuel: nat) returns (ckh: Ckh<K, D>)
    requires lg + LG_CELLS <= lgMaxCells && Crowd(hash1, hash2, lg, keys)
    ensures fresh(ckh) && fresh(ckh.tab) && ckh.Valid() && ckh.lgCurBuckets == lg
    ensures ckh.hash1 == hash1 && ckh.hash2 == hash2 && ckh.count == |keys| - 1
    ensures Refines(Items(ckh.tab[..]), Bindings(keys[..|keys| - 1], data))
  {
    ckh := new Ckh(lg, hash1, hash2, lgMaxCells);
    for n := 0 to |keys| - 1
      invariant fresh(ckh) && fresh(ckh.tab) && ckh.Valid() && ckh.lgCurBuckets == lg && ckh.count == n
      invariant ckh.hash1 == hash1 && ckh.hash2 == hash2
      invariant Refines(Items(ckh.tab[..]), Bindings(keys[..n], data))
    {
      OneMoreKey(keys, n, data);
      ckh.InsertRoomy(keys[n], data, fuel, Bindings(keys[..n], data));
    }
  }

  /** Inserting a crowd of keys into an empty table: all but the last find room.  The last one, when
      no memory is to be had, fails with the binding of another key in hand, whatever is drawn, and
      the table holds the new key instead of it. */
  method Overflow<K(==, !new), D(==, !new)>(lg: nat, hash1: K -> nat, hash2: K -> nat, lgMaxCells: nat,
                                            keys: seq<K>, data: D, fuel: nat)
    returns (ckh: Ckh<K, D>, err: bool, ghost lost: Outcome<K, D>)
    requires lg + LG_CELLS <= lgMaxCells && fuel > 0 && Crowd(hash1, hash2, lg, keys)
    ensures fresh(ckh) && ckh.Valid() && err && lost.Homeless?
    ensures lost.key in keys && lost.key != keys[|keys| - 1]
    ensures Refines(Items(ckh.tab[..]), Bindings(keys, data) - {lost.key})
  {
    var last := |keys| - 1;
    ckh := Fill(lg, hash1, hash2, lgMaxCells, keys, data, fuel);
    ghost var m := Bindings(keys[..last], data);
    AllPaired(ckh, keys, m);
    ckh.MatesTrap(ckh.tab[..], keys[last], lg);
    err, lost := ckh.Insert(keys[last], data, fuel, 0, m);
    OneMoreKey(keys, last, data);
    assert keys[..last + 1] == keys;
  }

  lemma AllPaired<K(!new), D(!new)>(ckh: Ckh<K, D>, keys: seq<K>, m: map<K, D>)
    requires ckh.Valid() && Refines(Items(ckh.tab[..]), m) && keys != []
    requires forall k :: k in m ==> k in keys
    requires forall i :: 0 <= i < |keys| ==>
               Pair(ckh.hash1, ckh.hash2, keys[i], ckh.lgCurBuckets)
               == Pair(ckh.hash1, ckh.hash2, keys[0], ckh.lgCurBuckets)
    ensures forall i :: 0 <= i < ckh.tab.Length && ckh.tab[i].Item? ==>
              ckh.Mates(ckh.tab[i].key, keys[|keys| - 1], ckh.lgCurBuckets)
  {
    ckh.OldItem(ckh.tab[..], m);
    forall i | 0 <= i < ckh.tab.Length && ckh.tab[i].Item?
      ensures ckh.Mates(ckh.tab[i].key, keys[|keys| - 1], ckh.lgCurBuckets)
    {
      assert ckh.tab[i] in ckh.tab[..];
    }
  }

  /** Among more than c * p things in p classes some class has more than c. */
  lemma {:induction false} Pigeons<K(!new)>(keys: set<K>, f: K -> nat, p: nat, c: nat) returns (v: nat)
    requires p > 0 && |keys| > c * p && forall k :: k in keys ==> f(k) < p
    ensures v < p && |set k | k in keys && f(k) == v| > c
  {
    var here := set k | k in keys && f(k) == p - 1;
    if p == 1 {
      v := 0;
      assert here == keys;
    } else if |here| > c {
      v := p - 1;
    } else {
      var rest := keys - here;
      assert |rest| == |keys| - |here|;
      assert c * p == c * (p - 1) + c;
      v := Pigeons(rest, f, p - 1, c);
      assert (set k | k in keys && f(k) == v) == set k | k in rest && f(k) == v;
    }
  }

  lemma {:induction false} Listed<K>(keys: set<K>, n: nat) returns (q: seq<K>)
    requires n <= |keys|
    ensures |q| == n && (forall i :: 0 <= i < n ==> q[i] in keys)
    ensures forall i, j :: 0 <= i < j < n ==> q[i] != q[j]
  {
    if n == 0 {
      q := [];
    } else {
      var k :| k in keys;
      var r := Listed(keys - {k}, n - 1);
      q := r + [k];
    }
  }

  /** Whatever the hash functions, among enough keys there is a crowd. */
  lemma CrowdExists<K(!new)>(hash1: K -> nat, hash2: K -> nat, lg: nat, keys: set<K>) returns (q: seq<K>)
    requires |keys| > 2 * CELLS * (Pow2(lg) * Pow2(lg))
    ensures Crowd(hash1, hash2, lg, q) && forall i :: 0 <= i < |q| ==> q[i] in keys
  {
    var n := Pow2(lg);
    var f := (k: K) => PairIndex(hash1, hash2, k, lg);
    MulLe(1, n, n);
    var v := Pigeons(keys, f, n * n, 2 * CELLS);
    var same := set k | k in keys && f(k) == v;
    var a := Listed(same, 2 * CELLS + 1);
    forall i | 0 <= i < |a| ensures Pair(hash1, hash2, a[i], lg) == Pair(hash1, hash2, a[0], lg) {
      SamePair(hash1, hash2, a[i], a[0], lg);
    }
    q := a[..Capacity(Pair(hash1, hash2, a[0], lg)) + 1];
  }

  /** The number of a key's pair of buckets. */
  function PairIndex<K>(hash1: K -> nat, hash2: K -> nat, key: K, lg: nat): (v: nat)
    ensures v < Pow2(lg) * Pow2(lg)
  {
    var n, p := Pow2(lg), Pair(hash1, hash2, key, lg);
    MulLe(p.0 + 1, n, n);
    assert (p.0 + 1) * n == p.0 * n + n;
    p.0 * n + p.1
  }

  lemma SamePair<K>(hash1: K -> nat, hash2: K -> nat, a: K, b: K, lg: nat)
    requires PairIndex(hash1, hash2, a, lg) == PairIndex(hash1, hash2, b, lg)
    ensures Pair(hash1, hash2, a, lg) == Pair(hash1, hash2, b, lg)
  {
    var p, q := Pair(hash1, hash2, a, lg), Pair(hash1, hash2, b, lg);
    TwoDigits(Pow2(lg), p.0, p.1, q.0, q.1);
  }

  lemma TwoDigits(n: nat, a: nat, b: nat, c: nat, d: nat)
    requires b < n && d < n && a * n + b == c * n + d
    ensures a == c && b == d
  {
    DivUnique(a * n + b, n, a, b);
    DivUnique(a * n + b, n, c, d);
  }
}
