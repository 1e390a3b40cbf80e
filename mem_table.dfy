/**
 The memtable of an LSM store: the in-memory write buffer that holds the
 latest record (value or tombstone) per key, kept strictly sorted by key in
 a vector, together with a running byte count used to decide when to flush.

 The first half of the module gives the meaning of the vector as pure
 functions on `seq<Entry>` (where a key sits, what a lookup returns, what an
 upsert leaves behind, what the records cost); the class `MemTable` at the
 end is the mutable structure, whose methods are proved against them.
 */
module MemTable {

  import opened ByteOrder

  datatype Option<T> = None | Some(val: T)

  /** One record: the latest write or delete of `key`. */
  datatype Entry = Entry(key: Bytes, value: Option<Bytes>, timestampMs: nat, isDeleted: bool)

  /** `Ok(index)` / `Err(insertion index)` of a binary search. */
  datatype SearchResult = Found(index: nat) | NotFound(index: nat)

  /** Fixed per-record overhead: 16 bytes of timestamp and 1 byte of tombstone flag. */
  const EntryOverhead: nat := 16 + 1

  // ---------------------------------------------------------------------------
  // The vector's invariant

  /** Keys strictly increase, so no key occurs twice. */
  ghost predicate StrictlySorted(es: seq<Entry>)
  {
    forall i, j :: 0 <= i < j < |es| ==> LexLess(es[i].key, es[j].key)
  }

  /** A record is a tombstone exactly when it carries no value. */
  ghost predicate WellFormed(es: seq<Entry>)
  {
    forall i :: 0 <= i < |es| ==> (es[i].isDeleted <==> es[i].value.None?)
  }

  // ---------------------------------------------------------------------------
  // Where a key is: search and lookup

  /** Number of leading entries whose key is below `key`: in a sorted vector,
      the slot `key` occupies or would be inserted at. */
  function Position(es: seq<Entry>, key: Bytes): (p: nat)
    ensures p <= |es|
  {
    if es == [] || !LexLess(es[0].key, key) then 0 else 1 + Position(es[1..], key)
  }

  /** What a binary search over `es` for `key` must answer. */
  function Search(es: seq<Entry>, key: Bytes): SearchResult
  {
    var p := Position(es, key);
    if p < |es| && es[p].key == key then Found(p) else NotFound(p)
  }

  /** Reference lookup: the first entry carrying `key`, by a linear scan. */
  function Lookup(es: seq<Entry>, key: Bytes): Option<Entry>
  {
    if es == [] then None
    else if es[0].key == key then Some(es[0])
    else Lookup(es[1..], key)
  }

  /** The set of keys held. */
  ghost function Keys(es: seq<Entry>): set<Bytes>
  {
    if es == [] then {} else {es[0].key} + Keys(es[1..])
  }

  /** An index is the position of `key` as soon as everything before it is
      below `key` and the entry at it (if any) is not. */
  lemma {:induction false} PositionUnique(es: seq<Entry>, key: Bytes, i: nat)
    requires i <= |es|
    requires forall j :: 0 <= j < i ==> LexLess(es[j].key, key)
    requires i < |es| ==> !LexLess(es[i].key, key)
    ensures Position(es, key) == i
  {
    if i > 0 {
      PositionUnique(es[1..], key, i - 1);
    }
  }

  /** In a sorted vector, the position splits the keys below `key` from the rest. */
  lemma {:induction false} PositionSplits(es: seq<Entry>, key: Bytes)
    requires StrictlySorted(es)
    ensures forall j :: 0 <= j < Position(es, key) ==> LexLess(es[j].key, key)
    ensures forall j :: Position(es, key) <= j < |es| ==> !LexLess(es[j].key, key)
  {
    if es != [] && LexLess(es[0].key, key) {
      PositionSplits(es[1..], key);
      forall j | 0 <= j < Position(es, key)
        ensures LexLess(es[j].key, key)
      {
        if j > 0 {
          assert es[j] == es[1..][j - 1];
        }
      }
      forall j | Position(es, key) <= j < |es|
        ensures !LexLess(es[j].key, key)
      {
        assert es[j] == es[1..][j - 1];
      }
    } else if es != [] {
      forall j | 0 < j < |es|
        ensures !LexLess(es[j].key, key)
      {
        if LexLess(es[j].key, key) {
          LexLessTransitive(es[0].key, es[j].key, key);
        }
      }
    }
  }

  /** The contract of the binary search (mem_table.rs:102-107): `Found(i)` holds
      `key` at `i`; `NotFound(i)` means no entry holds `key`, all keys before
      `i` are smaller and all keys from `i` on are larger. */
  lemma SearchCorrect(es: seq<Entry>, key: Bytes)
    requires StrictlySorted(es)
    ensures Search(es, key).Found? ==>
              Search(es, key).index < |es| && es[Search(es, key).index].key == key
    ensures Search(es, key).NotFound? ==>
              && Search(es, key).index <= |es|
              && (forall j :: 0 <= j < Search(es, key).index ==> LexLess(es[j].key, key))
              && (forall j :: Search(es, key).index <= j < |es| ==> LexLess(key, es[j].key))
  {
    PositionSplits(es, key);
    var p := Position(es, key);
    if Search(es, key).NotFound? {
      forall j | p <= j < |es|
        ensures LexLess(key, es[j].key)
      {
        if j == p {
          LexLessTotal(es[j].key, key);
        } else {
          if es[p].key != key {
            LexLessTotal(es[p].key, key);
          }
          LexLessTransitive(key, es[p].key, es[j].key);
        }
      }
    }
  }

  /** In a sorted vector the linear lookup finds entry `i` under its own key. */
  lemma {:induction false} LookupAt(es: seq<Entry>, i: nat)
    requires StrictlySorted(es)
    requires i < |es|
    ensures Lookup(es, es[i].key) == Some(es[i])
  {
    if i > 0 {
      if es[0].key == es[i].key {
        LexLessIrreflexive(es[0].key);
      }
      LookupAt(es[1..], i - 1);
    }
  }

  /** The linear lookup finds nothing when no entry carries the key. */
  lemma {:induction false} LookupMissing(es: seq<Entry>, key: Bytes)
    requires forall j :: 0 <= j < |es| ==> es[j].key != key
    ensures Lookup(es, key) == None
  {
    if es != [] {
      LookupMissing(es[1..], key);
    }
  }

  /** Binary search and linear lookup agree on a sorted vector. */
  lemma LookupBySearch(es: seq<Entry>, key: Bytes)
    requires StrictlySorted(es)
    ensures Lookup(es, key) == match Search(es, key)
                               case Found(i) => Some(es[i])
                               case NotFound(_) => None
  {
    SearchCorrect(es, key);
    match Search(es, key)
    case Found(i) =>
      LookupAt(es, i);
    case NotFound(i) =>
      LexLessIrreflexive(key);
      LookupMissing(es, key);
  }

  /** A lookup returns a stored record with the key asked for, and returns
      nothing exactly when no record has that key. */
  lemma {:induction false} LookupSound(es: seq<Entry>, key: Bytes)
    ensures Lookup(es, key).Some? ==>
              Lookup(es, key).val.key == key && Lookup(es, key).val in es
    ensures Lookup(es, key).None? <==> forall j :: 0 <= j < |es| ==> es[j].key != key
  {
    if es != [] && es[0].key != key {
      LookupSound(es[1..], key);
      if Lookup(es, key).None? {
        forall j | 0 < j < |es|
          ensures es[j].key != key
        {
          assert es[j] == es[1..][j - 1];
        }
      }
    }
  }

  /** Keys are distinct, so there are exactly as many keys as records. */
  lemma {:induction false} KeysCount(es: seq<Entry>)
    requires StrictlySorted(es)
    ensures |Keys(es)| == |es|
  {
    if es != [] {
      KeysCount(es[1..]);
      KeysMember(es[1..], es[0].key);
      if es[0].key in Keys(es[1..]) {
        var j :| 0 <= j < |es[1..]| && es[1..][j].key == es[0].key;
        assert es[j + 1].key == es[0].key;
        LexLessIrreflexive(es[0].key);
      }
    }
  }

  lemma {:induction false} KeysMember(es: seq<Entry>, key: Bytes)
    ensures key in Keys(es) <==> exists j :: 0 <= j < |es| && es[j].key == key
  {
    if es != [] {
      KeysMember(es[1..], key);
      if key in Keys(es[1..]) {
        var j :| 0 <= j < |es[1..]| && es[1..][j].key == key;
        assert es[j + 1].key == key;
      }
      if exists j :: 0 <= j < |es| && es[j].key == key {
        var j :| 0 <= j < |es| && es[j].key == key;
        if j > 0 {
          assert es[1..][j - 1].key == key;
        }
      }
    }
  }

  // ---------------------------------------------------------------------------
  // What `set` and `delete` do to the vector

  /** Overwrite the record at `e.key` in place, or insert `e` at its sorted slot. */
  function Upsert(es: seq<Entry>, e: Entry): seq<Entry>
  {
    match Search(es, e.key)
    case Found(i) => es[i := e]
    case NotFound(i) => es[..i] + [e] + es[i..]
  }

  /** A key that is new and belongs between slots `i - 1` and `i` is inserted at `i`. */
  lemma UpsertInsertsAt(es: seq<Entry>, e: Entry, i: nat)
    requires i <= |es|
    requires forall j :: 0 <= j < i ==> LexLess(es[j].key, e.key)
    requires forall j :: i <= j < |es| ==> LexLess(e.key, es[j].key)
    ensures Upsert(es, e) == es[..i] + [e] + es[i..]
  {
    if i < |es| {
      LexLessAsymmetric(e.key, es[i].key);
      LexLessIrreflexive(e.key);
    }
    PositionUnique(es, e.key, i);
  }

  /** A key already held at slot `i` of a sorted vector is overwritten in place. */
  lemma UpsertReplacesAt(es: seq<Entry>, e: Entry, i: nat)
    requires StrictlySorted(es)
    requires i < |es| && es[i].key == e.key
    ensures Upsert(es, e) == es[i := e]
  {
    LexLessIrreflexive(e.key);
    PositionUnique(es, e.key, i);
  }

  /** Upserting keeps the vector strictly sorted. */
  lemma UpsertSorted(es: seq<Entry>, e: Entry)
    requires StrictlySorted(es)
    ensures StrictlySorted(Upsert(es, e))
  {
    SearchCorrect(es, e.key);
    match Search(es, e.key)
    case Found(i) =>
    case NotFound(i) =>
      var r := es[..i] + [e] + es[i..];
      forall a, b | 0 <= a < b < |r|
        ensures LexLess(r[a].key, r[b].key)
      {
        if b < i || a > i {
        } else if a < i && b > i {
          LexLessTransitive(es[a].key, e.key, es[b - 1].key);
        }
      }
  }

  /** Upserting keeps "tombstone exactly when no value" when `e` has it. */
  lemma UpsertWellFormed(es: seq<Entry>, e: Entry)
    requires WellFormed(es)
    requires e.isDeleted <==> e.value.None?
    ensures WellFormed(Upsert(es, e))
  {
    match Search(es, e.key)
    case Found(i) =>
    case NotFound(i) =>
      var r := es[..i] + [e] + es[i..];
      forall a | 0 <= a < |r|
        ensures r[a].isDeleted <==> r[a].value.None?
      {
        if a > i {
          assert r[a] == es[a - 1];
        }
      }
  }

  /** After an upsert the key holds `e` (last call wins, whatever the
      timestamps), every other key holds what it held before, and the vector
      grows by one exactly when the key was new. */
  lemma UpsertLookup(es: seq<Entry>, e: Entry, key: Bytes)
    requires StrictlySorted(es)
    ensures Lookup(Upsert(es, e), key) == if key == e.key then Some(e) else Lookup(es, key)
    ensures |Upsert(es, e)| == |es| + (if Lookup(es, e.key).None? then 1 else 0)
  {
    SearchCorrect(es, e.key);
    LookupBySearch(es, e.key);
    UpsertSorted(es, e);
    var r := Upsert(es, e);
    var i := Search(es, e.key).index;
    assert r[i] == e;
    LookupAt(r, i);
    if key != e.key {
      if j :| 0 <= j < |es| && es[j].key == key {
        LookupAt(es, j);
        var k := if Search(es, e.key).NotFound? && j >= i then j + 1 else j;
        assert r[k] == es[j];
        LookupAt(r, k);
      } else {
        LookupMissing(es, key);
        forall m | 0 <= m < |r|
          ensures r[m].key != key
        {
          if Search(es, e.key).NotFound? && m > i {
            assert r[m] == es[m - 1];
          }
        }
        LookupMissing(r, key);
      }
    }
  }

  /** Last writer wins at the level of the whole vector: a second upsert of the
      same key erases every trace of the first. */
  lemma UpsertOverwrites(es: seq<Entry>, e1: Entry, e2: Entry)
    requires StrictlySorted(es)
    requires e1.key == e2.key
    ensures Upsert(Upsert(es, e1), e2) == Upsert(es, e2)
  {
    SearchCorrect(es, e1.key);
    var r := Upsert(es, e1);
    UpsertSorted(es, e1);
    var i := Search(es, e1.key).index;
    assert r[i] == e1;
    PositionSplits(r, e2.key);
    forall j | 0 <= j < i
      ensures LexLess(r[j].key, e2.key)
    {
      assert r[j] == es[j];
    }
    LexLessIrreflexive(e2.key);
    PositionUnique(r, e2.key, i);
    assert Search(r, e2.key) == Found(i);
  }

  // ---------------------------------------------------------------------------
  // Byte accounting

  /** What one record should weigh: key, value if any, timestamp and flag. */
  function Cost(e: Entry): nat
  {
    |e.key| + (match e.value case Some(v) => |v| case None => 0) + EntryOverhead
  }

  /** What the whole vector should weigh. */
  function TotalCost(es: seq<Entry>): nat
  {
    if es == [] then 0 else Cost(es[0]) + TotalCost(es[1..])
  }

  lemma {:induction false} TotalCostConcat(a: seq<Entry>, b: seq<Entry>)
    ensures TotalCost(a + b) == TotalCost(a) + TotalCost(b)
  {
    if a != [] {
      assert (a + b)[0] == a[0] && (a + b)[1..] == a[1..] + b;
      TotalCostConcat(a[1..], b);
    } else {
      assert a + b == b;
    }
  }

  /** Cost of a vector with its record `i` replaced. */
  lemma TotalCostReplace(es: seq<Entry>, i: nat, e: Entry)
    requires i < |es|
    ensures TotalCost(es[i := e]) == TotalCost(es) - Cost(es[i]) + Cost(e)
  {
    assert es == es[..i] + [es[i]] + es[i + 1..];
    assert es[i := e] == es[..i] + [e] + es[i + 1..];
    TotalCostConcat(es[..i] + [es[i]], es[i + 1..]);
    TotalCostConcat(es[..i], [es[i]]);
    TotalCostConcat(es[..i] + [e], es[i + 1..]);
    TotalCostConcat(es[..i], [e]);
  }

  /** Cost of a vector with `e` inserted at `i`. */
  lemma TotalCostInsert(es: seq<Entry>, i: nat, e: Entry)
    requires i <= |es|
    ensures TotalCost(es[..i] + [e] + es[i..]) == TotalCost(es) + Cost(e)
  {
    assert es == es[..i] + es[i..];
    TotalCostConcat(es[..i], es[i..]);
    TotalCostConcat(es[..i] + [e], es[i..]);
    TotalCostConcat(es[..i], [e]);
  }

  /** An upsert changes the total cost by the new record's cost less the
      replaced record's. */
  lemma UpsertCost(es: seq<Entry>, e: Entry)
    requires StrictlySorted(es)
    ensures TotalCost(Upsert(es, e)) == TotalCost(es) + Cost(e) -
              (match Lookup(es, e.key) case Some(prev) => Cost(prev) case None => 0)
  {
    LookupBySearch(es, e.key);
    match Search(es, e.key)
    case Found(i) =>
      TotalCostReplace(es, i, e);
    case NotFound(i) =>
      TotalCostInsert(es, i, e);
  }

  // ---------------------------------------------------------------------------
  // The mutable memtable

  class MemTable {
    var entries: seq<Entry>
    /** The running byte count. Unbounded here, where the source has `usize`:
        it can go below zero, see `Set`. */
    var size: int

    /** The vector is strictly sorted, its records well formed, and the
        running count never exceeds what the records weigh. */
    ghost predicate Valid()
      reads this
    {
      && StrictlySorted(entries)
      && WellFormed(entries)
      && size <= TotalCost(entries)
    }

    /** An empty memtable. */
    constructor ()
      ensures Valid()
      ensures entries == [] && size == 0
    {
      entries := [];
      size := 0;
    }

    /** Binary search for `key`: the slot holding it, or the slot to insert it at. */
    method GetIndex(key: Bytes) returns (r: SearchResult)
      requires Valid()
      ensures r.Found? ==> r.index < |entries| && entries[r.index].key == key
      ensures r.NotFound? ==>
                && r.index <= |entries|
                && (forall j :: 0 <= j < r.index ==> LexLess(entries[j].key, key))
                && (forall j :: r.index <= j < |entries| ==> LexLess(key, entries[j].key))
      ensures r == Search(entries, key)
    {
      var lo, hi := 0, |entries|;
      while lo < hi
        invariant 0 <= lo <= hi <= |entries|
        invariant forall j :: 0 <= j < lo ==> LexLess(entries[j].key, key)
        invariant forall j :: hi <= j < |entries| ==> LexLess(key, entries[j].key)
      {
        var mid := lo + (hi - lo) / 2;
        match Compare(entries[mid].key, key)
        case Less =>
          forall j | lo <= j < mid
            ensures LexLess(entries[j].key, key)
          {
            LexLessTransitive(entries[j].key, entries[mid].key, key);
          }
          lo := mid + 1;
        case Greater =>
          forall j | mid < j < hi
            ensures LexLess(key, entries[j].key)
          {
            LexLessTransitive(key, entries[mid].key, entries[j].key);
          }
          hi := mid;
        case Equal =>
          forall j | lo <= j < mid
            ensures LexLess(entries[j].key, key)
          {
          }
          LexLessIrreflexive(key);
          PositionUnique(entries, key, mid);
          return Found(mid);
      }
      forall j | lo <= j < |entries|
        ensures entries[j].key != key && !LexLess(entries[j].key, key)
      {
        LexLessIrreflexive(key);
        LexLessAsymmetric(key, entries[j].key);
      }
      PositionUnique(entries, key, lo);
      return NotFound(lo);
    }

    /** Point lookup: the record held for `key`, which may be a tombstone, or
        `None` when the key was never set or deleted here. */
    method Get(key: Bytes) returns (r: Option<Entry>)
      requires Valid()
      ensures r == Lookup(entries, key)
      ensures r.Some? ==> r.val.key == key && r.val in entries
      ensures r.Some? ==> (r.val.isDeleted <==> r.val.value.None?)
      ensures r.None? <==> forall j :: 0 <= j < |entries| ==> entries[j].key != key
    {
      var idx := GetIndex(key);
      LookupBySearch(entries, key);
      LookupSound(entries, key);
      if idx.Found? {
        return Some(entries[idx.index]);
      }
      return None;
    }

    /** Number of distinct keys held, tombstones included. */
    function Len(): (n: nat)
      reads this
      requires Valid()
      ensures n == |Keys(entries)|
    {
      KeysCount(entries);
      |entries|
    }

    /** The records in key order, for scans and for flushing. */
    function Entries(): (es: seq<Entry>)
      reads this
      requires Valid()
      ensures StrictlySorted(es) && WellFormed(es)
    {
      entries
    }

    /** The running byte count, never above what the records weigh. */
    function Size(): (n: int)
      reads this
      requires Valid()
      ensures n <= TotalCost(entries)
    {
      size
    }

    /** Upsert `key` -> `value`.
        A new key adds its full cost. Over a live value the count moves by
        the difference in value length. Over a tombstone the count does not
        move at all, although the record now carries `value`: from then on
        the count falls short of the records' weight by `|value|`, and a later
        shrinking overwrite or delete can take it below zero (an underflow of
        the source's unsigned count). */
    method Set(key: Bytes, value: Bytes, timestampMs: nat)
      requires Valid()
      modifies this
      ensures Valid()
      ensures entries == Upsert(old(entries), Entry(key, Some(value), timestampMs, false))
      ensures Lookup(entries, key) == Some(Entry(key, Some(value), timestampMs, false))
      ensures forall k :: k != key ==> Lookup(entries, k) == Lookup(old(entries), k)
      ensures |entries| == |old(entries)| + (if Lookup(old(entries), key).None? then 1 else 0)
      ensures size == old(size) + match Lookup(old(entries), key)
                                  case None => |key| + |value| + EntryOverhead
                                  case Some(prev) =>
                                    match prev.value
                                    case Some(v) => |value| - |v|
                                    case None => 0
      ensures TotalCost(entries) - size == old(TotalCost(entries) - size) +
                (if Lookup(old(entries), key).Some? && Lookup(old(entries), key).val.value.None?
                 then |value| else 0)
    {
      var entry := Entry(key, Some(value), timestampMs, false);
      forall k {
        UpsertLookup(entries, entry, k);
      }
      LookupBySearch(entries, key);
      UpsertSorted(entries, entry);
      UpsertWellFormed(entries, entry);
      UpsertCost(entries, entry);
      var idx := GetIndex(key);
      match idx
      case Found(i) =>
        if entries[i].value.Some? {
          var v := entries[i].value.val;
          if |value| < |v| {
            size := size - (|v| - |value|);
          } else {
            size := size + (|value| - |v|);
          }
        }
        entries := entries[i := entry];
      case NotFound(i) =>
        size := size + |key| + |value| + 16 + 1;
        entries := entries[..i] + [entry] + entries[i..];
    }

    /** Delete `key` by writing a tombstone, whether or not the key is present.
        Over a live value the count drops by that value's length, over a
        tombstone it stays, and a new key adds its key length and overhead.
        A value written over a tombstone was never counted, so dropping its
        length can take the count below zero. */
    method Delete(key: Bytes, timestampMs: nat)
      requires Valid()
      modifies this
      ensures Valid()
      ensures entries == Upsert(old(entries), Entry(key, None, timestampMs, true))
      ensures Lookup(entries, key) == Some(Entry(key, None, timestampMs, true))
      ensures forall k :: k != key ==> Lookup(entries, k) == Lookup(old(entries), k)
      ensures |entries| == |old(entries)| + (if Lookup(old(entries), key).None? then 1 else 0)
      ensures size == old(size) + match Lookup(old(entries), key)
                                  case None => |key| + EntryOverhead
                                  case Some(prev) =>
                                    match prev.value
                                    case Some(v) => -|v|
                                    case None => 0
      ensures TotalCost(entries) - size == old(TotalCost(entries) - size)
    {
      var entry := Entry(key, None, timestampMs, true);
      forall k {
        UpsertLookup(entries, entry, k);
      }
      LookupBySearch(entries, key);
      UpsertSorted(entries, entry);
      UpsertWellFormed(entries, entry);
      UpsertCost(entries, entry);
      var idx := GetIndex(key);
      match idx
      case Found(i) =>
        if entries[i].value.Some? {
          var v := entries[i].value.val;
          size := size - |v|;
        }
        entries := entries[i := entry];
      case NotFound(i) =>
        size := size + |key| + 16 + 1;
        entries := entries[..i] + [entry] + entries[i..];
    }
  }
}
