/**
 The memtable's unit tests as verified scenarios: each method drives a fresh
 `MemTable` through the same calls as the test and returns what the test
 inspects, with the test's expected values as its postcondition. The calls
 to lemmas between the steps only help the verifier evaluate the vector.
 */
module MemTableTests {

  import opened ByteOrder
  import opened MemTable

  /** b"Apple" */
  const Apple: Bytes := [65, 112, 112, 108, 101]
  /** b"Lime" */
  const Lime: Bytes := [76, 105, 109, 101]
  /** b"Orange" */
  const Orange: Bytes := [79, 114, 97, 110, 103, 101]
  /** b"Potato" */
  const Potato: Bytes := [80, 111, 116, 97, 116, 111]
  /** b"Apple Smoothie" */
  const AppleSmoothie: Bytes := [65, 112, 112, 108, 101, 32, 83, 109, 111, 111, 116, 104, 105, 101]
  /** b"Lime Smoothie" */
  const LimeSmoothie: Bytes := [76, 105, 109, 101, 32, 83, 109, 111, 111, 116, 104, 105, 101]
  /** b"Orange Smoothie" */
  const OrangeSmoothie: Bytes := [79, 114, 97, 110, 103, 101, 32, 83, 109, 111, 111, 116, 104, 105, 101]
  /** b"A sour fruit" */
  const SourFruit: Bytes := [65, 32, 115, 111, 117, 114, 32, 102, 114, 117, 105, 116]
  /** b"a" */
  const KeyA: Bytes := [97]

  /** A live record, as `set` stores it. */
  function Live(key: Bytes, value: Bytes, timestampMs: nat): Entry
  {
    Entry(key, Some(value), timestampMs, false)
  }

  /** A tombstone, as `delete` stores it. */
  function Tombstone(key: Bytes, timestampMs: nat): Entry
  {
    Entry(key, None, timestampMs, true)
  }

  /** Insert at the front: Lime, Orange, then Apple. */
  method PutStart() returns (es: seq<Entry>, size: int)
    ensures es == [Live(Apple, AppleSmoothie, 20),
                   Live(Lime, LimeSmoothie, 0),
                   Live(Orange, OrangeSmoothie, 10)]
    ensures size == 108
  {
    var t := new MemTable();
    t.Set(Lime, LimeSmoothie, 0);
    assert t.entries == [Live(Lime, LimeSmoothie, 0)];
    LookupMissing(t.entries, Orange);
    t.Set(Orange, OrangeSmoothie, 10);
    assert t.entries == [Live(Lime, LimeSmoothie, 0), Live(Orange, OrangeSmoothie, 10)];
    LookupMissing(t.entries, Apple);
    t.Set(Apple, AppleSmoothie, 20);
    es, size := t.entries, t.size;
  }

  /** Insert in the middle: Apple, Orange, then Lime. */
  method PutMiddle() returns (es: seq<Entry>, size: int)
    ensures es == [Live(Apple, AppleSmoothie, 0),
                   Live(Lime, LimeSmoothie, 20),
                   Live(Orange, OrangeSmoothie, 10)]
    ensures size == 108
  {
    var t := new MemTable();
    t.Set(Apple, AppleSmoothie, 0);
    assert t.entries == [Live(Apple, AppleSmoothie, 0)];
    LookupMissing(t.entries, Orange);
    t.Set(Orange, OrangeSmoothie, 10);
    assert t.entries == [Live(Apple, AppleSmoothie, 0), Live(Orange, OrangeSmoothie, 10)];
    LookupMissing(t.entries, Lime);
    UpsertInsertsAt(t.entries, Live(Lime, LimeSmoothie, 20), 1);
    t.Set(Lime, LimeSmoothie, 20);
    es, size := t.entries, t.size;
  }

  /** Insert at the end: Apple, Lime, then Orange. */
  method PutEnd() returns (es: seq<Entry>, size: int)
    ensures es == [Live(Apple, AppleSmoothie, 0),
                   Live(Lime, LimeSmoothie, 10),
                   Live(Orange, OrangeSmoothie, 20)]
    ensures size == 108
  {
    var t := Fruits();
    es, size := t.entries, t.size;
  }

  /** The three-fruit table most tests start from. */
  method Fruits() returns (t: MemTable)
    ensures fresh(t) && t.Valid()
    ensures t.entries == [Live(Apple, AppleSmoothie, 0),
                          Live(Lime, LimeSmoothie, 10),
                          Live(Orange, OrangeSmoothie, 20)]
    ensures t.size == 108
  {
    t := new MemTable();
    t.Set(Apple, AppleSmoothie, 0);
    assert t.entries == [Live(Apple, AppleSmoothie, 0)];
    LookupMissing(t.entries, Lime);
    t.Set(Lime, LimeSmoothie, 10);
    assert t.entries == [Live(Apple, AppleSmoothie, 0), Live(Lime, LimeSmoothie, 10)];
    LookupMissing(t.entries, Orange);
    t.Set(Orange, OrangeSmoothie, 20);
  }

  /** Overwrite a live value with a shorter one: the count drops by one byte. */
  method PutOverwrite() returns (es: seq<Entry>, size: int)
    ensures es == [Live(Apple, AppleSmoothie, 0),
                   Live(Lime, SourFruit, 30),
                   Live(Orange, OrangeSmoothie, 20)]
    ensures size == 107
  {
    var t := Fruits();
    LookupAt(t.entries, 1);
    UpsertReplacesAt(t.entries, Live(Lime, SourFruit, 30), 1);
    t.Set(Lime, SourFruit, 30);
    es, size := t.entries, t.size;
  }

  /** Lookup of a present key. */
  method GetExists() returns (r: Option<Entry>)
    ensures r == Some(Live(Orange, OrangeSmoothie, 20))
  {
    var t := Fruits();
    LookupAt(t.entries, 2);
    r := t.Get(Orange);
  }

  /** Lookup of a key never written. */
  method GetNotExists() returns (r: Option<Entry>)
    ensures r == None
  {
    var t := new MemTable();
    t.Set(Apple, AppleSmoothie, 0);
    assert t.entries == [Live(Apple, AppleSmoothie, 0)];
    t.Set(Lime, LimeSmoothie, 0);
    assert t.entries == [Live(Apple, AppleSmoothie, 0), Live(Lime, LimeSmoothie, 0)];
    t.Set(Orange, OrangeSmoothie, 0);
    assert t.entries == [Live(Apple, AppleSmoothie, 0), Live(Lime, LimeSmoothie, 0),
                         Live(Orange, OrangeSmoothie, 0)];
    LookupMissing(t.entries, Potato);
    r := t.Get(Potato);
  }

  /** Deleting a live key leaves a tombstone and takes the value's bytes off. */
  method DeleteExists() returns (r: Option<Entry>, es: seq<Entry>, size: int)
    ensures r == Some(Tombstone(Apple, 10))
    ensures es == [Tombstone(Apple, 10)]
    ensures size == 22
  {
    var t := new MemTable();
    t.Set(Apple, AppleSmoothie, 0);
    assert t.entries == [Live(Apple, AppleSmoothie, 0)];
    t.Delete(Apple, 10);
    assert t.entries == [Tombstone(Apple, 10)];
    r := t.Get(Apple);
    es, size := t.entries, t.size;
  }

  /** Deleting a key never written still records a tombstone. */
  method DeleteEmpty() returns (r: Option<Entry>, es: seq<Entry>, size: int)
    ensures r == Some(Tombstone(Apple, 10))
    ensures es == [Tombstone(Apple, 10)]
    ensures size == 22
  {
    var t := new MemTable();
    t.Delete(Apple, 10);
    assert t.entries == [Tombstone(Apple, 10)];
    r := t.Get(Apple);
    es, size := t.entries, t.size;
  }

  /** Deleting a tombstone again changes neither the length nor the count,
      only the timestamp. */
  method DeleteTwice() returns (r: Option<Entry>, len: nat, size: int)
    ensures r == Some(Tombstone(Apple, 20))
    ensures len == 1 && size == 22
  {
    var t := new MemTable();
    t.Delete(Apple, 10);
    assert t.entries == [Tombstone(Apple, 10)];
    t.Delete(Apple, 20);
    assert t.entries == [Tombstone(Apple, 20)];
    r := t.Get(Apple);
    len, size := t.Len(), t.size;
  }

  /** The latest call wins even when it carries an older timestamp. */
  method LastCallWins() returns (r: Option<Entry>)
    ensures r == Some(Live(Lime, SourFruit, 5))
  {
    var t := new MemTable();
    t.Set(Lime, LimeSmoothie, 10);
    assert t.entries == [Live(Lime, LimeSmoothie, 10)];
    t.Set(Lime, SourFruit, 5);
    assert t.entries == [Live(Lime, SourFruit, 5)];
    r := t.Get(Lime);
  }

  /** Writing over a tombstone adds nothing to the count, so a later shrinking
      overwrite subtracts bytes that were never added: the count ends below
      zero, which the source's unsigned `size -= ...` cannot represent, while
      the one remaining record weighs 18 bytes. */
  method SetOverTombstoneUnderflow() returns (weight: nat, size: int)
    ensures weight == 18 && size == -9
  {
    var t := new MemTable();
    t.Delete(KeyA, 0);
    assert t.entries == [Tombstone(KeyA, 0)] && t.size == 18;
    t.Set(KeyA, AppleSmoothie + LimeSmoothie, 1);
    assert t.entries == [Live(KeyA, AppleSmoothie + LimeSmoothie, 1)] && t.size == 18;
    t.Set(KeyA, [], 2);
    assert t.entries == [Live(KeyA, [], 2)];
    weight, size := TotalCost(t.entries), t.size;
  }

  /** Deleting a value that was written over a tombstone subtracts its length,
      which was never added: the count ends below zero as well. */
  method DeleteAfterSetOverTombstone() returns (weight: nat, size: int)
    ensures weight == 18 && size == -9
  {
    var t := new MemTable();
    t.Delete(KeyA, 0);
    assert t.entries == [Tombstone(KeyA, 0)] && t.size == 18;
    t.Set(KeyA, AppleSmoothie + LimeSmoothie, 1);
    assert t.entries == [Live(KeyA, AppleSmoothie + LimeSmoothie, 1)] && t.size == 18;
    t.Delete(KeyA, 2);
    assert t.entries == [Tombstone(KeyA, 2)];
    weight, size := TotalCost(t.entries), t.size;
  }
}
