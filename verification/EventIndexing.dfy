/** Event ids: issued by a wrapping 32-bit counter that is saved when a session closes and restored
    when the next one opens. */
module EventIndexing {
  import opened SseTypes
  import opened Replay

  type Byte = n: nat | n < 256

  function ToLeBytes(index: Id): seq<Byte> {
    var q := index / 256;
    var p := q / 256;
    [index % 256, q % 256, p % 256, p / 256]
  }

  function FromLeBytes(bytes: seq<Byte>): Id
    requires |bytes| == 4
  {
    var b: seq<int> := bytes;
    b[0] + 256 * b[1] + 0x1_0000 * b[2] + 0x100_0000 * b[3]
  }

  /** The saved index is read back unchanged. */
  lemma {:induction false} IndexRoundTrip(index: Id)
    ensures FromLeBytes(ToLeBytes(index)) == index
  {
    var q := index / 256;
    var p := q / 256;
    assert q % 256 + 256 * p == q;
    assert p % 256 + 256 * (p / 256) == p;
  }

  /** The number that bytes stand for, the first byte counting least. */
  function LittleEndian(bytes: seq<Byte>): nat {
    if bytes == [] then 0 else bytes[0] + 256 * LittleEndian(bytes[1..])
  }

  lemma {:induction false} LittleEndianOfFour(bytes: seq<Byte>)
    requires |bytes| == 4
    ensures FromLeBytes(bytes) == LittleEndian(bytes)
  {
    var one, two, three := bytes[1..], bytes[2..], bytes[3..];
    assert one[1..] == two && two[1..] == three && three[1..] == [];
    assert LittleEndian(three) == bytes[3];
    assert LittleEndian(two) == bytes[2] + 256 * LittleEndian(three);
    assert LittleEndian(one) == bytes[1] + 256 * LittleEndian(two);
  }

  /** The index a session starts from: a cache file that is absent, unreadable or of the wrong
      length counts as 0. */
  function Restored(file: Option<seq<Byte>>): Id {
    if file.Some? && |file.value| == 4 then FromLeBytes(file.value) else 0
  }

  /** Four bytes are read as a little-endian number, and anything else as 0. */
  lemma {:induction false} RestoredExactly(file: Option<seq<Byte>>)
    ensures file.Some? && |file.value| == 4 ==> Restored(file) == LittleEndian(file.value)
    ensures file.None? || |file.value| != 4 ==> Restored(file) == 0
  {
    if file.Some? && |file.value| == 4 {
      LittleEndianOfFour(file.value);
    }
  }

  class EventIndexer {
    var index: Id

    constructor (file: Option<seq<Byte>>)
      ensures index == Restored(file)
    {
      var bytes: seq<Byte> := ToLeBytes(0);
      if file.Some? && |file.value| == |bytes| {
        bytes := file.value;
      }
      index := FromLeBytes(bytes);
    }

    method NextIndex() returns (id: Id)
      modifies this
      ensures id == old(index) && index == IdAt(old(index), 1)
    {
      id := index;
      index := WrappingAdd(id, 1);
    }

    /** Dropping the indexer saves the index. */
    method Close() returns (bytes: seq<Byte>)
      ensures |bytes| == 4 && LittleEndian(bytes) == index
      ensures Restored(Some(bytes)) == index
    {
      bytes := ToLeBytes(index);
      IndexRoundTrip(index);
      LittleEndianOfFour(bytes);
    }
  }

  function Sum(counts: seq<nat>): nat {
    if counts == [] then 0 else Sum(counts[..|counts| - 1]) + counts[|counts| - 1]
  }

  lemma {:induction false} IdAtCompose(first: Id, i: nat, j: nat)
    ensures IdAt(IdAt(first, i), j) == IdAt(first, i + j)
  {
    var q := (first + i) / ID_COUNT;
    assert first + i == q * ID_COUNT + IdAt(first, i);
    assert (first + i + j) % ID_COUNT == (IdAt(first, i) + j) % ID_COUNT;
  }

  /** Over any number of cleanly closed sessions, session i issuing counts[i] ids, the ids issued
      form one unbroken run, across restarts and across the wrap. */
  method RunSessions(file: Option<seq<Byte>>, counts: seq<nat>)
    returns (ids: seq<Id>, saved: Option<seq<Byte>>)
    ensures ids == ConsecutiveIds(Restored(file), Sum(counts))
    ensures Restored(saved) == IdAt(Restored(file), Sum(counts))
  {
    ids, saved := [], file;
    ghost var first := Restored(file);
    for session := 0 to |counts|
      invariant ids == ConsecutiveIds(first, Sum(counts[..session]))
      invariant Restored(saved) == IdAt(first, Sum(counts[..session]))
    {
      ghost var before := Sum(counts[..session]);
      assert counts[..session + 1][..session] == counts[..session];
      var indexer := new EventIndexer(saved);
      for i := 0 to counts[session]
        invariant ids == ConsecutiveIds(first, before + i)
        invariant indexer.index == IdAt(first, before + i)
      {
        IdAtCompose(first, before + i, 1);
        var id := indexer.NextIndex();
        ids := ids + [id];
      }
      var bytes := indexer.Close();
      saved := Some(bytes);
    }
    assert counts[..|counts|] == counts;
  }
}
