/** The guest runtime's memory routines over one flat byte array. */
module GuestMemory {
  import opened Bits

  /** Memory after the `count` bytes at `source` have been placed at `destination`. */
  function Moved(ram: seq<Byte>, destination: nat, source: nat, count: nat): seq<Byte>
    requires destination + count <= |ram| && source + count <= |ram|
  {
    ram[..destination] + ram[source..source + count] + ram[destination + count..]
  }

  predicate Apart(destination: nat, source: nat, count: nat) {
    destination + count <= source || source + count <= destination
  }

  /** `restrict`: the two blocks do not overlap. */
  method MemCpy(ram: array<Byte>, destination: nat, source: nat, count: nat) returns (result: nat)
    requires destination + count <= ram.Length && source + count <= ram.Length
    requires Apart(destination, source, count)
    modifies ram
    ensures result == destination
    ensures ram[..] == Moved(old(ram[..]), destination, source, count)
  {
    ghost var before := ram[..];
    for i := 0 to count
      invariant forall k :: destination <= k < destination + i ==> ram[k] == before[k - destination + source]
      invariant forall k :: 0 <= k < ram.Length && !(destination <= k < destination + i) ==> ram[k] == before[k]
    {
      ram[destination + i] := ram[source + i];
    }
    MovedAt(before, ram[..], destination, source, count);
    return destination;
  }

  /** Correct for every overlap: copying runs away from the part of the source it overwrites. */
  method MemMove(ram: array<Byte>, destination: nat, source: nat, count: nat) returns (result: nat)
    requires destination + count <= ram.Length && source + count <= ram.Length
    modifies ram
    ensures result == destination
    ensures ram[..] == Moved(old(ram[..]), destination, source, count)
  {
    ghost var before := ram[..];
    if destination <= source {
      for i := 0 to count
        invariant forall k :: destination <= k < destination + i ==> ram[k] == before[k - destination + source]
        invariant forall k :: 0 <= k < ram.Length && !(destination <= k < destination + i) ==> ram[k] == before[k]
      {
        ram[destination + i] := ram[source + i];
      }
    } else {
      for i := count downto 0
        invariant forall k :: destination + i <= k < destination + count ==> ram[k] == before[k - destination + source]
        invariant forall k :: 0 <= k < ram.Length && !(destination + i <= k < destination + count) ==>
                    ram[k] == before[k]
      {
        ram[destination + i] := ram[source + i];
      }
    }
    MovedAt(before, ram[..], destination, source, count);
    return destination;
  }

  lemma MovedAt(before: seq<Byte>, after: seq<Byte>, destination: nat, source: nat, count: nat)
    requires |before| == |after| && destination + count <= |before| && source + count <= |before|
    requires forall k :: destination <= k < destination + count ==> after[k] == before[k - destination + source]
    requires forall k :: 0 <= k < |before| && !(destination <= k < destination + count) ==> after[k] == before[k]
    ensures after == Moved(before, destination, source, count)
  {
    assert after[..destination] == before[..destination];
    assert after[destination..destination + count] == before[source..source + count];
    assert after[destination + count..] == before[destination + count..];
  }

  method MemSet(ram: array<Byte>, destination: nat, value: int, count: nat) returns (result: nat)
    requires destination + count <= ram.Length
    modifies ram
    ensures result == destination
    ensures ram[..] == old(ram[..destination]) + seq(count, i => value % 0x100) + old(ram[destination + count..])
  {
    for i := 0 to count
      invariant forall k :: destination <= k < destination + i ==> ram[k] == value % 0x100
      invariant forall k :: 0 <= k < ram.Length && !(destination <= k < destination + i) ==> ram[k] == old(ram[k])
    {
      ram[destination + i] := value % 0x100;
    }
    return destination;
  }

  /** Dictionary order on blocks of bytes: the sign of the first difference. */
  function Compare(a: seq<Byte>, b: seq<Byte>): int
    requires |a| == |b|
  {
    if a == [] then 0
    else if a[0] < b[0] then -1
    else if a[0] > b[0] then 1
    else Compare(a[1..], b[1..])
  }

  method MemCmp(ram: array<Byte>, left: nat, right: nat, count: nat) returns (r: int)
    requires left + count <= ram.Length && right + count <= ram.Length
    ensures r == Compare(ram[left..left + count], ram[right..right + count])
  {
    ghost var a, b := ram[left..left + count], ram[right..right + count];
    for i := 0 to count
      invariant Compare(a, b) == Compare(a[i..], b[i..])
    {
      if ram[left + i] != ram[right + i] {
        return if ram[left + i] < ram[right + i] then -1 else 1;
      }
      assert a[i] == ram[left + i] && b[i] == ram[right + i];
      assert a[i..][1..] == a[i + 1..] && b[i..][1..] == b[i + 1..];
    }
    return 0;
  }

  // ----- What the routines are for -----

  /** After a move the destination holds the old source, and the rest of memory is untouched. */
  lemma MovedBlocks(ram: seq<Byte>, destination: nat, source: nat, count: nat)
    requires destination + count <= |ram| && source + count <= |ram|
    ensures var m := Moved(ram, destination, source, count);
            && |m| == |ram| && m[destination..destination + count] == ram[source..source + count]
            && (forall k :: 0 <= k < |ram| && !(destination <= k < destination + count) ==> m[k] == ram[k])
            && (Apart(destination, source, count) ==>
                  m[source..source + count] == ram[source..source + count] && Moved(m, destination, source, count) == m)
  {
    var m := Moved(ram, destination, source, count);
    assert m[destination..destination + count] == ram[source..source + count];
    if Apart(destination, source, count) {
      assert m[source..source + count] == ram[source..source + count];
    }
  }

  /** A total order on blocks of one length, zero exactly on equal blocks. */
  lemma {:induction false} CompareOrder(a: seq<Byte>, b: seq<Byte>, c: seq<Byte>)
    requires |a| == |b| == |c|
    ensures Compare(a, b) == 0 <==> a == b
    ensures Compare(a, b) == -Compare(b, a)
    ensures Compare(a, b) <= 0 && Compare(b, c) <= 0 ==> Compare(a, c) <= 0
  {
    if a != [] {
      CompareOrder(a[1..], b[1..], c[1..]);
      assert a == [a[0]] + a[1..] && b == [b[0]] + b[1..];
    }
  }

  /** The sign is decided by the first byte in which the blocks differ, read as unsigned numbers. */
  lemma {:induction false} CompareFirstDifference(a: seq<Byte>, b: seq<Byte>, i: nat)
    requires |a| == |b| && i < |a| && a[..i] == b[..i] && a[i] != b[i]
    ensures Compare(a, b) == if a[i] < b[i] then -1 else 1
  {
    if i > 0 {
      assert a[0] == a[..i][0] && b[0] == b[..i][0];
      assert a[1..][..i - 1] == a[..i][1..] && b[1..][..i - 1] == b[..i][1..];
      CompareFirstDifference(a[1..], b[1..], i - 1);
    }
  }
}
