/** Reading a stream to its end, the address checks, and the raw binary loader. */
module ProgramIo {
  import opened Bits
  import opened Isa
  import opened Controller
  import opened Programs

  /** An input stream: the bytes it delivers, and whether it then ends or breaks with a read error. */
  class Stream {
    const data: seq<Byte>
    const broken: bool
    var position: nat
    var eof: bool
    var error: bool

    constructor (data: seq<Byte>, broken: bool)
      ensures this.data == data && this.broken == broken && position == 0 && !eof && !error
    {
      this.data, this.broken := data, broken;
      position, eof, error := 0, false, false;
    }

    predicate Valid()
      reads this
    {
      && position <= |data|
      && (eof ==> !broken && position == |data|)
      && (error ==> broken && position == |data|)
    }

    predicate Ended()
      reads this
    {
      eof || error
    }

    /** `fread` of up to `count` bytes into `buffer` at `offset`. Chunks may be short; only the end of the stream
        gives an empty one. */
    method Fread(buffer: array<Byte>, offset: nat, count: nat) returns (read: nat)
      requires Valid() && !Ended() && offset + count <= buffer.Length
      modifies this, buffer
      ensures Valid() && read <= count && position == old(position) + read
      ensures buffer[..] == old(buffer[..offset]) + data[old(position)..position] + old(buffer[offset + read..])
      ensures read == 0 < count ==> Ended()
      ensures count == 0 ==> !Ended()
    {
      read := if count < |data| - position then count else |data| - position;
      if read > 0 {
        var chunk: nat :| 0 < chunk <= read;
        read := chunk;
      }
      forall i | 0 <= i < read {
        buffer[offset + i] := data[position + i];
      }
      position := position + read;
      if read < count && position == |data| {
        var noticed := *;
        if read == 0 || noticed {
          eof, error := !broken, broken;
        }
      }
    }

    /** `fgetc`: the next byte, or -1 at the end. */
    method Fgetc() returns (byte: int)
      requires Valid()
      modifies this
      ensures Valid()
      ensures old(position) < |data| ==> byte == data[old(position)] && position == old(position) + 1 && !Ended()
      ensures old(position) == |data| ==> byte == -1 && position == old(position) && Ended()
    {
      if position < |data| {
        byte := data[position];
        position := position + 1;
      } else {
        eof, error := !broken, broken;
        byte := -1;
      }
    }
  }

  /** What reading everything must give: too many bytes, then a read error, then the bytes. */
  function BytesVerdict(length: nat, limit: nat, broken: bool): Verdict {
    if length > limit then Rejected(0, TooLarge)
    else if broken then Rejected(0, ReadFailure)
    else Accepted
  }

  /** One `fread` into the free part of the buffer. */
  method Fill(input: Stream, bytes: array<Byte>, size: nat) returns (filled: nat)
    requires input.Valid() && !input.Ended() && input.position == size <= bytes.Length
    requires bytes[..size] == input.data[..size]
    modifies input, bytes
    ensures input.Valid() && input.position == filled && size <= filled <= bytes.Length
    ensures bytes[..filled] == input.data[..filled]
    ensures filled == size < bytes.Length ==> input.Ended()
    ensures size == bytes.Length ==> !input.Ended()
  {
    ghost var before := bytes[..size];
    var read := input.Fread(bytes, size, bytes.Length - size);
    filled := size + read;
    assert bytes[..filled] == before + input.data[size..filled];
  }

  /** `realloc` to a larger buffer, with one more byte after the full old one. */
  method Append(bytes: array<Byte>, capacity: nat, byte: Byte) returns (grown: array<Byte>)
    requires bytes.Length < capacity
    ensures fresh(grown) && grown.Length == capacity
    ensures grown[..bytes.Length + 1] == bytes[..] + [byte]
  {
    grown := new Byte[capacity](i => 0);
    forall i | 0 <= i < bytes.Length {
      grown[i] := bytes[i];
    }
    grown[bytes.Length] := byte;
  }

  /** `program_input_bytes`: read a fresh stream to its end into a buffer that doubles up to `limit`. The outcome does
      not depend on how the stream is chunked. `available` says that no allocation fails. */
  method InputBytes(input: Stream, limit: nat, available: bool)
    returns (verdict: Verdict, bytes: array<Byte>, size: nat)
    requires input.Valid() && input.position == 0 && !input.Ended()
    modifies input
    ensures fresh(bytes)
    ensures verdict == BytesVerdict(|input.data|, limit, input.broken)
            || (!available && verdict == Rejected(0, NoStorage))
    ensures verdict == Accepted ==> size <= bytes.Length && bytes[..size] == input.data
  {
    var capacity := if limit < 4096 then limit else 4096;
    bytes := new Byte[capacity](i => 0);
    size := 0;
    var granted1 := *;
    if !available && !granted1 {
      return Rejected(0, NoStorage), bytes, 0;
    }
    while true
      invariant input.Valid() && !input.Ended() && fresh(bytes)
      invariant capacity == bytes.Length <= limit && (capacity == 0 ==> limit == 0)
                && size == input.position <= capacity
      invariant bytes[..size] == input.data[..size]
      decreases |input.data| - size
    {
      size := Fill(input, bytes, size);
      if input.error {
        return Rejected(0, ReadFailure), bytes, size;
      }
      if input.eof {
        break;
      }
      if size < capacity {
        continue;
      }
      var byte := input.Fgetc();
      if byte == -1 {
        if input.error {
          return Rejected(0, ReadFailure), bytes, size;
        }
        break;
      }
      if capacity == limit {
        return Rejected(0, TooLarge), bytes, size;
      }
      var next := if capacity > limit / 2 then limit else capacity * 2;
      var granted2 := *;
      if !available && !granted2 {
        return Rejected(0, NoStorage), bytes, size;
      }
      assert bytes[..] == bytes[..size] && input.data[..size + 1] == input.data[..size] + [byte];
      bytes := Append(bytes, next, byte);
      capacity := next;
      size := size + 1;
    }
    assert input.data[..size] == input.data;
    return Accepted, bytes, size;
  }

  /** `program_address_valid`, in the order of its checks. */
  function AddressVerdict(ramSize: nat, loadAddress: Word, entry: Word): Verdict {
    if !SizeValid(ramSize) then Rejected(0, InvalidRamSize)
    else if loadAddress % 4 != 0 || loadAddress > ramSize - 4 then Rejected(0, BadLoadAddress)
    else if entry % 4 != 0 || entry < loadAddress || entry > ramSize - 4 then Rejected(0, BadEntry)
    else Accepted
  }

  /** What the raw binary loader must report for a stream of `data`. */
  function BinaryVerdict(ramSize: nat, loadAddress: Word, entry: Word, data: seq<Byte>, broken: bool): Verdict {
    var addresses := AddressVerdict(ramSize, loadAddress, entry);
    if addresses != Accepted then addresses
    else
      var bytes := BytesVerdict(|data|, ramSize - loadAddress, broken);
      if bytes != Accepted then bytes
      else if entry + 4 > loadAddress + |data| then Rejected(0, EntryNotInBinary)
      else Accepted
  }

  /** `memcpy` of a whole image into zero RAM. */
  method CopyInto(ram: array<Byte>, address: nat, bytes: array<Byte>, size: nat)
    requires ram != bytes && size <= bytes.Length && address + size <= ram.Length && ram[..] == Zeros(ram.Length)
    modifies ram
    ensures ram[..] == Placed(ram.Length, address, bytes[..size])
  {
    forall i | 0 <= i < size {
      ram[address + i] := bytes[i];
    }
  }

  /** `program_read_binary`. The old program is replaced only by a complete new one. */
  method ReadBinary(input: Stream, ramSize: nat, loadAddress: Word, entry: Word, available: bool, output: Program)
    returns (verdict: Verdict)
    requires input.Valid() && input.position == 0 && !input.Ended()
    modifies input, output
    ensures verdict == BinaryVerdict(ramSize, loadAddress, entry, input.data, input.broken)
         || (!available && verdict == Rejected(0, NoStorage))
    ensures verdict == Accepted ==> |input.data| <= ramSize - loadAddress && fresh(output.memory)
    ensures verdict == Accepted ==>
              output.View() == Image(Placed(ramSize, loadAddress, input.data), loadAddress, entry, |input.data|, BINARY)
    ensures verdict == Accepted ==> output.elfData == [] && Acceptable(output.View())
    ensures verdict != Accepted ==> output.memory == old(output.memory) && output.View() == old(output.View())
    ensures verdict != Accepted ==> output.elfData == old(output.elfData)
  {
    verdict := AddressVerdict(ramSize, loadAddress, entry);
    if verdict != Accepted {
      return;
    }
    var bytes, size;
    verdict, bytes, size := InputBytes(input, ramSize - loadAddress, available);
    if verdict != Accepted {
      return;
    }
    if size < 4 || entry - loadAddress > size - 4 {
      return Rejected(0, EntryNotInBinary);
    }
    var next := new Program();
    var granted := *;
    var initialized := next.memory.Init(ramSize, available || granted);
    if !initialized {
      return Rejected(0, NoStorage);
    }
    CopyInto(next.memory.bytes, loadAddress, bytes, size);
    next.loadAddress, next.entry, next.imageSize, next.format := loadAddress, entry, size, BINARY;
    BinaryIsAcceptable(ramSize, loadAddress, entry, input.data, input.broken);
    output.Become(next);
    return Accepted;
  }

  /** A program read from a raw binary is one the machine accepts. */
  lemma BinaryIsAcceptable(ramSize: nat, loadAddress: Word, entry: Word, data: seq<Byte>, broken: bool)
    requires BinaryVerdict(ramSize, loadAddress, entry, data, broken) == Accepted
    ensures loadAddress + |data| <= ramSize
    ensures Acceptable(Image(Placed(ramSize, loadAddress, data), loadAddress, entry, |data|, BINARY))
  {
  }

  /** The addresses are refused for the RAM size, then the load address, then the entry, each under these conditions. */
  lemma AddressRefusals(ramSize: nat, loadAddress: Word, entry: Word)
    ensures var v := AddressVerdict(ramSize, loadAddress, entry);
            var size := 4 <= ramSize <= 256 * 1024 * 1024 && ramSize % 4 == 0;
            var load := loadAddress % 4 == 0 && loadAddress + 4 <= ramSize;
            var start := entry % 4 == 0 && loadAddress <= entry && entry + 4 <= ramSize;
            && (v == Rejected(0, InvalidRamSize) <==> !size)
            && (v == Rejected(0, BadLoadAddress) <==> size && !load)
            && (v == Rejected(0, BadEntry) <==> size && load && !start)
            && (v == Accepted <==> size && load && start)
  {
  }

  /** A binary is accepted exactly when it is read to its end, fits at a word-aligned address and makes a program the
      machine accepts. */
  lemma BinaryAccepted(ramSize: nat, loadAddress: Word, entry: Word, data: seq<Byte>, broken: bool)
    ensures BinaryVerdict(ramSize, loadAddress, entry, data, broken) == Accepted
       <==> && !broken && loadAddress % 4 == 0 && loadAddress + |data| <= ramSize
            && Acceptable(Image(Placed(ramSize, loadAddress, data), loadAddress, entry, |data|, BINARY))
  {
    hide Placed, AddressVerdict;
    AddressRefusals(ramSize, loadAddress, entry);
  }

  /** At good addresses a binary is refused for its size, then for a read error, then for an entry outside it. */
  lemma BinaryRefusals(ramSize: nat, loadAddress: Word, entry: Word, data: seq<Byte>, broken: bool)
    requires AddressVerdict(ramSize, loadAddress, entry) == Accepted
    ensures var v, end := BinaryVerdict(ramSize, loadAddress, entry, data, broken), loadAddress + |data|;
            && (v == Rejected(0, TooLarge) <==> end > ramSize)
            && (v == Rejected(0, ReadFailure) <==> end <= ramSize && broken)
            && (v == Rejected(0, EntryNotInBinary) <==> end <= ramSize && !broken && entry + 4 > end)
            && (v == Accepted <==> end <= ramSize && !broken && entry + 4 <= end)
  {
    hide AddressVerdict;
    AddressRefusals(ramSize, loadAddress, entry);
  }

  /** The bytes of a placed file are in order from its address on, and every other byte is zero. */
  lemma PlacedExact(size: nat, address: nat, bytes: seq<Byte>)
    requires address + |bytes| <= size
    ensures forall i :: 0 <= i < |bytes| ==> Placed(size, address, bytes)[address + i] == bytes[i]
    ensures forall a :: 0 <= a < size && !(address <= a < address + |bytes|) ==> Placed(size, address, bytes)[a] == 0
  {
    forall i | 0 <= i < |bytes| ensures Placed(size, address, bytes)[address + i] == bytes[i] {
      assert (Zeros(address) + bytes)[address + i] == bytes[i];
    }
  }
}
