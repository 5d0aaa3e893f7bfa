/** RAM owners: allocation, copying and checked little-endian access. */
module RamOwner {
  import opened Bits
  import opened Bytes
  import opened Isa

  /** An owned block of RAM. An owner without an allocation has the array of length zero. */
  class Memory {
    var bytes: array<Byte>

    constructor ()
      ensures bytes.Length == 0 && fresh(bytes)
    {
      bytes := new Byte[0];
    }

    predicate Ready()
      reads this
    {
      SizeValid(bytes.Length)
    }

    function Contents(): seq<Byte>
      reads this, bytes
    {
      bytes[..]
    }

    predicate AccessValid(address: Word, width: nat)
      requires width > 0
      reads this
    {
      Ready() && width <= bytes.Length && address <= bytes.Length - width && address % width == 0
    }

    /** `calloc` succeeds when `available` holds. A failure leaves the owner as it was. */
    method Init(size: nat, available: bool) returns (ok: bool)
      modifies this
      ensures ok == (old(bytes.Length) == 0 && SizeValid(size) && available)
      ensures ok ==> fresh(bytes) && bytes[..] == seq(size, i => 0)
      ensures !ok ==> bytes == old(bytes)
    {
      if bytes.Length != 0 || !SizeValid(size) {
        return false;
      }
      if !available {
        return false;
      }
      bytes := new Byte[size](i => 0);
      return true;
    }

    method Destroy()
      modifies this
      ensures bytes.Length == 0 && fresh(bytes)
    {
      bytes := new Byte[0];
    }

    /** Clear RAM in place; an owner that is not ready keeps its contents. */
    method Reset()
      modifies bytes
      ensures bytes[..] == if Ready() then seq(bytes.Length, i => 0) else old(bytes[..])
    {
      if Ready() {
        forall i | 0 <= i < bytes.Length {
          bytes[i] := 0;
        }
      }
    }

    /** Copy into an existing allocation of the same size, which may be the source itself. */
    method CopyFrom(source: Memory) returns (ok: bool)
      modifies bytes
      ensures ok == (source.Ready() && Ready() && source.bytes.Length == bytes.Length)
      ensures bytes[..] == if ok then old(source.bytes[..]) else old(bytes[..])
    {
      if !source.Ready() || !Ready() || source.bytes.Length != bytes.Length {
        return false;
      }
      if source.bytes != bytes {
        forall i | 0 <= i < bytes.Length {
          bytes[i] := source.bytes[i];
        }
        assert bytes[..] == old(source.bytes[..]);
      }
      return true;
    }

    /** Replace this owner's allocation by an independent copy, or keep it when copying fails. */
    method CloneFrom(source: Memory, available: bool) returns (ok: bool)
      modifies this
      ensures ok == (source.Ready() && (old(bytes.Length) == 0 || old(Ready())) && (source == this || available))
      ensures ok ==> bytes[..] == old(source.bytes[..])
      ensures ok && source != this ==> fresh(bytes)
      ensures !ok || source == this ==> bytes == old(bytes)
    {
      if !source.Ready() || (bytes.Length != 0 && !Ready()) {
        return false;
      }
      if source == this {
        return true;
      }
      var copy := new Memory();
      var initialized := copy.Init(source.bytes.Length, available);
      if !initialized {
        return false;
      }
      forall i | 0 <= i < source.bytes.Length {
        copy.bytes[i] := source.bytes[i];
      }
      Destroy();
      bytes := copy.bytes;
      assert bytes[..] == source.bytes[..];
      return true;
    }

    method ReadU8(address: Word) returns (ok: bool, value: Byte)
      ensures ok == AccessValid(address, 1)
      ensures ok ==> value == Load(Contents(), address, 1)
    {
      if !AccessValid(address, 1) {
        return false, 0;
      }
      LittleEndianOf(bytes[address..address + 1]);
      return true, bytes[address];
    }

    method WriteU8(address: Word, value: Byte) returns (ok: bool)
      modifies bytes
      ensures ok == AccessValid(address, 1)
      ensures Contents() == if ok then Store(old(Contents()), address, 1, value) else old(Contents())
    {
      if !AccessValid(address, 1) {
        return false;
      }
      bytes[address] := value;
      DigitsUpToFour(value);
      return true;
    }

    method ReadU16(address: Word) returns (ok: bool, value: Word)
      ensures ok == AccessValid(address, 2)
      ensures ok ==> value == Load(Contents(), address, 2) < 0x1_0000
    {
      if !AccessValid(address, 2) {
        return false, 0;
      }
      LittleEndianOf(bytes[address..address + 2]);
      JoinTwo(bytes[address], bytes[address + 1]);
      return true, Or(bytes[address], Shl(bytes[address + 1], 8));
    }

    method WriteU16(address: Word, value: Word) returns (ok: bool)
      requires value < 0x1_0000
      modifies bytes
      ensures ok == AccessValid(address, 2)
      ensures Contents() == if ok then Store(old(Contents()), address, 2, value) else old(Contents())
    {
      if !AccessValid(address, 2) {
        return false;
      }
      ShiftBytes(value);
      bytes[address] := value % 0x100;
      bytes[address + 1] := Shr(value, 8) % 0x100;
      DigitsUpToFour(value);
      assert Contents() == Store(old(Contents()), address, 2, value);
      return true;
    }

    method ReadU32(address: Word) returns (ok: bool, value: Word)
      ensures ok == AccessValid(address, 4)
      ensures ok ==> value == Load(Contents(), address, 4)
    {
      if !AccessValid(address, 4) {
        return false, 0;
      }
      LittleEndianOf(bytes[address..address + 4]);
      JoinFour(bytes[address], bytes[address + 1], bytes[address + 2], bytes[address + 3]);
      return true, Or(Or(Or(bytes[address], Shl(bytes[address + 1], 8)),
                         Shl(bytes[address + 2], 16)),
                      Shl(bytes[address + 3], 24));
    }

    method WriteU32(address: Word, value: Word) returns (ok: bool)
      modifies bytes
      ensures ok == AccessValid(address, 4)
      ensures Contents() == if ok then Store(old(Contents()), address, 4, value) else old(Contents())
    {
      if !AccessValid(address, 4) {
        return false;
      }
      ShiftBytes(value);
      bytes[address] := value % 0x100;
      bytes[address + 1] := Shr(value, 8) % 0x100;
      bytes[address + 2] := Shr(value, 16) % 0x100;
      bytes[address + 3] := Shr(value, 24) % 0x100;
      DigitsUpToFour(value);
      assert Contents() == Store(old(Contents()), address, 4, value);
      return true;
    }
  }

  lemma JoinTwo(b0: Byte, b1: Byte)
    ensures Or(b0, Shl(b1, 8)) == b0 as int + 0x100 * b1 as int
  {
    Powers();
    OrCommutes(b0, Shl(b1, 8));
    OrDisjoint(b1, b0, 8);
  }

  lemma JoinFour(b0: Byte, b1: Byte, b2: Byte, b3: Byte)
    ensures Or(Or(Or(b0, Shl(b1, 8)), Shl(b2, 16)), Shl(b3, 24))
         == b0 as int + 0x100 * b1 as int + 0x1_0000 * b2 as int + 0x100_0000 * b3 as int
  {
    hide Or;
    Powers();
    JoinTwo(b0, b1);
    var low := b0 as int + 0x100 * b1 as int;
    OrCommutes(low, Shl(b2, 16));
    OrDisjoint(b2, low, 16);
    var mid := low + 0x1_0000 * b2 as int;
    OrCommutes(mid, Shl(b3, 24));
    OrDisjoint(b3, mid, 24);
  }

  lemma ShiftBytes(value: Word)
    ensures Shr(value, 8) == value / 0x100 && Shr(value, 16) == value / 0x1_0000 && Shr(value, 24) == value / 0x100_0000
  {
    Powers();
    Quotient(value, 8, 0x100);
    Quotient(value, 16, 0x1_0000);
    Quotient(value, 24, 0x100_0000);
  }

  /** The access check is exactly natural alignment plus containment in a supported RAM. */
  lemma AccessCheck(m: Memory, address: Word, width: nat)
    requires width > 0
    ensures m.AccessValid(address, width) <==> address % width == 0 && InRam(m.Contents(), address, width)
  {
  }
}
