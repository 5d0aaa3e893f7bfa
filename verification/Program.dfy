/** Program owners and what loading one can report. */
module Programs {
  import opened Bits
  import opened Isa
  import opened RamOwner
  import opened StepLaws
  import opened Controller

  /** A loaded program: the RAM image and where it sits in it. */
  class Program {
    var memory: Memory
    var loadAddress: Word
    var entry: Word
    var imageSize: nat
    var format: Format
    /** The retained ELF file, if the program came from one. */
    var elfData: seq<Byte>

    constructor ()
      ensures fresh(memory) && memory.bytes.Length == 0 && fresh(memory.bytes)
      ensures loadAddress == 0 && entry == 0 && imageSize == 0 && format == WORDS && elfData == []
    {
      memory := new Memory();
      loadAddress, entry, imageSize, format, elfData := 0, 0, 0, WORDS, [];
    }

    function View(): Image
      reads this, memory, memory.bytes
    {
      Image(memory.Contents(), loadAddress, entry, imageSize, format)
    }

    /** Replace this program by another, as the loaders do with their output once nothing can fail any more. */
    method Become(next: Program)
      modifies this
      ensures memory == next.memory && View() == old(next.View()) && elfData == old(next.elfData)
    {
      memory, elfData := next.memory, next.elfData;
      loadAddress, entry, imageSize, format := next.loadAddress, next.entry, next.imageSize, next.format;
    }
  }

  datatype Reason =
    // arguments and storage
    | InvalidRamSize | BadLoadAddress | BadEntry | NoStorage
    // input bytes
    | ReadFailure | TooLarge | EntryNotInBinary
    // text words
    | NulByte | LongLine | WordTooLong | ExpectedWord | ExtraToken
    | DoesNotFit | InvalidAddress | EmptyProgram | EntryOutside
    // ELF
    | NotElf | WrongTarget | UnsupportedFlags | BadHeaderSizes | BadProgramTable | BadSectionTable
    | ThreadStorage | SectionOutside
    | InvalidAttributes | MalformedAttributes | UnsupportedScope | BeyondRv32i | StackAlignment | UnalignedAccess
    | DynamicLinking | SegmentOutside | PhysicalDiffers | BadAlignment | SegmentDoesNotFit | SegmentsOverlap | NoEntry

  /** What a loader reports; `line` is zero where no line is to blame. */
  datatype Verdict = Accepted | Rejected(line: nat, reason: Reason)

  function Zeros(n: nat): (s: seq<Byte>)
    ensures |s| == n
  {
    seq(n, i => 0)
  }

  /** Zero RAM with `bytes` placed at `address`. */
  function Placed(size: nat, address: nat, bytes: seq<Byte>): (s: seq<Byte>)
    requires address + |bytes| <= size
    ensures |s| == size
  {
    Zeros(address) + bytes + Zeros(size - address - |bytes|)
  }

  /** The first step of a machine that has just loaded an acceptable image neither misaligns nor fails to fetch. */
  lemma AcceptableFetches(p: Image)
    requires Acceptable(p)
    ensures Fetchable(Loaded(p).hart) && Sound(Loaded(p).hart)
  {
  }
}
