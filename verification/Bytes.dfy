/** Little-endian views of a byte sequence: what a load reads and what a store leaves behind. */
module Bytes {
  import opened Bits

  /** The number whose base-256 digits, least significant first, are `bs`. */
  function LittleEndian(bs: seq<Byte>): nat {
    if bs == [] then 0 else bs[0] + 0x100 * LittleEndian(bs[1..])
  }

  /** The low `n` base-256 digits of `v`, least significant first. */
  function Digits(v: nat, n: nat): (bs: seq<Byte>)
    ensures |bs| == n
  {
    if n == 0 then [] else [v % 0x100] + Digits(v / 0x100, n - 1)
  }

  function Load(ram: seq<Byte>, address: nat, width: nat): nat
    requires address + width <= |ram|
  {
    LittleEndian(ram[address..address + width])
  }

  function Store(ram: seq<Byte>, address: nat, width: nat, value: nat): (r: seq<Byte>)
    requires address + width <= |ram|
    ensures |r| == |ram|
  {
    ram[..address] + Digits(value, width) + ram[address + width..]
  }

  lemma {:induction false} DigitsOfNumber(bs: seq<Byte>)
    ensures Digits(LittleEndian(bs), |bs|) == bs
  {
    if bs != [] {
      DigitsOfNumber(bs[1..]);
      var rest := LittleEndian(bs[1..]);
      DivModUnique(LittleEndian(bs), 0x100, rest, bs[0]);
    }
  }

  /** `width` bytes hold exactly the value modulo `2^(8 * width)`. */
  lemma {:induction false} NumberOfDigits(v: nat, n: nat)
    ensures LittleEndian(Digits(v, n)) == v % Pow2(8 * n)
    decreases n
  {
    if n > 0 {
      var bs := Digits(v, n);
      assert bs[1..] == Digits(v / 0x100, n - 1);
      NumberOfDigits(v / 0x100, n - 1);
      PowOfByte(n - 1);
      DivDiv(v, 0x100, Pow2(8 * (n - 1)));
    }
  }

  lemma PowOfByte(n: nat)
    ensures Pow2(8 * (n + 1)) == 0x100 * Pow2(8 * n)
  {
    hide Pow2;
    PowSum(8, 8 * n);
    Powers();
  }

  lemma {:induction false} LittleEndianBound(bs: seq<Byte>)
    ensures LittleEndian(bs) < Pow2(8 * |bs|)
  {
    DigitsOfNumber(bs);
    NumberOfDigits(LittleEndian(bs), |bs|);
  }

  lemma LoadBound(ram: seq<Byte>, address: nat, width: nat)
    requires address + width <= |ram|
    ensures Load(ram, address, width) < Pow2(8 * width)
    ensures width <= 4 ==> Load(ram, address, width) < MODULUS
  {
    LittleEndianBound(ram[address..address + width]);
    Powers();
    if width <= 4 {
      PowSum(8 * width, 8 * (4 - width));
      var p, q := Pow2(8 * width), Pow2(8 * (4 - width));
      MulAtLeast(p, q);
    }
  }

  /** A load sees the last store to the same place. */
  lemma LoadAfterStore(ram: seq<Byte>, address: nat, width: nat, value: nat)
    requires address + width <= |ram|
    ensures Load(Store(ram, address, width, value), address, width) == value % Pow2(8 * width)
  {
    assert Store(ram, address, width, value)[address..address + width] == Digits(value, width);
    NumberOfDigits(value, width);
  }

  /** Storing the value that was there before undoes a store. */
  lemma StoreUndo(ram: seq<Byte>, address: nat, width: nat, value: nat)
    requires address + width <= |ram|
    ensures Store(Store(ram, address, width, value), address, width, Load(ram, address, width)) == ram
  {
    DigitsOfNumber(ram[address..address + width]);
  }

  /** Bytes outside the stored range keep their value. */
  lemma StoreFrame(ram: seq<Byte>, address: nat, width: nat, value: nat, i: nat)
    requires address + width <= |ram|
    requires i < |ram| && !(address <= i < address + width)
    ensures Store(ram, address, width, value)[i] == ram[i]
  {
  }

  lemma {:induction false} DigitsModulo(v: nat, n: nat)
    ensures Digits(v % Pow2(8 * n), n) == Digits(v, n)
  {
    NumberOfDigits(v, n);
    DigitsOfNumber(Digits(v, n));
  }

  /** A store keeps only the bits that fit its width. */
  lemma TruncatedStore(ram: seq<Byte>, address: nat, width: nat, value: nat)
    requires address + width <= |ram|
    ensures Store(ram, address, width, value % Pow2(8 * width)) == Store(ram, address, width, value)
  {
    DigitsModulo(value, width);
  }

  /** The four shifted bytes of a 32-bit read are one little-endian number. */
  lemma LittleEndianOf(bs: seq<Byte>)
    ensures |bs| == 1 ==> LittleEndian(bs) == bs[0]
    ensures |bs| == 2 ==> LittleEndian(bs) == bs[0] as int + 0x100 * bs[1] as int
    ensures |bs| == 4 ==>
      LittleEndian(bs) == bs[0] as int + 0x100 * bs[1] as int + 0x1_0000 * bs[2] as int + 0x100_0000 * bs[3] as int
  {
    if |bs| == 2 {
      assert bs[1..][1..] == [];
    }
    if |bs| == 4 {
      assert bs[1..][1..] == bs[2..] && bs[2..][1..] == bs[3..] && bs[3..][1..] == [];
    }
  }

  lemma DigitsUpToFour(v: nat)
    ensures Digits(v, 1) == [v % 0x100]
    ensures Digits(v, 2) == [v % 0x100, v / 0x100 % 0x100]
    ensures Digits(v, 4) == [v % 0x100, v / 0x100 % 0x100, v / 0x1_0000 % 0x100, v / 0x100_0000 % 0x100]
  {
    var h := v / 0x100;
    assert h / 0x100 == v / 0x1_0000 && h / 0x100 / 0x100 == v / 0x100_0000;
    assert Digits(v, 2) == [v % 0x100] + Digits(h, 1);
    assert Digits(h / 0x100, 2) == [h / 0x100 % 0x100] + Digits(h / 0x100 / 0x100, 1);
    assert Digits(h, 3) == [h % 0x100] + Digits(h / 0x100, 2);
    assert Digits(v, 4) == [v % 0x100] + Digits(h, 3);
  }

  // ----- Lists of words -----

  /** The bytes of a list of words. */
  function Flat(words: seq<Word>): (bytes: seq<Byte>)
    ensures |bytes| == 4 * |words|
  {
    if words == [] then [] else Flat(words[..|words| - 1]) + Digits(words[|words| - 1], 4)
  }

  lemma FlatAppend(words: seq<Word>, w: Word)
    ensures Flat(words + [w]) == Flat(words) + Digits(w, 4)
  {
    assert (words + [w])[..|words|] == words;
  }

  lemma {:induction false} FlatAt(words: seq<Word>, i: nat)
    requires i < |words|
    ensures Flat(words)[4 * i..4 * i + 4] == Digits(words[i], 4)
    decreases |words|
  {
    var n := |words| - 1;
    if i < n {
      FlatAt(words[..n], i);
      assert Flat(words)[4 * i..4 * i + 4] == Flat(words[..n])[4 * i..4 * i + 4];
    }
  }

  /** Four bytes each, in order: exactly the little-endian values at the successive positions. */
  lemma {:induction false} FlatExact(bs: seq<Byte>, words: seq<Word>)
    requires |bs| == 4 * |words|
    ensures bs == Flat(words) <==> forall i :: 0 <= i < |words| ==> LittleEndian(bs[4 * i..4 * i + 4]) == words[i]
    decreases |words|
  {
    hide LittleEndian, Digits, Flat;
    if bs == Flat(words) {
      forall i | 0 <= i < |words| ensures LittleEndian(bs[4 * i..4 * i + 4]) == words[i] {
        FlatAt(words, i);
        WordOfDigits(words[i]);
      }
    }
    if forall i :: 0 <= i < |words| ==> LittleEndian(bs[4 * i..4 * i + 4]) == words[i] {
      FlatOfWords(bs, words);
    }
  }

  lemma WordOfDigits(word: Word)
    ensures LittleEndian(Digits(word, 4)) == word
  {
    hide LittleEndian, Digits, Pow2;
    NumberOfDigits(word, 4);
    Powers();
  }

  lemma SliceOfFront(bs: seq<Byte>, n: nat, from: nat, to: nat)
    requires from <= to <= n <= |bs|
    ensures bs[..n][from..to] == bs[from..to]
  {
  }

  lemma {:induction false} FlatOfWords(bs: seq<Byte>, words: seq<Word>)
    requires |bs| == 4 * |words|
    requires forall i :: 0 <= i < |words| ==> LittleEndian(bs[4 * i..4 * i + 4]) == words[i]
    ensures bs == Flat(words)
    decreases |words|
  {
    hide LittleEndian, Digits;
    if words == [] {
      assert bs == [];
    } else {
      var n := |words| - 1;
      var front, last := bs[..4 * n], bs[4 * n..];
      forall i | 0 <= i < n ensures LittleEndian(front[4 * i..4 * i + 4]) == words[..n][i] {
        SliceOfFront(bs, 4 * n, 4 * i, 4 * i + 4);
      }
      FlatOfWords(front, words[..n]);
      assert last == bs[4 * n..4 * n + 4] && bs == front + last;
      DigitsOfNumber(last);
    }
  }
}
