/** Unsigned LEB128 numbers in ELF attribute sections (section 7.6 of DWARF 4). */
module Uleb {
  import opened Bits
  import opened Options

  /** A decoded number and how many bytes it took. */
  datatype Parsed = Parsed(value: Word, used: nat)

  /** The number whose base-128 digits, least significant first, are the low seven bits of the bytes. */
  function Value(bs: seq<Byte>): nat {
    if bs == [] then 0 else bs[0] % 0x80 + 0x80 * Value(bs[1..])
  }

  /** A terminated encoding: a continuation bit on every byte but the last. */
  predicate Terminated(bs: seq<Byte>) {
    && |bs| > 0 && bs[|bs| - 1] < 0x80
    && forall i :: 0 <= i < |bs| - 1 ==> bs[i] >= 0x80
  }

  /** An encoding the reader accepts: terminated, at most five bytes (padding allowed) and a 32-bit value. */
  predicate Readable(bs: seq<Byte>) {
    Terminated(bs) && |bs| <= 5 && Value(bs) < MODULUS
  }

  /** The length of the terminated encoding `s` starts with, or zero. */
  function TerminatedLength(s: seq<Byte>): (n: nat)
    ensures n <= |s|
  {
    if s == [] then 0
    else if s[0] < 0x80 then 1
    else
      var rest := TerminatedLength(s[1..]);
      if rest == 0 then 0 else rest + 1
  }

  /** What reading a number at the front of `s` must give. */
  function Read(s: seq<Byte>): Option<Parsed> {
    var n := TerminatedLength(s);
    if n > 0 && n <= 5 && Value(s[..n]) < MODULUS then Some(Parsed(Value(s[..n]), n)) else None
  }

  /** Leading continuation bytes belong to the encoding, and the first other byte ends it. */
  lemma {:induction false} TerminatedLengthSkips(s: seq<Byte>, k: nat)
    requires k <= |s| && forall i :: 0 <= i < k ==> s[i] >= 0x80
    ensures TerminatedLength(s) == 0 || TerminatedLength(s) > k
    ensures k < |s| && s[k] < 0x80 ==> TerminatedLength(s) == k + 1
    ensures k == |s| ==> TerminatedLength(s) == 0
  {
    if k > 0 {
      TerminatedLengthSkips(s[1..], k - 1);
    }
  }

  lemma {:induction false} TerminatedPrefix(s: seq<Byte>)
    requires TerminatedLength(s) > 0
    ensures Terminated(s[..TerminatedLength(s)])
  {
    var n := TerminatedLength(s);
    if s[0] >= 0x80 {
      TerminatedPrefix(s[1..]);
      var p := s[1..][..n - 1];
      assert s[..n] == [s[0]] + p;
    }
  }

  lemma TerminatedLengthIs(s: seq<Byte>, n: nat)
    requires n <= |s|
    ensures TerminatedLength(s) == n > 0 <==> Terminated(s[..n])
  {
    hide TerminatedLength;
    if TerminatedLength(s) == n > 0 {
      TerminatedPrefix(s);
    }
    if Terminated(s[..n]) {
      assert forall i :: 0 <= i < n - 1 ==> s[i] == s[..n][i];
      TerminatedLengthSkips(s, n - 1);
    }
  }

  /** A number is read from `s` exactly when some prefix of `s` is an accepted encoding of it. */
  lemma ReadIsPrefix(s: seq<Byte>, n: nat, v: Word)
    requires n <= |s|
    ensures Read(s) == Some(Parsed(v, n)) <==> Readable(s[..n]) && Value(s[..n]) == v
  {
    TerminatedLengthIs(s, n);
  }

  /** Reading looks no further than the encoding it accepts. */
  lemma ReadLocal(e: seq<Byte>, rest: seq<Byte>)
    requires Readable(e)
    ensures Read(e + rest) == Some(Parsed(Value(e), |e|))
  {
    assert (e + rest)[..|e|] == e;
    ReadIsPrefix(e + rest, |e|, Value(e));
  }

  /** Reading succeeds exactly when `s` starts with a terminated encoding of at most five bytes and a 32-bit value. */
  lemma ReadAccepts(s: seq<Byte>)
    ensures Read(s).Some? <==> exists n: nat :: n <= |s| && Readable(s[..n])
  {
    if Read(s).Some? {
      ReadIsPrefix(s, Read(s).value.used, Read(s).value.value);
    } else {
      forall n: nat | n <= |s| ensures !Readable(s[..n]) {
        if Readable(s[..n]) {
          ReadIsPrefix(s, n, Value(s[..n]));
        }
      }
    }
  }

  // ----- The encoder -----

  /** The shortest encoding of a number. */
  function Encode(v: nat): seq<Byte> {
    if v < 0x80 then [v] else [v % 0x80 + 0x80] + Encode(v / 0x80)
  }

  lemma {:induction false} EncodeTerminated(v: nat, k: nat)
    requires k > 0 && v < Pow2(7 * k)
    ensures Terminated(Encode(v)) && |Encode(v)| <= k && Value(Encode(v)) == v
    decreases v
  {
    if v >= 0x80 {
      PowOfSeven(k - 1);
      assert Pow2(0) == 1;
      assert k > 1;
      EncodeTerminated(v / 0x80, k - 1);
      var e := Encode(v);
      assert e[1..] == Encode(v / 0x80);
    }
  }

  /** Every 32-bit number survives encoding, and exactly its encoding is consumed. */
  lemma ReadEncoded(v: Word, rest: seq<Byte>)
    ensures Read(Encode(v) + rest) == Some(Parsed(v, |Encode(v)|))
  {
    Powers();
    PowSum(32, 3);
    EncodeTerminated(v, 5);
    ReadLocal(Encode(v), rest);
  }

  // ----- The reader -----

  lemma PowOfSeven(n: nat)
    ensures Pow2(7 * (n + 1)) == 0x80 * Pow2(7 * n)
  {
    hide Pow2;
    PowSum(7, 7 * n);
    Powers();
  }

  lemma {:induction false} ValueAppend(bs: seq<Byte>, b: Byte)
    ensures Value(bs + [b]) == Value(bs) + b % 0x80 * Pow2(7 * |bs|)
  {
    hide Pow2;
    if bs == [] {
      assert bs + [b] == [b];
      Powers();
    } else {
      var n := |bs| - 1;
      ValueAppend(bs[1..], b);
      assert (bs + [b])[1..] == bs[1..] + [b];
      PowOfSeven(n);
      MoveFactor(0x80, b % 0x80, Pow2(7 * n));
    }
  }

  lemma {:induction false} ValueBound(bs: seq<Byte>)
    ensures Value(bs) < Pow2(7 * |bs|)
  {
    hide Pow2;
    if bs != [] {
      ValueBound(bs[1..]);
      PowOfSeven(|bs| - 1);
    }
  }

  /** What one pass of the reader adds to the number. */
  lemma DigitAdded(p: seq<Byte>, byte: Byte, result: Word)
    requires |p| <= 4 && result == Value(p) && (|p| == 4 ==> byte < 0x10)
    ensures Or(result, Wrap(Shl(And(byte, 127), 7 * |p|))) == Value(p + [byte]) < MODULUS
  {
    hide And, Or, Value, Pow2, Wrap;
    var q := Pow2(7 * |p|);
    LowSeven(byte);
    ValueAppend(p, byte);
    ValueBound(p);
    DigitFits(|p|, byte, q);
    var d := byte % 0x80;
    OrCommutes(result, d * q);
    OrDisjoint(d, result, 7 * |p|);
  }

  lemma LowSeven(byte: Byte)
    ensures And(byte, 127) == byte % 0x80
  {
    hide And;
    MaskLow(byte, 7);
    assert Pow2(7) == 0x80;
    ShrIsQuotient(byte, 7);
  }

  lemma DigitFits(k: nat, byte: Byte, q: nat)
    requires k <= 4 && q == Pow2(7 * k) && (k == 4 ==> byte < 0x10)
    ensures Wrap(byte % 0x80 * q) == byte % 0x80 * q && byte % 0x80 * q + q <= MODULUS
  {
    hide Pow2;
    Powers();
    if k == 0 {
      assert q == 1;
    } else if k == 1 {
      assert q == 0x80;
    } else if k == 2 {
      assert q == 0x4000;
    } else if k == 3 {
      assert q == 0x20_0000;
    } else {
      assert q == 0x1000_0000;
    }
  }

  lemma ByteTests(byte: Byte)
    ensures And(byte, 128) == 0 <==> byte < 0x80
    ensures And(byte, 0xF0) == 0 <==> byte < 0x10
  {
    hide And, Shr;
    Powers();
    Quotient(byte, 0, 1);
    Piece(byte, 0, 7, 1, 128, 2, 128);
    Piece(byte, 0, 4, 4, 16, 16, 0xF0);
  }

  /** Five continuation-free digits that do not fit, or a sixth byte: nothing is read. */
  lemma FifthTooBig(s: seq<Byte>)
    requires |s| >= 5 && s[4] >= 0x10 && forall i :: 0 <= i < 4 ==> s[i] >= 0x80
    ensures Read(s) == None
  {
    TerminatedLengthSkips(s, 4);
    if s[4] < 0x80 {
      var p := s[..4];
      assert s[..5] == p + [s[4]];
      ValueAppend(p, s[4]);
      Powers();
    } else {
      TerminatedLengthSkips(s, 5);
    }
  }

  /** `uleb`: read a number between `cursor` and `end`, one byte at a time. */
  method ReadAt(data: seq<Byte>, cursor: nat, end: nat) returns (ok: bool, value: Word, next: nat)
    requires cursor <= end <= |data|
    ensures ok ==> cursor < next <= end
    ensures Read(data[cursor..end]) == if ok then Some(Parsed(value, next - cursor)) else None
  {
    hide And, Or, Value, TerminatedLength, Shl;
    ghost var s := data[cursor..end];
    var result: Word := 0;
    next := cursor;
    var shift := 0;
    assert Value(s[..0]) == 0 by {
      ValueOfNothing();
    }
    while shift < 35 && next < end
      invariant cursor <= next <= end && shift == 7 * (next - cursor) <= 28
      invariant forall i :: 0 <= i < next - cursor ==> s[i] >= 0x80
      invariant result == Value(s[..next - cursor])
    {
      var byte := data[next];
      ghost var k := next - cursor;
      next := next + 1;
      ByteTests(byte);
      if shift == 28 && And(byte, 0xF0) != 0 {
        FifthTooBig(s);
        return false, 0, next;
      }
      DigitAdded(s[..k], byte, result);
      assert s[..k + 1] == s[..k] + [byte];
      result := Or(result, Wrap(Shl(And(byte, 127), shift)));
      if And(byte, 128) == 0 {
        TerminatedLengthSkips(s, k);
        return true, result, next;
      }
      shift := shift + 7;
    }
    TerminatedLengthSkips(s, |s|);
    return false, 0, next;
  }

  lemma ValueOfNothing()
    ensures Value([]) == 0
  {
  }
}
