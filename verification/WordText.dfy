/** The `.words` text format: what one line means, what a whole file means, and the printers it inverts. */
module WordText {
  import opened Bits
  import opened Programs
  import opened Options

  // ----- Character classes of the C locale -----

  const NEWLINE: Byte := 10
  const HASH: Byte := 35
  const MAX_LINE: int := 511

  predicate IsSpace(b: Byte) {
    b == 32 || 9 <= b <= 13
  }

  predicate IsHexDigit(b: Byte) {
    48 <= b <= 57 || 65 <= b <= 70 || 97 <= b <= 102
  }

  /** The value of a hexadecimal digit of either case. */
  function DigitValue(b: Byte): (d: nat)
    requires IsHexDigit(b)
    ensures d < 16
  {
    if b <= 57 then b - 48 else if b <= 70 then b - 55 else b - 87
  }

  // ----- One line -----

  datatype Line = Blank | Word(word: Word) | Bad(reason: Reason)

  function SkipSpaces(s: seq<Byte>): (r: seq<Byte>)
    ensures |r| <= |s| && r == s[|s| - |r|..]
    ensures r == [] || !IsSpace(r[0])
  {
    if s != [] && IsSpace(s[0]) then SkipSpaces(s[1..]) else s
  }

  /** The number of leading hexadecimal digits. */
  function HexRun(s: seq<Byte>): (n: nat)
    ensures n <= |s| && (forall i :: 0 <= i < n ==> IsHexDigit(s[i])) && (n < |s| ==> !IsHexDigit(s[n]))
  {
    if s != [] && IsHexDigit(s[0]) then 1 + HexRun(s[1..]) else 0
  }

  predicate AllHex(s: seq<Byte>) {
    forall i :: 0 <= i < |s| ==> IsHexDigit(s[i])
  }

  /** Most significant digit first. */
  function HexValue(s: seq<Byte>): nat
    requires AllHex(s)
  {
    if s == [] then 0 else 16 * HexValue(s[..|s| - 1]) + DigitValue(s[|s| - 1])
  }

  predicate HasHexPrefix(s: seq<Byte>) {
    |s| >= 2 && s[0] == 48 && (s[1] == 120 || s[1] == 88)
  }

  predicate EndsLine(s: seq<Byte>) {
    s == [] || s[0] == HASH
  }

  /** The digits of a line that is not blank. */
  function AfterPrefix(t: seq<Byte>): seq<Byte> {
    if HasHexPrefix(t) then t[2..] else t
  }

  lemma {:induction false} HexValueBound(s: seq<Byte>)
    requires AllHex(s)
    ensures HexValue(s) < Pow2(4 * |s|)
  {
    if s != [] {
      HexValueBound(s[..|s| - 1]);
      PowSum(4, 4 * (|s| - 1));
      assert Pow2(4) == 16;
    }
  }

  lemma EightDigitsFit(s: seq<Byte>)
    requires AllHex(s) && |s| <= 8
    ensures HexValue(s) < MODULUS
  {
    HexValueBound(s);
    Powers();
    PowSum(4 * |s|, 32 - 4 * |s|);
    MulAtLeast(Pow2(4 * |s|), Pow2(32 - 4 * |s|));
  }

  /** The leading digits, when there are at most eight, are a word. */
  lemma LeadingDigits(u: seq<Byte>)
    ensures AllHex(u[..HexRun(u)])
    ensures HexRun(u) <= 8 ==> HexValue(u[..HexRun(u)]) < MODULUS
  {
    hide HexRun, HexValue, IsHexDigit;
    if HexRun(u) <= 8 {
      EightDigitsFit(u[..HexRun(u)]);
    }
  }

  /** Digits, then nothing but space and a comment. */
  function ParseDigits(u: seq<Byte>): Line {
    var n := HexRun(u);
    if n > 8 then Bad(WordTooLong)
    else if n == 0 then Bad(ExpectedWord)
    else if !EndsLine(SkipSpaces(u[n..])) then Bad(ExtraToken)
    else
      LeadingDigits(u);
      Word(HexValue(u[..n]))
  }

  /** What a line without its newline means. */
  function ParseLine(s: seq<Byte>): Line {
    var t := SkipSpaces(s);
    if EndsLine(t) then Blank else ParseDigits(AfterPrefix(t))
  }

  // ----- The forms a line can take -----

  datatype Prefix = NoPrefix | LowerX | UpperX

  /** A line as it was composed: indentation, possibly a word, trailing space and possibly a comment. */
  datatype Form = Form(indent: seq<Byte>, word: Option<Printed>, trail: seq<Byte>, comment: Option<seq<Byte>>)

  datatype Printed = Printed(prefix: Prefix, digits: seq<Byte>)

  function PrefixBytes(p: Prefix): seq<Byte> {
    match p
    case NoPrefix => []
    case LowerX => [48, 120]
    case UpperX => [48, 88]
  }

  predicate AllSpace(s: seq<Byte>) {
    forall i :: 0 <= i < |s| ==> IsSpace(s[i])
  }

  predicate ProperForm(f: Form) {
    && AllSpace(f.indent) && AllSpace(f.trail)
    && (f.word.Some? ==> AllHex(f.word.value.digits) && 1 <= |f.word.value.digits| <= 8)
  }

  function WordBytes(w: Option<Printed>): seq<Byte> {
    if w.None? then [] else PrefixBytes(w.value.prefix) + w.value.digits
  }

  function CommentBytes(c: Option<seq<Byte>>): seq<Byte> {
    if c.None? then [] else [HASH] + c.value
  }

  function Rendered(f: Form): seq<Byte> {
    f.indent + (WordBytes(f.word) + (f.trail + CommentBytes(f.comment)))
  }

  /** What a form stands for. */
  function Meaning(f: Form): (m: Line)
    requires ProperForm(f)
    ensures !m.Bad?
  {
    if f.word.None? then Blank
    else
      EightDigitsFit(f.word.value.digits);
      Word(HexValue(f.word.value.digits))
  }

  lemma {:induction false} SkipAllSpace(a: seq<Byte>, b: seq<Byte>)
    requires AllSpace(a) && (b == [] || !IsSpace(b[0]))
    ensures SkipSpaces(a + b) == b
  {
    if a == [] {
      assert a + b == b;
    } else {
      assert (a + b)[1..] == a[1..] + b;
      SkipAllSpace(a[1..], b);
    }
  }

  lemma {:induction false} HexRunOf(a: seq<Byte>, b: seq<Byte>)
    requires AllHex(a) && (b == [] || !IsHexDigit(b[0]))
    ensures HexRun(a + b) == |a|
  {
    if a == [] {
      assert a + b == b;
    } else {
      assert (a + b)[1..] == a[1..] + b;
      HexRunOf(a[1..], b);
    }
  }

  lemma DigitsParse(d: seq<Byte>, trail: seq<Byte>, c: seq<Byte>)
    requires AllHex(d) && 1 <= |d| <= 8 && AllSpace(trail) && EndsLine(c)
    ensures HexValue(d) < MODULUS && ParseDigits(d + (trail + c)) == Word(HexValue(d))
  {
    hide SkipSpaces, HexRun, HexValue;
    EightDigitsFit(d);
    var u := d + (trail + c);
    HexRunOf(d, trail + c);
    assert u[|d|..] == trail + c && u[..|d|] == d;
    SkipAllSpace(trail, c);
  }

  /** Every composed line is read back as what it stands for. */
  lemma RenderedParses(f: Form)
    requires ProperForm(f)
    ensures ParseLine(Rendered(f)) == Meaning(f)
  {
    hide SkipSpaces, HexRun, HexValue, ParseDigits, AfterPrefix, CommentBytes;
    var c := CommentBytes(f.comment);
    assert EndsLine(c) by {
      CommentEnds(f.comment);
    }
    if f.word.None? {
      BlankParses(f.indent, f.trail, c);
    } else {
      var d := f.word.value.digits;
      PrefixSkipped(f.word.value, f.trail + c);
      SkipAllSpace(f.indent, WordBytes(f.word) + (f.trail + c));
      DigitsParse(d, f.trail, c);
    }
  }

  lemma CommentEnds(c: Option<seq<Byte>>)
    ensures EndsLine(CommentBytes(c))
  {
  }

  lemma BlankParses(indent: seq<Byte>, trail: seq<Byte>, c: seq<Byte>)
    requires AllSpace(indent) && AllSpace(trail) && EndsLine(c)
    ensures ParseLine(indent + ([] + (trail + c))) == Blank
  {
    assert indent + ([] + (trail + c)) == (indent + trail) + c;
    SkipAllSpace(indent + trail, c);
  }

  lemma PrefixSkipped(w: Printed, tail: seq<Byte>)
    requires AllHex(w.digits) && |w.digits| >= 1 && (tail == [] || IsSpace(tail[0]) || tail[0] == HASH)
    ensures var t := PrefixBytes(w.prefix) + w.digits + tail;
            AfterPrefix(t) == w.digits + tail && !EndsLine(t) && !IsSpace(t[0])
  {
    var t := PrefixBytes(w.prefix) + w.digits + tail;
    if w.prefix == NoPrefix {
      assert t == w.digits + tail && t[0] == w.digits[0];
      if |w.digits| >= 2 {
        assert t[1] == w.digits[1];
      }
    } else {
      assert t[2..] == w.digits + tail;
    }
  }

  /** The form of a line that carries a word after `indent`. */
  lemma WordForm(indent: seq<Byte>, t: seq<Byte>) returns (f: Form)
    requires AllSpace(indent) && !EndsLine(t)
    requires var u := AfterPrefix(t);
             1 <= HexRun(u) <= 8 && EndsLine(SkipSpaces(u[HexRun(u)..]))
    ensures ProperForm(f) && Rendered(f) == indent + t
    ensures f.word.Some? && f.word.value.digits == AfterPrefix(t)[..HexRun(AfterPrefix(t))]
  {
    hide HexValue, HexRun, Rendered, IsSpace, AfterPrefix, SkipSpaces, AllHex, AllSpace, EndsLine, PrefixBytes;
    hide CommentBytes, CommentOf, PrefixOf, ProperForm, FormOf;
    var digits, trail, c := SplitWord(AfterPrefix(t));
    f := FormOf(indent, PrefixOf(t), digits, trail, c);
    PrefixRestored(t);
    FormOfParts(indent, PrefixOf(t), digits, trail, c);
  }

  /** A line from its parts, `c` being empty or a comment. */
  function FormOf(indent: seq<Byte>, prefix: Prefix, digits: seq<Byte>, trail: seq<Byte>, c: seq<Byte>): Form {
    Form(indent, Some(Printed(prefix, digits)), trail, CommentOf(c))
  }

  lemma FormOfParts(indent: seq<Byte>, prefix: Prefix, digits: seq<Byte>, trail: seq<Byte>, c: seq<Byte>)
    requires AllSpace(indent) && AllHex(digits) && 1 <= |digits| <= 8 && AllSpace(trail) && EndsLine(c)
    ensures var f := FormOf(indent, prefix, digits, trail, c);
            && ProperForm(f) && f.word.Some? && f.word.value.digits == digits
            && Rendered(f) == indent + (PrefixBytes(prefix) + (digits + (trail + c)))
  {
    hide AllSpace, AllHex, EndsLine, CommentBytes, CommentOf, PrefixBytes, Rendered;
    CommentRestored(c);
    var f := FormOf(indent, prefix, digits, trail, c);
    RenderedWord(f, PrefixBytes(prefix) + (digits + (trail + c)), c);
  }

  /** Digits, space and the rest. */
  lemma SplitWord(u: seq<Byte>) returns (digits: seq<Byte>, trail: seq<Byte>, c: seq<Byte>)
    requires 1 <= HexRun(u) <= 8 && EndsLine(SkipSpaces(u[HexRun(u)..]))
    ensures digits == u[..HexRun(u)] && 1 <= |digits| <= 8 && u == digits + (trail + c)
    ensures AllHex(digits) && AllSpace(trail) && EndsLine(c)
  {
    hide HexValue, HexRun, SkipSpaces, AllHex, AllSpace, EndsLine;
    LeadingDigits(u);
    digits := u[..HexRun(u)];
    trail, c := SplitSpace(u[HexRun(u)..]);
    SplitAt(u, HexRun(u));
  }

  lemma SplitSpace(s: seq<Byte>) returns (trail: seq<Byte>, c: seq<Byte>)
    ensures s == trail + c && AllSpace(trail) && c == SkipSpaces(s)
  {
    hide SkipSpaces, AllSpace, IsSpace;
    c := SkipSpaces(s);
    trail := s[..|s| - |c|];
    SkippedIsSpace(s);
    SplitAt(s, |s| - |c|);
  }

  lemma SplitAt(s: seq<Byte>, n: nat)
    requires n <= |s|
    ensures s == s[..n] + s[n..]
  {
  }

  /** The comment, if `c` is one. */
  function CommentOf(c: seq<Byte>): Option<seq<Byte>> {
    if c == [] then None else Some(c[1..])
  }

  /** The prefix a text starts with. */
  function PrefixOf(t: seq<Byte>): Prefix {
    if !HasHexPrefix(t) then NoPrefix else if t[1] == 120 then LowerX else UpperX
  }

  lemma PrefixRestored(t: seq<Byte>)
    ensures PrefixBytes(PrefixOf(t)) + AfterPrefix(t) == t
  {
    if HasHexPrefix(t) {
      assert t == [t[0], t[1]] + t[2..];
    }
  }

  lemma CommentRestored(c: seq<Byte>)
    requires EndsLine(c)
    ensures CommentBytes(CommentOf(c)) == c
  {
  }

  lemma RenderedWord(f: Form, t: seq<Byte>, c: seq<Byte>)
    requires f.word.Some? && CommentBytes(f.comment) == c
    requires t == PrefixBytes(f.word.value.prefix) + (f.word.value.digits + (f.trail + c))
    ensures Rendered(f) == f.indent + t
  {
    assert t == (PrefixBytes(f.word.value.prefix) + f.word.value.digits) + (f.trail + c);
  }

  /** And everything that is read back was composed that way. */
  lemma ParsedIsRendered(s: seq<Byte>) returns (f: Form)
    requires !ParseLine(s).Bad?
    ensures ProperForm(f) && Rendered(f) == s && Meaning(f) == ParseLine(s)
  {
    hide HexValue, HexRun, SkipSpaces, Rendered, AfterPrefix;
    var t := SkipSpaces(s);
    var indent := s[..|s| - |t|];
    SkippedIsSpace(s);
    assert s == indent + t;
    if EndsLine(t) {
      f := Form(indent, None, [], CommentOf(t));
      BlankForm(f, indent, t);
    } else {
      f := WordForm(indent, t);
    }
  }

  lemma BlankForm(f: Form, indent: seq<Byte>, t: seq<Byte>)
    requires EndsLine(t) && f == Form(indent, None, [], CommentOf(t))
    ensures Rendered(f) == indent + t
  {
    CommentRestored(t);
    assert [] + ([] + t) == t;
  }

  /** The accepted lines are exactly the composed ones, each with the meaning it was composed for. */
  lemma LinesExact(s: seq<Byte>, m: Line)
    requires !m.Bad?
    ensures ParseLine(s) == m <==> exists f :: ProperForm(f) && Rendered(f) == s && Meaning(f) == m
  {
    hide ParseLine, Rendered, Meaning, ProperForm;
    if ParseLine(s) == m {
      var f := ParsedIsRendered(s);
    }
    if f :| ProperForm(f) && Rendered(f) == s && Meaning(f) == m {
      RenderedParses(f);
    }
  }

  lemma {:induction false} SkippedIsSpace(s: seq<Byte>)
    ensures AllSpace(s[..|s| - |SkipSpaces(s)|])
  {
    if s != [] && IsSpace(s[0]) {
      SkippedIsSpace(s[1..]);
      var n := |s| - |SkipSpaces(s)|;
      assert s[..n] == [s[0]] + s[1..][..n - 1];
    }
  }

  // ----- Printing a word -----

  /** `n` hexadecimal digits of `v`, in either case. */
  function HexDigits(v: nat, n: nat, upper: bool): seq<Byte> {
    if n == 0 then []
    else
      var d := v % 16;
      HexDigits(v / 16, n - 1, upper) + [if d < 10 then 48 + d else if upper then 55 + d else 87 + d]
  }

  lemma {:induction false} HexDigitsValue(v: nat, n: nat, upper: bool)
    requires v < Pow2(4 * n)
    ensures |HexDigits(v, n, upper)| == n && AllHex(HexDigits(v, n, upper)) && HexValue(HexDigits(v, n, upper)) == v
    decreases n
  {
    if n > 0 {
      PowSum(4, 4 * (n - 1));
      assert Pow2(4) == 16;
      HexDigitsValue(v / 16, n - 1, upper);
      var s, rest := HexDigits(v, n, upper), HexDigits(v / 16, n - 1, upper);
      assert s[..n - 1] == rest;
    }
  }

  /** A word printed with any sufficient number of digits, in either case, with or without prefix, indentation, trailing
      space and comment, reads back as that word. */
  lemma PrintedWordReads(w: Word, n: nat, upper: bool, prefix: Prefix, indent: seq<Byte>, trail: seq<Byte>,
                         comment: Option<seq<Byte>>)
    requires 1 <= n <= 8 && w < Pow2(4 * n) && AllSpace(indent) && AllSpace(trail)
    ensures ParseLine(Rendered(Form(indent, Some(Printed(prefix, HexDigits(w, n, upper))), trail, comment))) == Word(w)
  {
    hide ParseLine, Rendered;
    HexDigitsValue(w, n, upper);
    RenderedParses(Form(indent, Some(Printed(prefix, HexDigits(w, n, upper))), trail, comment));
  }

  // ----- Malformed lines -----

  /** A line is refused for a ninth digit, then for having no digit, then for anything but space and a comment behind
      the digits. */
  lemma MalformedLines(indent: seq<Byte>, prefix: Prefix, digits: seq<Byte>, rest: seq<Byte>)
    requires AllSpace(indent) && AllHex(digits) && (rest == [] || !IsHexDigit(rest[0]))
    requires prefix == NoPrefix ==> !HasHexPrefix(digits + rest) && (digits == [] ==> !StartsBlank(rest))
    ensures var line := ParseLine(indent + (PrefixBytes(prefix) + (digits + rest)));
            && (|digits| > 8 ==> line == Bad(WordTooLong))
            && (digits == [] ==> line == Bad(ExpectedWord))
            && (1 <= |digits| <= 8 && !EndsLine(SkipSpaces(rest)) ==> line == Bad(ExtraToken))
  {
    hide SkipSpaces, HexRun, HexValue, AfterPrefix, EndsLine;
    var u := digits + rest;
    var t := PrefixBytes(prefix) + u;
    PrefixStripped(prefix, digits, rest);
    SkipAllSpace(indent, t);
    HexRunOf(digits, rest);
    assert u[|digits|..] == rest;
  }

  /** Nothing, space or a comment. */
  predicate StartsBlank(s: seq<Byte>) {
    s == [] || IsSpace(s[0]) || s[0] == HASH
  }

  lemma PrefixStripped(prefix: Prefix, digits: seq<Byte>, rest: seq<Byte>)
    requires AllHex(digits)
    requires prefix == NoPrefix ==> !HasHexPrefix(digits + rest) && (digits == [] ==> !StartsBlank(rest))
    ensures var t := PrefixBytes(prefix) + (digits + rest);
            t != [] && !IsSpace(t[0]) && !EndsLine(t) && AfterPrefix(t) == digits + rest
  {
    var t := PrefixBytes(prefix) + (digits + rest);
    if prefix == NoPrefix {
      assert t == digits + rest;
      assert digits != [] ==> t[0] == digits[0];
      assert digits == [] ==> t == rest;
    } else {
      assert t[2..] == digits + rest;
    }
  }

  // ----- The characters meant -----

  /** The constants and classes of the format, as characters. */
  lemma Characters(b: Byte)
    ensures HASH == '#' as int && NEWLINE == '\n' as int && MAX_LINE == 511
    ensures IsSpace(b) <==> b in {' ' as int, '\t' as int, '\n' as int, 11, 12, '\r' as int}
    ensures IsHexDigit(b)
       <==> '0' as int <= b <= '9' as int || 'A' as int <= b <= 'F' as int || 'a' as int <= b <= 'f' as int
    ensures PrefixBytes(LowerX) == ['0' as int, 'x' as int] && PrefixBytes(UpperX) == ['0' as int, 'X' as int]
  {
  }
}
