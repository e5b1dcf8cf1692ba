/** Root texts as validator/src/basedai_validator/commitment.py reads them and
    validator/src/basedai_validator/aggregator.py keys and submits them. */
module RootText {
  import opened Dictionaries

  newtype Byte = x: int | 0 <= x < 256

  type Nibble = d: int | 0 <= d < 16

  /** A root is given as text or as bytes. */
  datatype RootInput = Text(text: string) | Raw(bytes: seq<Byte>)

  predicate HasPrefix(s: string) {
    |s| >= 2 && s[..2] == "0x"
  }

  function WithPrefix(s: string): string {
    if HasPrefix(s) then s else "0x" + s
  }

  /** ASCII white space: tab to carriage return, and the blank. */
  predicate IsSpace(c: char) {
    9 as char <= c <= 13 as char || c == ' '
  }

  function DigitOf(c: char): Option<Nibble> {
    if '0' <= c <= '9' then Some(c as int - '0' as int)
    else if 'a' <= c <= 'f' then Some(c as int - 'a' as int + 10)
    else if 'A' <= c <= 'F' then Some(c as int - 'A' as int + 10)
    else None
  }

  function ByteOf(hi: Nibble, lo: Nibble): Byte {
    (16 * hi + lo) as Byte
  }

  /** Python's `bytes.fromhex`: white space is skipped before a pair of digits, not
      within one; `None` is its exception. */
  function FromHex(s: string): Option<seq<Byte>> {
    if s == [] then Some([])
    else if IsSpace(s[0]) then FromHex(s[1..])
    else if |s| < 2 || DigitOf(s[0]).None? || DigitOf(s[1]).None? then None
    else
      var rest := FromHex(s[2..]);
      if rest.None? then None else Some([ByteOf(DigitOf(s[0]).value, DigitOf(s[1]).value)] + rest.value)
  }

  function HexDigit(d: Nibble): char {
    if d < 10 then ('0' as int + d) as char else ('a' as int + d - 10) as char
  }

  function ToHex(bytes: seq<Byte>): string {
    if bytes == [] then []
    else [HexDigit(bytes[0] as int / 16), HexDigit(bytes[0] as int % 16)] + ToHex(bytes[1..])
  }

  /** Lower-casing of ASCII letters. */
  function LowerChar(c: char): char {
    if 'A' <= c <= 'Z' then (c as int + 32) as char else c
  }

  function Lower(s: string): (r: string)
    ensures |r| == |s|
    ensures forall i :: 0 <= i < |s| ==> r[i] == LowerChar(s[i])
  {
    seq<char>(|s|, i requires 0 <= i < |s| => LowerChar(s[i]))
  }

  // ----- the three uses of a root

  /** The root that a signature is checked against; `None` if it is not 32 bytes long or
      does not parse. */
  function AsRootBytes(root: RootInput): Option<seq<Byte>> {
    var bytes :=
      match root
      case Text(text) => FromHex(if HasPrefix(text) then text[2..] else text)
      case Raw(bytes) => Some(bytes);
    if bytes.Some? && |bytes.value| == 32 then bytes else None
  }

  /** A root given as bytes stands for their hexadecimal text. */
  function Written(root: RootInput): string {
    match root
    case Text(text) => text
    case Raw(bytes) => "0x" + ToHex(bytes)
  }

  /** The text that signatures are filed under. */
  function Normalized(root: RootInput): string {
    Lower(Written(root))
  }

  /** The bytes that are submitted: those of the text after its first two characters,
      whatever these are. */
  function SubmittedBytes(text: string): Option<seq<Byte>> {
    FromHex(if |text| < 2 then [] else text[2..])
  }

  // ----- how they agree

  lemma {:induction false} HexRoundTrip(bytes: seq<Byte>)
    ensures FromHex(ToHex(bytes)) == Some(bytes)
  {
    if bytes != [] {
      HexRoundTrip(bytes[1..]);
      var b, s := bytes[0] as int, ToHex(bytes);
      DigitRoundTrip(b / 16);
      DigitRoundTrip(b % 16);
      assert s[0] == HexDigit(b / 16) && s[1] == HexDigit(b % 16) && s[2..] == ToHex(bytes[1..]);
      assert ByteOf(b / 16, b % 16) == bytes[0];
      assert bytes == [bytes[0]] + bytes[1..];
    }
  }

  lemma DigitRoundTrip(d: Nibble)
    ensures DigitOf(HexDigit(d)) == Some(d) && !IsSpace(HexDigit(d))
  {}

  lemma LowerCharKeeps(c: char)
    ensures IsSpace(LowerChar(c)) == IsSpace(c) && DigitOf(LowerChar(c)) == DigitOf(c)
  {}

  /** Texts that start alike and go on to the same bytes parse to the same bytes. */
  lemma ParsedAlike(s: string, t: string)
    requires |s| == |t| > 0 && IsSpace(s[0]) == IsSpace(t[0]) && DigitOf(s[0]) == DigitOf(t[0])
    requires FromHex(s[1..]) == FromHex(t[1..])
    requires |s| > 1 ==> DigitOf(s[1]) == DigitOf(t[1]) && FromHex(s[2..]) == FromHex(t[2..])
    ensures FromHex(s) == FromHex(t)
  {}

  lemma {:induction false} LowerKeepsBytes(s: string)
    ensures FromHex(Lower(s)) == FromHex(s)
    decreases |s|
  {
    if s != [] {
      var t := Lower(s);
      LowerCharKeeps(s[0]);
      assert t[1..] == Lower(s[1..]);
      LowerKeepsBytes(s[1..]);
      if |s| > 1 {
        LowerCharKeeps(s[1]);
        assert t[2..] == Lower(s[2..]);
        LowerKeepsBytes(s[2..]);
      }
      ParsedAlike(t, s);
    }
  }

  lemma PrefixByCharacter(text: string)
    ensures HasPrefix(text) <==> |text| >= 2 && text[0] == '0' && text[1] == 'x'
  {}

  lemma CapitalPrefixFails(text: string)
    requires |text| >= 2 && text[0] == '0' && text[1] == 'X'
    ensures FromHex(text).None?
  {}

  lemma PrefixLowered(text: string)
    requires FromHex(if HasPrefix(text) then text[2..] else text).Some?
    ensures HasPrefix(Lower(text)) <==> HasPrefix(text)
  {
    PrefixByCharacter(text);
    PrefixByCharacter(Lower(text));
    if |text| >= 2 && text[0] == '0' && text[1] == 'X' {
      CapitalPrefixFails(text);
    }
  }

  /** A root that can be read is read alike from the text it is filed under. */
  lemma NormalizedKeepsBytes(root: RootInput)
    requires AsRootBytes(root).Some?
    ensures AsRootBytes(Text(Normalized(root))) == AsRootBytes(root)
  {
    var text := Written(root);
    if root.Raw? {
      assert text[2..] == ToHex(root.bytes) && HasPrefix(text);
      HexRoundTrip(root.bytes);
    }
    PrefixLowered(text);
    LowerKeepsBytes(text);
    if HasPrefix(text) {
      assert Lower(text)[2..] == Lower(text[2..]);
      LowerKeepsBytes(text[2..]);
    }
  }

  function Digits(s: string): (r: nat)
    ensures r <= |s|
  {
    if s == [] then 0 else (if IsSpace(s[0]) then 0 else 1) + Digits(s[1..])
  }

  lemma {:induction false} TwoDigitsPerByte(s: string)
    requires FromHex(s).Some?
    ensures Digits(s) == 2 * |FromHex(s).value|
    decreases |s|
  {
    if s != [] {
      if IsSpace(s[0]) {
        TwoDigitsPerByte(s[1..]);
      } else {
        TwoDigitsPerByte(s[2..]);
        assert s[1..][1..] == s[2..];
        NoSpaceIsDigit(s[1]);
        assert Digits(s[1..]) == 1 + Digits(s[2..]);
      }
    }
  }

  lemma NoSpaceIsDigit(c: char)
    requires DigitOf(c).Some?
    ensures !IsSpace(c)
  {}

  lemma LongEnough(text: string)
    requires AsRootBytes(Text(text)).Some?
    ensures |text| >= 2
  {
    if !HasPrefix(text) {
      TwoDigitsPerByte(text);
    }
  }

  /** Without the first digit an odd number of them is left. */
  lemma BlankAndDigit(text: string)
    requires |text| >= 2 && IsSpace(text[0]) && !IsSpace(text[1]) && FromHex(text).Some?
    ensures FromHex(text[2..]).None?
  {
    TwoDigitsPerByte(text);
    assert text[1..][1..] == text[2..];
    assert Digits(text) == Digits(text[1..]) == 1 + Digits(text[2..]);
    if FromHex(text[2..]).Some? {
      TwoDigitsPerByte(text[2..]);
    }
  }

  /** A prefix, or two blanks. */
  predicate StartsWhole(text: string) {
    HasPrefix(text) || (|text| >= 2 && IsSpace(text[0]) && IsSpace(text[1]))
  }

  /** A blank, and then the first digit. */
  predicate StartsAskew(text: string) {
    |text| >= 2 && IsSpace(text[0]) && !IsSpace(text[1])
  }

  /** What is submitted for a root that was read, decided by the first two characters of
      its text alone: the root itself after a prefix or two blanks, an exception after a
      blank and a digit, and after two digits the root without its first byte. */
  lemma SubmittedExactly(text: string)
    requires AsRootBytes(Text(text)).Some?
    ensures var root := AsRootBytes(Text(text)).value;
            SubmittedBytes(text) == if StartsWhole(text) then Some(root)
                                    else if StartsAskew(text) then None
                                    else Some(root[1..])
  {
    LongEnough(text);
    if !HasPrefix(text) && IsSpace(text[0]) {
      assert text[1..][1..] == text[2..];
      if !IsSpace(text[1]) {
        BlankAndDigit(text);
      }
    }
  }

  lemma DigitsFirst(root: seq<Byte>)
    requires |root| == 32
    ensures var s := ToHex(root);
            |s| > 2 && DigitOf(s[0]).Some? && DigitOf(s[1]).Some? && !IsSpace(s[0]) && !HasPrefix(s)
  {
    DigitRoundTrip(root[0] as int / 16);
    DigitRoundTrip(root[0] as int % 16);
    assert ToHex(root)[1] == HexDigit(root[0] as int % 16);
    assert root[1..] != [];
  }

  /** Every root has texts of all three kinds. */
  lemma EveryStartOccurs(root: seq<Byte>)
    requires |root| == 32
    ensures var digits := ToHex(root);
            && AsRootBytes(Text(digits)) == AsRootBytes(Text(" " + digits)) == Some(root)
            && AsRootBytes(Text("  " + digits)) == Some(root)
            && !StartsWhole(digits) && !StartsAskew(digits)
            && StartsAskew(" " + digits) && StartsWhole("  " + digits)
  {
    var digits := ToHex(root);
    HexRoundTrip(root);
    DigitsFirst(root);
    assert (" " + digits)[1..] == digits && ("  " + digits)[1..] == " " + digits;
    assert (" " + digits)[0] == ' ' == ("  " + digits)[0];
  }

  // ----- letter case

  /** The same character, or the two cases of one ASCII letter. */
  predicate SameUpToCase(c: char, d: char) {
    || c == d
    || ('A' <= c <= 'Z' && d as int - 'a' as int == c as int - 'A' as int)
    || ('A' <= d <= 'Z' && c as int - 'a' as int == d as int - 'A' as int)
  }

  predicate SameTexts(a: string, b: string) {
    |a| == |b| && forall i :: 0 <= i < |a| ==> SameUpToCase(a[i], b[i])
  }

  lemma LoweredAlike(c: char, d: char)
    ensures LowerChar(c) == LowerChar(d) <==> SameUpToCase(c, d)
    ensures !('A' <= LowerChar(c) <= 'Z')
  {}

  /** Two roots are filed under one text exactly if they are written alike up to the case
      of letters, and that text has no capital letter. */
  lemma FiledAlikeExactly(a: RootInput, b: RootInput)
    ensures Normalized(a) == Normalized(b) <==> SameTexts(Written(a), Written(b))
    ensures forall i :: 0 <= i < |Normalized(a)| ==> !('A' <= Normalized(a)[i] <= 'Z')
  {
    var x, y := Written(a), Written(b);
    forall c: char, d: char
      ensures (LowerChar(c) == LowerChar(d) <==> SameUpToCase(c, d)) && !('A' <= LowerChar(c) <= 'Z')
    {
      LoweredAlike(c, d);
    }
    if SameTexts(x, y) {
      assert forall i :: 0 <= i < |x| ==> Lower(x)[i] == Lower(y)[i];
    }
    if Lower(x) == Lower(y) {
      assert |x| == |Lower(x)| == |Lower(y)| == |y|;
      assert forall i :: 0 <= i < |x| ==> Lower(x)[i] == Lower(y)[i] && LowerChar(x[i]) == LowerChar(y[i]);
    }
  }

  lemma {:induction false} WrittenLower(bytes: seq<Byte>)
    ensures forall i :: 0 <= i < |ToHex(bytes)| ==> !('A' <= ToHex(bytes)[i] <= 'Z')
  {
    if bytes != [] {
      WrittenLower(bytes[1..]);
    }
  }

  /** A root given as bytes is filed under its hexadecimal text, which has no capitals. */
  lemma RawIsFiledAsWritten(bytes: seq<Byte>)
    ensures Normalized(Raw(bytes)) == "0x" + ToHex(bytes)
  {
    WrittenLower(bytes);
    assert forall i :: 0 <= i < |ToHex(bytes)| ==> ("0x" + ToHex(bytes))[i + 2] == ToHex(bytes)[i];
  }

  // ----- hexadecimal texts, written out

  const LOWER_DIGITS := "0123456789abcdef"
  const UPPER_DIGITS := "0123456789ABCDEF"
  const WHITE_SPACE := " \t\n\U{0B}\U{0C}\r"

  predicate IsDigit(c: char, d: Nibble) {
    c == LOWER_DIGITS[d] || c == UPPER_DIGITS[d]
  }

  predicate IsWhite(c: char) {
    c in WHITE_SPACE
  }

  lemma DigitsExactly(c: char, d: Nibble)
    ensures DigitOf(c) == Some(d) <==> IsDigit(c, d)
    ensures IsSpace(c) <==> IsWhite(c)
  {}

  /** A piece of a hexadecimal text: white space, or the two digits of a byte. */
  datatype Piece = Gap(c: char) | Pair(hi: char, x: Nibble, lo: char, y: Nibble)

  predicate Spelled(p: Piece) {
    match p
    case Gap(c) => IsWhite(c)
    case Pair(hi, x, lo, y) => IsDigit(hi, x) && IsDigit(lo, y)
  }

  function TextOfPiece(p: Piece): string {
    match p
    case Gap(c) => [c]
    case Pair(hi, _, lo, _) => [hi, lo]
  }

  function BytesOfPiece(p: Piece): seq<Byte> {
    match p
    case Gap(_) => []
    case Pair(_, x, _, y) => [(16 * x + y) as Byte]
  }

  function TextOfPieces(ps: seq<Piece>): string {
    if ps == [] then [] else TextOfPiece(ps[0]) + TextOfPieces(ps[1..])
  }

  function BytesOfPieces(ps: seq<Piece>): seq<Byte> {
    if ps == [] then [] else BytesOfPiece(ps[0]) + BytesOfPieces(ps[1..])
  }

  ghost predicate Spells(ps: seq<Piece>, s: string, bytes: seq<Byte>) {
    (forall p :: p in ps ==> Spelled(p)) && TextOfPieces(ps) == s && BytesOfPieces(ps) == bytes
  }

  lemma FirstPiece(s: string) returns (p: Piece)
    requires s != [] && FromHex(s).Some?
    ensures Spelled(p) && 0 < |TextOfPiece(p)| <= |s| && s == TextOfPiece(p) + s[|TextOfPiece(p)|..]
    ensures FromHex(s[|TextOfPiece(p)|..]).Some?
    ensures FromHex(s).value == BytesOfPiece(p) + FromHex(s[|TextOfPiece(p)|..]).value
  {
    if IsSpace(s[0]) {
      p := Gap(s[0]);
      DigitsExactly(s[0], 0);
    } else {
      p := Pair(s[0], DigitOf(s[0]).value, s[1], DigitOf(s[1]).value);
      DigitsExactly(s[0], p.x);
      DigitsExactly(s[1], p.y);
    }
  }

  lemma {:induction false} ParsedIsSpelled(s: string) returns (ps: seq<Piece>)
    requires FromHex(s).Some?
    ensures Spells(ps, s, FromHex(s).value)
    decreases |s|
  {
    ps := [];
    if s != [] {
      var first := FirstPiece(s);
      var rest := ParsedIsSpelled(s[|TextOfPiece(first)|..]);
      ps := [first] + rest;
      assert ps[1..] == rest;
    }
  }

  lemma GapIsParsed(c: char, rest: string)
    requires IsWhite(c)
    ensures FromHex([c] + rest) == FromHex(rest)
  {
    DigitsExactly(c, 0);
    assert ([c] + rest)[1..] == rest;
  }

  lemma DigitValue(c: char, d: Nibble)
    requires IsDigit(c, d)
    ensures DigitOf(c) == Some(d) && !IsSpace(c)
  {
    DigitsExactly(c, d);
    NoSpaceIsDigit(c);
  }

  lemma PairIsRead(hi: char, x: Nibble, lo: char, y: Nibble, rest: string)
    requires DigitOf(hi) == Some(x) && DigitOf(lo) == Some(y) && !IsSpace(hi) && FromHex(rest).Some?
    ensures FromHex([hi, lo] + rest) == Some([ByteOf(x, y)] + FromHex(rest).value)
  {
    assert ([hi, lo] + rest)[2..] == rest;
  }

  lemma SpelledDigits(p: Piece)
    requires p.Pair? && Spelled(p)
    ensures DigitOf(p.hi) == Some(p.x) && DigitOf(p.lo) == Some(p.y) && !IsSpace(p.hi)
  {
    DigitValue(p.hi, p.x);
    DigitValue(p.lo, p.y);
  }

  lemma PairIsParsed(p: Piece, rest: string)
    requires p.Pair? && Spelled(p) && FromHex(rest).Some?
    ensures FromHex(TextOfPiece(p) + rest) == Some(BytesOfPiece(p) + FromHex(rest).value)
  {
    SpelledDigits(p);
    PairIsRead(p.hi, p.x, p.lo, p.y, rest);
  }

  lemma PieceIsParsed(p: Piece, rest: string)
    requires Spelled(p) && FromHex(rest).Some?
    ensures FromHex(TextOfPiece(p) + rest) == Some(BytesOfPiece(p) + FromHex(rest).value)
  {
    if p.Gap? {
      GapIsParsed(p.c, rest);
      assert [] + FromHex(rest).value == FromHex(rest).value;
    } else {
      PairIsParsed(p, rest);
    }
  }

  lemma {:induction false} SpelledIsParsed(ps: seq<Piece>)
    requires forall p :: p in ps ==> Spelled(p)
    ensures FromHex(TextOfPieces(ps)) == Some(BytesOfPieces(ps))
  {
    if ps != [] {
      assert ps[0] in ps && forall p :: p in ps[1..] ==> p in ps;
      SpelledIsParsed(ps[1..]);
      PieceIsParsed(ps[0], TextOfPieces(ps[1..]));
    }
  }

  /** What parses, and to what: exactly the texts made of pairs of digits, in either case,
      and white space between them. */
  lemma ParsesExactly(s: string, bytes: seq<Byte>)
    ensures FromHex(s) == Some(bytes) <==> exists ps :: Spells(ps, s, bytes)
  {
    if FromHex(s) == Some(bytes) {
      var ps := ParsedIsSpelled(s);
    }
    if ps :| Spells(ps, s, bytes) {
      SpelledIsParsed(ps);
    }
  }

  /** A root is read exactly if what follows the prefix, if it has one, parses to 32 bytes. */
  lemma ReadExactly(text: string, bytes: seq<Byte>)
    ensures AsRootBytes(Text(text)) == Some(bytes)
            <==> |bytes| == 32 && FromHex(if "0x" <= text then text[2..] else text) == Some(bytes)
    ensures AsRootBytes(Raw(bytes)) == if |bytes| == 32 then Some(bytes) else None
  {}
}
