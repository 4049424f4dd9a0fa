/** The hand-written scanner for one string value in a streamed JSON chunk, and its unescaper. */
module JsonDelta {
  import opened Wrappers
  import opened Sequences
  import opened Bytes

  const QUOTE: Byte := 34
  const BACKSLASH: Byte := 92
  const COLON: Byte := 58

  /** "content" and "text", with their quotation marks. */
  const CONTENT_KEY: Text := [34, 99, 111, 110, 116, 101, 110, 116, 34]
  const TEXT_KEY: Text := [34, 116, 101, 120, 116, 34]

  predicate IsSpace(c: Byte) {
    c == 32 || c == 9 || c == CR || c == LF
  }

  // ---- code points

  predicate IsHexDigit(c: Byte) {
    48 <= c <= 57 || 65 <= c <= 70 || 97 <= c <= 102
  }

  /** A character that is no hexadecimal digit counts as zero. */
  function HexValue(c: Byte): (v: nat)
    ensures v < 16
  {
    if 48 <= c <= 57 then c - 48
    else if 97 <= c <= 102 then c - 97 + 10
    else if 65 <= c <= 70 then c - 65 + 10
    else 0
  }

  function CodePoint(a: Byte, b: Byte, c: Byte, d: Byte): (cp: nat)
    ensures cp < 0x10000
  {
    ((HexValue(a) * 16 + HexValue(b)) * 16 + HexValue(c)) * 16 + HexValue(d)
  }

  /** The bytes written for a code point; shifts and masks as arithmetic. */
  function Utf8(cp: nat): Text {
    if cp < 0x80 then [cp]
    else if cp < 0x800 then [0xC0 + (cp / 0x40) % 0x20, 0x80 + cp % 0x40]
    else [0xE0 + (cp / 0x1000) % 0x10, 0x80 + (cp / 0x40) % 0x40, 0x80 + cp % 0x40]
  }

  /** The grammar in section 4 of RFC 3629, and the bits in section 3: `s` is the encoding of `cp`. */
  predicate IsUtf8Of(s: Text, cp: nat) {
    || (|s| == 1 && 0 <= s[0] <= 0x7F && cp == s[0])
    || (|s| == 2 && 0xC2 <= s[0] <= 0xDF && IsTail(s[1]) && cp == (s[0] - 0xC0) * 0x40 + (s[1] - 0x80))
    || (|s| == 3 && IsTail(s[1]) && IsTail(s[2])
        && cp == ((s[0] - 0xE0) * 0x40 + (s[1] - 0x80)) * 0x40 + (s[2] - 0x80)
        && ((s[0] == 0xE0 && 0xA0 <= s[1]) || 0xE1 <= s[0] <= 0xEC || (s[0] == 0xED && s[1] <= 0x9F) || 0xEE <= s[0] <= 0xEF))
    || (|s| == 4 && IsTail(s[1]) && IsTail(s[2]) && IsTail(s[3])
        && cp == (((s[0] - 0xF0) * 0x40 + (s[1] - 0x80)) * 0x40 + (s[2] - 0x80)) * 0x40 + (s[3] - 0x80)
        && ((s[0] == 0xF0 && 0x90 <= s[1]) || 0xF1 <= s[0] <= 0xF3 || (s[0] == 0xF4 && s[1] <= 0x8F)))
  }

  predicate IsTail(c: Byte) {
    0x80 <= c <= 0xBF
  }

  predicate IsSurrogate(cp: nat) {
    0xD800 <= cp <= 0xDFFF
  }

  /** The encoding of a code point, in one to four bytes. */
  function Encoding(cp: nat): Text {
    if cp < 0x80 then [cp]
    else if cp < 0x800 then [0xC0 + cp / 0x40, 0x80 + cp % 0x40]
    else if cp < 0x10000 then [0xE0 + cp / 0x40 / 0x40, 0x80 + cp / 0x40 % 0x40, 0x80 + cp % 0x40]
    else [0xF0 + cp / 0x40 / 0x40 / 0x40, 0x80 + cp / 0x40 / 0x40 % 0x40, 0x80 + cp / 0x40 % 0x40, 0x80 + cp % 0x40]
  }

  lemma SixBits(x: nat)
    ensures x == x / 0x40 * 0x40 + x % 0x40 && 0 <= x % 0x40 < 0x40
  {
  }

  /** Every code point but the surrogates has this one encoding. */
  lemma EncodingIsUtf8(cp: nat)
    requires cp < 0x110000
    ensures IsUtf8Of(Encoding(cp), cp) <==> !IsSurrogate(cp)
  {
    SixBits(cp);
    SixBits(cp / 0x40);
    SixBits(cp / 0x40 / 0x40);
  }

  /** The bytes written are the UTF-8 encoding of the code point, except for surrogates, which have none. */
  lemma Utf8Correct(cp: nat)
    requires cp < 0x10000
    ensures Utf8(cp) == Encoding(cp)
    ensures IsUtf8Of(Utf8(cp), cp) <==> !IsSurrogate(cp)
    ensures forall i | 0 <= i < |Utf8(cp)| :: 0 <= Utf8(cp)[i] < 256
  {
    hide IsUtf8Of;
    Utf8IsEncoding(cp);
    EncodingIsUtf8(cp);
  }

  lemma Utf8IsEncoding(cp: nat)
    requires cp < 0x10000
    ensures Utf8(cp) == Encoding(cp) && 1 <= |Encoding(cp)| <= 3
    ensures forall i | 0 <= i < |Encoding(cp)| :: 0 <= Encoding(cp)[i] < 256
  {
    SixBits(cp);
    SixBits(cp / 0x40);
    assert cp / 0x1000 == cp / 0x40 / 0x40;
  }

  // ---- unescaping

  function ShortMeaning(letter: Byte): Byte {
    if letter == 110 then LF else if letter == 114 then CR else if letter == 116 then 9
    else if letter == 98 then 8 else if letter == 102 then 12 else letter
  }

  /** What one turn of the unescape loop writes at position i, and the position of the next turn. */
  function Turn(raw: Text, i: nat): (r: (Text, nat))
    requires i < |raw|
    ensures i < r.1 <= |raw|
  {
    if raw[i] == BACKSLASH && i + 1 < |raw| then
      if raw[i + 1] == 117 then
        if i + 5 < |raw| then (Utf8(CodePoint(raw[i + 2], raw[i + 3], raw[i + 4], raw[i + 5])), i + 6)
        else ([BACKSLASH], i + 1)
      else ([ShortMeaning(raw[i + 1])], i + 2)
    else ([raw[i]], i + 1)
  }

  function UnescapeFrom(raw: Text, i: nat): Text
    requires i <= |raw|
    decreases |raw| - i
  {
    if i == |raw| then [] else Turn(raw, i).0 + UnescapeFrom(raw, Turn(raw, i).1)
  }

  function Unescape(raw: Text): Text {
    UnescapeFrom(raw, 0)
  }

  method UnescapeJsonString(raw: Text) returns (out: Text)
    ensures out == Unescape(raw)
  {
    out := [];
    var i := 0;
    while i < |raw|
      invariant i <= |raw|
      invariant out + UnescapeFrom(raw, i) == Unescape(raw)
    {
      Regroup(out, Turn(raw, i).0, UnescapeFrom(raw, Turn(raw, i).1));
      if raw[i] == BACKSLASH && i + 1 < |raw| {
        var next := raw[i + 1];
        if next == 117 {
          if i + 5 < |raw| {
            var codepoint := 0;
            for k := 2 to 6
              invariant codepoint == if k == 2 then 0 else if k == 3 then HexValue(raw[i + 2])
                                     else if k == 4 then HexValue(raw[i + 2]) * 16 + HexValue(raw[i + 3])
                                     else if k == 5 then (HexValue(raw[i + 2]) * 16 + HexValue(raw[i + 3])) * 16 + HexValue(raw[i + 4])
                                     else CodePoint(raw[i + 2], raw[i + 3], raw[i + 4], raw[i + 5])
            {
              codepoint := codepoint * 16 + HexValue(raw[i + k]);
            }
            out := out + Utf8(codepoint);
            i := i + 5;
          } else {
            out := out + [BACKSLASH];
          }
        } else {
          out := out + [ShortMeaning(next)];
          i := i + 1;
        }
      } else {
        out := out + [raw[i]];
      }
      i := i + 1;
    }
  }

  /** Without a backslash, unescaping changes nothing: the fast path agrees with the slow one. */
  lemma {:induction false} NothingToUnescape(raw: Text, i: nat)
    requires i <= |raw| && BACKSLASH !in raw[i..]
    ensures UnescapeFrom(raw, i) == raw[i..]
    decreases |raw| - i
  {
    if i == |raw| {
    } else {
      assert raw[i..][0] == raw[i] && raw[i..][1..] == raw[i + 1..];
      assert forall c | c in raw[i + 1..] :: c in raw[i..];
      NothingToUnescape(raw, i + 1);
      assert raw[i..] == [raw[i]] + raw[i + 1..];
    }
  }

  lemma {:induction false} UnescapeShift(x: Text, y: Text, k: nat)
    requires k <= |y|
    ensures UnescapeFrom(x + y, |x| + k) == UnescapeFrom(y, k)
    decreases |y| - k
  {
    hide Turn;
    if k == |y| {
    } else {
      TurnShift(x, y, k);
      UnescapeShift(x, y, Turn(y, k).1);
    }
  }

  lemma TurnShift(x: Text, y: Text, k: nat)
    requires k < |y|
    ensures Turn(x + y, |x| + k) == (Turn(y, k).0, |x| + Turn(y, k).1)
  {
    var s := x + y;
    assert forall j | 0 <= j < |y| :: s[|x| + j] == y[j];
  }

  // ---- escaped strings: section 7 of RFC 8259, with any choice of what to escape

  datatype Piece =
    | Plain(b: Byte)
    | Short(letter: Byte)
    | Hex(a: Byte, b1: Byte, c: Byte, d: Byte)
  {
    predicate Valid() {
      match this
      case Plain(b) => b != QUOTE && b != BACKSLASH
      case Short(letter) => letter in [34, 92, 47, 98, 102, 110, 114, 116]
      case Hex(a, b, c, d) => IsHexDigit(a) && IsHexDigit(b) && IsHexDigit(c) && IsHexDigit(d)
    }

    function Written(): Text {
      match this
      case Plain(b) => [b]
      case Short(letter) => [BACKSLASH, letter]
      case Hex(a, b, c, d) => [BACKSLASH, 117, a, b, c, d]
    }

    /** The bytes the unescape loop writes for the piece. */
    function Output(): Text {
      match this
      case Plain(b) => [b]
      case Short(letter) => [ShortMeaning(letter)]
      case Hex(a, b, c, d) => Utf8(CodePoint(a, b, c, d))
    }
  }

  /** The letters that may stand behind a backslash, as text. */
  lemma EscapesAllowed(letter: Byte)
    ensures Short(letter).Valid() <==> letter in Ascii("\"\\/bfnrt")
  {
    var letters := Ascii("\"\\/bfnrt");
    assert letters == [34, 92, 47, 98, 102, 110, 114, 116];
  }

  predicate AllValid(ps: seq<Piece>) {
    forall i | 0 <= i < |ps| :: ps[i].Valid()
  }

  function Written(ps: seq<Piece>): Text {
    if ps == [] then [] else ps[0].Written() + Written(ps[1..])
  }

  function Output(ps: seq<Piece>): Text {
    if ps == [] then [] else ps[0].Output() + Output(ps[1..])
  }

  /** What the loop makes of an escaped string, piece by piece. */
  lemma {:induction false} UnescapeWritten(ps: seq<Piece>)
    requires AllValid(ps)
    ensures Unescape(Written(ps)) == Output(ps)
  {
    if ps == [] {
    } else {
      UnescapePiece(ps[0], Written(ps[1..]));
      UnescapeWritten(ps[1..]);
    }
  }

  lemma UnescapePiece(p: Piece, rest: Text)
    requires p.Valid()
    ensures Unescape(p.Written() + rest) == p.Output() + Unescape(rest)
  {
    var s := p.Written() + rest;
    assert forall j | 0 <= j < |p.Written()| :: s[j] == p.Written()[j];
    assert Turn(s, 0) == (p.Output(), |p.Written()|);
    UnescapeShift(p.Written(), rest, 0);
  }

  // ---- what an escaped string denotes

  /** A decimal digit, or a letter from A or a on. */
  function DigitValue(c: Byte): nat
    requires IsHexDigit(c)
  {
    if c <= 57 then c - 48 else if c <= 70 then 10 + (c - 65) else 10 + (c - 97)
  }

  /** The characters that the letters after a backslash stand for. */
  function LetterValue(letter: Byte): Byte {
    match letter
    case 98 => 8
    case 102 => 12
    case 110 => 10
    case 114 => 13
    case 116 => 9
    case _ => letter
  }

  /** The code unit of an escape with four digits. */
  function Unit(p: Piece): nat
    requires p.Valid() && p.Hex?
  {
    ((DigitValue(p.a) * 16 + DigitValue(p.b1)) * 16 + DigitValue(p.c)) * 16 + DigitValue(p.d)
  }

  predicate IsSurrogatePiece(p: Piece)
    requires p.Valid()
  {
    p.Hex? && IsSurrogate(Unit(p))
  }

  /** A high surrogate and then a low one, which together stand for one character beyond the first 0x10000. */
  predicate StartsPair(ps: seq<Piece>)
    requires AllValid(ps)
  {
    && |ps| >= 2 && ps[0].Hex? && ps[1].Hex?
    && 0xD800 <= Unit(ps[0]) <= 0xDBFF && 0xDC00 <= Unit(ps[1]) <= 0xDFFF
  }

  function PairedPoint(high: nat, low: nat): nat
    requires 0xD800 <= high <= 0xDBFF && 0xDC00 <= low <= 0xDFFF
  {
    0x10000 + (high - 0xD800) * 0x400 + (low - 0xDC00)
  }

  /** What a piece denotes on its own. */
  function Denotation(p: Piece): Text
    requires p.Valid()
  {
    match p
    case Plain(b) => [b]
    case Short(letter) => [LetterValue(letter)]
    case Hex(_, _, _, _) => Encoding(Unit(p))
  }

  function Before(s: Text, rest: Option<Text>): Option<Text> {
    match rest
    case None => None
    case Some(t) => Some(s + t)
  }

  /** The bytes of the string: code points in UTF-8, surrogate pairs joined. An unpaired surrogate stands for
      no character, and then the whole denotes nothing. */
  function Denoted(ps: seq<Piece>): Option<Text>
    requires AllValid(ps)
  {
    if ps == [] then Some([])
    else if StartsPair(ps) then Before(Encoding(PairedPoint(Unit(ps[0]), Unit(ps[1]))), Denoted(ps[2..]))
    else if IsSurrogatePiece(ps[0]) then None
    else Before(Denotation(ps[0]), Denoted(ps[1..]))
  }

  predicate NoSurrogates(ps: seq<Piece>)
    requires AllValid(ps)
  {
    forall i | 0 <= i < |ps| :: !IsSurrogatePiece(ps[i])
  }

  /** The surrogate pairs of the string. */
  function Pairs(ps: seq<Piece>): nat
    requires AllValid(ps)
  {
    if ps == [] then 0 else if StartsPair(ps) then 1 + Pairs(ps[2..]) else Pairs(ps[1..])
  }

  lemma UnitIsCodePoint(p: Piece)
    requires p.Valid() && p.Hex?
    ensures Unit(p) == CodePoint(p.a, p.b1, p.c, p.d) < 0x10000
  {
  }

  lemma PieceOutput(p: Piece)
    requires p.Valid()
    ensures p.Output() == Denotation(p)
    ensures IsSurrogatePiece(p) ==> |p.Output()| == 3
  {
    hide CodePoint;
    if p.Hex? {
      UnitIsCodePoint(p);
      Utf8IsEncoding(Unit(p));
    }
  }

  /** Where the string denotes anything, the loop writes two bytes too many for each surrogate pair. */
  lemma {:induction false} OutputExceeds(ps: seq<Piece>)
    requires AllValid(ps)
    ensures NoSurrogates(ps) ==> Denoted(ps) == Some(Output(ps))
    ensures Denoted(ps).Some? ==> |Output(ps)| == |Denoted(ps).value| + 2 * Pairs(ps)
    ensures Denoted(ps).Some? && !NoSurrogates(ps) ==> Pairs(ps) > 0
  {
    hide Piece.Output, Denotation, Encoding, Unit;
    if ps == [] {
    } else if StartsPair(ps) {
      assert IsSurrogatePiece(ps[0]) && IsSurrogatePiece(ps[1]);
      PieceOutput(ps[0]);
      PieceOutput(ps[1]);
      FourBytes(PairedPoint(Unit(ps[0]), Unit(ps[1])));
      OutputExceeds(ps[2..]);
      assert ps[1..][0] == ps[1] && ps[1..][1..] == ps[2..];
      assert Output(ps) == ps[0].Output() + (ps[1].Output() + Output(ps[2..]));
    } else {
      PieceOutput(ps[0]);
      OutputExceeds(ps[1..]);
      assert NoSurrogates(ps) <==> !IsSurrogatePiece(ps[0]) && NoSurrogates(ps[1..]) by {
        NoSurrogatesFirst(ps);
      }
    }
  }

  lemma NoSurrogatesFirst(ps: seq<Piece>)
    requires AllValid(ps) && ps != []
    ensures NoSurrogates(ps) <==> !IsSurrogatePiece(ps[0]) && NoSurrogates(ps[1..])
  {
    assert forall i | 0 < i < |ps| :: ps[i] == ps[1..][i - 1];
  }

  lemma FourBytes(cp: nat)
    ensures cp >= 0x10000 ==> |Encoding(cp)| == 4
  {
  }

  /** Unescaping gives back the string that was escaped if and only if no surrogate was written as an escape. */
  lemma UnescapeInverts(ps: seq<Piece>)
    requires AllValid(ps)
    ensures Denoted(ps) == Some(Unescape(Written(ps))) <==> NoSurrogates(ps)
  {
    UnescapeWritten(ps);
    OutputExceeds(ps);
  }

  /** A grinning face, escaped as a surrogate pair, comes out as two three-byte sequences that are no UTF-8. */
  lemma PairMisread(ps: seq<Piece>)
    requires ps == [Hex(100, 56, 51, 100), Hex(100, 101, 48, 48)]
    ensures AllValid(ps) && Denoted(ps) == Some([0xF0, 0x9F, 0x98, 0x80])
    ensures Unescape(Written(ps)) == [0xED, 0xA0, 0xBD, 0xED, 0xB8, 0x80]
  {
    hide Piece.Output, Encoding, Unit;
    FaceUnits(ps[0], ps[1]);
    assert ps[1..] == [ps[1]] && [ps[1]][1..] == [] && ps[2..] == [];
    UnescapeWritten(ps);
    assert Output([ps[1]]) == ps[1].Output() + [];
    var face: Text := [0xF0, 0x9F, 0x98, 0x80];
    assert face + [] == face;
    assert StartsPair(ps) && Denoted(ps) == Before(face, Denoted(ps[2..]));
  }

  lemma FaceUnits(high: Piece, low: Piece)
    requires high == Hex(100, 56, 51, 100) && low == Hex(100, 101, 48, 48)
    ensures Unit(high) == 0xD83D && Unit(low) == 0xDE00 && Encoding(PairedPoint(0xD83D, 0xDE00)) == [0xF0, 0x9F, 0x98, 0x80]
    ensures high.Output() == [0xED, 0xA0, 0xBD] && low.Output() == [0xED, 0xB8, 0x80]
  {
    assert PairedPoint(0xD83D, 0xDE00) == 0x1F600;
    assert CodePoint(100, 56, 51, 100) == 0xD83D && CodePoint(100, 101, 48, 48) == 0xDE00;
  }

  function DigitOrZero(c: Byte): nat {
    if IsHexDigit(c) then DigitValue(c) else 0
  }

  lemma UnescapeTurn(head: Text, rest: Text)
    requires head != [] && Turn(head + rest, 0).1 == |head|
    ensures Unescape(head + rest) == Turn(head + rest, 0).0 + Unescape(rest)
  {
    hide Turn;
    UnescapeShift(head, rest, 0);
  }

  /** Outside the grammar: a backslash at the end stays; one before a letter without meaning is dropped; one
      before a `u` with too little behind it stays; and what is no digit counts as zero. */
  lemma StrayEscapes(c: Byte, d1: Byte, d2: Byte, d3: Byte, d4: Byte, rest: Text)
    ensures Unescape(Ascii("\\")) == Ascii("\\")
    ensures c !in Ascii("bfnrtu") ==> Unescape(Ascii("\\") + [c] + rest) == [c] + Unescape(rest)
    ensures |rest| < 4 ==> Unescape(Ascii("\\") + (Ascii("u") + rest)) == Ascii("\\") + Unescape(Ascii("u") + rest)
    ensures Unescape((Ascii("\\u") + [d1, d2, d3, d4]) + rest) ==
            Encoding(((DigitOrZero(d1) * 16 + DigitOrZero(d2)) * 16 + DigitOrZero(d3)) * 16 + DigitOrZero(d4)) + Unescape(rest)
  {
    hide UnescapeFrom, Encoding, Utf8;
    assert Ascii("\\") == [BACKSLASH] && Ascii("u") == [117] && Ascii("\\u") == [BACKSLASH, 117];
    LoneBackslash();
    if c !in Ascii("bfnrtu") {
      NoMeaning(c);
      UnescapeTurn(Ascii("\\") + [c], rest);
    }
    if |rest| < 4 {
      UnescapeTurn(Ascii("\\"), Ascii("u") + rest);
    }
    DigitsOrZero(d1);
    DigitsOrZero(d2);
    DigitsOrZero(d3);
    DigitsOrZero(d4);
    Utf8IsEncoding(CodePoint(d1, d2, d3, d4));
    UnescapeTurn(Ascii("\\u") + [d1, d2, d3, d4], rest);
  }

  lemma DigitsOrZero(c: Byte)
    ensures HexValue(c) == DigitOrZero(c)
  {
  }

  lemma LoneBackslash()
    ensures Unescape([BACKSLASH]) == [BACKSLASH]
  {
    NothingLeft();
    UnescapeTurn([BACKSLASH], []);
    assert [BACKSLASH] + [] == [BACKSLASH];
  }

  lemma NothingLeft()
    ensures Unescape([]) == []
  {
  }

  lemma NoMeaning(c: Byte)
    requires c !in Ascii("bfnrtu")
    ensures ShortMeaning(c) == c && c != 117
  {
    var letters := Ascii("bfnrtu");
    assert letters[0] == 98 && letters[1] == 102 && letters[2] == 110 && letters[3] == 114 && letters[4] == 116 && letters[5] == 117;
  }

  // ---- finding the value

  /** The first position at or after i that holds no white space. */
  function SkipSpace(s: Text, i: nat): (j: nat)
    requires i <= |s|
    ensures i <= j <= |s| && AllSpace(s, i, j) && (j < |s| ==> !IsSpace(s[j]))
    decreases |s| - i
  {
    if i < |s| && IsSpace(s[i]) then SkipSpace(s, i + 1) else i
  }

  predicate AllSpace(s: Text, i: nat, j: nat)
    requires i <= j <= |s|
  {
    forall m | i <= m < j :: IsSpace(s[m])
  }

  /** Where the scan for the closing quotation mark stops: at one, or beyond the end. */
  function ScanString(s: Text, i: nat): (j: nat)
    ensures j >= i && (j < |s| ==> s[j] == QUOTE)
    decreases |s| - i
  {
    if i >= |s| then i
    else if s[i] == BACKSLASH then ScanString(s, i + 2)
    else if s[i] == QUOTE then i
    else ScanString(s, i + 1)
  }

  /** The string value after a key that ends at position i, if any. */
  function ValueAt(s: Text, i: nat): Option<Text>
    requires i <= |s|
  {
    var colon := SkipSpace(s, i);
    if colon == |s| || s[colon] != COLON then None
    else
      var open := SkipSpace(s, colon + 1);
      if open == |s| || s[open] != QUOTE then None
      else
        var close := ScanString(s, open + 1);
        if close >= |s| then None else Some(Unescape(s[open + 1..close]))
  }

  /** The value found for a key in a chunk, if any. */
  function Extract(key: Text, chunk: Text): Option<Text> {
    match Find(chunk, key, 0)
    case None => None
    case Some(at) => ValueAt(chunk, at + |key|)
  }

  method SkipSpaces(s: Text, i: nat) returns (pos: nat)
    requires i <= |s|
    ensures pos == SkipSpace(s, i)
  {
    pos := i;
    while pos < |s| && IsSpace(s[pos])
      invariant pos <= |s| && SkipSpace(s, pos) == SkipSpace(s, i)
    {
      pos := pos + 1;
    }
  }

  /** The loop over the string value; it also notes whether it met a backslash. */
  method ScanValue(chunk: Text, start: nat) returns (pos: nat, hasEscapes: bool)
    requires start <= |chunk|
    ensures pos == ScanString(chunk, start)
    ensures !hasEscapes && pos < |chunk| ==> BACKSLASH !in chunk[start..pos]
  {
    pos, hasEscapes := start, false;
    while pos < |chunk|
      invariant start <= pos && ScanString(chunk, pos) == ScanString(chunk, start)
      invariant !hasEscapes ==> pos <= |chunk| && forall m | start <= m < pos :: chunk[m] != BACKSLASH
    {
      if chunk[pos] == BACKSLASH {
        hasEscapes := true;
        pos := pos + 2;
      } else if chunk[pos] == QUOTE {
        break;
      } else {
        pos := pos + 1;
      }
    }
  }

  /** The string that opens before position `start`, without its quotation marks. */
  method ReadString(chunk: Text, start: nat) returns (found: bool, content: Text)
    requires start <= |chunk|
    ensures found == (ScanString(chunk, start) < |chunk|)
    ensures found ==> content == Unescape(chunk[start..ScanString(chunk, start)])
  {
    hide UnescapeFrom, ScanString;
    var close, hasEscapes := ScanValue(chunk, start);
    if close >= |chunk| || chunk[close] != QUOTE {
      return false, [];
    }
    var raw := chunk[start..close];
    if !hasEscapes {
      NothingToUnescape(raw, 0);
      assert raw[0..] == raw;
      return true, raw;
    }
    content := UnescapeJsonString(raw);
    return true, content;
  }

  method ExtractString(key: Text, chunk: Text) returns (found: bool, content: Text)
    ensures found == Extract(key, chunk).Some?
    ensures found ==> content == Extract(key, chunk).value
  {
    hide UnescapeFrom, ScanString, SkipSpace, Find;
    content := [];
    var at := Find(chunk, key, 0);
    if at == None {
      return false, [];
    }
    var pos := SkipSpaces(chunk, at.value + |key|);
    if pos >= |chunk| || chunk[pos] != COLON {
      return false, [];
    }
    pos := SkipSpaces(chunk, pos + 1);
    if pos >= |chunk| || chunk[pos] != QUOTE {
      return false, [];
    }
    found, content := ReadString(chunk, pos + 1);
  }

  method ExtractDeltaContent(chunk: Text) returns (found: bool, content: Text)
    ensures found == Extract(CONTENT_KEY, chunk).Some?
    ensures found ==> content == Extract(CONTENT_KEY, chunk).value
  {
    found, content := ExtractString(CONTENT_KEY, chunk);
  }

  method ExtractAnthropicTextDelta(chunk: Text) returns (found: bool, content: Text)
    ensures found == Extract(TEXT_KEY, chunk).Some?
    ensures found ==> content == Extract(TEXT_KEY, chunk).value
  {
    found, content := ExtractString(TEXT_KEY, chunk);
  }

  // ---- the closing quotation mark is the first unescaped one

  /** How many backslashes stand directly before position i, not counting any before `from`. */
  function Backslashes(s: Text, from: nat, i: nat): nat
    requires from <= i <= |s|
  {
    if i > from && s[i - 1] == BACKSLASH then 1 + Backslashes(s, from, i - 1) else 0
  }

  /** A quotation mark preceded by an even number of backslashes. */
  predicate UnescapedQuote(s: Text, from: nat, i: nat)
    requires from <= i < |s|
  {
    s[i] == QUOTE && Backslashes(s, from, i) % 2 == 0
  }

  predicate ClosesAt(s: Text, from: nat, close: nat) {
    && from <= close < |s| && UnescapedQuote(s, from, close)
    && forall i | from <= i < close :: !UnescapedQuote(s, from, i)
  }

  lemma {:induction false} ScanFindsQuote(s: Text, from: nat, i: nat)
    requires from <= i <= |s| && Backslashes(s, from, i) % 2 == 0
    requires forall m | from <= m < i :: !UnescapedQuote(s, from, m)
    ensures ScanString(s, i) < |s| ==> ClosesAt(s, from, ScanString(s, i))
    ensures ScanString(s, i) >= |s| ==> forall m | from <= m < |s| :: !UnescapedQuote(s, from, m)
    decreases |s| - i
  {
    if i == |s| {
    } else {
      if s[i] == BACKSLASH {
        assert Backslashes(s, from, i + 1) == 1 + Backslashes(s, from, i);
        assert !UnescapedQuote(s, from, i);
        if i + 1 < |s| {
          assert !UnescapedQuote(s, from, i + 1);
          assert Backslashes(s, from, i + 2) == if s[i + 1] == BACKSLASH then 1 + Backslashes(s, from, i + 1) else 0;
          ScanFindsQuote(s, from, i + 2);
        }
      } else if s[i] != QUOTE {
        assert Backslashes(s, from, i + 1) == 0;
        ScanFindsQuote(s, from, i + 1);
      }
    }
  }

  /** The parts of a chunk in which the value of a key is found. */
  predicate Located(key: Text, s: Text, at: nat, colon: nat, open: nat, close: nat) {
    && Find(s, key, 0) == Some(at)
    && Leads(s, at + |key|, colon, open)
    && ClosesAt(s, open + 1, close)
  }

  /** A value is found exactly when the first occurrence of the key is followed, up to white space, by a
      colon and a string with a closing quotation mark; the value is what that string stands for. */
  lemma ExtractLocates(key: Text, s: Text)
    ensures Extract(key, s).Some? <==> exists at: nat, colon: nat, open: nat, close: nat :: Located(key, s, at, colon, open, close)
    ensures forall at: nat, colon: nat, open: nat, close: nat | Located(key, s, at, colon, open, close) ::
              Extract(key, s) == Some(Unescape(s[open + 1..close]))
  {
    hide Extract, Unescape;
    forall at: nat, colon: nat, open: nat, close: nat | Located(key, s, at, colon, open, close)
      ensures Extract(key, s) == Some(Unescape(s[open + 1..close]))
    {
      LocatedExtracts(key, s, at, colon, open, close);
    }
    if Extract(key, s).Some? {
      var at, colon, open, close := ExtractedLocated(key, s);
    }
  }

  lemma ExtractedLocated(key: Text, s: Text) returns (at: nat, colon: nat, open: nat, close: nat)
    requires Extract(key, s).Some?
    ensures Located(key, s, at, colon, open, close)
  {
    hide SkipSpace, ScanString, UnescapeFrom, AllSpace, ClosesAt, Find;
    at := Find(s, key, 0).value;
    colon := SkipSpace(s, at + |key|);
    open := SkipSpace(s, colon + 1);
    close := ScanString(s, open + 1);
    ScanFindsQuote(s, open + 1, open + 1);
  }

  /** From position i on, a colon and an opening quotation mark stand at the given positions, with only
      white space around them. */
  predicate Leads(s: Text, i: nat, colon: nat, open: nat) {
    && i <= colon < open < |s|
    && AllSpace(s, i, colon) && s[colon] == COLON
    && AllSpace(s, colon + 1, open) && s[open] == QUOTE
  }

  lemma ValueIs(s: Text, i: nat, colon: nat, open: nat)
    requires Leads(s, i, colon, open)
    ensures ValueAt(s, i) == if ScanString(s, open + 1) < |s| then Some(Unescape(s[open + 1..ScanString(s, open + 1)])) else None
  {
    SkipStops(s, i, colon);
    SkipStops(s, colon + 1, open);
  }

  lemma LocatedExtracts(key: Text, s: Text, at: nat, colon: nat, open: nat, close: nat)
    requires Located(key, s, at, colon, open, close)
    ensures Extract(key, s) == Some(Unescape(s[open + 1..close]))
  {
    ScanFindsQuote(s, open + 1, open + 1);
    assert ScanString(s, open + 1) == close;
    ValueIs(s, at + |key|, colon, open);
  }

  lemma SkipStops(s: Text, i: nat, j: nat)
    requires i <= j < |s| && AllSpace(s, i, j) && !IsSpace(s[j])
    ensures SkipSpace(s, i) == j
  {
    var k := SkipSpace(s, i);
  }

  /** The keys, and the white space that may stand around the colon, as text. */
  lemma KeysAndSpaces(c: Byte)
    ensures CONTENT_KEY == Ascii("\"content\"") && TEXT_KEY == Ascii("\"text\"")
    ensures [QUOTE] == Ascii("\"") && [COLON] == Ascii(":") && [BACKSLASH] == Ascii("\\")
    ensures IsSpace(c) <==> c in Ascii(" \t\r\n")
  {
    var spaces := Ascii(" \t\r\n");
    assert spaces == [32, 9, 13, 10];
  }

  // ---- the round trip

  /** What stands before the escaped string: anything, the key, a colon and a quotation mark, with white
      space between. */
  function Head(pre: Text, key: Text, space1: Text, space2: Text): Text {
    pre + key + space1 + [COLON] + space2 + [QUOTE]
  }

  /** A chunk that carries an escaped string as the value of a key. */
  function Chunk(pre: Text, key: Text, space1: Text, space2: Text, ps: seq<Piece>, post: Text): Text {
    Head(pre, key, space1, space2) + (Written(ps) + ([QUOTE] + post))
  }

  lemma HeadLayout(pre: Text, key: Text, space1: Text, space2: Text, rest: Text)
    requires AllSpace(space1, 0, |space1|) && AllSpace(space2, 0, |space2|)
    ensures var colon := |pre| + |key| + |space1|;
            var open := colon + 1 + |space2|;
            && |Head(pre, key, space1, space2)| == open + 1
            && Leads(Head(pre, key, space1, space2) + rest, |pre| + |key|, colon, open)
  {
    var s := Head(pre, key, space1, space2) + rest;
    var a := |pre| + |key|;
    var colon := a + |space1|;
    var open := colon + 1 + |space2|;
    forall m | a <= m < colon
      ensures IsSpace(s[m])
    {
      assert s[m] == space1[m - a];
    }
    forall m | colon + 1 <= m < open
      ensures IsSpace(s[m])
    {
      assert s[m] == space2[m - (colon + 1)];
    }
  }

  lemma ChunkValue(pre: Text, key: Text, space1: Text, space2: Text, ps: seq<Piece>, post: Text)
    requires AllValid(ps)
    requires AllSpace(space1, 0, |space1|) && AllSpace(space2, 0, |space2|)
    ensures var s := Chunk(pre, key, space1, space2, ps, post);
            |pre| + |key| <= |s| && ValueAt(s, |pre| + |key|) == Some(Output(ps))
  {
    hide ValueAt, Head, Output, Written, AllSpace, AllValid, Leads;
    var head, tail := Head(pre, key, space1, space2), [QUOTE] + post;
    var colon := |pre| + |key| + |space1|;
    HeadLayout(pre, key, space1, space2, Written(ps) + tail);
    WrittenValue(head, ps, tail, |pre| + |key|, colon, colon + 1 + |space2|);
  }

  lemma WrittenValue(head: Text, ps: seq<Piece>, tail: Text, i: nat, colon: nat, open: nat)
    requires AllValid(ps) && tail != [] && tail[0] == QUOTE
    requires Leads(head + (Written(ps) + tail), i, colon, open) && open + 1 == |head|
    ensures ValueAt(head + (Written(ps) + tail), i) == Some(Output(ps))
  {
    ScanWritten(head, ps, tail);
    ValueBetween(head, Written(ps), tail, i, colon, open);
    UnescapeWritten(ps);
  }

  lemma ValueBetween(head: Text, w: Text, tail: Text, i: nat, colon: nat, open: nat)
    requires Leads(head + (w + tail), i, colon, open) && open + 1 == |head| && tail != []
    requires ScanString(head + (w + tail), |head|) == |head| + |w|
    ensures ValueAt(head + (w + tail), i) == Some(Unescape(w))
  {
    ValueIs(head + (w + tail), i, colon, open);
    MiddleOf(head, w, tail);
  }

  /** Whatever way the string is escaped, it is extracted, as the string it denotes if and only if no surrogate
      was written as an escape. */
  lemma DeltaRoundTrip(pre: Text, key: Text, space1: Text, space2: Text, ps: seq<Piece>, post: Text)
    requires AllValid(ps)
    requires AllSpace(space1, 0, |space1|) && AllSpace(space2, 0, |space2|)
    requires Find(Chunk(pre, key, space1, space2, ps, post), key, 0) == Some(|pre|)
    ensures Extract(key, Chunk(pre, key, space1, space2, ps, post)) == Some(Output(ps))
    ensures Extract(key, Chunk(pre, key, space1, space2, ps, post)) == Denoted(ps) <==> NoSurrogates(ps)
  {
    hide ValueAt, Chunk, Output, AllSpace, AllValid, Denoted, NoSurrogates;
    ChunkValue(pre, key, space1, space2, ps, post);
    UnescapeWritten(ps);
    UnescapeInverts(ps);
  }

  lemma MiddleOf(a: Text, b: Text, c: Text)
    ensures (a + (b + c))[|a|..|a| + |b|] == b
  {
  }

  /** The scan passes over an escaped string and stops at the quotation mark after it. */
  lemma {:induction false} ScanWritten(head: Text, ps: seq<Piece>, tail: Text)
    requires AllValid(ps) && tail != [] && tail[0] == QUOTE
    ensures ScanString(head + (Written(ps) + tail), |head|) == |head| + |Written(ps)|
    decreases |ps|
  {
    hide ScanString, Piece.Written, Piece.Valid, Written;
    if ps == [] {
      assert Written(ps) + tail == tail by {
        NothingWritten(tail);
      }
      assert (head + tail)[|head|] == tail[0];
      ScanStops(head + tail, |head|);
    } else {
      var p, more := ps[0].Written(), Written(ps[1..]);
      FirstWritten(ps);
      Regroup(p, more, tail);
      ScanOver(head, ps[0], more + tail);
      ScanWritten(head + p, ps[1..], tail);
    }
  }

  lemma NothingWritten(tail: Text)
    ensures Written([]) == [] && Written([]) + tail == tail
  {
  }

  lemma FirstWritten(ps: seq<Piece>)
    requires ps != []
    ensures Written(ps) == ps[0].Written() + Written(ps[1..])
  {
  }

  lemma ScanOver(head: Text, p: Piece, rest: Text)
    requires p.Valid()
    ensures ScanString(head + (p.Written() + rest), |head|) == ScanString((head + p.Written()) + rest, |head + p.Written()|)
  {
    hide ScanString, Piece.Written, Piece.Valid;
    Regroup(head, p.Written(), rest);
    MiddleOf(head, p.Written(), rest);
    ScanPiece(head + (p.Written() + rest), |head|, p);
  }

  lemma ScanStops(s: Text, i: nat)
    requires i < |s| && s[i] == QUOTE
    ensures ScanString(s, i) == i
  {
  }

  lemma ScanPiece(s: Text, i: nat, p: Piece)
    requires p.Valid() && i + |p.Written()| <= |s| && s[i..i + |p.Written()|] == p.Written()
    ensures ScanString(s, i) == ScanString(s, i + |p.Written()|)
  {
    var w := s[i..i + |p.Written()|];
    assert w[0] == s[i];
    if p.Hex? {
      assert w[2] == s[i + 2] && w[3] == s[i + 3] && w[4] == s[i + 4] && w[5] == s[i + 5];
      assert ScanString(s, i + 2) == ScanString(s, i + 3) == ScanString(s, i + 4) == ScanString(s, i + 5);
    }
  }
}
