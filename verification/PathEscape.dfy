/**
 `pathEscape` in `sdk/go/client.go`: percent-encoding of one path segment (sections 2.1 and 3.3 of RFC 3986)
 followed by a replacer that puts `@`, `:` and `+` back. Which bytes the encoder leaves alone is a
 parameter, so the results hold both of the Go library's set and of a stricter one.
 */
module PathEscape {
  import opened Common

  type Byte = b: int | 0 <= b < 256

  const PERCENT: Byte := 37    // %
  const HASH: Byte := 35       // #
  const PLUS: Byte := 43       // +
  const SLASH: Byte := 47      // /
  const COLON: Byte := 58      // :
  const QUESTION: Byte := 63   // ?
  const AT: Byte := 64         // @

  /** The bytes an encoder must not pass through. */
  predicate Reserved(b: Byte) {
    b == PERCENT || b == SLASH || b == QUESTION || b == HASH
  }

  /** An encoder, by the bytes it keeps. */
  ghost predicate Encoder(kept: Byte -> bool) {
    forall b :: Reserved(b) ==> !kept(b)
  }

  /** url.PathEscape: the unreserved characters and `$`, `&`, `+`, `=`, `:` and `@`. */
  predicate GoKeeps(b: Byte) {
    || ('a' as int <= b <= 'z' as int) || ('A' as int <= b <= 'Z' as int) || ('0' as int <= b <= '9' as int)
    || b == '-' as int || b == '_' as int || b == '.' as int || b == '~' as int
    || b == '$' as int || b == '&' as int || b == '=' as int || b == PLUS || b == COLON || b == AT
  }

  function HexDigit(n: int): Byte
    requires 0 <= n < 16
  {
    if n < 10 then 48 + n else 55 + n
  }

  function HexValue(b: Byte): Option<int> {
    if 48 <= b <= 57 then Some(b - 48)
    else if 65 <= b <= 70 then Some(b - 55)
    else if 97 <= b <= 102 then Some(b - 87)
    else None
  }

  function EscapeByte(kept: Byte -> bool, b: Byte): seq<Byte> {
    if kept(b) then [b] else [PERCENT, HexDigit(b / 16), HexDigit(b % 16)]
  }

  function Escape(kept: Byte -> bool, s: seq<Byte>): seq<Byte> {
    if s == [] then [] else EscapeByte(kept, s[0]) + Escape(kept, s[1..])
  }

  /** What jidRestorer puts in place of a text starting with one of its three keys. */
  function Restored(s: seq<Byte>): Option<Byte> {
    if |s| < 3 || s[0] != PERCENT then None
    else if s[1] == 52 && s[2] == 48 then Some(AT)       // %40
    else if s[1] == 51 && s[2] == 65 then Some(COLON)    // %3A
    else if s[1] == 50 && s[2] == 66 then Some(PLUS)     // %2B
    else None
  }

  /** jidRestorer.Replace: left to right, without rescanning what it wrote. */
  function Restore(s: seq<Byte>): seq<Byte> {
    if s == [] then []
    else if Restored(s).Some? then [Restored(s).value] + Restore(s[3..])
    else [s[0]] + Restore(s[1..])
  }

  function PathEscape(kept: Byte -> bool, s: seq<Byte>): seq<Byte> {
    Restore(Escape(kept, s))
  }

  /** Percent-decoding of a path segment; None when a `%` is not followed by two hex digits. */
  function Decode(s: seq<Byte>): Option<seq<Byte>> {
    if s == [] then Some([])
    else if s[0] != PERCENT then
      var rest := Decode(s[1..]);
      if rest.None? then None else Some([s[0]] + rest.value)
    else if |s| < 3 || HexValue(s[1]).None? || HexValue(s[2]).None? then None
    else
      var rest := Decode(s[3..]);
      if rest.None? then None else Some([HexValue(s[1]).value * 16 + HexValue(s[2]).value] + rest.value)
  }

  /** Where byte b of the segment ends up: kept, restored, or a whole triple. */
  function Image(kept: Byte -> bool, b: Byte): seq<Byte> {
    if kept(b) || b == AT || b == COLON || b == PLUS then [b] else EscapeByte(kept, b)
  }

  function Images(kept: Byte -> bool, s: seq<Byte>): seq<Byte> {
    if s == [] then [] else Image(kept, s[0]) + Images(kept, s[1..])
  }

  lemma HexDigits(b: Byte)
    ensures HexValue(HexDigit(b / 16)) == Some(b / 16) && HexValue(HexDigit(b % 16)) == Some(b % 16)
    ensures HexDigit(b / 16) != PERCENT && HexDigit(b % 16) != PERCENT
    ensures !Reserved(HexDigit(b / 16)) && !Reserved(HexDigit(b % 16))
  {
  }

  /** On one escaped byte the restorer fires on the whole triple or not at all, and then moves past it. */
  lemma RestoreOne(kept: Byte -> bool, b: Byte, rest: seq<Byte>)
    requires Encoder(kept)
    ensures Restore(EscapeByte(kept, b) + rest) == Image(kept, b) + Restore(rest)
  {
    var s := EscapeByte(kept, b) + rest;
    if kept(b) {
      assert b != PERCENT by { assert Reserved(PERCENT); }
      assert s[1..] == rest;
    } else {
      var h, l := HexDigit(b / 16), HexDigit(b % 16);
      HexDigits(b);
      assert s[0] == PERCENT && s[1] == h && s[2] == l && s[3..] == rest;
      assert b == 16 * (b / 16) + b % 16;
      if Restored(s).Some? {
        assert Restored(s).value == b;
      } else {
        var t := s[1..];
        assert t[0] == h && t[1] == l && t[1..][1..] == rest;
        assert Restored(t).None? && Restored(t[1..]).None?;
        assert Restore(t) == [h] + Restore(t[1..]) && Restore(t[1..]) == [l] + Restore(rest);
      }
    }
  }

  /** The restorer undoes whole triples of the three characters, byte by byte of the original, and nothing else. */
  lemma {:induction false} RestorerFiresOnWholeTriples(kept: Byte -> bool, s: seq<Byte>)
    requires Encoder(kept)
    ensures PathEscape(kept, s) == Images(kept, s)
  {
    if s == [] {
    } else {
      RestoreOne(kept, s[0], Escape(kept, s[1..]));
      RestorerFiresOnWholeTriples(kept, s[1..]);
    }
  }

  lemma DecodeOne(kept: Byte -> bool, b: Byte, rest: seq<Byte>)
    requires Encoder(kept) && Decode(rest).Some?
    ensures Decode(Image(kept, b) + rest) == Some([b] + Decode(rest).value)
  {
  }

  /** Round trip: decoding an escaped segment gives the segment back, for every byte string. */
  lemma {:induction false} DecodeUndoesPathEscape(kept: Byte -> bool, s: seq<Byte>)
    requires Encoder(kept)
    ensures Decode(PathEscape(kept, s)) == Some(s)
  {
    RestorerFiresOnWholeTriples(kept, s);
    DecodeImages(kept, s);
  }

  lemma {:induction false} DecodeImages(kept: Byte -> bool, s: seq<Byte>)
    requires Encoder(kept)
    ensures Decode(Images(kept, s)) == Some(s)
  {
    if s == [] {
    } else {
      DecodeImages(kept, s[1..]);
      DecodeOne(kept, s[0], Images(kept, s[1..]));
      assert [s[0]] + s[1..] == s;
    }
  }

  /** Two different segments never share a path. */
  lemma PathEscapeIsInjective(kept: Byte -> bool, s: seq<Byte>, t: seq<Byte>)
    requires Encoder(kept) && PathEscape(kept, s) == PathEscape(kept, t)
    ensures s == t
  {
    DecodeUndoesPathEscape(kept, s);
    DecodeUndoesPathEscape(kept, t);
  }

  /** The escaped segment stays one segment: no separator, query or fragment mark, and `%` only as the head of a triple. */
  lemma {:induction false} NoSeparatorEscapes(kept: Byte -> bool, s: seq<Byte>, i: nat)
    requires Encoder(kept) && i < |PathEscape(kept, s)|
    ensures var out := PathEscape(kept, s);
            && out[i] != SLASH && out[i] != QUESTION && out[i] != HASH
            && (out[i] == PERCENT ==> i + 2 < |out| && HexValue(out[i + 1]).Some? && HexValue(out[i + 2]).Some?)
  {
    RestorerFiresOnWholeTriples(kept, s);
    ImagesAreSafe(kept, s, i);
  }

  lemma {:induction false} ImagesAreSafe(kept: Byte -> bool, s: seq<Byte>, i: nat)
    requires Encoder(kept) && i < |Images(kept, s)|
    ensures var out := Images(kept, s);
            && out[i] != SLASH && out[i] != QUESTION && out[i] != HASH
            && (out[i] == PERCENT ==> i + 2 < |out| && HexValue(out[i + 1]).Some? && HexValue(out[i + 2]).Some?)
  {
    var head := Image(kept, s[0]);
    assert Reserved(s[0]) ==> !kept(s[0]);
    HexDigits(s[0]);
    if i < |head| {
    } else {
      ImagesAreSafe(kept, s[1..], i - |head|);
    }
  }

  /**
   Go's own encoder already keeps the three characters, so the restorer never fires: it changes no segment
   exactly when the encoder keeps all three.
   */
  lemma RestorerIsIdleIff(kept: Byte -> bool)
    requires Encoder(kept)
    ensures (forall s :: PathEscape(kept, s) == Escape(kept, s)) <==> kept(AT) && kept(COLON) && kept(PLUS)
  {
    if kept(AT) && kept(COLON) && kept(PLUS) {
      forall s ensures PathEscape(kept, s) == Escape(kept, s) {
        RestorerFiresOnWholeTriples(kept, s);
        SameImages(kept, s);
      }
    } else {
      var b: Byte := if !kept(AT) then AT else if !kept(COLON) then COLON else PLUS;
      RestorerFiresOnWholeTriples(kept, [b]);
      assert [b][1..] == [];
      assert Images(kept, [b]) == [b] && |Escape(kept, [b])| == 3;
      assert PathEscape(kept, [b]) != Escape(kept, [b]);
    }
  }

  lemma {:induction false} SameImages(kept: Byte -> bool, s: seq<Byte>)
    requires kept(AT) && kept(COLON) && kept(PLUS)
    ensures Images(kept, s) == Escape(kept, s)
  {
    if s == [] {
    } else {
      SameImages(kept, s[1..]);
    }
  }

  lemma GoEncoderNeedsNoRestorer(s: seq<Byte>)
    ensures PathEscape(GoKeeps, s) == Escape(GoKeeps, s) && Decode(Escape(GoKeeps, s)) == Some(s)
  {
    assert Encoder(GoKeeps);
    RestorerIsIdleIff(GoKeeps);
    DecodeUndoesPathEscape(GoKeeps, s);
  }

  lemma {:induction false} EscapeConcat(kept: Byte -> bool, a: seq<Byte>, b: seq<Byte>)
    requires Encoder(kept)
    ensures PathEscape(kept, a + b) == PathEscape(kept, a) + PathEscape(kept, b)
  {
    RestorerFiresOnWholeTriples(kept, a);
    RestorerFiresOnWholeTriples(kept, b);
    RestorerFiresOnWholeTriples(kept, a + b);
    ImagesConcat(kept, a, b);
  }

  lemma {:induction false} ImagesConcat(kept: Byte -> bool, a: seq<Byte>, b: seq<Byte>)
    ensures Images(kept, a + b) == Images(kept, a) + Images(kept, b)
  {
    if a == [] {
      assert a + b == b;
    } else {
      assert (a + b)[1..] == a[1..] + b;
      ImagesConcat(kept, a[1..], b);
    }
  }

  /**
   Byte by byte: letters, digits, `-`, `_`, `.`, `~`, `$`, `&`, `+`, `=`, `:` and `@` stand for themselves, and any
   other byte becomes `%` and its two upper-case hex digits. EscapeConcat extends it to segments.
   */
  lemma OneByteEscapes(b: Byte)
    ensures var plain := ('a' as int <= b <= 'z' as int) || ('A' as int <= b <= 'Z' as int) || ('0' as int <= b <= '9' as int)
                         || b == '-' as int || b == '_' as int || b == '.' as int || b == '~' as int || b == '$' as int
                         || b == '&' as int || b == '+' as int || b == '=' as int || b == ':' as int || b == '@' as int;
            && |"0123456789ABCDEF"| == 16
            && PathEscape(GoKeeps, [b]) ==
               if plain then [b]
               else ['%' as int, "0123456789ABCDEF"[b / 16] as int, "0123456789ABCDEF"[b % 16] as int]
  {
    assert Encoder(GoKeeps);
    RestorerFiresOnWholeTriples(GoKeeps, [b]);
    assert [b][1..] == [] && Images(GoKeeps, [b]) == Image(GoKeeps, b);
    HexDigitIs(b / 16);
    HexDigitIs(b % 16);
  }

  lemma HexDigitIs(n: int)
    requires 0 <= n < 16
    ensures |"0123456789ABCDEF"| == 16 && HexDigit(n) == "0123456789ABCDEF"[n] as int
  {
    var digits := "0123456789ABCDEF";
    assert digits[0] == '0' && digits[1] == '1' && digits[2] == '2' && digits[3] == '3' && digits[4] == '4' && digits[5] == '5';
    assert digits[6] == '6' && digits[7] == '7' && digits[8] == '8' && digits[9] == '9' && digits[10] == 'A';
    assert digits[11] == 'B' && digits[12] == 'C' && digits[13] == 'D' && digits[14] == 'E' && digits[15] == 'F';
  }
}
