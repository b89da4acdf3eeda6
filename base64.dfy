/**
 * Base 64 encoding with the standard alphabet and `=` padding, as section 4 of
 * RFC 4648 defines it, with a decoder that inverts it.
 */
module Base64 {
  import opened Bytes
  import opened Wrappers

  /** A symbol of the standard alphabet (table 1 of RFC 4648). */
  predicate IsSymbol(c: char)
  {
    'A' <= c <= 'Z' || 'a' <= c <= 'z' || '0' <= c <= '9' || c == '+' || c == '/'
  }

  const Pad: char := '='

  /** The 6-bit value a symbol stands for. */
  function ValueOf(c: char): (v: nat)
    requires IsSymbol(c)
    ensures v < 64
  {
    if 'A' <= c <= 'Z' then c as int - 'A' as int
    else if 'a' <= c <= 'z' then c as int - 'a' as int + 26
    else if '0' <= c <= '9' then c as int - '0' as int + 52
    else if c == '+' then 62
    else 63
  }

  /** The symbol for a 6-bit value: A-Z, a-z, 0-9, then + and /. */
  function Symbol(v: nat): (c: char)
    requires v < 64
    ensures IsSymbol(c) && ValueOf(c) == v
  {
    if v < 26 then ('A' as int + v) as char
    else if v < 52 then ('a' as int + v - 26) as char
    else if v < 62 then ('0' as int + v - 52) as char
    else if v == 62 then '+'
    else '/'
  }

  /** Four symbols for three bytes: the 24 bits cut into 6-bit groups, high first. */
  function Quantum(b0: byte, b1: byte, b2: byte): string
  {
    [Symbol(b0 / 4), Symbol((b0 % 4) * 16 + b1 / 16), Symbol((b1 % 16) * 4 + b2 / 64), Symbol(b2 % 64)]
  }

  /** Encoding of bytes; a final group of one or two bytes is padded with `=`. */
  function Encode(bs: seq<byte>): (s: string)
    ensures |s| == 4 * ((|bs| + 2) / 3)
    ensures forall i :: 0 <= i < |s| ==> IsSymbol(s[i]) || s[i] == Pad
    decreases |bs|
  {
    if |bs| >= 3 then Quantum(bs[0], bs[1], bs[2]) + Encode(bs[3..])
    else if |bs| == 2 then [Symbol(bs[0] / 4), Symbol((bs[0] % 4) * 16 + bs[1] / 16), Symbol((bs[1] % 16) * 4), Pad]
    else if |bs| == 1 then [Symbol(bs[0] / 4), Symbol((bs[0] % 4) * 16), Pad, Pad]
    else []
  }

  /** Decoding: `None` for a length that is not a multiple of four, a character
      outside the alphabet, or padding anywhere but in the last quantum. */
  function Decode(s: string): (r: Option<seq<byte>>)
    decreases |s|
  {
    if |s| == 0 then Some([])
    else if |s| < 4 || !IsSymbol(s[0]) || !IsSymbol(s[1]) then None
    else
      var v0, v1 := ValueOf(s[0]), ValueOf(s[1]);
      var b0: byte := v0 * 4 + v1 / 16;
      if |s| == 4 && s[2] == Pad && s[3] == Pad then Some([b0])
      else if !IsSymbol(s[2]) then None
      else
        var v2 := ValueOf(s[2]);
        var b1: byte := (v1 % 16) * 16 + v2 / 4;
        if |s| == 4 && s[3] == Pad then Some([b0, b1])
        else if !IsSymbol(s[3]) then None
        else
          var b2: byte := (v2 % 4) * 64 + ValueOf(s[3]);
          match Decode(s[4..])
          case None => None
          case Some(rest) => Some([b0, b1, b2] + rest)
  }

  /** Decoding undoes encoding, for every byte string. */
  lemma {:induction false} DecodeEncode(bs: seq<byte>)
    ensures Decode(Encode(bs)) == Some(bs)
    decreases |bs|
  {
    if |bs| >= 3 {
      var s := Encode(bs);
      assert s[4..] == Encode(bs[3..]);
      DecodeEncode(bs[3..]);
      SextetsRecombine(bs[0], bs[1], bs[2]);
      assert bs == [bs[0], bs[1], bs[2]] + bs[3..];
    } else if |bs| == 2 {
      SextetsRecombine(bs[0], bs[1], 0);
      assert bs == [bs[0], bs[1]];
    } else if |bs| == 1 {
      SextetsRecombine(bs[0], 0, 0);
      assert bs == [bs[0]];
    }
  }

  /** The bit arithmetic of one quantum: the 6-bit groups reassemble the bytes. */
  lemma SextetsRecombine(b0: byte, b1: byte, b2: byte)
    ensures (b0 / 4) * 4 + ((b0 % 4) * 16 + b1 / 16) / 16 == b0
    ensures (((b0 % 4) * 16 + b1 / 16) % 16) * 16 + ((b1 % 16) * 4 + b2 / 64) / 4 == b1
    ensures (((b1 % 16) * 4 + b2 / 64) % 4) * 64 + b2 % 64 == b2
  {
  }

  /** The encoding of a byte string determines the byte string. */
  lemma EncodeInjective(a: seq<byte>, b: seq<byte>)
    ensures Encode(a) == Encode(b) <==> a == b
  {
    if Encode(a) == Encode(b) {
      DecodeEncode(a);
      DecodeEncode(b);
    }
  }

  /** No encoding contains a `:`, so it can sit before a `:` separator. */
  lemma EncodeHasNoColon(bs: seq<byte>)
    ensures forall i :: 0 <= i < |Encode(bs)| ==> Encode(bs)[i] != ':'
  {
  }
}
