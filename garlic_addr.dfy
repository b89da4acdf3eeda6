/**
 * The I2P garlic address `GarlicAddr`: a 32-byte destination and a virtual
 * port, its log display form, its string parser, and its epee wire object
 * (the field writer and the builder that always refuses).
 */
module GarlicAddress {
  import opened Bytes
  import opened Wrappers
  import Base64
  import Decimal

  /** The stored destination: a fixed 32-byte digest, not the full I2P destination. */
  type Destination = s: seq<byte> | |s| == 32 witness Zeros(32)

  /** An I2P destination with a virtual port; equality is field-wise (derived `Eq`). */
  datatype GarlicAddr = GarlicAddr(destination: Destination, port: u16)
  {
    /** `GarlicAddr::new`: the accessors `destination()` and `port()` give back the arguments. */
    static function New(destination: Destination, port: u16): (a: GarlicAddr)
      ensures a.destination == destination && a.port == port
    {
      GarlicAddr(destination, port)
    }
  }

  // ---------------------------------------------------------------------------
  // Display
  // ---------------------------------------------------------------------------

  /** `Display::fmt`: base 64 of bytes 0..8, `...`, base 64 of bytes 24..32, `:`, the port. */
  function Display(a: GarlicAddr): (d: string)
    ensures |d| == 28 + |Decimal.ToDecimal(a.port)|
    ensures d[12..15] == "..." && d[27] == ':'
  {
    Base64.Encode(a.destination[..8]) + "..." + Base64.Encode(a.destination[24..]) + ":" + Decimal.ToDecimal(a.port)
  }

  /** Where each part of the display form sits: two 12-symbol encodings of 8 bytes
      round `...`, then the only `:`, at index 27, then the port's digits. */
  lemma DisplayLayout(a: GarlicAddr)
    ensures |Display(a)| >= 29
    ensures Display(a)[..12] == Base64.Encode(a.destination[..8])
    ensures Display(a)[12..15] == "..."
    ensures Display(a)[15..27] == Base64.Encode(a.destination[24..])
    ensures Display(a)[27] == ':'
    ensures Display(a)[28..] == Decimal.ToDecimal(a.port)
    ensures forall i :: 0 <= i < |Display(a)| && i != 27 ==> Display(a)[i] != ':'
  {
    var head := Base64.Encode(a.destination[..8]);
    var tail := Base64.Encode(a.destination[24..]);
    var digits := Decimal.ToDecimal(a.port);
    Base64.EncodeHasNoColon(a.destination[..8]);
    Base64.EncodeHasNoColon(a.destination[24..]);
    Decimal.ToDecimalHasNoColon(a.port);
    var s := Display(a);
    assert s == head + "..." + tail + ":" + digits;
    assert |head| == 12 && |tail| == 12;
    forall i | 0 <= i < |s| && i != 27
      ensures s[i] != ':'
    {
      if i < 12 {
        assert s[i] == head[i];
      } else if i < 15 {
        assert s[i] == '.';
      } else if i < 27 {
        assert s[i] == tail[i - 15];
      } else {
        assert s[i] == digits[i - 28];
      }
    }
  }

  /** The display form shows exactly bytes 0..8, bytes 24..32 and the port: two
      addresses display alike if and only if they agree there, so addresses that
      differ only in bytes 8..24 display identically. */
  lemma DisplayEqualIff(a: GarlicAddr, b: GarlicAddr)
    ensures Display(a) == Display(b) <==>
              a.destination[..8] == b.destination[..8] &&
              a.destination[24..] == b.destination[24..] &&
              a.port == b.port
  {
    if Display(a) == Display(b) {
      DisplayLayout(a);
      DisplayLayout(b);
      Base64.EncodeInjective(a.destination[..8], b.destination[..8]);
      Base64.EncodeInjective(a.destination[24..], b.destination[24..]);
      Decimal.ToDecimalInjective(a.port, b.port);
    }
  }

  // ---------------------------------------------------------------------------
  // FromStr
  // ---------------------------------------------------------------------------

  datatype ErrorKind = InvalidInput

  /** `std::io::Error`: a kind and a message. */
  datatype IoError = IoError(kind: ErrorKind, message: string)

  const InvalidFormat := IoError(InvalidInput, "Invalid garlic address format")
  const InvalidPort := IoError(InvalidInput, "Invalid port")

  /** The index of the last `:` in `s`: where `rsplitn(2, ':')` cuts. */
  function LastColon(s: string): (k: Option<nat>)
    ensures k.None? <==> forall i :: 0 <= i < |s| ==> s[i] != ':'
    ensures k.Some? ==> k.value < |s| && s[k.value] == ':' &&
                        forall i :: k.value < i < |s| ==> s[i] != ':'
    decreases |s|
  {
    if s == [] then None
    else if s[|s| - 1] == ':' then Some(|s| - 1)
    else LastColon(s[..|s| - 1])
  }

  /** The destination every successful parse stores: the eight little-endian bytes
      of a hasher's `finish()` value, then 24 zero bytes. */
  function HashedDestination(hash: u64): (d: Destination)
    ensures d[..8] == ToLeBytes(hash) && d[8..] == Zeros(24)
  {
    ToLeBytes(hash) + Zeros(24)
  }

  /**
   * `FromStr::from_str` as written. `emptyHash` is `finish()` of a fresh
   * `DefaultHasher`: the text before the last `:` is hashed into a clone of the
   * hasher, and the untouched original is finished, so the destination does not
   * depend on the text at all.
   */
  function Parse(s: string, emptyHash: u64): (r: Result<GarlicAddr, IoError>)
    ensures r == Err(InvalidFormat) <==> forall i :: 0 <= i < |s| ==> s[i] != ':'
    ensures r.Err? ==> r.error == InvalidFormat || r.error == InvalidPort
    ensures r.Ok? ==> r.value.destination == HashedDestination(emptyHash)
  {
    match LastColon(s)
    case None => Err(InvalidFormat)
    case Some(k) =>
      match Decimal.ParseU16(s[k + 1..])
      case None => Err(InvalidPort)
      case Some(port) => Ok(GarlicAddr.New(HashedDestination(emptyHash), port))
  }

  /** A `:` at index `k` with none after it is the last one. */
  lemma LastColonAt(s: string, k: nat)
    requires k < |s| && s[k] == ':'
    requires forall i :: k < i < |s| ==> s[i] != ':'
    ensures LastColon(s) == Some(k)
  {
  }

  /** Cutting `dest + ":" + port` at its last `:` gives back `dest` and `port`
      when `port` holds no `:`. */
  lemma SplitAtLastColon(dest: string, port: string)
    requires forall i :: 0 <= i < |port| ==> port[i] != ':'
    ensures LastColon(dest + ":" + port) == Some(|dest|)
    ensures (dest + ":" + port)[..|dest|] == dest
    ensures (dest + ":" + port)[|dest| + 1..] == port
  {
    var s := dest + ":" + port;
    forall i | |dest| < i < |s|
      ensures s[i] != ':'
    {
      assert s[i] == port[i - |dest| - 1];
    }
    LastColonAt(s, |dest|);
  }

  /** The split is at the last `:`: whatever comes before it, an empty text or one
      holding more colons, the port is the text after it, read as a `u16`. */
  lemma ParseSplitsAtLastColon(dest: string, port: string, emptyHash: u64)
    requires forall i :: 0 <= i < |port| ==> port[i] != ':'
    ensures Parse(dest + ":" + port, emptyHash) ==
              match Decimal.ParseU16(port)
              case None => Err(InvalidPort)
              case Some(p) => Ok(GarlicAddr(HashedDestination(emptyHash), p))
  {
    SplitAtLastColon(dest, port);
  }

  /** Two successful parses with equal ports give equal addresses. */
  lemma ParseSamePortSameAddr(s: string, t: string, emptyHash: u64)
    ensures Parse(s, emptyHash).Ok? && Parse(t, emptyHash).Ok? &&
            Parse(s, emptyHash).value.port == Parse(t, emptyHash).value.port ==>
              Parse(s, emptyHash) == Parse(t, emptyHash)
  {
  }

  /** The destination text has no effect on the result (the as-written defect). */
  lemma ParseIgnoresDestinationText(dest1: string, dest2: string, port: string, emptyHash: u64)
    requires forall i :: 0 <= i < |port| ==> port[i] != ':'
    ensures Parse(dest1 + ":" + port, emptyHash) == Parse(dest2 + ":" + port, emptyHash)
  {
    ParseSplitsAtLastColon(dest1, port, emptyHash);
    ParseSplitsAtLastColon(dest2, port, emptyHash);
  }

  /** Parsing a display form succeeds and recovers the port; the destination is
      the fixed hashed one, not the original. */
  lemma ParseDisplay(a: GarlicAddr, emptyHash: u64)
    ensures Parse(Display(a), emptyHash) == Ok(GarlicAddr(HashedDestination(emptyHash), a.port))
  {
    var s := Display(a);
    DisplayLayout(a);
    assert s == s[..27] + ":" + s[28..];
    ParseSplitsAtLastColon(s[..27], s[28..], emptyHash);
    Decimal.ParseToDecimal(a.port);
  }

  /**
   * `from_str` step by step: `rsplitn(2, ':')` scans back from the end for the
   * last `:`, the tail is parsed as the port, and the destination is filled in.
   */
  method FromStr(s: string, emptyHash: u64) returns (r: Result<GarlicAddr, IoError>)
    ensures r == Parse(s, emptyHash)
  {
    var k := |s|;
    while k > 0 && s[k - 1] != ':'
      invariant 0 <= k <= |s|
      invariant forall i :: k <= i < |s| ==> s[i] != ':'
      decreases k
    {
      k := k - 1;
    }
    if k == 0 {
      return Err(InvalidFormat);
    }
    LastColonAt(s, k - 1);
    var port := Decimal.ParseU16(s[k..]);
    if port.None? {
      return Err(InvalidPort);
    }
    var destination := FillDestination(emptyHash);
    r := Ok(GarlicAddr.New(destination, port.value));
  }

  /** The destination buffer of `from_str`: a zeroed `[0u8; 32]` whose first eight
      bytes receive the hash bytes by `copy_from_slice`. */
  method FillDestination(hash: u64) returns (d: Destination)
    ensures d == HashedDestination(hash)
  {
    var destination := new byte[32](_ => 0);
    var hashBytes := ToLeBytes(hash);
    var i := 0;
    while i < 8
      invariant 0 <= i <= 8
      invariant forall j :: 0 <= j < i ==> destination[j] == hashBytes[j]
      invariant forall j :: i <= j < 32 ==> destination[j] == 0
    {
      destination[i] := hashBytes[i];
      i := i + 1;
    }
    d := destination[..];
    assert d == HashedDestination(hash) by {
      assert forall j :: 0 <= j < 32 ==> d[j] == HashedDestination(hash)[j];
    }
  }

  /**
   * The parser as evidently intended: the text before the last `:` is hashed
   * into the hasher that is then finished. `hashOf(t)` stands for a fresh
   * `DefaultHasher` fed with `t`, then `finish()`.
   */
  function ParseHashed(s: string, hashOf: string -> u64): (r: Result<GarlicAddr, IoError>)
    ensures r == Err(InvalidFormat) <==> forall i :: 0 <= i < |s| ==> s[i] != ':'
  {
    match LastColon(s)
    case None => Err(InvalidFormat)
    case Some(k) =>
      match Decimal.ParseU16(s[k + 1..])
      case None => Err(InvalidPort)
      case Some(port) => Ok(GarlicAddr.New(HashedDestination(hashOf(s[..k])), port))
  }

  /** The intended parser keeps the port behaviour of the written one, and texts
      whose hashes differ give different addresses. */
  lemma ParseHashedSeparates(dest1: string, dest2: string, port: string, hashOf: string -> u64, emptyHash: u64)
    requires forall i :: 0 <= i < |port| ==> port[i] != ':'
    requires Decimal.ParseU16(port).Some?
    requires hashOf(dest1) != hashOf(dest2)
    ensures ParseHashed(dest1 + ":" + port, hashOf).Ok?
    ensures ParseHashed(dest1 + ":" + port, hashOf).value.port == Parse(dest1 + ":" + port, emptyHash).value.port
    ensures ParseHashed(dest1 + ":" + port, hashOf) != ParseHashed(dest2 + ":" + port, hashOf)
  {
    ParseSplitsAtLastColon(dest1, port, emptyHash);
    SplitAtLastColon(dest1, port);
    SplitAtLastColon(dest2, port);
    ToLeBytesInjective(hashOf(dest1), hashOf(dest2));
    assert HashedDestination(hashOf(dest1)) != HashedDestination(hashOf(dest2)) by {
      assert HashedDestination(hashOf(dest1))[..8] != HashedDestination(hashOf(dest2))[..8];
    }
  }

  /** The intended parser differs from the written one only in the destination:
      it fails exactly when the written one does, with the same error, and on
      success it reads the same port. */
  lemma ParseHashedAgrees(s: string, hashOf: string -> u64, emptyHash: u64)
    ensures ParseHashed(s, hashOf).Err? <==> Parse(s, emptyHash).Err?
    ensures ParseHashed(s, hashOf).Err? ==> ParseHashed(s, hashOf).error == Parse(s, emptyHash).error
    ensures ParseHashed(s, hashOf).Ok? ==> ParseHashed(s, hashOf).value.port == Parse(s, emptyHash).value.port
  {
  }

  // ---------------------------------------------------------------------------
  // The epee wire object
  // ---------------------------------------------------------------------------

  /** The typed values the object writes: a byte string and a `u16`. */
  datatype EpeeValue = ByteString(bytes: seq<byte>) | U16(value: u16)

  /** One field of an epee object: its name and its value. */
  datatype Field = Field(name: string, value: EpeeValue)

  datatype EpeeError = Format(message: string)

  const BuilderNotImplemented := "Garlic address builder not implemented"

  /** `EpeeObject::number_of_fields`. */
  function NumberOfFields(a: GarlicAddr): (n: nat)
    ensures n == 2
  {
    2
  }

  /** The fields of an address, in the order `write_fields` emits them. */
  function ObjectFields(a: GarlicAddr): (fs: seq<Field>)
    ensures |fs| == NumberOfFields(a)
  {
    [Field("destination", ByteString(a.destination)), Field("port", U16(a.port))]
  }

  /** The two written fields determine the address: the encoding loses nothing. */
  lemma ObjectFieldsInjective(a: GarlicAddr, b: GarlicAddr)
    ensures ObjectFields(a) == ObjectFields(b) <==> a == b
  {
    if ObjectFields(a) == ObjectFields(b) {
      assert ObjectFields(a)[0] == ObjectFields(b)[0];
      assert ObjectFields(a)[1] == ObjectFields(b)[1];
    }
  }

  /** The buffer `w: &mut B` that `write_fields` writes to, seen as the ordered
      list of fields written so far. */
  class FieldWriter {
    var fields: seq<Field>

    constructor ()
      ensures fields == []
    {
      fields := [];
    }

    /** `write_field(value, name, w)`: appends one named field. */
    method WriteField(value: EpeeValue, name: string)
      modifies this
      ensures fields == old(fields) + [Field(name, value)]
    {
      fields := fields + [Field(name, value)];
    }
  }

  /** `EpeeObject::write_fields`: `destination` (its 32 bytes), then `port`; as
      many fields as `number_of_fields` declares. */
  method WriteFields(a: GarlicAddr, w: FieldWriter) returns (r: Result<(), EpeeError>)
    modifies w
    ensures r.Ok?
    ensures w.fields == old(w.fields) + ObjectFields(a)
    ensures |w.fields| == |old(w.fields)| + NumberOfFields(a)
  {
    w.WriteField(ByteString(a.destination), "destination");
    w.WriteField(U16(a.port), "port");
    r := Ok(());
  }

  /** The builder, the unit value `()`. */
  datatype Builder = Builder

  /** `EpeeObjectBuilder::add_field`: every field is refused with a format error. */
  function AddField(b: Builder, name: string, value: EpeeValue): (r: Result<(), EpeeError>)
    ensures r.Err? && r.error == Format(BuilderNotImplemented)
  {
    Err(Format(BuilderNotImplemented))
  }

  /** `EpeeObjectBuilder::finish`: never yields an address. */
  function Finish(b: Builder): (r: Result<GarlicAddr, EpeeError>)
    ensures r.Err? && r.error == Format(BuilderNotImplemented)
  {
    Err(Format(BuilderNotImplemented))
  }
}
