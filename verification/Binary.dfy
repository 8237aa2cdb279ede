/** What the CBOR and MessagePack codecs share: reading and writing big-endian numbers,
    the bounds check for strings, and the widening of short floating-point formats. */
module Binary {
  import opened Bytes
  import opened Results
  import opened Json

  /** No vector of bytes is longer (`max_size`). */
  const MAX_SIZE: int := 0x7FFF_FFFF_FFFF_FFFF

  type Decoded<+T> = Result<(T, nat)>

  /** The byte vector that the encoders append to. */
  class Output {
    var bytes: Text

    constructor ()
      ensures bytes == []
    {
      bytes := [];
    }

    method PushBack(b: byte)
      modifies this
      ensures bytes == old(bytes) + [b]
    {
      bytes := bytes + [b];
    }

    method Append(s: Text)
      modifies this
      ensures bytes == old(bytes) + s
    {
      bytes := bytes + s;
    }

    /** `add_to_vector`: the bytes of a number, the most significant first. */
    method AddToVector(width: nat, number: int)
      requires width in {1, 2, 4, 8}
      modifies this
      ensures bytes == old(bytes) + BigEndian(number, width)
    {
      if width == 8 {
        EightBytes(number);
        bytes := bytes + [number / 0x100_0000_0000_0000 % 256];
        bytes := bytes + [number / 0x1_0000_0000_0000 % 256];
        bytes := bytes + [number / 0x100_0000_0000 % 256];
        bytes := bytes + [number / 0x1_0000_0000 % 256];
        bytes := bytes + [number / 0x100_0000 % 256];
        bytes := bytes + [number / 0x1_0000 % 256];
        bytes := bytes + [number / 0x100 % 256];
        bytes := bytes + [number % 256];
      } else if width == 4 {
        FourBytes(number);
        bytes := bytes + [number / 0x100_0000 % 256];
        bytes := bytes + [number / 0x1_0000 % 256];
        bytes := bytes + [number / 0x100 % 256];
        bytes := bytes + [number % 256];
      } else if width == 2 {
        TwoBytes(number);
        bytes := bytes + [number / 0x100 % 256];
        bytes := bytes + [number % 256];
      } else {
        OneByte(number);
        bytes := bytes + [number % 256];
      }
    }
  }

  lemma OneByte(x: int)
    ensures BigEndian(x, 1) == [x % 256]
  {
    assert BigEndian(x / 256, 0) == [];
  }

  lemma TwoBytes(x: int)
    ensures BigEndian(x, 2) == [x / 0x100 % 256, x % 256]
  {
    OneByte(x / 256);
  }

  lemma Div16(x: int)
    ensures x / 256 / 256 == x / 0x1_0000
  {
  }

  lemma Div24(x: int)
    ensures x / 0x1_0000 / 256 == x / 0x100_0000
  {
  }

  lemma Div32(x: int)
    ensures x / 0x1_0000 / 0x1_0000 == x / 0x1_0000_0000
  {
  }

  lemma Div40(x: int)
    ensures x / 0x1_0000_0000 / 256 == x / 0x100_0000_0000
  {
  }

  lemma Div48(x: int)
    ensures x / 0x1_0000_0000 / 0x1_0000 == x / 0x1_0000_0000_0000
  {
  }

  lemma Div56(x: int)
    ensures x / 0x1_0000_0000 / 0x100_0000 == x / 0x100_0000_0000_0000
  {
  }

  /** The low two bytes and the bytes above them. */
  lemma LowBytes(x: int, width: nat)
    ensures BigEndian(x, width + 2) == BigEndian(x / 0x1_0000, width) + [x / 0x100 % 256, x % 256]
  {
    Div16(x);
    assert BigEndian(x / 256, width + 1) == BigEndian(x / 256 / 256, width) + [x / 256 % 256];
  }

  lemma FourBytes(x: int)
    ensures BigEndian(x, 4) == [x / 0x100_0000 % 256, x / 0x1_0000 % 256, x / 0x100 % 256, x % 256]
  {
    hide BigEndian;
    LowBytes(x, 2);
    TwoBytes(x / 0x1_0000);
    Div24(x);
  }

  lemma EightBytes(x: int)
    ensures BigEndian(x, 8) ==
            [x / 0x100_0000_0000_0000 % 256, x / 0x1_0000_0000_0000 % 256, x / 0x100_0000_0000 % 256,
             x / 0x1_0000_0000 % 256, x / 0x100_0000 % 256, x / 0x1_0000 % 256, x / 0x100 % 256, x % 256]
  {
    hide BigEndian;
    LowBytes(x, 6);
    LowBytes(x / 0x1_0000, 4);
    Div32(x);
    FourBytes(x / 0x1_0000_0000);
    Div24(x);
    Div40(x);
    Div48(x);
    Div56(x);
  }

  /** `get_from_vector`: the `width` bytes after position `current`. */
  function GetFromVector(v: Text, current: nat, width: nat): (r: Result<nat>)
    ensures r.Ok? ==> current + width < |v| && r.value < Range(width)
  {
    if current + width + 1 > |v| then Err(OutOfRange)
    else
      BytesValueBound(v[current + 1..current + 1 + width]);
      Ok(BytesValue(v[current + 1..current + 1 + width]))
  }

  /** `get_from_vector` into a signed type of that width. */
  function GetSigned(v: Text, current: nat, width: nat): (r: Result<int>)
    requires width > 0
    ensures r.Ok? ==> current + width < |v| && 2 * r.value < Range(width) && 2 * r.value + Range(width) >= 0
  {
    var n :- GetFromVector(v, current, width);
    Ok(if 2 * n < Range(width) then n else n - Range(width))
  }

  lemma GetWritten(v: Text, current: nat, n: nat, width: nat)
    requires n < Range(width) && At(v, current + 1, BigEndian(n, width))
    ensures GetFromVector(v, current, width) == Ok(n)
  {
    BigEndianValue(n, width);
  }

  lemma GetWrittenNegative(v: Text, current: nat, n: int, width: nat)
    requires width > 0 && n < 0 && 2 * n + Range(width) >= 0 && At(v, current + 1, BigEndian(n, width))
    ensures GetSigned(v, current, width) == Ok(n)
  {
    BigEndianNegative(n, width);
  }

  lemma SingleByte(v: Text, idx: nat)
    requires idx < |v|
    ensures At(v, idx, [v[idx]])
  {
  }

  /** The bytes that `get_from_vector` has read, as those of the number it gives. */
  lemma WideBytes(v: Text, idx: nat, width: nat)
    requires GetFromVector(v, idx, width).Ok?
    ensures idx + width < |v| && At(v, idx, [v[idx]] + BigEndian(GetFromVector(v, idx, width).value, width))
  {
    SingleByte(v, idx);
    var s := v[idx + 1..idx + 1 + width];
    BigEndianBytes(s);
    AtJoin(v, idx, [v[idx]], s);
  }

  /** `check_length` */
  predicate LengthFits(size: nat, len: nat, offset: nat) {
    && len <= size && offset <= size
    && size <= TWO_TO_THE_64 - 1 - offset
    && len + offset <= size
  }

  /** A string of `len` bytes at `offset`. */
  function GetString(v: Text, len: nat, offset: nat): (r: Decoded<Json>)
    ensures r.Ok? ==> r.value.1 == offset + len <= |v|
  {
    if LengthFits(|v|, len, offset) then Ok((String(v[offset..offset + len]), offset + len)) else Err(OutOfRange)
  }

  lemma GetWrittenString(v: Text, offset: nat, s: Text)
    requires |v| <= MAX_SIZE && At(v, offset, s)
    ensures GetString(v, |s|, offset) == Ok((String(s), offset + |s|))
  {
  }

  /** The conversion of a decoded item to a string. */
  function AsText(j: Json): Result<Text> {
    if j.String? then Ok(j.s) else Err(DomainError)
  }

  // ----- floating-point formats

  function Pattern(negative: bool, exponent: int, fraction: int): uint64 {
    (if negative then TWO_TO_THE_63 else 0) + exponent % 0x800 * TWO_TO_THE_52 + fraction % TWO_TO_THE_52
  }

  /** The double with the value of a shorter IEEE 754 pattern, which has `fractionBits`
      fraction bits, exponent field up to `top` and the given exponent bias. */
  function Widen(negative: bool, exponent: nat, fraction: nat, fractionBits: nat, top: nat, bias: int): uint64
    requires fractionBits <= 52
  {
    if exponent == top then
      Pattern(negative, 0x7FF, if fraction == 0 then 0 else 1) // which NaN makes no difference
    else if exponent > 0 then
      Pattern(negative, exponent - bias + 1023, fraction * Pow2(52 - fractionBits))
    else if fraction == 0 then Pattern(negative, 0, 0)
    else
      var lead := BitLength(fraction) - 1;
      Pattern(negative, lead + 1 - bias - fractionBits + 1023,
        if lead <= 52 then (fraction - Pow2(lead)) * Pow2(52 - lead) else 0)
  }

  function WidenSingle(w: nat): uint64 {
    Widen(w / 0x8000_0000 % 2 == 1, w / 0x80_0000 % 0x100, w % 0x80_0000, 23, 0xFF, 127)
  }

  function WidenHalf(w: nat): uint64 {
    Widen(w / 0x8000 % 2 == 1, w / 0x400 % 0x20, w % 0x400, 10, 0x1F, 15)
  }

  /** A floating-point number stored in 2, 4 or 8 bytes after the header at `current`.
      The number is returned as a JSON value, so a non-finite one becomes null. */
  function GetFloat(v: Text, current: nat, width: nat): (r: Decoded<Json>)
    requires width in {2, 4, 8}
    ensures r.Ok? ==> r.value.1 == current + 1 + width <= |v|
  {
    var n :- GetFromVector(v, current, width);
    assert Range(8) == TWO_TO_THE_64 by { Ranges(); }
    Ok((NewFloat(if width == 8 then n else if width == 4 then WidenSingle(n) else WidenHalf(n)), current + 1 + width))
  }

  lemma Ranges()
    ensures Range(1) == 0x100 && Range(2) == 0x1_0000 && Range(4) == 0x1_0000_0000 && Range(8) == TWO_TO_THE_64
  {
    assert Range(0) == 1;
    assert Range(1) == 256 * Range(0);
    assert Range(2) == 256 * Range(1);
    assert Range(3) == 256 * Range(2);
    assert Range(4) == 256 * Range(3);
    assert Range(5) == 256 * Range(4);
    assert Range(6) == 256 * Range(5);
    assert Range(7) == 256 * Range(6);
    assert Range(8) == 256 * Range(7);
  }

  // ----- lengths

  /** A part of a byte vector is no longer than a size can be. */
  lemma AtLength(v: Text, i: nat, s: Text, n: nat)
    requires |v| <= MAX_SIZE && At(v, i, s) && n <= |s|
    ensures n < TWO_TO_THE_64
  {
  }
}
