/** The lassi_io file format, version 1: one named array a file, written one way only and read strictly. */
module LassiFile {
  import opened Outcomes
  import opened Powers

  type byte = b: int | 0 <= b < 256

  datatype DType = F32 | F16 | BF16 | I32 | U32 | I8 | U8 | I64 | F64 {
    function Code(): nat {
      match this
      case F32 => 1 case F16 => 2 case BF16 => 3 case I32 => 4 case U32 => 5
      case I8 => 6 case U8 => 7 case I64 => 8 case F64 => 9
    }

    function ItemSize(): nat {
      match this
      case F32 => 4 case F16 => 2 case BF16 => 2 case I32 => 4 case U32 => 4
      case I8 => 1 case U8 => 1 case I64 => 8 case F64 => 8
    }

    function Name(): string {
      match this
      case F32 => "f32" case F16 => "f16" case BF16 => "bf16" case I32 => "i32" case U32 => "u32"
      case I8 => "i8" case U8 => "u8" case I64 => "i64" case F64 => "f64"
    }
  }

  const DTYPES: seq<DType> := [F32, F16, BF16, I32, U32, I8, U8, I64, F64]

  function Coded(code: nat): Option<DType> {
    if 1 <= code <= |DTYPES| then Some(DTYPES[code - 1]) else None
  }

  function Named(name: string): Option<DType> {
    if exists t: DType :: t.Name() == name then var t: DType :| t.Name() == name; Some(t) else None
  }

  lemma DTypesDistinct(t: DType)
    ensures Coded(t.Code()) == Some(t) && Named(t.Name()) == Some(t)
  {
  }

  datatype LassiArray = LassiArray(name: string, dtype: DType, shape: seq<nat>, data: seq<byte>)

  datatype Refusal =
    | BadName | UnknownDType | BadShape | DataSize
    | Truncated | BadMagic | UnsupportedVersion | UnknownCode | BadNameLength | BadPadding

  const MAGIC: seq<byte> := [76, 65, 83, 83, 73, 73, 79, 0]

  // ----- little-endian numbers

  function Little(n: nat, width: nat): (s: seq<byte>)
    ensures |s| == width
    decreases width, n
  {
    if width == 0 then [] else [n % 256] + Little(n / 256, width - 1)
  }

  function FromLittle(s: seq<byte>): nat {
    if s == [] then 0 else s[0] + 256 * FromLittle(s[1..])
  }

  lemma {:induction false} LittleInverse(n: nat, width: nat)
    requires n < Pow2(8 * width)
    ensures FromLittle(Little(n, width)) == n
    decreases width
  {
    if width > 0 {
      Pow2Add(8, 8 * (width - 1));
      assert Pow2(8) == 256;
      LittleInverse(n / 256, width - 1);
      assert Little(n, width)[1..] == Little(n / 256, width - 1);
    } else {
      assert Pow2(0) == 1;
    }
  }

  lemma {:induction false} FromLittleInverse(s: seq<byte>)
    ensures FromLittle(s) < Pow2(8 * |s|)
    ensures Little(FromLittle(s), |s|) == s
  {
    if s == [] {
    } else {
      FromLittleInverse(s[1..]);
      assert Pow2(8 * |s|) == 256 * Pow2(8 * (|s| - 1)) by {
        Pow2Add(8, 8 * (|s| - 1));
        assert Pow2(8) == 256;
      }
      hide Pow2;
      assert FromLittle(s) % 256 == s[0] && FromLittle(s) / 256 == FromLittle(s[1..]);
      assert s == [s[0]] + s[1..];
    }
  }

  // ----- names

  predicate NameByte(c: int) {
    48 <= c <= 57 || 65 <= c <= 90 || 97 <= c <= 122 || c == 95 || c == 46 || c == 45
  }

  predicate ValidName(name: string) {
    1 <= |name| <= 255 && forall c | c in name :: NameByte(c as int)
  }

  predicate ValidNameBytes(name: seq<byte>) {
    1 <= |name| <= 255 && forall c | c in name :: NameByte(c)
  }

  function NameBytes(name: string): (bytes: seq<byte>)
    requires ValidName(name)
    ensures |bytes| == |name|
  {
    seq<byte>(|name|, i requires 0 <= i < |name| => CharByte(name, i))
  }

  function CharByte(name: string, i: nat): byte
    requires ValidName(name) && i < |name|
  {
    assert name[i] in name;
    name[i] as int
  }

  function NameText(bytes: seq<byte>): string {
    seq(|bytes|, i requires 0 <= i < |bytes| => bytes[i] as char)
  }

  lemma NameInverse(name: string)
    requires ValidName(name)
    ensures ValidNameBytes(NameBytes(name)) && NameText(NameBytes(name)) == name
  {
    forall c | c in NameBytes(name)
      ensures NameByte(c)
    {
      var i :| 0 <= i < |name| && NameBytes(name)[i] == c;
      assert name[i] in name;
    }
  }

  lemma NameTextInverse(bytes: seq<byte>)
    requires ValidNameBytes(bytes)
    ensures ValidName(NameText(bytes)) && NameBytes(NameText(bytes)) == bytes
  {
    forall c | c in NameText(bytes)
      ensures NameByte(c as int)
    {
      var i :| 0 <= i < |bytes| && NameText(bytes)[i] == c;
      assert bytes[i] in bytes;
    }
  }

  // ----- the byte count of a shape

  function Product(dims: seq<nat>): nat {
    if dims == [] then 1 else
      MulMonotone(0, dims[0], Product(dims[1..]));
      dims[0] * Product(dims[1..])
  }

  // the bytes a shape's elements take
  function NeededBytes(dims: seq<nat>, itemSize: nat): nat {
    MulMonotone(0, itemSize, Product(dims));
    itemSize * Product(dims)
  }

  /** What the early-exit count gives: a scalar's size unchecked, otherwise the true count, or None past the limit. */
  function ByteCount(dims: seq<nat>, itemSize: nat, limit: nat): Option<nat> {
    if dims == [] then Some(itemSize)
    else if NeededBytes(dims, itemSize) <= limit then Some(NeededBytes(dims, itemSize))
    else None
  }

  // a limit the early exit does not see: a scalar's size is never compared with it
  lemma ScalarPastLimit()
    ensures ByteCount([], 8, 4) == Some(8)
  {
  }

  /** The count is true up to the limit and None past it exactly for shapes with a dim and scalars within the limit. */
  lemma ByteCountExactly(dims: seq<nat>, itemSize: nat, limit: nat)
    ensures ByteCount(dims, itemSize, limit)
         == (if NeededBytes(dims, itemSize) <= limit then Some(NeededBytes(dims, itemSize)) else None)
       <==> dims != [] || itemSize <= limit
  {
  }

  method CountBytes(dims: seq<nat>, itemSize: nat, limit: nat) returns (count: Option<nat>)
    requires itemSize > 0
    ensures count == ByteCount(dims, itemSize, limit)
    ensures count == Some(limit) <==> NeededBytes(dims, itemSize) == limit
  {
    if 0 in dims {
      ZeroProduct(dims);
      return Some(0);
    }
    hide Product;
    var total := itemSize;
    ProductStep(dims, 0);
    for i := 0 to |dims|
      invariant total > 0 && Needed(total, dims, i) == NeededBytes(dims, itemSize)
      invariant i > 0 ==> total <= limit
    {
      ProductStep(dims, i);
      NeededStep(total, dims, i);
      total := total * dims[i];
      if total > limit {
        return None;
      }
    }
    ProductStep(dims, |dims|);
    return Some(total);
  }

  // the count still to come, with the dims before i already in the total
  ghost function Needed(total: nat, dims: seq<nat>, i: nat): nat
    requires i <= |dims|
  {
    MulMonotone(0, total, Product(dims[i..]));
    total * Product(dims[i..])
  }

  lemma ProductStep(dims: seq<nat>, i: nat)
    requires i <= |dims| && 0 !in dims
    ensures i == |dims| ==> Product(dims[i..]) == 1
    ensures i < |dims| ==> Product(dims[i..]) == dims[i] * Product(dims[i + 1..]) && dims[i] >= 1
    ensures dims[0..] == dims
  {
    if i < |dims| {
      assert dims[i..][1..] == dims[i + 1..] && dims[i] in dims;
    }
  }

  lemma NeededStep(total: nat, dims: seq<nat>, i: nat)
    requires i < |dims| && 0 !in dims && total > 0
    ensures total * dims[i] >= 1
    ensures Needed(total * dims[i], dims, i + 1) == Needed(total, dims, i) >= total * dims[i]
  {
    var rest := Product(dims[i + 1..]);
    ProductStep(dims, i);
    PositiveProduct(dims[i + 1..]);
    MulAssoc(total, dims[i], rest);
    MulMonotone(1, dims[i], total);
    MulMonotone(1, rest, total * dims[i]);
  }

  lemma {:induction false} ZeroProduct(dims: seq<nat>)
    requires 0 in dims
    ensures Product(dims) == 0
  {
    if dims[0] == 0 {
    } else {
      ZeroProduct(dims[1..]);
    }
  }

  lemma {:induction false} PositiveProduct(dims: seq<nat>)
    ensures 0 in dims || Product(dims) >= 1
  {
    if dims == [] {
    } else {
      PositiveProduct(dims[1..]);
      if dims[0] >= 1 && Product(dims[1..]) >= 1 {
        MulMonotone(1, dims[0], Product(dims[1..]));
      }
    }
  }

  // ----- writing

  predicate ValidDim(dim: int) {
    0 <= dim < TWO64
  }

  predicate ValidShape(shape: seq<int>) {
    |shape| < TWO32 && forall dim | dim in shape :: ValidDim(dim)
  }

  function DimBytes(dims: seq<nat>): (bytes: seq<byte>)
    ensures |bytes| == 8 * |dims|
  {
    if dims == [] then [] else Little(dims[0], 8) + DimBytes(dims[1..])
  }

  function Padding(length: nat): (count: nat)
    ensures count < 8 && (length + count) % 8 == 0
  {
    (8 - length % 8) % 8
  }

  function Zeros(count: nat): (zeros: seq<byte>)
    ensures |zeros| == count && forall i | 0 <= i < count :: zeros[i] == 0
  {
    seq<byte>(count, _ => 0)
  }

  // the bytes before the dims: magic, version, dtype code, rank
  function FixedPart(dtype: DType, rank: nat): (bytes: seq<byte>)
    ensures |bytes| == 20
  {
    MAGIC + Little(1, 4) + Little(dtype.Code(), 4) + Little(rank, 4)
  }

  // everything before the data
  function HeaderBytes(header: Header): (bytes: seq<byte>)
    requires ValidName(header.name)
    ensures |bytes| % 8 == 0
  {
    var name := NameBytes(header.name);
    var head := FixedPart(header.dtype, |header.dims|) + DimBytes(header.dims) + Little(|name|, 4) + name;
    head + Zeros(Padding(|head|))
  }

  function Encode(name: string, dtype: string, shape: seq<int>, data: seq<byte>): Result<seq<byte>, Refusal> {
    if !ValidName(name) then Err(BadName)
    else if Named(dtype).None? then Err(UnknownDType)
    else if !ValidShape(shape) then Err(BadShape)
    else
      var dims := Dims(shape);
      var kind := Named(dtype).value;
      if ByteCount(dims, kind.ItemSize(), |data|) != Some(|data|) then Err(DataSize)
      else Ok(HeaderBytes(Header(kind, dims, name)) + data)
  }

  const DTYPE_NAMES: seq<string> := ["f32", "f16", "bf16", "i32", "u32", "i8", "u8", "i64", "f64"]

  lemma NamedExactly(name: string)
    ensures Named(name).Some? <==> name in DTYPE_NAMES
    ensures Named(name).Some? ==> DTYPE_NAMES[Named(name).value.Code() - 1] == name
  {
    if Named(name).Some? {
      var t: DType := Named(name).value;
      assert t.Name() == name && DTYPE_NAMES[t.Code() - 1] == name;
    }
    if name in DTYPE_NAMES {
      var i :| 0 <= i < |DTYPE_NAMES| && DTYPE_NAMES[i] == name;
      assert DTYPES[i].Name() == name;
    }
  }

  /**
   * The arrays the encoder accepts: a name of 1 to 255 letters, digits, "_", "." and "-", one of the nine dtypes, fewer
   * than 2^32 dims each below 2^64, and exactly the bytes they take.
   */
  lemma EncodesExactly(name: string, dtype: string, shape: seq<int>, data: seq<byte>)
    ensures Named(dtype).Some? <==> dtype in ["f32", "f16", "bf16", "i32", "u32", "i8", "u8", "i64", "f64"]
    ensures Encode(name, dtype, shape, data).Ok? <==>
      && 1 <= |name| <= 255
      && (forall c | c in name :: '0' <= c <= '9' || 'A' <= c <= 'Z' || 'a' <= c <= 'z' || c in {'_', '.', '-'})
      && Named(dtype).Some?
      && |shape| <= 0xFFFF_FFFF && (forall dim | dim in shape :: 0 <= dim <= 0xFFFF_FFFF_FFFF_FFFF)
      && |data| == NeededBytes(Dims(shape), Named(dtype).value.ItemSize())
  {
    hide Product, NeededBytes, HeaderBytes, Named;
    NamedExactly(dtype);
    assert NeededBytes([], 1) == 1 by { OneItem(1); }
    if Named(dtype).Some? {
      OneItem(Named(dtype).value.ItemSize());
    }
    assert ValidName(name) <==> 1 <= |name| <= 255 && forall c | c in name ::
      '0' <= c <= '9' || 'A' <= c <= 'Z' || 'a' <= c <= 'z' || c in {'_', '.', '-'};
  }

  lemma OneItem(itemSize: nat)
    ensures NeededBytes([], itemSize) == itemSize
  {
  }

  /** The header byte by byte: little-endian numbers at fixed places, the name, and zeros up to a multiple of 8. */
  lemma HeaderLayout(header: Header)
    requires ValidName(header.name)
    ensures var raw, n, m := HeaderBytes(header), |header.dims|, |header.name|;
      && 24 + 8 * n + m <= |raw| < 24 + 8 * n + m + 8 && |raw| % 8 == 0
      && raw[..8] == [76, 65, 83, 83, 73, 73, 79, 0] && raw[8..12] == Little(1, 4)
      && raw[12..16] == Little(header.dtype.Code(), 4) && raw[16..20] == Little(n, 4)
      && raw[20..20 + 8 * n] == DimBytes(header.dims) && raw[20 + 8 * n..24 + 8 * n] == Little(m, 4)
      && raw[24 + 8 * n..24 + 8 * n + m] == NameBytes(header.name)
      && forall i | 24 + 8 * n + m <= i < |raw| :: raw[i] == 0
  {
    hide Little, DimBytes, NameBytes;
  }

  lemma {:induction false} DimPlace(dims: seq<nat>, i: nat)
    requires i < |dims|
    ensures DimBytes(dims)[8 * i..8 * i + 8] == Little(dims[i], 8)
    decreases dims
  {
    hide Little;
    if i == 0 {
    } else {
      DimPlace(dims[1..], i - 1);
      assert DimBytes(dims)[8 * i..8 * i + 8] == DimBytes(dims[1..])[8 * (i - 1)..8 * (i - 1) + 8];
    }
  }

  /** The low byte comes first, and each next byte counts 256 times as much. */
  lemma {:induction false} LittleByte(n: nat, width: nat, i: nat)
    requires i < width
    ensures Little(n, width)[i] == n / Pow2(8 * i) % 256
    decreases i
  {
    if i == 0 {
    } else {
      LittleByte(n / 256, width - 1, i - 1);
      Pow2Add(8, 8 * (i - 1));
      assert Pow2(8) == 256;
      DivByteThen(n, Pow2(8 * (i - 1)));
    }
  }

  function Dims(shape: seq<int>): (dims: seq<nat>)
    requires ValidShape(shape)
    ensures dims == shape
  {
    seq<nat>(|shape|, i requires 0 <= i < |shape| => DimAt(shape, i))
  }

  function DimAt(shape: seq<int>, i: nat): (dim: nat)
    requires ValidShape(shape) && i < |shape|
    ensures dim == shape[i]
  {
    assert ValidDim(shape[i]);
    shape[i]
  }

  // ----- reading

  datatype Header = Header(dtype: DType, dims: seq<nat>, name: string)

  // a header and where it ends
  datatype Placed = Placed(header: Header, end: nat)

  function U32At(raw: seq<byte>, offset: nat): Option<nat> {
    if offset + 4 > |raw| then None else Some(FromLittle(raw[offset..offset + 4]))
  }

  function DimsAt(raw: seq<byte>, offset: nat, rank: nat): (dims: seq<nat>)
    requires offset + 8 * rank <= |raw|
    ensures |dims| == rank
    decreases rank
  {
    if rank == 0 then [] else [FromLittle(raw[offset..offset + 8])] + DimsAt(raw, offset + 8, rank - 1)
  }

  function ReadFixed(raw: seq<byte>): Result<(DType, nat), Refusal> {
    if |raw| < 8 || raw[..8] != MAGIC then Err(if |raw| < 8 && raw <= MAGIC then Truncated else BadMagic)
    else if U32At(raw, 8).None? then Err(Truncated)
    else if U32At(raw, 8).value != 1 then Err(UnsupportedVersion)
    else if U32At(raw, 12).None? then Err(Truncated)
    else if Coded(U32At(raw, 12).value).None? then Err(UnknownCode)
    else if U32At(raw, 16).None? then Err(Truncated)
    else Ok((Coded(U32At(raw, 12).value).value, U32At(raw, 16).value))
  }

  function ReadName(raw: seq<byte>, offset: nat): Result<seq<byte>, Refusal> {
    var length := U32At(raw, offset);
    if length.None? then Err(Truncated)
    else if !(1 <= length.value <= 255) then Err(BadNameLength)
    else if offset + 4 + length.value > |raw| then Err(Truncated)
    else if !ValidNameBytes(raw[offset + 4..offset + 4 + length.value]) then Err(BadName)
    else Ok(raw[offset + 4..offset + 4 + length.value])
  }

  /** The header, its checks in file order. */
  function ReadHeader(raw: seq<byte>): Result<Placed, Refusal> {
    match ReadFixed(raw)
    case Err(refusal) => Err(refusal)
    case Ok((dtype, rank)) =>
      var dimsEnd := 20 + 8 * rank;
      if dimsEnd > |raw| then Err(Truncated)
      else match ReadName(raw, dimsEnd)
        case Err(refusal) => Err(refusal)
        case Ok(name) =>
          var nameEnd := dimsEnd + 4 + |name|;
          var end := nameEnd + Padding(nameEnd);
          if end > |raw| then Err(Truncated)
          else if raw[nameEnd..end] != Zeros(end - nameEnd) then Err(BadPadding)
          else Ok(Placed(Header(dtype, DimsAt(raw, 20, rank), NameText(name)), end))
  }

  lemma HeaderEnds(raw: seq<byte>)
    ensures ReadHeader(raw).Ok? ==> ReadHeader(raw).value.end <= |raw|
  {
  }

  function Decode(raw: seq<byte>): Result<LassiArray, Refusal> {
    HeaderEnds(raw);
    match ReadHeader(raw)
    case Err(refusal) => Err(refusal)
    case Ok(Placed(header, end)) =>
      if ByteCount(header.dims, header.dtype.ItemSize(), |raw| - end) != Some(|raw| - end) then Err(DataSize)
      else Ok(LassiArray(header.name, header.dtype, header.dims, raw[end..]))
  }

  // ----- a written header reads back, whatever follows it

  ghost predicate ValidHeader(header: Header) {
    ValidName(header.name) && ValidShape(header.dims)
  }

  lemma {:induction false} DimsRoundTrip(before: seq<byte>, dims: seq<nat>, after: seq<byte>)
    requires forall dim | dim in dims :: ValidDim(dim)
    ensures DimsAt(before + DimBytes(dims) + after, |before|, |dims|) == dims
    decreases dims
  {
    if dims == [] {
    } else {
      var raw := before + DimBytes(dims) + after;
      var first := Little(dims[0], 8);
      assert raw == (before + first) + DimBytes(dims[1..]) + after;
      DimsRoundTrip(before + first, dims[1..], after);
      assert raw[|before|..|before| + 8] == first;
      Pow2Values();
      assert dims[0] in dims;
      LittleInverse(dims[0], 8);
    }
  }

  lemma FixedRoundTrip(dtype: DType, rank: nat, after: seq<byte>)
    requires rank < TWO32
    ensures ReadFixed(FixedPart(dtype, rank) + after) == Ok((dtype, rank))
  {
    hide Little, FromLittle, Pow2;
    var raw := FixedPart(dtype, rank) + after;
    Pow2Values();
    assert raw[..8] == MAGIC;
    assert raw[8..12] == Little(1, 4);
    assert raw[12..16] == Little(dtype.Code(), 4);
    assert raw[16..20] == Little(rank, 4);
    LittleInverse(1, 4);
    LittleInverse(dtype.Code(), 4);
    LittleInverse(rank, 4);
    DTypesDistinct(dtype);
  }

  lemma NameRoundTrip(before: seq<byte>, name: seq<byte>, after: seq<byte>)
    requires ValidNameBytes(name)
    ensures ReadName(before + Little(|name|, 4) + name + after, |before|) == Ok(name)
  {
    hide Little, FromLittle, Pow2;
    var raw := before + Little(|name|, 4) + name + after;
    Pow2Values();
    assert raw[|before|..|before| + 4] == Little(|name|, 4);
    assert raw[|before| + 4..|before| + 4 + |name|] == name;
    LittleInverse(|name|, 4);
  }

  lemma HeaderRoundTrip(header: Header, after: seq<byte>)
    requires ValidHeader(header)
    ensures ReadHeader(HeaderBytes(header) + after) == Ok(Placed(header, |HeaderBytes(header)|))
  {
    hide ReadFixed, ReadName, DimsAt, DimBytes, FixedPart, Little, NameBytes, NameText, ValidNameBytes;
    var name := NameBytes(header.name);
    var fixed, dims := FixedPart(header.dtype, |header.dims|), DimBytes(header.dims);
    var length := Little(|name|, 4);
    var head := fixed + dims + length + name;
    var zeros := Zeros(Padding(|head|));
    var raw := HeaderBytes(header) + after;
    NameInverse(header.name);
    assert raw == fixed + (dims + length + name + zeros + after);
    FixedRoundTrip(header.dtype, |header.dims|, dims + length + name + zeros + after);
    assert raw == (fixed + dims) + length + name + (zeros + after);
    NameRoundTrip(fixed + dims, name, zeros + after);
    assert raw == fixed + dims + (length + name + zeros + after);
    DimsRoundTrip(fixed, header.dims, length + name + zeros + after);
    assert raw[|head|..|head| + |zeros|] == zeros;
  }

  /** Writing an array and reading the bytes gives the array back. */
  lemma DecodeEncode(name: string, dtype: string, shape: seq<int>, data: seq<byte>)
    requires Encode(name, dtype, shape, data).Ok?
    ensures Decode(Encode(name, dtype, shape, data).value)
         == Ok(LassiArray(name, Named(dtype).value, Dims(shape), data))
  {
    hide ReadHeader, HeaderBytes, ByteCount, Named, ValidName;
    var header := Header(Named(dtype).value, Dims(shape), name);
    HeaderRoundTrip(header, data);
    var raw := HeaderBytes(header) + data;
    assert raw[|HeaderBytes(header)|..] == data;
  }

  // ----- a header that reads is one that was written

  lemma {:induction false} DimsReadBack(raw: seq<byte>, offset: nat, rank: nat)
    requires offset + 8 * rank <= |raw|
    ensures DimBytes(DimsAt(raw, offset, rank)) == raw[offset..offset + 8 * rank]
    decreases rank
  {
    if rank == 0 {
    } else {
      hide FromLittle, Little, Pow2, DimsAt, DimBytes;
      var first, rest := raw[offset..offset + 8], DimsAt(raw, offset + 8, rank - 1);
      DimsFirst(raw, offset, rank);
      FromLittleInverse(first);
      DimsReadBack(raw, offset + 8, rank - 1);
      OneMoreDim(FromLittle(first), rest);
      SplitOff(raw, offset, offset + 8, offset + 8 * rank);
    }
  }

  lemma DimsFirst(raw: seq<byte>, offset: nat, rank: nat)
    requires rank > 0 && offset + 8 * rank <= |raw|
    ensures DimsAt(raw, offset, rank) == [FromLittle(raw[offset..offset + 8])] + DimsAt(raw, offset + 8, rank - 1)
  {
    hide FromLittle;
  }

  lemma SplitOff(raw: seq<byte>, from: nat, middle: nat, to: nat)
    requires from <= middle <= to <= |raw|
    ensures raw[from..to] == raw[from..middle] + raw[middle..to]
  {
  }

  lemma OneMoreDim(dim: nat, dims: seq<nat>)
    ensures DimBytes([dim] + dims) == Little(dim, 8) + DimBytes(dims)
  {
    hide Little;
  }

  lemma {:induction false} DimsValid(raw: seq<byte>, offset: nat, rank: nat)
    requires offset + 8 * rank <= |raw|
    ensures forall dim | dim in DimsAt(raw, offset, rank) :: ValidDim(dim)
    decreases rank
  {
    if rank == 0 {
    } else {
      hide FromLittle, Little, Pow2;
      Pow2Values();
      FromLittleInverse(raw[offset..offset + 8]);
      DimsValid(raw, offset + 8, rank - 1);
    }
  }

  lemma FixedReadBack(raw: seq<byte>)
    requires ReadFixed(raw).Ok?
    ensures var (dtype, rank) := ReadFixed(raw).value;
            |raw| >= 20 && raw[..20] == FixedPart(dtype, rank) && rank < TWO32
  {
    hide Little, FromLittle, Pow2;
    Pow2Values();
    FromLittleInverse(raw[8..12]);
    FromLittleInverse(raw[12..16]);
    FromLittleInverse(raw[16..20]);
    assert raw[..20] == raw[..8] + raw[8..12] + raw[12..16] + raw[16..20];
  }

  lemma NameReadBack(raw: seq<byte>, offset: nat)
    requires ReadName(raw, offset).Ok?
    ensures var name := ReadName(raw, offset).value;
      && ValidNameBytes(name) && offset + 4 + |name| <= |raw|
      && raw[offset..offset + 4 + |name|] == Little(|name|, 4) + name
  {
    hide Little, FromLittle;
    FromLittleInverse(raw[offset..offset + 4]);
    var name := ReadName(raw, offset).value;
    assert raw[offset..offset + 4 + |name|] == raw[offset..offset + 4] + raw[offset + 4..offset + 4 + |name|];
  }

  lemma HeaderReadBack(raw: seq<byte>)
    requires ReadHeader(raw).Ok?
    ensures var Placed(header, end) := ReadHeader(raw).value;
            ValidHeader(header) && end <= |raw| && raw[..end] == HeaderBytes(header)
  {
    hide ReadFixed, ReadName, DimsAt, DimBytes, FixedPart, Little, NameBytes, NameText, ValidNameBytes, ValidName;
    var Placed(header, end) := ReadHeader(raw).value;
    var (dtype, rank) := ReadFixed(raw).value;
    var dimsEnd := 20 + 8 * rank;
    var name := ReadName(raw, dimsEnd).value;
    var nameEnd := dimsEnd + 4 + |name|;
    FixedReadBack(raw);
    DimsReadBack(raw, 20, rank);
    DimsValid(raw, 20, rank);
    NameReadBack(raw, dimsEnd);
    NameTextInverse(name);
    FourParts(raw, 20, dimsEnd, nameEnd, end);
    assert Little(|name|, 4) + name == raw[dimsEnd..nameEnd];
    var head := FixedPart(dtype, rank) + DimBytes(header.dims) + Little(|name|, 4) + name;
    assert head == raw[..20] + raw[20..dimsEnd] + raw[dimsEnd..nameEnd];
  }

  lemma FourParts(raw: seq<byte>, a: nat, b: nat, c: nat, d: nat)
    requires a <= b <= c <= d <= |raw|
    ensures raw[..d] == raw[..a] + raw[a..b] + raw[b..c] + raw[c..d]
  {
  }

  /** Any bytes the reader accepts are the bytes the writer gives for what it read. */
  lemma EncodeDecode(raw: seq<byte>)
    requires Decode(raw).Ok?
    ensures var a := Decode(raw).value;
            Encode(a.name, a.dtype.Name(), a.shape, a.data) == Ok(raw)
  {
    hide ReadHeader, HeaderBytes, ByteCount, Named, ValidName;
    HeaderReadBack(raw);
    var Placed(header, end) := ReadHeader(raw).value;
    DTypesDistinct(header.dtype);
    assert raw == raw[..end] + raw[end..];
  }

  /** No file is a proper prefix of another: cutting an accepted file anywhere makes it refused. */
  lemma PrefixRefused(raw: seq<byte>, cut: nat)
    requires Decode(raw).Ok? && cut < |raw|
    ensures Decode(raw[..cut]).Err?
  {
    hide ReadHeader, HeaderBytes, ByteCount;
    var short := raw[..cut];
    if Decode(short).Ok? {
      HeaderReadBack(short);
      var Placed(header, end) := ReadHeader(short).value;
      assert raw == HeaderBytes(header) + raw[end..] by {
        assert raw[..end] == short[..end];
      }
      HeaderRoundTrip(header, raw[end..]);
      OneByteCount(header.dims, header.dtype.ItemSize(), cut - end, |raw| - end);
    }
  }

  lemma OneByteCount(dims: seq<nat>, itemSize: nat, a: nat, b: nat)
    requires ByteCount(dims, itemSize, a) == Some(a) && ByteCount(dims, itemSize, b) == Some(b)
    ensures a == b
  {
  }

  // ----- which fault a refused file is refused for

  /** The first fault in the 20 fixed bytes: the magic, the version, the dtype code, or their end. */
  lemma FixedFaults(raw: seq<byte>)
    ensures |raw| < 8 ==> Decode(raw) == Err(if raw <= [76, 65, 83, 83, 73, 73, 79, 0] then Truncated else BadMagic)
    ensures |raw| >= 8 && raw[..8] != [76, 65, 83, 83, 73, 73, 79, 0] ==> Decode(raw) == Err(BadMagic)
    ensures |raw| >= 8 && raw[..8] == [76, 65, 83, 83, 73, 73, 79, 0] ==>
      && (|raw| < 12 ==> Decode(raw) == Err(Truncated))
      && (|raw| >= 12 && FromLittle(raw[8..12]) != 1 ==> Decode(raw) == Err(UnsupportedVersion))
      && (12 <= |raw| < 16 && FromLittle(raw[8..12]) == 1 ==> Decode(raw) == Err(Truncated))
      && (|raw| >= 16 && FromLittle(raw[8..12]) == 1 && !(1 <= FromLittle(raw[12..16]) <= 9) ==>
        Decode(raw) == Err(UnknownCode))
      && (16 <= |raw| < 20 && FromLittle(raw[8..12]) == 1 && 1 <= FromLittle(raw[12..16]) <= 9 ==>
        Decode(raw) == Err(Truncated))
      && (|raw| >= 20 && FromLittle(raw[8..12]) == 1 && 1 <= FromLittle(raw[12..16]) <= 9 ==>
        ReadFixed(raw) == Ok((DTYPES[FromLittle(raw[12..16]) - 1], FromLittle(raw[16..20]))))
  {
    hide FromLittle, ReadName, ByteCount;
  }

  /** The first fault after them: the dims' end, the name's length, end and bytes, the padding, and the data's size. */
  lemma LaterFaults(raw: seq<byte>, dtype: DType, rank: nat)
    requires ReadFixed(raw) == Ok((dtype, rank))
    ensures var at := 20 + 8 * rank;
      if |raw| < at + 4 then Decode(raw) == Err(Truncated)
      else
        var length := FromLittle(raw[at..at + 4]);
        var nameEnd := at + 4 + length;
        var end := nameEnd + Padding(nameEnd);
        if length == 0 || length > 255 then Decode(raw) == Err(BadNameLength)
        else if |raw| < nameEnd then Decode(raw) == Err(Truncated)
        else if !ValidNameBytes(raw[at + 4..nameEnd]) then Decode(raw) == Err(BadName)
        else if |raw| < end then Decode(raw) == Err(Truncated)
        else if exists i :: nameEnd <= i < end && raw[i] != 0 then Decode(raw) == Err(BadPadding)
        else if |raw| - end != NeededBytes(DimsAt(raw, 20, rank), dtype.ItemSize()) then Decode(raw) == Err(DataSize)
        else Decode(raw).Ok?
  {
    hide FromLittle, ReadFixed, ReadName, ReadHeader, ValidNameBytes, NeededBytes, DimsAt, NameText, ByteCount, Padding;
    var at := 20 + 8 * rank;
    HeaderFaults(raw, dtype, rank);
    if |raw| >= at + 4 {
      NameFaults(raw, at);
      var nameEnd := at + 4 + FromLittle(raw[at..at + 4]);
      var end := nameEnd + Padding(nameEnd);
      if end <= |raw| {
        ZerosExactly(raw, nameEnd, end);
        CountIs(DimsAt(raw, 20, rank), dtype.ItemSize(), |raw| - end);
      }
    }
  }

  lemma NameFaults(raw: seq<byte>, at: nat)
    requires at + 4 <= |raw|
    ensures var length := FromLittle(raw[at..at + 4]);
      ReadName(raw, at) ==
      if length == 0 || length > 255 then Err(BadNameLength)
      else if |raw| < at + 4 + length then Err(Truncated)
      else if !ValidNameBytes(raw[at + 4..at + 4 + length]) then Err(BadName)
      else Ok(raw[at + 4..at + 4 + length])
  {
    hide FromLittle, ValidNameBytes;
  }

  lemma HeaderFaults(raw: seq<byte>, dtype: DType, rank: nat)
    requires ReadFixed(raw) == Ok((dtype, rank))
    ensures var at := 20 + 8 * rank;
      if |raw| < at + 4 then ReadHeader(raw) == Err(Truncated)
      else if ReadName(raw, at).Err? then ReadHeader(raw) == Err(ReadName(raw, at).error)
      else
        var name := ReadName(raw, at).value;
        var nameEnd := at + 4 + |name|;
        var end := nameEnd + Padding(nameEnd);
        if |raw| < end then ReadHeader(raw) == Err(Truncated)
        else if raw[nameEnd..end] != Zeros(end - nameEnd) then ReadHeader(raw) == Err(BadPadding)
        else ReadHeader(raw) == Ok(Placed(Header(dtype, DimsAt(raw, 20, rank), NameText(name)), end))
  {
    hide FromLittle, ReadFixed, ValidNameBytes, DimsAt, NameText, Padding;
  }

  lemma ZerosExactly(raw: seq<byte>, from: nat, to: nat)
    requires from <= to <= |raw|
    ensures raw[from..to] == Zeros(to - from) <==> forall i | from <= i < to :: raw[i] == 0
  {
    if raw[from..to] == Zeros(to - from) {
      forall i | from <= i < to
        ensures raw[i] == 0
      {
        assert raw[from..to][i - from] == 0;
      }
    }
  }

  lemma CountIs(dims: seq<nat>, itemSize: nat, limit: nat)
    ensures ByteCount(dims, itemSize, limit) == Some(limit) <==> NeededBytes(dims, itemSize) == limit
  {
    assert dims == [] ==> NeededBytes(dims, itemSize) == itemSize;
  }

  /** An accepted file cut short is refused as truncated inside its header, and for its data's size after it. */
  lemma PrefixRefusal(raw: seq<byte>, cut: nat)
    requires Decode(raw).Ok? && cut < |raw|
    ensures ReadHeader(raw).Ok?
    ensures Decode(raw[..cut]) == Err(if cut < ReadHeader(raw).value.end then Truncated else DataSize)
  {
    hide FromLittle, Decode, ReadFixed, ReadHeader, DimsAt, ValidNameBytes, NeededBytes;
    var short := raw[..cut];
    FixedFaults(short);
    FixedRead(raw);
    HeaderEndIs(raw, ReadFixed(raw).value.0, ReadFixed(raw).value.1);
    if cut < 20 {
      assert cut < 8 ==> short <= [76, 65, 83, 83, 73, 73, 79, 0];
      assert cut >= 8 ==> short[..8] == raw[..8];
      assert cut >= 12 ==> short[8..12] == raw[8..12];
      assert cut >= 16 ==> short[12..16] == raw[12..16];
    } else {
      var (dtype, rank) := ReadFixed(raw).value;
      assert short[..8] == raw[..8] && short[8..12] == raw[8..12] && short[12..16] == raw[12..16]
          && short[16..20] == raw[16..20];
      LaterFaults(raw, dtype, rank);
      LaterFaults(short, dtype, rank);
      LaterPrefix(raw, cut, dtype, rank);
    }
  }

  lemma FixedRead(raw: seq<byte>)
    requires Decode(raw).Ok?
    ensures ReadHeader(raw).Ok? && ReadFixed(raw).Ok? && |raw| >= 20
    ensures raw[..8] == [76, 65, 83, 83, 73, 73, 79, 0] && FromLittle(raw[8..12]) == 1
    ensures 1 <= FromLittle(raw[12..16]) <= 9
    ensures ReadFixed(raw) == Ok((DTYPES[FromLittle(raw[12..16]) - 1], FromLittle(raw[16..20])))
  {
    hide FromLittle, ReadName, ByteCount;
  }

  lemma HeaderEndIs(raw: seq<byte>, dtype: DType, rank: nat)
    requires ReadHeader(raw).Ok? && ReadFixed(raw) == Ok((dtype, rank))
    ensures var at := 20 + 8 * rank;
      && at + 4 <= |raw|
      && var nameEnd := at + 4 + FromLittle(raw[at..at + 4]);
         nameEnd <= |raw| && ReadHeader(raw).value.end == nameEnd + Padding(nameEnd) <= |raw|
  {
    hide FromLittle, ReadFixed, DimsAt, NameText, ValidNameBytes;
  }

  // what of a header lies before the cut reads the same
  lemma LaterPrefix(raw: seq<byte>, cut: nat, dtype: DType, rank: nat)
    requires 20 + 8 * rank + 4 <= |raw| && cut < |raw|
    ensures var at, short := 20 + 8 * rank, raw[..cut];
      && (at + 4 <= cut ==>
        && short[at..at + 4] == raw[at..at + 4]
        && var nameEnd := at + 4 + FromLittle(raw[at..at + 4]);
           (nameEnd <= cut ==> short[at + 4..nameEnd] == raw[at + 4..nameEnd])
           && DimsAt(short, 20, rank) == DimsAt(raw, 20, rank))
  {
    hide FromLittle, DimsAt;
    if 20 + 8 * rank + 4 <= cut {
      SameDims(raw, cut, 20, rank);
    }
  }

  lemma {:induction false} SameDims(raw: seq<byte>, cut: nat, offset: nat, rank: nat)
    requires offset + 8 * rank <= cut <= |raw|
    ensures DimsAt(raw[..cut], offset, rank) == DimsAt(raw, offset, rank)
    decreases rank
  {
    hide FromLittle;
    if rank == 0 {
    } else {
      SameDims(raw, cut, offset + 8, rank - 1);
      assert raw[..cut][offset..offset + 8] == raw[offset..offset + 8];
    }
  }
}
