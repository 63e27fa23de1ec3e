/**
 The HERE flexible-polyline decoder (client/here/polyline.go): base-64 varints, zigzag deltas and header
 bit fields, on 64-bit integers. Coordinates are kept as the scaled integers the format carries.
 */
module Polyline {
  import opened Bits
  import opened Wrappers

  /** The alphabet, by value. */
  function Digit(v: int): (c: Byte)
    requires 0 <= v < 64
  {
    if v < 26 then 65 + v
    else if v < 52 then 97 + v - 26
    else if v < 62 then 48 + v - 52
    else if v == 62 then 45
    else 95
  }

  /** The value of a character, or -1 outside the alphabet. */
  function ValueOf(c: Byte): (v: int)
    ensures -1 <= v < 64
  {
    if 65 <= c <= 90 then c - 65
    else if 97 <= c <= 122 then c - 97 + 26
    else if 48 <= c <= 57 then c - 48 + 52
    else if c == 45 then 62
    else if c == 95 then 63
    else -1
  }

  /** Characters and values correspond one to one. */
  lemma DigitValue(v: int, c: Byte)
    ensures 0 <= v < 64 ==> ValueOf(Digit(v)) == v
    ensures ValueOf(c) >= 0 ==> Digit(ValueOf(c)) == c
  {
  }

  const UPPER := "ABCDEFGHIJKLMNOPQRSTUVWXYZ"
  const LOWER := "abcdefghijklmnopqrstuvwxyz"
  const ALPHABET := UPPER + LOWER + "0123456789" + "-_"

  lemma UpperIsDigits(i: nat)
    requires i < |UPPER|
    ensures |UPPER| == 26 && UPPER[i] as int == 65 + i
  {
  }

  lemma LowerIsDigits(i: nat)
    requires i < |LOWER|
    ensures |LOWER| == 26 && LOWER[i] as int == 97 + i
  {
  }

  lemma AlphabetIsDigits(i: nat)
    requires i < |ALPHABET|
    ensures |ALPHABET| == 64 && ALPHABET[i] as int == Digit(i)
  {
    if i < |UPPER| {
      UpperIsDigits(i);
    } else if i < |UPPER| + |LOWER| {
      LowerIsDigits(i - |UPPER|);
    } else {
      assert "0123456789"[0] == '0' && i - 52 < 12;
    }
  }

  /** The package initialiser: all -1, then one entry per alphabet character. */
  method BuildTable() returns (table: array<int>)
    ensures fresh(table) && table.Length == 256
    ensures forall c: Byte :: table[c] == ValueOf(c)
  {
    table := new int[256];
    for i := 0 to 256
      invariant forall k :: 0 <= k < i ==> table[k] == -1
    {
      table[i] := -1;
    }
    AlphabetIsDigits(0);
    for i := 0 to |ALPHABET|
      invariant forall c: Byte :: table[c] == if 0 <= ValueOf(c) < i then ValueOf(c) else -1
    {
      AlphabetIsDigits(i);
      var c: Byte := ALPHABET[i] as int;
      DigitValue(i, c);
      forall d: Byte | ValueOf(d) == i ensures d == c { DigitValue(i, d); }
      table[c] := i;
    }
  }

  // ---------------------------------------------------------------- varints

  datatype Error = InvalidCharacter | UnexpectedEnd | EndAfterLat | EndAfterLng

  /** Index just past the varint that starts at `i`. */
  function Scan(data: seq<Byte>, i: nat): (r: Result<nat, Error>)
    requires i <= |data|
    ensures r.Ok? ==> i < r.value <= |data|
    decreases |data| - i
  {
    if i == |data| then Err(UnexpectedEnd)
    else if ValueOf(data[i]) < 0 then Err(InvalidCharacter)
    else if ValueOf(data[i]) < 32 then Ok(i + 1)
    else Scan(data, i + 1)
  }

  /** The number a run of characters denotes: five bits each, least significant first. */
  function Low(run: seq<Byte>): (n: nat) {
    if run == [] then 0 else ValueOf(run[0]) % 32 + 32 * Low(run[1..])
  }

  /** Seen from the loop: one more character adds five bits at the top. */
  lemma {:induction false} LowAppend(run: seq<Byte>, c: Byte, digit: nat, shift: nat)
    requires digit == ValueOf(c) % 32 && shift == 5 * |run|
    ensures Low(run + [c]) == Low(run) + digit * Pow2(shift)
    decreases |run|
  {
    if run == [] {
      assert [c][1..] == [];
    } else {
      assert (run + [c])[1..] == run[1..] + [c];
      LowAppend(run[1..], c, digit, shift - 5);
      Pow2Plus5(shift - 5);
      Associate(32, digit, Pow2(shift - 5));
      Associate(digit, 32, Pow2(shift - 5));
    }
  }

  lemma {:induction false} LowBound(run: seq<Byte>, shift: nat)
    requires shift == 5 * |run|
    ensures Low(run) < Pow2(shift)
    decreases |run|
  {
    if run != [] {
      LowBound(run[1..], shift - 5);
      Pow2Plus5(shift - 5);
    }
  }

  /** What the decoder makes of a run: the number truncated to 64 bits and read as signed. */
  function RunValue(run: seq<Byte>): (x: int) {
    Signed(Low(run) % TWO_64)
  }

  /** `decodeUnsignedValue`. */
  function Unsigned(data: seq<Byte>, i: nat): (r: Result<(int, nat), Error>)
    requires i <= |data|
    ensures r.Ok? ==> i < r.value.1 <= |data|
  {
    match Scan(data, i)
    case Err(e) => Err(e)
    case Ok(j) => Ok((RunValue(data[i..j]), j))
  }

  /** Zigzag back: bit 0 is the sign. Shifts and masks of int64 are floor division and remainder. */
  function FromZigZag(u: int): (x: int) {
    if u % 2 != 0 then -(u / 2) - 1 else u / 2
  }

  /** `decodeSignedValue`. */
  function SignedValue(data: seq<Byte>, i: nat): (r: Result<(int, nat), Error>)
    requires i <= |data|
    ensures r.Ok? ==> i < r.value.1 <= |data|
  {
    match Unsigned(data, i) case Err(e) => Err(e) case Ok((u, j)) => Ok((FromZigZag(u), j))
  }

  /** One more character of a run, as the loop adds it. */
  lemma LowStep(data: seq<Byte>, start: nat, index: nat)
    requires start <= index < |data|
    ensures Low(data[start..index + 1]) % TWO_64
         == Or(Low(data[start..index]) % TWO_64, Shl(ValueOf(data[index]) % 32, 5 * (index - start)))
  {
    assert data[start..index + 1] == data[start..index] + [data[index]];
    RunStep(data[start..index], data[index], ValueOf(data[index]) % 32, 5 * (index - start));
  }

  lemma RunStep(run: seq<Byte>, c: Byte, digit: nat, shift: nat)
    requires digit == ValueOf(c) % 32 && shift == 5 * |run|
    ensures Low(run + [c]) % TWO_64 == Or(Low(run) % TWO_64, Shl(digit, shift))
  {
    LowAppend(run, c, digit, shift);
    LowBound(run, shift);
    GroupAdded(Low(run + [c]), Low(run), digit, shift, |run|);
  }

  lemma GroupAdded(next: nat, low: nat, digit: nat, shift: nat, k: nat)
    requires next == low + digit * Pow2(shift) && low < Pow2(shift) && digit < 32 && shift == 5 * k
    ensures next % TWO_64 == Or(low % TWO_64, Shl(digit, shift))
  {
    OrStep(low, digit, shift, k);
  }

  method DecodeUnsignedValue(data: seq<Byte>, start: nat, table: array<int>) returns (r: Result<(int, nat), Error>)
    requires start <= |data| && table.Length == 256 && forall c: Byte :: table[c] == ValueOf(c)
    ensures r == Unsigned(data, start)
  {
    var index, result: nat, shift := start, 0, 0;
    while index < |data|
      invariant start <= index <= |data| && shift == 5 * (index - start)
      invariant result == Low(data[start..index]) % TWO_64
      invariant Scan(data, start) == Scan(data, index)
    {
      var v := table[data[index]];
      if v < 0 {
        return Err(InvalidCharacter);
      }
      LowStep(data, start, index);
      result := Or(result, Shl(v % 32, shift));
      index := index + 1;
      shift := shift + 5;
      if v < 32 {
        return Ok((Signed(result), index));
      }
    }
    return Err(UnexpectedEnd);
  }

  method DecodeSignedValue(data: seq<Byte>, start: nat, table: array<int>) returns (r: Result<(int, nat), Error>)
    requires start <= |data| && table.Length == 256 && forall c: Byte :: table[c] == ValueOf(c)
    ensures r == SignedValue(data, start)
  {
    var unsigned := DecodeUnsignedValue(data, start, table);
    match unsigned {
      case Err(e) => return Err(e);
      case Ok(value) =>
        if value.0 % 2 != 0 {
          return Ok((-(value.0 / 2) - 1, value.1));
        }
        return Ok((value.0 / 2, value.1));
    }
  }

  // ---------------------------------------------------------------- the decoder

  /** Scaled coordinates; the source divides them by 10^precision. */
  datatype Polyline = Polyline(precision: nat, coords: seq<(int, int)>)

  /** Reads a delta, respectively a tuple of deltas, at a position; gives the position past it. */
  type DeltaReader = nat -> Result<(int, nat), Error>
  type TupleReader = nat -> Result<(int, int, nat), Error>

  function DeltaAt(data: seq<Byte>): (read: DeltaReader) {
    (i: nat) => if i <= |data| then SignedValue(data, i) else Err(UnexpectedEnd)
  }

  /** One tuple of deltas at `i`, before `end`. The third delta is read and dropped. */
  function Tuple(read: DeltaReader, end: nat, i: nat, hasZ: bool): (r: Result<(int, int, nat), Error>) {
    match read(i)
    case Err(e) => Err(e)
    case Ok((dLat, j)) =>
      if j >= end then Err(EndAfterLat)
      else match read(j)
        case Err(e) => Err(e)
        case Ok((dLng, k)) =>
          if !hasZ then Ok((dLat, dLng, k))
          else if k >= end then Err(EndAfterLng)
          else match read(k) case Err(e) => Err(e) case Ok((_, next)) => Ok((dLat, dLng, next))
  }

  function TupleAt(data: seq<Byte>, hasZ: bool): (read: TupleReader) {
    (i: nat) => Tuple(DeltaAt(data), |data|, i, hasZ)
  }

  /** A reader moves on, and not past the end. */
  ghost predicate Advances(read: TupleReader, end: nat) {
    forall i: nat :: i < end && read(i).Ok? ==> i < read(i).value.2 <= end
  }

  lemma TupleAtAdvances(data: seq<Byte>, hasZ: bool)
    ensures Advances(TupleAt(data, hasZ), |data|)
  {
  }

  /** The coordinates from `i` on, after (lat, lng). */
  function Tuples(read: TupleReader, end: nat, i: nat, lat: int, lng: int): (r: Result<seq<(int, int)>, Error>)
    requires i <= end && Advances(read, end)
    decreases end - i
  {
    if i == end then Ok([])
    else match read(i)
      case Err(e) => Err(e)
      case Ok((dLat, dLng, next)) =>
        match Tuples(read, end, next, Wrap(lat + dLat), Wrap(lng + dLng))
        case Err(e) => Err(e)
        case Ok(rest) => Ok([(Wrap(lat + dLat), Wrap(lng + dLng))] + rest)
  }

  /** Bits 0-3 of the header are the precision, bits 4-6 the third-dimension type. */
  function HasThirdDim(header: int): (b: bool) {
    (header / 16) % 8 != 0
  }

  /** The result on every input; None stands for the nil slice of an empty string. */
  function Decode(data: seq<Byte>): (r: Result<Option<Polyline>, Error>) {
    if data == [] then Ok(None)
    else match Unsigned(data, 0)
      case Err(e) => Err(e)
      case Ok((_, i)) =>
        match Unsigned(data, i)
        case Err(e) => Err(e)
        case Ok((header, j)) =>
          TupleAtAdvances(data, HasThirdDim(header));
          match Tuples(TupleAt(data, HasThirdDim(header)), |data|, j, 0, 0)
          case Err(e) => Err(e)
          case Ok(coords) => Ok(Some(Polyline(header % 16, coords)))
  }

  /** `read` is the tuple reader of `data`. */
  ghost predicate Reads(read: TupleReader, data: seq<Byte>, hasZ: bool) {
    forall i: nat {:trigger Tuple(DeltaAt(data), |data|, i, hasZ)} :: read(i) == Tuple(DeltaAt(data), |data|, i, hasZ)
  }

  /** One round of the coordinate loop. */
  method DecodeTuple(data: seq<Byte>, start: nat, hasThirdDim: bool, table: array<int>, ghost read: TupleReader)
    returns (r: Result<(int, int, nat), Error>)
    requires Reads(read, data, hasThirdDim)
    requires start <= |data| && table.Length == 256 && forall c: Byte :: table[c] == ValueOf(c)
    ensures r == read(start)
  {
    assert read(start) == Tuple(DeltaAt(data), |data|, start, hasThirdDim);
    var lat := DecodeSignedValue(data, start, table);
    if lat.Err? {
      return Err(lat.error);
    }
    var index := lat.value.1;
    if index >= |data| {
      return Err(EndAfterLat);
    }
    var lng := DecodeSignedValue(data, index, table);
    if lng.Err? {
      return Err(lng.error);
    }
    index := lng.value.1;
    if hasThirdDim {
      if index >= |data| {
        return Err(EndAfterLng);
      }
      var z := DecodeSignedValue(data, index, table);
      if z.Err? {
        return Err(z.error);
      }
      index := z.value.1;
    }
    return Ok((lat.value.0, lng.value.0, index));
  }

  /** `all` is what was collected so far followed by what is still to come. */
  ghost predicate Continues(all: Result<seq<(int, int)>, Error>, coords: seq<(int, int)>,
                            rest: Result<seq<(int, int)>, Error>) {
    match rest case Err(e) => all == Err(e) case Ok(more) => all == Ok(coords + more)
  }

  lemma TuplesUnfold(read: TupleReader, end: nat, i: nat, lat: int, lng: int,
                     all: Result<seq<(int, int)>, Error>, coords: seq<(int, int)>)
    requires i < end && Advances(read, end) && Continues(all, coords, Tuples(read, end, i, lat, lng))
    ensures match read(i)
      case Err(e) => all == Err(e)
      case Ok((dLat, dLng, next)) =>
        var p := (Wrap(lat + dLat), Wrap(lng + dLng));
        Continues(all, coords + [p], Tuples(read, end, next, p.0, p.1))
  {
    match read(i)
    case Err(e) =>
    case Ok((dLat, dLng, next)) =>
      var p := (Wrap(lat + dLat), Wrap(lng + dLng));
      var rest := Tuples(read, end, next, p.0, p.1);
      assert rest.Ok? ==> coords + ([p] + rest.value) == coords + [p] + rest.value;
  }

  method DecodeTuples(data: seq<Byte>, start: nat, hasThirdDim: bool, table: array<int>, ghost read: TupleReader)
    returns (r: Result<seq<(int, int)>, Error>)
    requires Reads(read, data, hasThirdDim) && Advances(read, |data|)
    requires start <= |data| && table.Length == 256 && forall c: Byte :: table[c] == ValueOf(c)
    ensures r == Tuples(read, |data|, start, 0, 0)
  {
    var index := start;
    var coords: seq<(int, int)> := [];
    var lastLat, lastLng := 0, 0;
    ghost var all := Tuples(read, |data|, start, 0, 0);
    assert all.Ok? ==> coords + all.value == all.value;
    while index < |data|
      invariant index <= |data|
      invariant Continues(all, coords, Tuples(read, |data|, index, lastLat, lastLng))
      decreases |data| - index
    {
      var tuple := DecodeTuple(data, index, hasThirdDim, table, read);
      TuplesUnfold(read, |data|, index, lastLat, lastLng, all, coords);
      if tuple.Err? {
        return Err(tuple.error);
      }
      lastLat, lastLng := Wrap(lastLat + tuple.value.0), Wrap(lastLng + tuple.value.1);
      coords := coords + [(lastLat, lastLng)];
      index := tuple.value.2;
    }
    assert coords + [] == coords;
    return Ok(coords);
  }

  method DecodeFlexiblePolyline(data: seq<Byte>, table: array<int>) returns (r: Result<Option<Polyline>, Error>)
    requires table.Length == 256 && forall c: Byte :: table[c] == ValueOf(c)
    ensures r == Decode(data)
  {
    if |data| == 0 {
      return Ok(None);
    }
    var version := DecodeUnsignedValue(data, 0, table);
    if version.Err? {
      return Err(version.error);
    }
    var head := DecodeUnsignedValue(data, version.value.1, table);
    if head.Err? {
      return Err(head.error);
    }
    var precision := head.value.0 % 16;
    var hasThirdDim := (head.value.0 / 16) % 8 != 0;
    TupleAtAdvances(data, hasThirdDim);
    var coords := DecodeTuples(data, head.value.1, hasThirdDim, table, TupleAt(data, hasThirdDim));
    if coords.Err? {
      return Err(coords.error);
    }
    return Ok(Some(Polyline(precision, coords.value)));
  }

  // ---------------------------------------------------------------- reference encoder

  /** A varint of the format: groups of five bits, least significant first, bit 5 set on all but the last. */
  function EncodeUnsigned(n: nat): (run: seq<Byte>)
    ensures run != []
  {
    if n < 32 then [Digit(n)] else [Digit(32 + n % 32)] + EncodeUnsigned(n / 32)
  }

  function ZigZag(x: int): (u: nat) {
    if x >= 0 then 2 * x else -2 * x - 1
  }

  datatype Point = Point(lat: int, lng: int, z: int)

  const ORIGIN := Point(0, 0, 0)

  function EncodeDelta(x: int): (run: seq<Byte>) {
    EncodeUnsigned(ZigZag(x))
  }

  /** How a delta is written, and a point after the previous one. */
  type DeltaWriter = int -> seq<Byte>
  type PointWriter = (Point, Point) -> seq<Byte>

  function PointFrom(delta: DeltaWriter, hasZ: bool, p: Point, from: Point): (data: seq<Byte>) {
    delta(p.lat - from.lat) + delta(p.lng - from.lng) + (if hasZ then delta(p.z - from.z) else [])
  }

  function EncodePoint(hasZ: bool): (write: PointWriter) {
    (p: Point, from: Point) => PointFrom(EncodeDelta, hasZ, p, from)
  }

  function EncodeAll(write: PointWriter, points: seq<Point>, from: Point): (data: seq<Byte>) {
    if points == [] then [] else write(points[0], from) + EncodeAll(write, points[1..], points[0])
  }

  /** Version 1, the header fields, then one tuple of zigzag deltas per point. */
  function Encode(points: seq<Point>, precision: nat, thirdDim: nat, thirdPrecision: nat): (data: seq<Byte>) {
    EncodeUnsigned(1) + EncodeUnsigned(precision + 16 * thirdDim + 128 * thirdPrecision) +
    EncodeAll(EncodePoint(thirdDim != 0), points, ORIGIN)
  }

  /** The bytes of `run` stand in `data` from `i` on. */
  predicate At(data: seq<Byte>, i: nat, run: seq<Byte>) {
    i + |run| <= |data| && data[i..i + |run|] == run
  }

  lemma AtParts(data: seq<Byte>, i: nat, a: seq<Byte>, b: seq<Byte>)
    requires At(data, i, a + b)
    ensures At(data, i, a) && At(data, i + |a|, b)
  {
    assert data[i..i + |a + b|][..|a|] == data[i..i + |a|];
    assert data[i..i + |a + b|][|a|..] == data[i + |a|..i + |a| + |b|];
  }

  /** Self-delimiting: wherever it stands, a varint is read back whole and nothing more is read. */
  lemma {:induction false} ScanOfEncoded(data: seq<Byte>, i: nat, n: nat)
    requires At(data, i, EncodeUnsigned(n))
    ensures Scan(data, i) == Ok(i + |EncodeUnsigned(n)|)
    decreases n
  {
    assert data[i] == data[i..i + |EncodeUnsigned(n)|][0];
    DigitValue(if n < 32 then n else 32 + n % 32, 0);
    if n >= 32 {
      AtParts(data, i, [Digit(32 + n % 32)], EncodeUnsigned(n / 32));
      ScanOfEncoded(data, i + 1, n / 32);
    }
  }

  lemma {:induction false} LowOfEncoded(n: nat)
    ensures Low(EncodeUnsigned(n)) == n
    decreases n
  {
    if n < 32 {
      DigitValue(n, 0);
      assert [Digit(n)][1..] == [];
    } else {
      DigitValue(32 + n % 32, 0);
      assert EncodeUnsigned(n)[1..] == EncodeUnsigned(n / 32);
      LowOfEncoded(n / 32);
    }
  }

  /** What the decoder makes of a delta `x`: zigzag on 64 bits. */
  function Received(x: int): (d: int)
    ensures -TWO_63 / 2 <= d < TWO_63 / 2
  {
    FromZigZagRange(Signed(ZigZag(x) % TWO_64));
    FromZigZag(Signed(ZigZag(x) % TWO_64))
  }

  /** Wherever it stands, a delta is read whole. */
  lemma DeltaReadBack(data: seq<Byte>, i: nat, x: int)
    requires At(data, i, EncodeDelta(x))
    ensures DeltaAt(data)(i) == Ok((Received(x), i + |EncodeDelta(x)|))
  {
    UnsignedOfEncoded(data, i, ZigZag(x));
  }

  /** A delta is read back as itself exactly when it lies in [-2^62, 2^62). */
  lemma DeltaRoundTripIff(data: seq<Byte>, i: nat, x: int)
    requires At(data, i, EncodeDelta(x))
    ensures DeltaAt(data)(i).Ok? && DeltaAt(data)(i).value.1 == i + |EncodeDelta(x)|
    ensures DeltaAt(data)(i).value.0 == x <==> -TWO_63 / 2 <= x < TWO_63 / 2
  {
    DeltaReadBack(data, i, x);
    ZigZagIff(x);
  }

  /** A varint is read back whole, truncated to 64 bits and read as signed. */
  lemma UnsignedOfEncoded(data: seq<Byte>, i: nat, n: nat)
    requires At(data, i, EncodeUnsigned(n))
    ensures Unsigned(data, i) == Ok((Signed(n % TWO_64), i + |EncodeUnsigned(n)|))
  {
    ScanOfEncoded(data, i, n);
    LowOfEncoded(n);
  }

  lemma ZigZagIff(x: int)
    ensures FromZigZag(Signed(ZigZag(x) % TWO_64)) == x <==> -TWO_63 / 2 <= x < TWO_63 / 2
  {
    FromZigZagRange(Signed(ZigZag(x) % TWO_64));
    ZigZagUndone(x);
    if -TWO_63 / 2 <= x < TWO_63 / 2 {
      Small(ZigZag(x));
    }
  }

  lemma ZigZagUndone(x: int)
    ensures FromZigZag(ZigZag(x)) == x
  {
  }

  lemma FromZigZagRange(u: int)
    requires -TWO_63 <= u < TWO_63
    ensures -TWO_63 / 2 <= FromZigZag(u) < TWO_63 / 2
  {
    assert u == 2 * (u / 2) + u % 2;
  }

  /** Of the numbers equal to `x` modulo 2^64, the one int64 holds. */
  function Residue(x: int): (r: int)
    ensures -TWO_63 <= r < TWO_63
  {
    Signed(x % TWO_64)
  }

  predicate FitsInt64(x: int) {
    -TWO_63 <= x < TWO_63
  }

  predicate FitsDelta(x: int) {
    -TWO_63 / 2 <= x < TWO_63 / 2
  }

  lemma ResidueOf(x: int, r: int, k: int)
    requires x == r + k * TWO_64 && FitsInt64(r)
    ensures Residue(x) == r
  {
    if r >= 0 {
      RemainderIs(x, r, k);
    } else {
      RemainderIs(x, r + TWO_64, k - 1);
    }
  }

  lemma RemainderIs(x: int, r: int, k: int)
    requires x == r + k * TWO_64 && 0 <= r < TWO_64
    ensures x % TWO_64 == r
  {
  }

  lemma ResidueShape(x: int) returns (k: int)
    ensures x == Residue(x) + k * TWO_64
  {
    k := if x % TWO_64 < TWO_63 then x / TWO_64 else x / TWO_64 + 1;
  }

  /** A delta whose residue fits arrives as that residue. */
  lemma ReceivedResidue(x: int, r: int, k: int)
    requires x == r + k * TWO_64 && FitsDelta(r)
    ensures Received(x) == r
  {
    if x >= 0 {
      ResidueOf(2 * x, 2 * r, 2 * k);
    } else {
      ResidueOf(-2 * x - 1, -2 * r - 1, -2 * k);
    }
  }

  lemma WrapShape(a: int, d: int) returns (k: int)
    requires FitsInt64(a) && FitsDelta(d)
    ensures FitsInt64(Wrap(a + d)) && Wrap(a + d) == a + d + k * TWO_64
  {
    k := if a + d >= TWO_63 then -1 else if a + d < -TWO_63 then 1 else 0;
  }

  /**
   One coordinate, from a previous one that fits int64: it is recovered exactly if it fits too and the step to
   it is, modulo 2^64, a delta of at most 63 bits. So steps may also wrap around.
   */
  lemma StepIff(prev: int, x: int)
    requires FitsInt64(prev)
    ensures Wrap(prev + Received(x - prev)) == x <==> FitsInt64(x) && FitsDelta(Residue(x - prev))
  {
    var d := Received(x - prev);
    var k := WrapShape(prev, d);
    if Wrap(prev + d) == x {
      ResidueOf(x - prev, d, k);
    }
    if FitsInt64(x) && FitsDelta(Residue(x - prev)) {
      var m := ResidueShape(x - prev);
      ReceivedResidue(x - prev, Residue(x - prev), m);
      SameInt64(Wrap(prev + d), x, k - m);
    }
  }

  lemma SameInt64(a: int, b: int, k: int)
    requires FitsInt64(a) && FitsInt64(b) && a == b + k * TWO_64
    ensures a == b
  {
  }

  /** Every coordinate fits int64, and every step fits a delta modulo 2^64. */
  ghost predicate Readable(points: seq<Point>, from: Point) {
    points != [] ==> StepReadable(points[0], from) && Readable(points[1..], points[0])
  }

  predicate StepReadable(p: Point, from: Point) {
    && FitsInt64(p.lat) && FitsDelta(Residue(p.lat - from.lat))
    && FitsInt64(p.lng) && FitsDelta(Residue(p.lng - from.lng))
  }

  /** What the decoder makes of the step from `from` to `p` when it stands at (lat, lng). */
  function Stepped(p: Point, from: Point, lat: int, lng: int): (next: (int, int)) {
    (Wrap(lat + Received(p.lat - from.lat)), Wrap(lng + Received(p.lng - from.lng)))
  }

  lemma SteppedIff(p: Point, from: Point)
    requires FitsInt64(from.lat) && FitsInt64(from.lng)
    ensures Stepped(p, from, from.lat, from.lng) == (p.lat, p.lng) <==> StepReadable(p, from)
  {
    StepIff(from.lat, p.lat);
    StepIff(from.lng, p.lng);
  }

  function LatLng(points: seq<Point>): (ll: seq<(int, int)>) {
    if points == [] then [] else [(points[0].lat, points[0].lng)] + LatLng(points[1..])
  }

  /** What the decoder makes of the steps between the points, from (lat, lng) on. */
  function Decoded(points: seq<Point>, from: Point, lat: int, lng: int): (ll: seq<(int, int)>) {
    if points == [] then []
    else
      var next := Stepped(points[0], from, lat, lng);
      [next] + Decoded(points[1..], points[0], next.0, next.1)
  }

  lemma {:induction false} DecodedIff(points: seq<Point>, from: Point)
    requires FitsInt64(from.lat) && FitsInt64(from.lng)
    ensures Decoded(points, from, from.lat, from.lng) == LatLng(points) <==> Readable(points, from)
    decreases |points|
  {
    if points != [] {
      var p := points[0];
      var next := Stepped(p, from, from.lat, from.lng);
      SteppedIff(p, from);
      FirstAndRest(next, Decoded(points[1..], p, next.0, next.1), (p.lat, p.lng), LatLng(points[1..]));
      if next == (p.lat, p.lng) {
        DecodedIff(points[1..], p);
      }
    }
  }

  lemma FirstAndRest<T>(a: T, more: seq<T>, b: T, bs: seq<T>)
    ensures [a] + more == [b] + bs <==> a == b && more == bs
  {
    assert ([a] + more)[0] == a && ([b] + bs)[0] == b;
    assert ([a] + more)[1..] == more && ([b] + bs)[1..] == bs;
  }

  /** `read` reads, at `i`, the steps that `write` wrote for `p`. */
  ghost predicate ReadsBack(read: TupleReader, write: PointWriter, i: nat, p: Point, from: Point) {
    read(i) == Ok((Received(p.lat - from.lat), Received(p.lng - from.lng), i + |write(p, from)|))
  }

  /** `read` undoes `delta` wherever it stands in `data`, as far as 64 bits allow. */
  ghost predicate Undoes(read: DeltaReader, delta: DeltaWriter, data: seq<Byte>) {
    && (forall x :: delta(x) != [])
    && forall k: nat, x {:trigger At(data, k, delta(x))} :: At(data, k, delta(x)) ==>
         read(k) == Ok((Received(x), k + |delta(x)|))
  }

  lemma DeltaAtUndoes(data: seq<Byte>)
    ensures Undoes(DeltaAt(data), EncodeDelta, data)
  {
    forall k: nat, x {:trigger At(data, k, EncodeDelta(x))} | At(data, k, EncodeDelta(x))
      ensures DeltaAt(data)(k) == Ok((Received(x), k + |EncodeDelta(x)|))
    {
      DeltaReadBack(data, k, x);
    }
  }

  lemma TupleUndone(read: DeltaReader, delta: DeltaWriter, data: seq<Byte>, i: nat, hasZ: bool, p: Point, from: Point)
    requires Undoes(read, delta, data) && At(data, i, PointFrom(delta, hasZ, p, from))
    ensures Tuple(read, |data|, i, hasZ)
         == Ok((Received(p.lat - from.lat), Received(p.lng - from.lng), i + |PointFrom(delta, hasZ, p, from)|))
  {
    var a, b := delta(p.lat - from.lat), delta(p.lng - from.lng);
    var c := if hasZ then delta(p.z - from.z) else [];
    AtParts(data, i, a + b, c);
    AtParts(data, i, a, b);
    TupleFrom(read, |data|, i, hasZ, i + |a|, i + |a| + |b|, i + |a| + |b| + |c|);
  }

  /** A written tuple is read back whole, with or without third dimension. */
  lemma TupleRoundTrip(data: seq<Byte>, i: nat, p: Point, hasZ: bool, from: Point)
    requires At(data, i, EncodePoint(hasZ)(p, from))
    ensures ReadsBack(TupleAt(data, hasZ), EncodePoint(hasZ), i, p, from)
  {
    DeltaAtUndoes(data);
    TupleUndone(DeltaAt(data), EncodeDelta, data, i, hasZ, p, from);
  }

  lemma TupleFrom(read: DeltaReader, end: nat, i: nat, hasZ: bool, j: nat, k: nat, next: nat)
    requires read(i).Ok? && read(i).value.1 == j < end && read(j).Ok? && read(j).value.1 == k
    requires if hasZ then k < end && read(k).Ok? && read(k).value.1 == next else next == k
    ensures Tuple(read, end, i, hasZ) == Ok((read(i).value.0, read(j).value.0, next))
  {
  }

  /** Whole lists, for any reader and writer of which the one undoes the other on single points. */
  lemma {:induction false} ListRoundTrip(read: TupleReader, write: PointWriter, data: seq<Byte>, i: nat,
                                         points: seq<Point>, from: Point, lat: int, lng: int)
    requires Advances(read, |data|)
    requires At(data, i, EncodeAll(write, points, from)) && i + |EncodeAll(write, points, from)| == |data|
    requires forall k, p, q {:trigger ReadsBack(read, write, k, p, q)} ::
               At(data, k, write(p, q)) ==> ReadsBack(read, write, k, p, q)
    requires forall p, q :: write(p, q) != []
    ensures Tuples(read, |data|, i, lat, lng) == Ok(Decoded(points, from, lat, lng))
    decreases |points|
  {
    if points != [] {
      var p := points[0];
      var dLat, dLng, next := Received(p.lat - from.lat), Received(p.lng - from.lng), i + |write(p, from)|;
      assert Stepped(p, from, lat, lng) == (Wrap(lat + dLat), Wrap(lng + dLng));
      AtParts(data, i, write(p, from), EncodeAll(write, points[1..], p));
      assert ReadsBack(read, write, i, p, from);
      ListRoundTrip(read, write, data, next, points[1..], p, Wrap(lat + dLat), Wrap(lng + dLng));
      var rest := Decoded(points[1..], p, Wrap(lat + dLat), Wrap(lng + dLng));
      TuplesFrom(read, |data|, i, lat, lng, dLat, dLng, next, rest);
    }
  }

  lemma TuplesFrom(read: TupleReader, end: nat, i: nat, lat: int, lng: int,
                   dLat: int, dLng: int, next: nat, rest: seq<(int, int)>)
    requires Advances(read, end) && i < end && read(i) == Ok((dLat, dLng, next))
    requires Tuples(read, end, next, Wrap(lat + dLat), Wrap(lng + dLng)) == Ok(rest)
    ensures Tuples(read, end, i, lat, lng) == Ok([(Wrap(lat + dLat), Wrap(lng + dLng))] + rest)
  {
  }

  /** Every polyline written by the reference encoder is accepted, with its precision, as its received steps. */
  lemma DecodesTo(points: seq<Point>, precision: nat, thirdDim: nat, thirdPrecision: nat)
    requires precision < 16 && thirdDim < 8 && thirdPrecision < 16
    ensures Decode(Encode(points, precision, thirdDim, thirdPrecision))
         == Ok(Some(Polyline(precision, Decoded(points, ORIGIN, ORIGIN.lat, ORIGIN.lng))))
  {
    var h := precision + 16 * thirdDim + 128 * thirdPrecision;
    var v, e, t := EncodeUnsigned(1), EncodeUnsigned(h), EncodeAll(EncodePoint(thirdDim != 0), points, ORIGIN);
    var data := v + e + t;
    assert At(data, 0, v + e + t);
    AtParts(data, 0, v + e, t);
    HeaderFields(precision, thirdDim, thirdPrecision);
    HeaderReadBack(data, 1, h);
    BodyRoundTrip(data, |v + e|, points, thirdDim != 0);
    DecodeFrom(data, h, |v + e|, Decoded(points, ORIGIN, ORIGIN.lat, ORIGIN.lng));
  }

  /**
   Round trip: the decoder gives back exactly the scaled coordinates of a polyline if and only if all of them
   fit int64 and every step fits a delta modulo 2^64.
   */
  lemma RoundTripIff(points: seq<Point>, precision: nat, thirdDim: nat, thirdPrecision: nat)
    requires precision < 16 && thirdDim < 8 && thirdPrecision < 16
    ensures Decode(Encode(points, precision, thirdDim, thirdPrecision)) == Ok(Some(Polyline(precision, LatLng(points))))
            <==> Readable(points, ORIGIN)
  {
    DecodesTo(points, precision, thirdDim, thirdPrecision);
    DecodedIff(points, ORIGIN);
  }

  /** Two varints at the start are read as version and header. */
  lemma HeaderReadBack(data: seq<Byte>, version: nat, h: nat)
    requires At(data, 0, EncodeUnsigned(version) + EncodeUnsigned(h)) && Signed(h % TWO_64) == h
    ensures Header(data) == Some((h, |EncodeUnsigned(version) + EncodeUnsigned(h)|))
  {
    var v, e := EncodeUnsigned(version), EncodeUnsigned(h);
    AtParts(data, 0, v, e);
    VersionSkipped(data, version, |v|);
    SmallReadBack(data, |v|, h, |v + e|);
    HeaderFrom(data, |v|, |v + e|, h);
  }

  lemma VersionSkipped(data: seq<Byte>, version: nat, j: nat)
    requires At(data, 0, EncodeUnsigned(version)) && j == |EncodeUnsigned(version)|
    ensures Unsigned(data, 0).Ok? && Unsigned(data, 0).value.1 == j
  {
    UnsignedOfEncoded(data, 0, version);
  }

  lemma SmallReadBack(data: seq<Byte>, i: nat, n: nat, j: nat)
    requires At(data, i, EncodeUnsigned(n)) && Signed(n % TWO_64) == n && j == i + |EncodeUnsigned(n)|
    ensures Unsigned(data, i) == Ok((n, j))
  {
    UnsignedOfEncoded(data, i, n);
  }

  lemma HeaderFrom(data: seq<Byte>, i: nat, j: nat, h: int)
    requires Unsigned(data, 0).Ok? && Unsigned(data, 0).value.1 == i <= |data| && Unsigned(data, i) == Ok((h, j))
    ensures Header(data) == Some((h, j))
  {
  }

  lemma DecodeFrom(data: seq<Byte>, h: int, j: nat, coords: seq<(int, int)>)
    requires data != [] && j <= |data| && Header(data) == Some((h, j))
    requires Advances(TupleAt(data, HasThirdDim(h)), |data|)
    requires Tuples(TupleAt(data, HasThirdDim(h)), |data|, j, 0, 0) == Ok(coords)
    ensures Decode(data) == Ok(Some(Polyline(h % 16, coords)))
  {
  }

  lemma BodyRoundTrip(data: seq<Byte>, i: nat, points: seq<Point>, hasZ: bool)
    requires At(data, i, EncodeAll(EncodePoint(hasZ), points, ORIGIN))
    requires i + |EncodeAll(EncodePoint(hasZ), points, ORIGIN)| == |data|
    ensures Advances(TupleAt(data, hasZ), |data|)
    ensures Tuples(TupleAt(data, hasZ), |data|, i, 0, 0) == Ok(Decoded(points, ORIGIN, ORIGIN.lat, ORIGIN.lng))
  {
    TupleAtAdvances(data, hasZ);
    forall k: nat, p, q {:trigger ReadsBack(TupleAt(data, hasZ), EncodePoint(hasZ), k, p, q)}
      | At(data, k, EncodePoint(hasZ)(p, q))
      ensures ReadsBack(TupleAt(data, hasZ), EncodePoint(hasZ), k, p, q)
    {
      TupleRoundTrip(data, k, p, hasZ, q);
    }
    ListRoundTrip(TupleAt(data, hasZ), EncodePoint(hasZ), data, i, points, ORIGIN, ORIGIN.lat, ORIGIN.lng);
  }

  lemma HeaderFields(precision: nat, thirdDim: nat, thirdPrecision: nat)
    requires precision < 16 && thirdDim < 8 && thirdPrecision < 16
    ensures var h := precision + 16 * thirdDim + 128 * thirdPrecision;
      Signed(h % TWO_64) == h && h % 16 == precision && (HasThirdDim(h) <==> thirdDim != 0)
  {
    var h := precision + 16 * thirdDim + 128 * thirdPrecision;
    assert h / 16 == thirdDim + 8 * thirdPrecision;
  }

  // ---------------------------------------------------------------- a published example

  lemma NextGroup(n: nat, q: nat, d: nat)
    requires n == 32 * q + d && q > 0 && d < 32
    ensures EncodeUnsigned(n) == [Digit(32 + d)] + EncodeUnsigned(q)
  {
  }

  lemma FirstPoint()
    ensures EncodeDelta(5010228) == [111, 122, 53, 120, 74]
    ensures EncodeDelta(869821) == [54, 55, 105, 49, 66]
  {
    NextGroup(305, 9, 17);
    NextGroup(9785, 305, 25);
    NextGroup(313139, 9785, 19);
    NextGroup(10020456, 313139, 8);
    NextGroup(53, 1, 21);
    NextGroup(1698, 53, 2);
    NextGroup(54363, 1698, 27);
    NextGroup(1739642, 54363, 26);
  }

  lemma SecondPoint()
    ensures EncodeDelta(-27) == [49, 66]
    ensures EncodeDelta(-254) == [55, 80]
  {
    NextGroup(53, 1, 21);
    NextGroup(507, 15, 27);
  }

  lemma ThirdPoint()
    ensures EncodeDelta(-138) == [122, 73]
    ensures EncodeDelta(-417) == [104, 97]
  {
    NextGroup(275, 8, 19);
    NextGroup(833, 26, 1);
  }

  lemma FourthPoint()
    ensures EncodeDelta(-185) == [120, 76]
    ensures EncodeDelta(-398) == [55, 89]
  {
    NextGroup(369, 11, 17);
    NextGroup(795, 24, 27);
  }

  /** The bytes of a text. */
  function Bytes(s: string): (data: seq<Byte>)
    ensures |data| == |s|
  {
    seq(|s|, i requires 0 <= i < |s| => s[i] as int % 256)
  }

  const EXAMPLE := [Point(5010228, 869821, 0), Point(5010201, 869567, 0), Point(5010063, 869150, 0),
                    Point(5009878, 868752, 0)]

  lemma ExampleIsReadable()
    ensures Readable(EXAMPLE, ORIGIN)
  {
    var p, q, r, s := EXAMPLE[0], EXAMPLE[1], EXAMPLE[2], EXAMPLE[3];
    assert EXAMPLE == [p] + ([q] + ([r] + ([s] + [])));
    NearIsReadable(s, r, []);
    NearIsReadable(r, q, [s] + []);
    NearIsReadable(q, p, [r] + ([s] + []));
    NearIsReadable(p, ORIGIN, [q] + ([r] + ([s] + [])));
  }

  /** Steps between points this close need no wrapping. */
  lemma NearIsReadable(p: Point, from: Point, rest: seq<Point>)
    requires -10_000_000 <= p.lat <= 10_000_000 && -10_000_000 <= p.lng <= 10_000_000
    requires -10_000_000 <= from.lat <= 10_000_000 && -10_000_000 <= from.lng <= 10_000_000
    requires Readable(rest, p)
    ensures Readable([p] + rest, from)
  {
    ResidueOf(p.lat - from.lat, p.lat - from.lat, 0);
    ResidueOf(p.lng - from.lng, p.lng - from.lng, 0);
    assert StepReadable(p, from);
    assert ([p] + rest)[1..] == rest;
  }

  lemma ExampleSteps() returns (body: seq<Byte>)
    ensures body == EncodeAll(EncodePoint(false), EXAMPLE, ORIGIN)
    ensures body == [111, 122, 53, 120, 74, 54, 55, 105, 49, 66] + [49, 66, 55, 80] + [122, 73, 104, 97]
                    + [120, 76, 55, 89]
  {
    var write := EncodePoint(false);
    var p, q, r, s := EXAMPLE[0], EXAMPLE[1], EXAMPLE[2], EXAMPLE[3];
    FirstPoint();
    SecondPoint();
    ThirdPoint();
    FourthPoint();
    assert write(p, ORIGIN) == [111, 122, 53, 120, 74, 54, 55, 105, 49, 66];
    assert write(q, p) == [49, 66, 55, 80] && write(r, q) == [122, 73, 104, 97] && write(s, r) == [120, 76, 55, 89];
    assert EXAMPLE[1..] == [q, r, s] && [q, r, s][1..] == [r, s] && [r, s][1..] == [s] && [s][1..] == [];
    assert EncodeAll(write, [s], r) == write(s, r) + [];
    assert EncodeAll(write, [r, s], q) == write(r, q) + EncodeAll(write, [s], r);
    assert EncodeAll(write, [q, r, s], p) == write(q, p) + EncodeAll(write, [r, s], q);
    body := EncodeAll(write, EXAMPLE, ORIGIN);
    assert body == write(p, ORIGIN) + EncodeAll(write, [q, r, s], p);
  }

  /** The example of the format's publisher: four points at precision 5. */
  lemma ExampleDecodes()
    ensures Decode(Bytes("BFoz5xJ67i1B1B7PzIhaxL7Y")) == Ok(Some(Polyline(5,
      [(5010228, 869821), (5010201, 869567), (5010063, 869150), (5009878, 868752)])))
  {
    var body := ExampleSteps();
    ExampleIsReadable();
    ExampleBytes(body);
    FlatDecodes(EXAMPLE, 5, body, Bytes("BFoz5xJ67i1B1B7PzIhaxL7Y"));
    ExampleCoordinates();
  }

  lemma ExampleText()
    ensures "BFoz5xJ67i1B1B7PzIhaxL7Y" == "BF" + "oz5xJ67i1B" + "1B7P" + "zIha" + "xL7Y"
  {
  }

  lemma PartBytes()
    ensures Bytes("BF") == [66, 70] && Bytes("oz5xJ67i1B") == [111, 122, 53, 120, 74, 54, 55, 105, 49, 66]
    ensures Bytes("1B7P") == [49, 66, 55, 80] && Bytes("zIha") == [122, 73, 104, 97]
    ensures Bytes("xL7Y") == [120, 76, 55, 89]
  {
  }

  lemma FiveBytes(a: string, b: string, c: string, d: string, e: string)
    ensures Bytes(a + b + c + d + e) == Bytes(a) + (Bytes(b) + Bytes(c) + Bytes(d) + Bytes(e))
  {
    BytesAppend(a + b + c + d, e);
    BytesAppend(a + b + c, d);
    BytesAppend(a + b, c);
    BytesAppend(a, b);
  }

  lemma ExampleBytes(body: seq<Byte>)
    requires body == [111, 122, 53, 120, 74, 54, 55, 105, 49, 66] + [49, 66, 55, 80] + [122, 73, 104, 97]
                     + [120, 76, 55, 89]
    ensures Bytes("BFoz5xJ67i1B1B7PzIhaxL7Y") == EncodeUnsigned(1) + EncodeUnsigned(5) + body
  {
    ExampleText();
    PartBytes();
    FiveBytes("BF", "oz5xJ67i1B", "1B7P", "zIha", "xL7Y");
    assert EncodeUnsigned(1) + EncodeUnsigned(5) == [66, 70];
  }

  lemma BytesAppend(a: string, b: string)
    ensures Bytes(a + b) == Bytes(a) + Bytes(b)
  {
  }

  lemma FlatDecodes(points: seq<Point>, precision: nat, body: seq<Byte>, data: seq<Byte>)
    requires precision < 16 && Readable(points, ORIGIN) && body == EncodeAll(EncodePoint(false), points, ORIGIN)
    requires data == EncodeUnsigned(1) + EncodeUnsigned(precision) + body
    ensures Decode(data) == Ok(Some(Polyline(precision, LatLng(points))))
  {
    RoundTripIff(points, precision, 0, 0);
    assert Encode(points, precision, 0, 0) == data;
  }

  lemma ExampleCoordinates()
    ensures LatLng(EXAMPLE) == [(5010228, 869821), (5010201, 869567), (5010063, 869150), (5009878, 868752)]
  {
    var p, q, r, s := EXAMPLE[0], EXAMPLE[1], EXAMPLE[2], EXAMPLE[3];
    assert EXAMPLE[1..] == [q, r, s] && [q, r, s][1..] == [r, s] && [r, s][1..] == [s] && [s][1..] == [];
    assert LatLng([s]) == [(s.lat, s.lng)] + LatLng([]);
    assert LatLng([r, s]) == [(r.lat, r.lng)] + LatLng([s]);
    assert LatLng([q, r, s]) == [(q.lat, q.lng)] + LatLng([r, s]);
  }

  // ---------------------------------------------------------------- accepted inputs

  /** How many characters from `i` on end a varint. */
  function Terminators(data: seq<Byte>, i: nat): (n: nat)
    requires i <= |data|
    decreases |data| - i
  {
    if i == |data| then 0 else (if 0 <= ValueOf(data[i]) < 32 then 1 else 0) + Terminators(data, i + 1)
  }

  /** From `i` on, only alphabet characters, and the last one ends a varint. */
  ghost predicate WholeVarints(data: seq<Byte>, i: nat)
    requires i <= |data|
  {
    && (forall k :: i <= k < |data| ==> ValueOf(data[k]) >= 0)
    && (i < |data| ==> ValueOf(data[|data| - 1]) < 32)
  }

  lemma {:induction false} ScanTakesOne(data: seq<Byte>, i: nat)
    requires i < |data|
    ensures WholeVarints(data, i) ==> Scan(data, i).Ok?
    ensures Scan(data, i).Ok? ==> var j := Scan(data, i).value;
      Terminators(data, i) == 1 + Terminators(data, j) && (WholeVarints(data, i) <==> WholeVarints(data, j))
    decreases |data| - i
  {
    if ValueOf(data[i]) >= 32 && i + 1 < |data| {
      ScanTakesOne(data, i + 1);
    }
  }

  lemma {:induction false} LastTerminates(data: seq<Byte>, i: nat)
    requires i < |data| && WholeVarints(data, i)
    ensures Terminators(data, i) >= 1
    decreases |data| - i
  {
    if i + 1 < |data| { LastTerminates(data, i + 1); }
  }

  /** `n` varints make whole tuples. */
  predicate WholeTuples(n: nat, hasZ: bool) {
    var size := if hasZ then 3 else 2;
    n == 0 || (n >= size && WholeTuples(n - size, hasZ))
  }

  /** A tuple takes as many whole varints as it has dimensions. */
  ghost predicate Takes(read: TupleReader, data: seq<Byte>, i: nat, hasZ: bool)
    requires i < |data|
  {
    && (WholeVarints(data, i) && Terminators(data, i) >= (if hasZ then 3 else 2) ==> read(i).Ok?)
    && (read(i).Ok? ==> var next := read(i).value.2;
          && i < next <= |data|
          && Terminators(data, i) == (if hasZ then 3 else 2) + Terminators(data, next)
          && (WholeVarints(data, i) <==> WholeVarints(data, next)))
  }

  lemma TupleTakes(data: seq<Byte>, i: nat, hasZ: bool)
    requires i < |data|
    ensures Takes(TupleAt(data, hasZ), data, i, hasZ)
  {
    ScanTakesOne(data, i);
    if Scan(data, i).Ok? && Scan(data, i).value < |data| {
      var j := Scan(data, i).value;
      ScanTakesOne(data, j);
      if Scan(data, j).Ok? && Scan(data, j).value < |data| {
        ScanTakesOne(data, Scan(data, j).value);
      }
    }
  }

  lemma OneTupleMore(n: nat, hasZ: bool)
    ensures WholeTuples((if hasZ then 3 else 2) + n, hasZ) <==> WholeTuples(n, hasZ)
    ensures n >= 1 && WholeTuples(n, hasZ) ==> n >= (if hasZ then 3 else 2)
  {
  }

  lemma {:induction false} TuplesAcceptIff(read: TupleReader, data: seq<Byte>, i: nat, hasZ: bool, lat: int, lng: int)
    requires i <= |data| && Advances(read, |data|) && forall k :: 0 <= k < |data| ==> Takes(read, data, k, hasZ)
    ensures Tuples(read, |data|, i, lat, lng).Ok? <==> WholeVarints(data, i) && WholeTuples(Terminators(data, i), hasZ)
    decreases |data| - i
  {
    if i < |data| {
      assert Takes(read, data, i, hasZ);
      if WholeVarints(data, i) { LastTerminates(data, i); }
      OneTupleMore(Terminators(data, i), hasZ);
      if read(i).Ok? {
        var (dLat, dLng, next) := read(i).value;
        OneTupleMore(Terminators(data, next), hasZ);
        TuplesAcceptIff(read, data, next, hasZ, Wrap(lat + dLat), Wrap(lng + dLng));
      }
    }
  }

  /** The header of an input that starts with two varints. */
  function Header(data: seq<Byte>): (h: Option<(int, nat)>) {
    match Unsigned(data, 0)
    case Err(_) => None
    case Ok((_, i)) => match Unsigned(data, i) case Err(_) => None case Ok(h) => Some(h)
  }

  lemma HeaderTakes(data: seq<Byte>)
    requires data != []
    ensures WholeVarints(data, 0) && Terminators(data, 0) >= 2 ==> Header(data).Some?
    ensures Header(data).Some? ==> var j := Header(data).value.1;
      && j <= |data| && Terminators(data, 0) == 2 + Terminators(data, j)
      && (WholeVarints(data, 0) <==> WholeVarints(data, j))
  {
    ScanTakesOne(data, 0);
    if Scan(data, 0).Ok? && Scan(data, 0).value < |data| {
      ScanTakesOne(data, Scan(data, 0).value);
    }
  }

  lemma BodyAcceptsIff(data: seq<Byte>, j: nat, hasZ: bool)
    requires j <= |data|
    ensures Advances(TupleAt(data, hasZ), |data|)
    ensures Tuples(TupleAt(data, hasZ), |data|, j, 0, 0).Ok? <==>
        WholeVarints(data, j) && WholeTuples(Terminators(data, j), hasZ)
  {
    TupleAtAdvances(data, hasZ);
    forall k | 0 <= k < |data| ensures Takes(TupleAt(data, hasZ), data, k, hasZ) {
      TupleTakes(data, k, hasZ);
    }
    TuplesAcceptIff(TupleAt(data, hasZ), data, j, hasZ, 0, 0);
  }

  /**
   Exactly what is accepted: the empty input, or a run of whole varints over the alphabet of which the first
   two are the header and the others come in complete tuples of the dimension the header announces.
   */
  lemma AcceptsIff(data: seq<Byte>)
    ensures Decode(data).Ok? <==>
      data == [] ||
      (&& WholeVarints(data, 0) && Terminators(data, 0) >= 2 && Header(data).Some?
       && WholeTuples(Terminators(data, 0) - 2, HasThirdDim(Header(data).value.0)))
  {
    if data != [] {
      HeaderTakes(data);
      if Header(data).Some? {
        var (header, j) := Header(data).value;
        BodyAcceptsIff(data, j, HasThirdDim(header));
        DecodeBody(data, header, j);
      }
    }
  }

  lemma DecodeBody(data: seq<Byte>, header: int, j: nat)
    requires data != [] && j <= |data| && Header(data) == Some((header, j))
    requires Advances(TupleAt(data, HasThirdDim(header)), |data|)
    ensures Decode(data).Ok? <==> Tuples(TupleAt(data, HasThirdDim(header)), |data|, j, 0, 0).Ok?
  {
  }
}
