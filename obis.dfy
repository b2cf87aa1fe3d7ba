/** The OBIS-pattern decoder of `process_message` in src/main.cpp: each
    configured metric is found by a byte search for its OBIS pattern, and the
    SML list entry behind the pattern is walked by its type-length bytes
    without any bounds check. Every read of the walk is required to stay
    inside the frame buffer, which is as far as the firmware's behaviour is
    defined. */
module Obis {
  import opened Base

  /** `metric` of src/types.h: a name and the byte pattern that precedes the
      metric's list entry. */
  datatype Metric = Metric(name: string, pattern: seq<byte>)

  /** `metric_value` of src/types.h. */
  datatype MetricValue = MetricValue(value: int64, unit: byte, scaler: int8)

  // ---------------------------------------------------------------------
  // Byte search (`memmem_P`)

  /** `pat` occurs in `hay` starting at index `i`. */
  predicate OccursAt(hay: seq<byte>, pat: seq<byte>, i: nat)
  {
    i + |pat| <= |hay| && hay[i..i + |pat|] == pat
  }

  /** The first occurrence of `pat` in `hay` at index `i` or later. */
  function SearchFrom(hay: seq<byte>, pat: seq<byte>, i: nat): Option<nat>
    decreases |hay| - i
  {
    if i + |pat| > |hay| then None
    else if hay[i..i + |pat|] == pat then Some(i)
    else SearchFrom(hay, pat, i + 1)
  }

  /** `memmem_P`: the index of the first occurrence of `pat` in `hay`, or
      `None` for the null pointer. An empty pattern is found at index 0. */
  function FirstOccurrence(hay: seq<byte>, pat: seq<byte>): Option<nat>
  {
    SearchFrom(hay, pat, 0)
  }

  /** The search from `i` returns an occurrence at `i` or later and skips
      none: nothing occurs between `i` and the index it returns, and it
      returns nothing exactly when nothing occurs at or after `i`. */
  lemma {:induction false} SearchFromIsFirst(hay: seq<byte>, pat: seq<byte>, i: nat)
    ensures var r := SearchFrom(hay, pat, i);
      (r.Some? ==> i <= r.value && OccursAt(hay, pat, r.value)) &&
      (r.Some? ==> forall j :: i <= j < r.value ==> !OccursAt(hay, pat, j)) &&
      (r.None? <==> forall j :: i <= j ==> !OccursAt(hay, pat, j))
    decreases |hay| - i
  {
    if i + |pat| > |hay| {
      assert SearchFrom(hay, pat, i) == None;
    } else if hay[i..i + |pat|] == pat {
      assert SearchFrom(hay, pat, i) == Some(i) && OccursAt(hay, pat, i);
    } else {
      assert SearchFrom(hay, pat, i) == SearchFrom(hay, pat, i + 1) && !OccursAt(hay, pat, i);
      SearchFromIsFirst(hay, pat, i + 1);
    }
  }

  /** `memmem_P` returns the first occurrence, and the null pointer exactly
      when the pattern does not occur at all. */
  lemma FirstOccurrenceIsFirst(hay: seq<byte>, pat: seq<byte>)
    ensures var r := FirstOccurrence(hay, pat);
      (r.Some? ==> OccursAt(hay, pat, r.value)) &&
      (r.Some? ==> forall j :: 0 <= j < r.value ==> !OccursAt(hay, pat, j)) &&
      (r.None? <==> forall j :: 0 <= j ==> !OccursAt(hay, pat, j))
  {
    SearchFromIsFirst(hay, pat, 0);
  }

  // ---------------------------------------------------------------------
  // Type-length walk

  /** The length nibble of a type-length byte, `b & 0x0f`: its low four
      bits. */
  function Nibble(b: byte): (n: nat)
    ensures n < 16
  {
    b % 0x10
  }

  /** The type bits of a type-length byte, `b & 0x70`: bits four to six. */
  function TypeBits(b: byte): byte
  {
    b / 0x10 % 8 * 0x10
  }

  /** `cp += (*cp & 0x0f)`: step over a field by the length in its
      type-length byte. */
  function Skip(buf: seq<byte>, p: nat): (q: nat)
    requires p < |buf|
    ensures p <= q < p + 16
  {
    p + Nibble(buf[p])
  }

  /** The number of bytes `while (--nlen)` reads after a value type-length
      byte of length `len`: `len - 1` as an 8-bit unsigned number, so a zero
      length wraps around to 255. */
  function ValueLength(len: nat): (n: nat)
    requires len < 16
    ensures n == (len - 1) % 256
  {
    if len == 0 then 255 else len - 1
  }

  /** Where the unit's type-length byte is: behind the status and time fields. */
  function UnitAt(buf: seq<byte>, p: nat): nat
    requires p < |buf| && Skip(buf, p) < |buf|
  {
    Skip(buf, Skip(buf, p))
  }

  /** Where the scaler's type-length byte is: behind the unit field. */
  function ScalerAt(buf: seq<byte>, p: nat): nat
    requires p < |buf| && Skip(buf, p) < |buf| && UnitAt(buf, p) < |buf|
  {
    Skip(buf, UnitAt(buf, p))
  }

  /** Where the value's type-length byte is: behind the scaler field. */
  function ValueAt(buf: seq<byte>, p: nat): nat
    requires p < |buf| && Skip(buf, p) < |buf| && UnitAt(buf, p) < |buf| && ScalerAt(buf, p) < |buf|
  {
    Skip(buf, ScalerAt(buf, p))
  }

  /** Every byte the walk reads, starting at the status field at `p`, lies
      inside the buffer. */
  predicate EntryInBounds(buf: seq<byte>, p: nat)
  {
    p < |buf| && Skip(buf, p) < |buf| && UnitAt(buf, p) + 1 < |buf| && ScalerAt(buf, p) + 1 < |buf| &&
    ValueAt(buf, p) < |buf| && ValueAt(buf, p) + ValueLength(Nibble(buf[ValueAt(buf, p)])) < |buf|
  }

  /** Big-endian number of unbounded size. */
  function BeValue(bytes: seq<byte>): nat
  {
    if bytes == [] then 0 else BeValue(bytes[..|bytes| - 1]) * 256 + bytes[|bytes| - 1]
  }

  /** `uvalue <<= 8; uvalue |= b` on a `uint64_t`: the shift drops the top
      octet and clears the low one, which the byte then fills. */
  function ShiftIn(u: uint64, b: byte): uint64
  {
    (u % 0x100_0000_0000_0000) * 256 + b
  }

  /** The accumulator after shifting in `bytes` in order. */
  function Accumulate(bytes: seq<byte>): uint64
  {
    if bytes == [] then 0 else ShiftIn(Accumulate(bytes[..|bytes| - 1]), bytes[|bytes| - 1])
  }

  /** One shift is one big-endian step modulo 2^64. */
  lemma ShiftInStep(u: uint64, b: byte)
    ensures ShiftIn(u, b) == (u * 256 + b) % TwoTo64
  {
    var k := 0x100_0000_0000_0000;
    var low, q := u % k, u / k;
    assert u == q * k + low && q < 256;
    assert u * 256 + b == q * TwoTo64 + (low * 256 + b);
    ModTwoTo64(u * 256 + b, q, low * 256 + b);
  }

  /** The accumulator holds the big-endian number of the bytes shifted in,
      modulo 2^64: the octets shifted out at the top are lost. */
  lemma {:induction false} AccumulateIsBeValue(bytes: seq<byte>)
    ensures Accumulate(bytes) == BeValue(bytes) % TwoTo64
    decreases |bytes|
  {
    if bytes != [] {
      var init, b := bytes[..|bytes| - 1], bytes[|bytes| - 1];
      AccumulateIsBeValue(init);
      ShiftInStep(Accumulate(init), b);
      ModStep(BeValue(init), b);
    }
  }

  /** Reducing before a big-endian step does not change the result modulo 2^64. */
  lemma ModStep(x: nat, b: nat)
    ensures ((x % TwoTo64) * 256 + b) % TwoTo64 == (x * 256 + b) % TwoTo64
  {
    var q, r := x / TwoTo64, x % TwoTo64;
    assert x * 256 + b == (q * 256) * TwoTo64 + (r * 256 + b);
    ModAddMultiple(q * 256, r * 256 + b);
  }

  /** Adding a multiple of 2^64 does not change the remainder. */
  lemma ModAddMultiple(a: int, y: int)
    ensures (a * TwoTo64 + y) % TwoTo64 == y % TwoTo64
  {
  }

  /** The remainder modulo 2^64 is the unique one. */
  lemma ModTwoTo64(x: int, a: int, r: int)
    requires x == a * TwoTo64 + r && 0 <= r < TwoTo64
    ensures x % TwoTo64 == r
  {
  }

  /** The value as `metric_value.value` receives it: the ternary
      `type == 0x50 ? (int64_t)uvalue : uvalue` has type `uint64_t`, which is
      then converted to `int64_t`. */
  function ValueOf(typ: byte, u: uint64): int64
  {
    ToInt64(if typ == 0x50 then ToUint64(ToInt64(u)) else u)
  }

  /** The value bytes of the entry at `p`. */
  function ValueBytes(buf: seq<byte>, p: nat): seq<byte>
    requires EntryInBounds(buf, p)
  {
    var t := ValueAt(buf, p);
    buf[t + 1..t + 1 + ValueLength(Nibble(buf[t]))]
  }

  /** The reading of the list entry whose status field is at `p`. */
  function DecodeAt(buf: seq<byte>, p: nat): (v: MetricValue)
    requires EntryInBounds(buf, p)
  {
    MetricValue(ValueOf(TypeBits(buf[ValueAt(buf, p)]), Accumulate(ValueBytes(buf, p))),
                buf[UnitAt(buf, p) + 1], ToInt8(buf[ScalerAt(buf, p) + 1]))
  }

  /** The metric can be decoded without reading past the buffer: its pattern
      does not occur in the first `position` bytes, or the entry behind its
      first occurrence is in bounds. */
  predicate Decodable(buf: seq<byte>, position: nat, m: Metric)
  {
    position <= |buf| &&
    match FirstOccurrence(buf[..position], m.pattern)
    case None => true
    case Some(at) => EntryInBounds(buf, at + |m.pattern|)
  }

  /** What `values[i]` holds for metric `m` after the loop: nothing when the
      pattern is absent, else the entry behind its first occurrence. */
  function Reading(buf: seq<byte>, position: nat, m: Metric): (r: Option<MetricValue>)
    requires Decodable(buf, position, m)
  {
    match FirstOccurrence(buf[..position], m.pattern)
    case None => None
    case Some(at) => Some(DecodeAt(buf, at + |m.pattern|))
  }

  /** Every metric of the table can be decoded. */
  predicate Decodes(buf: seq<byte>, position: nat, metrics: seq<Metric>)
  {
    forall i :: 0 <= i < |metrics| ==> Decodable(buf, position, metrics[i])
  }

  /** The `values` array that `process_message` fills in, one slot per metric. */
  function Readings(buf: seq<byte>, position: nat, metrics: seq<Metric>): (r: seq<Option<MetricValue>>)
    requires Decodes(buf, position, metrics)
    ensures |r| == |metrics|
    decreases |metrics|
  {
    if metrics == [] then []
    else
      var init := metrics[..|metrics| - 1];
      assert Decodes(buf, position, init);
      Readings(buf, position, init) + [Reading(buf, position, metrics[|metrics| - 1])]
  }

  // ---------------------------------------------------------------------
  // The decoder as the firmware runs it

  /** The value loop of `process_message`: `while (--nlen)` shifts the bytes
      after the value's type-length byte into a `uint64_t`, big-endian. The
      first decrement wraps a zero length around to 255. */
  method ReadValue(buffer: array<byte>, at: nat, len: nat) returns (uvalue: uint64)
    requires len < 16 && at + ValueLength(len) <= buffer.Length
    ensures uvalue == Accumulate(buffer[..][at..at + ValueLength(len)])
  {
    ghost var bytes := buffer[..][at..at + ValueLength(len)];
    var cp := at;
    uvalue := 0;
    var nlen: int := (len as int - 1) % 256;
    while nlen != 0
      invariant at <= cp <= at + |bytes|
      invariant nlen == |bytes| - (cp - at)
      invariant uvalue == Accumulate(bytes[..cp - at])
      decreases nlen
    {
      ghost var k := cp - at;
      assert bytes[..k + 1][..k] == bytes[..k] && bytes[k] == buffer[cp];
      uvalue := ShiftIn(uvalue, buffer[cp]);
      cp := cp + 1;
      nlen := nlen - 1;
    }
    assert bytes[..|bytes|] == bytes;
  }

  /** The first part of the walk over one list entry, with the cursor `cp` of
      `process_message`: skip the status and time fields, take the unit and
      the scaler, and stop at the value's type-length byte. */
  method WalkToValue(buffer: array<byte>, p: nat) returns (unit: byte, scaler: int8, cp: nat)
    requires EntryInBounds(buffer[..], p)
    ensures cp == ValueAt(buffer[..], p)
    ensures unit == buffer[..][UnitAt(buffer[..], p) + 1]
    ensures scaler == ToInt8(buffer[..][ScalerAt(buffer[..], p) + 1])
  {
    ghost var buf := buffer[..];
    cp := p;
    cp := cp + Nibble(buffer[cp]);   // status
    cp := cp + Nibble(buffer[cp]);   // time
    assert cp == UnitAt(buf, p);
    var len := Nibble(buffer[cp]);
    unit := buffer[cp + 1];
    cp := cp + len;
    assert cp == ScalerAt(buf, p);
    len := Nibble(buffer[cp]);
    scaler := ToInt8(buffer[cp + 1]);
    cp := cp + len;
  }

  /** The walk over one list entry: the header, then the value. */
  method DecodeEntry(buffer: array<byte>, p: nat) returns (v: MetricValue)
    requires EntryInBounds(buffer[..], p)
    ensures v == DecodeAt(buffer[..], p)
  {
    var unit, scaler, cp := WalkToValue(buffer, p);
    ValueInBounds(buffer[..], p);
    var typ, len := TypeBits(buffer[cp]), Nibble(buffer[cp]);
    var uvalue := ReadValue(buffer, cp + 1, len);
    DecodeAtFields(buffer[..], p, cp, len, typ, uvalue, unit, scaler);
    v := MetricValue(ValueOf(typ, uvalue), unit, scaler);
  }

  /** The value field of an entry in bounds ends inside the buffer. */
  lemma ValueInBounds(buf: seq<byte>, p: nat)
    requires EntryInBounds(buf, p)
    ensures ValueAt(buf, p) + 1 + ValueLength(Nibble(buf[ValueAt(buf, p)])) <= |buf|
  {
  }

  /** The reading is made of the fields at the positions the walk computes. */
  lemma DecodeAtFields(buf: seq<byte>, p: nat, t: nat, len: nat, typ: byte, u: uint64, unit: byte, scaler: int8)
    requires EntryInBounds(buf, p) && t == ValueAt(buf, p)
    requires len == Nibble(buf[t]) && typ == TypeBits(buf[t])
    requires u == Accumulate(buf[t + 1..t + 1 + ValueLength(len)])
    requires unit == buf[UnitAt(buf, p) + 1] && scaler == ToInt8(buf[ScalerAt(buf, p) + 1])
    ensures DecodeAt(buf, p) == MetricValue(ValueOf(typ, u), unit, scaler)
  {
  }

  /** One round of the metric loop: search the pattern, then walk the entry
      behind it. */
  method DecodeMetric(buffer: array<byte>, position: nat, m: Metric) returns (r: Option<MetricValue>)
    requires position <= buffer.Length && Decodable(buffer[..], position, m)
    ensures r == Reading(buffer[..], position, m)
  {
    var foundAt := FirstOccurrence(buffer[..position], m.pattern);
    match foundAt
    case None =>
      r := None;
    case Some(at) =>
      ReadingFound(buffer[..], position, m, at);
      var v := DecodeEntry(buffer, at + |m.pattern|);
      r := Some(v);
  }

  /** Where the pattern is found, the reading is the entry behind it. */
  lemma ReadingFound(buf: seq<byte>, position: nat, m: Metric, at: nat)
    requires Decodable(buf, position, m) && FirstOccurrence(buf[..position], m.pattern) == Some(at)
    ensures EntryInBounds(buf, at + |m.pattern|)
    ensures Reading(buf, position, m) == Some(DecodeAt(buf, at + |m.pattern|))
  {
  }

  /** The metric loop of `process_message`: search each pattern in the frame
      and decode the entry behind its first occurrence; the slot of a metric
      whose pattern is absent is never written, which is `None` here. The
      loop counter is an 8-bit number, so the table must have fewer than 256
      entries for the loop to end. */
  method DecodeMetrics(buffer: array<byte>, position: nat, metrics: seq<Metric>)
    returns (values: seq<Option<MetricValue>>)
    requires |metrics| < 256 && position <= buffer.Length
    requires Decodes(buffer[..], position, metrics)
    ensures values == Readings(buffer[..], position, metrics)
  {
    values := [];
    var i := 0;
    while i < |metrics|
      invariant 0 <= i <= |metrics| && values == Readings(buffer[..], position, metrics[..i])
    {
      var r := DecodeMetric(buffer, position, metrics[i]);
      assert metrics[..i + 1][..i] == metrics[..i];
      values := values + [r];
      i := i + 1;
    }
    assert metrics[..i] == metrics;
  }

  // ---------------------------------------------------------------------
  // Properties of the walk

  /** Slot `i` of the readings belongs to metric `i`. */
  lemma {:induction false} ReadingsAt(buf: seq<byte>, position: nat, metrics: seq<Metric>)
    requires Decodes(buf, position, metrics)
    ensures forall i :: 0 <= i < |metrics| ==>
      Readings(buf, position, metrics)[i] == Reading(buf, position, metrics[i])
    decreases |metrics|
  {
    if metrics != [] {
      var init := metrics[..|metrics| - 1];
      assert Decodes(buf, position, init);
      ReadingsAt(buf, position, init);
    }
  }

  /** A slot stays empty exactly when the metric's pattern does not occur in
      the frame. */
  lemma ReadingAbsentIff(buf: seq<byte>, position: nat, m: Metric)
    requires Decodable(buf, position, m)
    ensures Reading(buf, position, m).None? <==> forall j :: 0 <= j ==> !OccursAt(buf[..position], m.pattern, j)
  {
    FirstOccurrenceIsFirst(buf[..position], m.pattern);
  }

  /** The decoded value is the big-endian number of the value bytes, modulo
      2^64 and read as `int64_t`, whatever the type nibble says: the signed
      marker 0x50 changes nothing. */
  lemma SignMarkerIgnored(buf: seq<byte>, p: nat)
    requires EntryInBounds(buf, p)
    ensures DecodeAt(buf, p).value == ToInt64(BeValue(ValueBytes(buf, p)) % TwoTo64)
  {
    var u := Accumulate(ValueBytes(buf, p));
    AccumulateIsBeValue(ValueBytes(buf, p));
    assert ToUint64(ToInt64(u)) == u;
  }

  /** A big-endian number is below 256 to the power of its length. */
  lemma {:induction false} BeValueBound(bytes: seq<byte>)
    ensures BeValue(bytes) < Pow256(|bytes|)
    decreases |bytes|
  {
    if bytes != [] {
      BeValueBound(bytes[..|bytes| - 1]);
    }
  }

  function Pow256(n: nat): (r: nat)
    ensures r >= 1
  {
    if n == 0 then 1 else 256 * Pow256(n - 1)
  }

  /** Values of at most seven bytes are never negative and are read exactly:
      a signed short value is not sign-extended. */
  lemma ShortValuesNonNegative(buf: seq<byte>, p: nat)
    requires EntryInBounds(buf, p) && |ValueBytes(buf, p)| <= 7
    ensures DecodeAt(buf, p).value == BeValue(ValueBytes(buf, p)) >= 0
  {
    var x := BeValue(ValueBytes(buf, p));
    BeValueBound(ValueBytes(buf, p));
    Pow256Monotone(|ValueBytes(buf, p)|, 7);
    assert Pow256(7) == 0x100_0000_0000_0000;
    ModTwoTo64(x, 0, x);
    SignMarkerIgnored(buf, p);
  }

  lemma {:induction false} Pow256Monotone(m: nat, n: nat)
    requires m <= n
    ensures Pow256(m) <= Pow256(n)
    decreases n
  {
    if m < n {
      Pow256Monotone(m, n - 1);
    }
  }

  // ---------------------------------------------------------------------
  // Encoding a list entry

  /** `v` as `w` big-endian bytes. */
  function BeBytes(v: nat, w: nat): (r: seq<byte>)
    requires v < Pow256(w)
    ensures |r| == w && BeValue(r) == v
    decreases w
  {
    if w == 0 then []
    else
      var init := BeBytes(v / 256, w - 1);
      var r := init + [(v % 256) as byte];
      assert r[..|r| - 1] == init;
      r
  }

  /** The byte that `int8_t` value `x` is stored as. */
  function FromInt8(x: int8): (b: byte)
    ensures ToInt8(b) == x
  {
    var n := if x < 0 then x + 256 else x;
    n as byte
  }

  /** The tail of an SML list entry as a meter sends it behind the OBIS code:
      empty status and time (`01 01`), an unsigned one-byte unit (`62 uu`), a
      signed one-byte scaler (`52 ss`) and an unsigned value of `width` bytes
      (`6L` with L = width + 1). */
  function EncodeEntry(unit: byte, scaler: int8, value: nat, width: nat): (r: seq<byte>)
    requires 1 <= width <= 14 && value < Pow256(width)
    ensures |r| == 7 + width
  {
    [0x01, 0x01, 0x62, unit, 0x52, FromInt8(scaler), UnsignedTypeLength(width)] + BeBytes(value, width)
  }

  /** The type-length byte of an unsigned integer of `width` bytes, 1 to 14:
      type 0x60 with length `width + 1`, one byte for itself. */
  function UnsignedTypeLength(width: nat): byte
    requires 1 <= width <= 14
  {
    0x60 + width + 1
  }

  /** The walk reads the length `width + 1` and the type 0x60 from it. */
  lemma TypeLengthByte(width: nat)
    requires 1 <= width <= 14
    ensures Nibble(UnsignedTypeLength(width)) == width + 1
    ensures TypeBits(UnsignedTypeLength(width)) == 0x60
  {
  }

  /** The field positions of an entry whose status and time fields are one
      byte long and whose unit and scaler fields are two bytes long. */
  lemma PlainLayout(buf: seq<byte>, p: nat)
    requires p + 7 <= |buf| && Nibble(buf[p]) == 1 && Nibble(buf[p + 1]) == 1
    requires Nibble(buf[p + 2]) == 2 && Nibble(buf[p + 4]) == 2
    ensures UnitAt(buf, p) == p + 2 && ScalerAt(buf, p) == p + 4 && ValueAt(buf, p) == p + 6
  {
  }

  /** An entry laid out as `PlainLayout` says, whose value's type-length byte
      announces `width` bytes that the buffer holds, is in bounds, and its
      value bytes follow that type-length byte. */
  lemma PlainEntryInBounds(buf: seq<byte>, p: nat, width: nat)
    requires p + 7 + width < |buf| + 1 && 1 <= width
    requires Nibble(buf[p]) == 1 && Nibble(buf[p + 1]) == 1 && Nibble(buf[p + 2]) == 2
    requires Nibble(buf[p + 4]) == 2 && Nibble(buf[p + 6]) == width + 1
    ensures EntryInBounds(buf, p) && ValueAt(buf, p) == p + 6
    ensures ValueBytes(buf, p) == buf[p + 7..p + 7 + width]
  {
    PlainLayout(buf, p);
  }

  /** Where the walk finds the fields of an encoded entry. */
  lemma EncodedLayout(prefix: seq<byte>, unit: byte, scaler: int8, value: nat, width: nat, suffix: seq<byte>)
    requires 1 <= width <= 14 && value < Pow256(width)
    ensures var buf := prefix + EncodeEntry(unit, scaler, value, width) + suffix;
      var p := |prefix|;
      EntryInBounds(buf, p) && UnitAt(buf, p) == p + 2 && ScalerAt(buf, p) == p + 4 &&
      buf[p + 3] == unit && buf[p + 5] == FromInt8(scaler) &&
      TypeBits(buf[ValueAt(buf, p)]) == 0x60 && ValueBytes(buf, p) == BeBytes(value, width)
  {
    var head: seq<byte> := [0x01, 0x01, 0x62, unit, 0x52, FromInt8(scaler), UnsignedTypeLength(width)];
    var bytes := BeBytes(value, width);
    var buf := prefix + EncodeEntry(unit, scaler, value, width) + suffix;
    var p := |prefix|;
    assert EncodeEntry(unit, scaler, value, width) == head + bytes;
    assert buf == prefix + head + bytes + suffix;
    SplitAround(prefix, head, bytes, suffix);
    assert buf[p] == 0x01 && buf[p + 1] == 0x01 && buf[p + 2] == 0x62 && buf[p + 4] == 0x52;
    assert buf[p + 3] == unit && buf[p + 5] == FromInt8(scaler) && buf[p + 6] == UnsignedTypeLength(width);
    TypeLengthByte(width);
    PlainLayout(buf, p);
    PlainEntryInBounds(buf, p, width);
  }

  /** The parts of `prefix + head + bytes + suffix` sit where their lengths
      say. */
  lemma SplitAround(prefix: seq<byte>, head: seq<byte>, bytes: seq<byte>, suffix: seq<byte>)
    ensures var buf := prefix + head + bytes + suffix;
      var p := |prefix|;
      p + |head| + |bytes| <= |buf| &&
      (forall i :: 0 <= i < |head| ==> buf[p + i] == head[i]) &&
      buf[p + |head|..p + |head| + |bytes|] == bytes
  {
  }

  /** Decoding inverts encoding for every value below 2^63, wherever the
      entry sits in the buffer. */
  lemma DecodeEncode(prefix: seq<byte>, unit: byte, scaler: int8, value: nat, width: nat, suffix: seq<byte>)
    requires 1 <= width <= 14 && value < Pow256(width) && value < 0x8000_0000_0000_0000
    ensures var buf := prefix + EncodeEntry(unit, scaler, value, width) + suffix;
      EntryInBounds(buf, |prefix|) &&
      DecodeAt(buf, |prefix|) == MetricValue(value, unit, scaler)
  {
    var buf := prefix + EncodeEntry(unit, scaler, value, width) + suffix;
    var p := |prefix|;
    EncodedLayout(prefix, unit, scaler, value, width, suffix);
    var bytes := BeBytes(value, width);
    AccumulateIsBeValue(bytes);
    ModTwoTo64(value, 0, value);
    assert Accumulate(ValueBytes(buf, p)) == value;
    assert ValueOf(TypeBits(buf[ValueAt(buf, p)]), value) == value;
    assert ToInt8(buf[ScalerAt(buf, p) + 1]) == scaler;
  }

  // ---------------------------------------------------------------------
  // Concrete entries

  /** A signed one-byte value is not sign-extended: `52 FF` reads as 255, not
      as -1. */
  lemma SignedByteNotExtended(buf: seq<byte>, p: nat)
    requires p + 8 <= |buf| && buf[p..p + 8] == [0x01, 0x01, 0x62, 0x1B, 0x52, 0x00, 0x52, 0xFF]
    ensures EntryInBounds(buf, p) && DecodeAt(buf, p) == MetricValue(255, 0x1B, 0)
  {
    assert buf[p] == 0x01 && buf[p + 1] == 0x01 && buf[p + 2] == 0x62 && buf[p + 3] == 0x1B;
    assert buf[p + 4] == 0x52 && buf[p + 5] == 0x00 && buf[p + 6] == 0x52 && buf[p + 7] == 0xFF;
    PlainLayout(buf, p);
    assert ValueBytes(buf, p) == [0xFF];
    assert BeValue([0xFF]) == 255 by {
      assert [0xFF][..0] == [];
    }
  }

  /** A time field of length zero is not stepped over: the walk stays on its
      type-length byte and reads unit, scaler and value from there. Behind the
      bytes `01 00 62 1E 62 FF 64`, the unit comes out as 0x62 rather than 0x1E,
      the scaler as 98 rather than -1, and 255 value bytes are read. */
  lemma ZeroLengthTimeNotSkipped(buf: seq<byte>, p: nat)
    requires p + 257 <= |buf| && buf[p..p + 7] == [0x01, 0x00, 0x62, 0x1E, 0x62, 0xFF, 0x64]
    ensures EntryInBounds(buf, p)
    ensures DecodeAt(buf, p).unit == 0x62 && DecodeAt(buf, p).scaler == 98
    ensures |ValueBytes(buf, p)| == 255
  {
    assert buf[p] == 0x01 && buf[p + 1] == 0x00 && buf[p + 2] == 0x62;
    assert UnitAt(buf, p) == p + 1 && ScalerAt(buf, p) == p + 1 && ValueAt(buf, p) == p + 1;
  }

  /** The same entry with an empty time field (`01`) decodes as meant: unit
      0x1E, scaler -1, and the three value bytes read unsigned. */
  lemma EmptyTimeEntryDecodes(buf: seq<byte>, p: nat, a: byte, b: byte, c: byte)
    requires p + 10 <= |buf| && buf[p..p + 10] == [0x01, 0x01, 0x62, 0x1E, 0x62, 0xFF, 0x64, a, b, c]
    ensures EntryInBounds(buf, p)
    ensures DecodeAt(buf, p).value == BeValue([a, b, c])
    ensures DecodeAt(buf, p).unit == 0x1E && DecodeAt(buf, p).scaler == -1
  {
    assert buf[p] == 0x01 && buf[p + 1] == 0x01 && buf[p + 2] == 0x62 && buf[p + 3] == 0x1E;
    assert buf[p + 4] == 0x62 && buf[p + 5] == 0xFF && buf[p + 6] == 0x64;
    PlainLayout(buf, p);
    assert ValueBytes(buf, p) == [a, b, c];
    ShortValuesNonNegative(buf, p);
  }
}
