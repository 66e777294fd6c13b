/**
  Becker & Hickl SPC photon records (`load_spc`).

  An SPC stream is a concatenation of 6-byte little-endian records laid out
  as `field0: u16, b: u8, c: u8, a: u16`. Each record gives one photon:
    - nanotime  = 4095 - (field0 & 0x0FFF)       (12-bit fine time, inverted)
    - detector  = c                               (channel, 0..255)
    - timestamp = (b << 16) + a + (overflows << 24)
  where `overflows` is the running, inclusive sum of the overflow flag
  `(field0 >> 13) & 1` over all records up to and including this one.
*/
module SpcDecoder {

  /** Bytes per record. */
  const RecordSize: nat := 6

  /** One macrotime overflow, `1 << 24`: the 24-bit mantissa `b:a` wraps here. */
  const OverflowStep: nat := 0x100_0000

  /** Largest value of the `int64` the source stores timestamps in. */
  const Int64Max: int := 0x7FFF_FFFF_FFFF_FFFF

  /** A raw record, with the field names of the numpy dtype. */
  datatype Record = Record(field0: bv16, b: bv8, c: bv8, a: bv16)

  /** Number of whole records in `bytes`: a trailing partial record is not read. */
  function RecordCount(bytes: seq<bv8>): (n: nat)
    ensures RecordSize * n <= |bytes| < RecordSize * (n + 1)
  {
    |bytes| / RecordSize
  }

  // ---------------------------------------------------------------------
  // Bit-field arithmetic on 16-bit words

  lemma {:induction false} WordFromBytes(lo: bv8, hi: bv8)
    ensures (hi as bv16 << 8) | lo as bv16 == (hi as bv16) * 0x100 + lo as bv16
    ensures ((hi as bv16) * 0x100 + lo as bv16) as int == lo as int + 0x100 * hi as int
  {
  }

  lemma {:induction false} LowTwelveBits(f: bv16)
    ensures f == (f >> 12) * 0x1000 + (f & 0x0FFF)
    ensures f >> 12 < 0x10 && f & 0x0FFF < 0x1000
  {
  }

  lemma {:induction false} TwelveBitSplitAsInt(q: bv16, r: bv16)
    requires q < 0x10 && r < 0x1000
    ensures (q * 0x1000 + r) as int == q as int * 0x1000 + r as int
    ensures r as int < 0x1000
  {
  }

  lemma {:induction false} RemainderOfSplit(x: int, q: int, r: int)
    requires 0 <= r < 0x1000 && x == q * 0x1000 + r
    ensures x % 0x1000 == r
  {
  }

  /** Masking with 0x0FFF keeps the value modulo 4096. */
  lemma {:induction false} MaskLowTwelve(f: bv16)
    ensures (f & 0x0FFF) as int == f as int % 0x1000
  {
    var q, r := f >> 12, f & 0x0FFF;
    assert f as int == q as int * 0x1000 + r as int && r as int < 0x1000 by {
      LowTwelveBits(f);
      TwelveBitSplitAsInt(q, r);
    }
    RemainderOfSplit(f as int, q as int, r as int);
  }

  lemma {:induction false} HighThreeBits(f: bv16)
    ensures f == (f >> 13) * 0x2000 + (f & 0x1FFF)
    ensures f >> 13 < 8 && f & 0x1FFF < 0x2000
    ensures (f >> 13) & 1 == (f >> 13) % 2
  {
  }

  lemma {:induction false} ThirteenBitSplitAsInt(q: bv16, r: bv16)
    requires q < 8 && r < 0x2000
    ensures (q * 0x2000 + r) as int == q as int * 0x2000 + r as int
  {
  }

  lemma {:induction false} ParityAsInt(q: bv16)
    requires q < 8
    ensures (q % 2) as int == q as int % 2
  {
  }

  /** Shifting right by 13 and masking with 1 reads bit 13 of the value. */
  lemma {:induction false} ShiftMaskBit13(f: bv16)
    ensures ((f >> 13) & 1) as int == f as int / 0x2000 % 2
  {
    HighThreeBits(f);
    ThirteenBitSplitAsInt(f >> 13, f & 0x1FFF);
    ParityAsInt(f >> 13);
  }

  /** The `<u2` reading of two bytes: low byte first. */
  function U16LE(lo: bv8, hi: bv8): (w: bv16)
    ensures w as int == lo as int + 0x100 * hi as int
  {
    WordFromBytes(lo, hi);
    (hi as bv16 << 8) | lo as bv16
  }

  /** Record `k` of the stream, read with the dtype `field0:<u2, b:<u1, c:<u1, a:<u2`. */
  function RecordAt(bytes: seq<bv8>, k: nat): (r: Record)
    requires k < RecordCount(bytes)
    ensures r.field0 as int == bytes[RecordSize * k] as int + 0x100 * bytes[RecordSize * k + 1] as int
    ensures r.b == bytes[RecordSize * k + 2]
    ensures r.c == bytes[RecordSize * k + 3]
    ensures r.a as int == bytes[RecordSize * k + 4] as int + 0x100 * bytes[RecordSize * k + 5] as int
  {
    var o := RecordSize * k;
    Record(U16LE(bytes[o], bytes[o + 1]), bytes[o + 2], bytes[o + 3], U16LE(bytes[o + 4], bytes[o + 5]))
  }

  /** `4095 - (field0 & 0x0FFF)`: the low twelve bits of `field0`, inverted. */
  function NanotimeOf(field0: bv16): (n: int)
    ensures 0 <= n <= 4095
    ensures n == 4095 - field0 as int % 0x1000
  {
    MaskLowTwelve(field0);
    4095 - (field0 & 0x0FFF) as int
  }

  /** `(field0 >> 13) & 1`: bit 13 of `field0`, the flag of mask 0x2000, as 0 or 1. */
  function OverflowBit(field0: bv16): (o: nat)
    ensures o <= 1
  {
    if field0 & 0x2000 != 0 then 1 else 0
  }

  /** The flag is the source's shift-and-mask, and reads bit 13 of the value. */
  lemma {:induction false} OverflowBitIsBit13(field0: bv16)
    ensures OverflowBit(field0) == ((field0 >> 13) & 1) as int
    ensures OverflowBit(field0) == field0 as int / 0x2000 % 2
  {
    assert OverflowBit(field0) as bv16 == (field0 >> 13) & 1;
    ShiftMaskBit13(field0);
  }

  /** `b << 16` in an int64, plus `a`: the 24-bit macrotime mantissa. */
  function Mantissa(r: Record): (m: nat)
    ensures m == r.b as int * 0x1_0000 + r.a as int
    ensures m < OverflowStep
  {
    ((r.b as bv64) << 16) as nat + r.a as nat
  }

  // ---------------------------------------------------------------------
  // The decoded streams, record by record

  /** Overflow flags among the first `n` records (the cumulative sum before record `n`). */
  function OverflowCount(bytes: seq<bv8>, n: nat): (c: nat)
    requires n <= RecordCount(bytes)
    ensures c <= n
  {
    if n == 0 then 0
    else OverflowCount(bytes, n - 1) + OverflowBit(RecordAt(bytes, n - 1).field0)
  }

  /** `np.cumsum(overflow)[k]`: the inclusive count, record `k`'s own flag included. */
  function CumulativeOverflow(bytes: seq<bv8>, k: nat): (c: nat)
    requires k < RecordCount(bytes)
    ensures c <= k + 1
  {
    OverflowCount(bytes, k + 1)
  }

  /** `(b << 16) + a + (cumsum(overflow)[k] << 24)` for record `k`. */
  function Timestamp(bytes: seq<bv8>, k: nat): (t: int)
    requires k < RecordCount(bytes)
    ensures CumulativeOverflow(bytes, k) * OverflowStep <= t < (CumulativeOverflow(bytes, k) + 1) * OverflowStep
  {
    Mantissa(RecordAt(bytes, k)) + CumulativeOverflow(bytes, k) * OverflowStep
  }

  function Detector(bytes: seq<bv8>, k: nat): int
    requires k < RecordCount(bytes)
  {
    RecordAt(bytes, k).c as int
  }

  function Nanotime(bytes: seq<bv8>, k: nat): int
    requires k < RecordCount(bytes)
  {
    NanotimeOf(RecordAt(bytes, k).field0)
  }

  /** The three output arrays of `load_spc`, as sequences. */
  function Timestamps(bytes: seq<bv8>): (ts: seq<int>)
    ensures |ts| == RecordCount(bytes)
    ensures forall k :: 0 <= k < |ts| ==> 0 <= ts[k] - CumulativeOverflow(bytes, k) * OverflowStep < OverflowStep
  {
    seq(RecordCount(bytes), k requires 0 <= k < RecordCount(bytes) => Timestamp(bytes, k))
  }

  /** The detector is byte 3 of each record. */
  function Detectors(bytes: seq<bv8>): (ds: seq<int>)
    ensures |ds| == RecordCount(bytes)
    ensures forall k :: 0 <= k < |ds| ==> ds[k] == bytes[RecordSize * k + 3] as int
  {
    seq(RecordCount(bytes), k requires 0 <= k < RecordCount(bytes) => Detector(bytes, k))
  }

  /** The nanotime is the low twelve bits of each record's first word, inverted. */
  function Nanotimes(bytes: seq<bv8>): (ns: seq<int>)
    ensures |ns| == RecordCount(bytes)
    ensures forall k :: 0 <= k < |ns| ==>
      ns[k] == 4095 - (bytes[RecordSize * k] as int + 0x100 * bytes[RecordSize * k + 1] as int) % 0x1000
  {
    seq(RecordCount(bytes), k requires 0 <= k < RecordCount(bytes) => Nanotime(bytes, k))
  }

  // ---------------------------------------------------------------------
  // load_spc

  /** `nanotime = 4095 - (field0 & 0x0FFF)`, element by element. */
  method DecodeNanotimes(bytes: seq<bv8>) returns (nanotime: array<int>)
    ensures fresh(nanotime)
    ensures nanotime[..] == Nanotimes(bytes)
  {
    nanotime := new int[RecordCount(bytes)];
    for k := 0 to nanotime.Length
      invariant forall j :: 0 <= j < k ==> nanotime[j] == Nanotime(bytes, j)
    {
      nanotime[k] := NanotimeOf(RecordAt(bytes, k).field0);
    }
  }

  /** `detector = c`, element by element. */
  method DecodeDetectors(bytes: seq<bv8>) returns (detector: array<int>)
    ensures fresh(detector)
    ensures detector[..] == Detectors(bytes)
  {
    detector := new int[RecordCount(bytes)];
    for k := 0 to detector.Length
      invariant forall j :: 0 <= j < k ==> detector[j] == Detector(bytes, j)
    {
      detector[k] := RecordAt(bytes, k).c as int;
    }
  }

  /**
    `timestamps = (b << 16) + a + (cumsum(overflow) << 24)`. The running
    `overflow` counter starts at zero and takes in each record's flag before
    that record's timestamp is formed: an inclusive prefix sum.
  */
  method DecodeTimestamps(bytes: seq<bv8>) returns (timestamps: array<int>)
    ensures fresh(timestamps)
    ensures timestamps[..] == Timestamps(bytes)
  {
    timestamps := new int[RecordCount(bytes)];
    var overflow: nat := 0;
    for k := 0 to timestamps.Length
      invariant overflow == OverflowCount(bytes, k)
      invariant forall j :: 0 <= j < k ==> timestamps[j] == Timestamp(bytes, j)
    {
      var r := RecordAt(bytes, k);
      overflow := overflow + OverflowBit(r.field0);
      timestamps[k] := Mantissa(r) + overflow * OverflowStep;
    }
  }

  /** Decodes an SPC byte stream into its three parallel output arrays. */
  method LoadSpc(bytes: seq<bv8>) returns (timestamps: array<int>, detector: array<int>, nanotime: array<int>)
    ensures fresh(timestamps) && fresh(detector) && fresh(nanotime)
    ensures timestamps.Length == detector.Length == nanotime.Length == |bytes| / RecordSize
    ensures timestamps[..] == Timestamps(bytes)
    ensures detector[..] == Detectors(bytes)
    ensures nanotime[..] == Nanotimes(bytes)
  {
    nanotime := DecodeNanotimes(bytes);
    detector := DecodeDetectors(bytes);
    timestamps := DecodeTimestamps(bytes);
  }

  // ---------------------------------------------------------------------
  // Properties of the decoded streams

  /** Every output value lies in the range of its field. */
  lemma {:induction false} FieldRanges(bytes: seq<bv8>, k: nat)
    requires k < RecordCount(bytes)
    ensures 0 <= Nanotime(bytes, k) <= 4095
    ensures 0 <= Detector(bytes, k) <= 255
    ensures 0 <= Timestamp(bytes, k) - CumulativeOverflow(bytes, k) * OverflowStep < OverflowStep
  {
  }

  /** The cumulative overflow count never decreases, and grows by at most one per record. */
  lemma {:induction false} OverflowCountGrowth(bytes: seq<bv8>, i: nat, j: nat)
    requires i <= j <= RecordCount(bytes)
    ensures OverflowCount(bytes, i) <= OverflowCount(bytes, j) <= OverflowCount(bytes, i) + (j - i)
    decreases j - i
  {
    if i < j {
      OverflowCountGrowth(bytes, i, j - 1);
    }
  }

  /** A timestamp splits back into its overflow count (above bit 24) and its mantissa (below). */
  lemma {:induction false} TimestampSplit(bytes: seq<bv8>, k: nat)
    requires k < RecordCount(bytes)
    ensures Timestamp(bytes, k) / OverflowStep == CumulativeOverflow(bytes, k)
    ensures Timestamp(bytes, k) % OverflowStep == Mantissa(RecordAt(bytes, k))
  {
    var m := Mantissa(RecordAt(bytes, k));
    var c := CumulativeOverflow(bytes, k);
    assert Timestamp(bytes, k) == c * OverflowStep + m;
    assert 0 <= m < OverflowStep;
  }

  /**
    A record that has seen more overflows than another comes later in the
    stream and has the larger timestamp, whatever the two mantissas are.
  */
  lemma {:induction false} MoreOverflowsMeansLater(bytes: seq<bv8>, i: nat, j: nat)
    requires i < RecordCount(bytes) && j < RecordCount(bytes)
    requires CumulativeOverflow(bytes, i) < CumulativeOverflow(bytes, j)
    ensures i < j
    ensures Timestamp(bytes, i) < Timestamp(bytes, j)
  {
    if j <= i {
      OverflowCountGrowth(bytes, j + 1, i + 1);
    }
    var ci, cj := CumulativeOverflow(bytes, i), CumulativeOverflow(bytes, j);
    assert (ci + 1) * OverflowStep <= cj * OverflowStep;
  }

  /**
    The acquisition is consistent when the mantissa does not go backwards
    between two neighbouring records that share an overflow count.
  */
  ghost predicate ConsistentAcquisition(bytes: seq<bv8>) {
    forall k :: 0 < k < RecordCount(bytes) && CumulativeOverflow(bytes, k - 1) == CumulativeOverflow(bytes, k) ==>
      Mantissa(RecordAt(bytes, k - 1)) <= Mantissa(RecordAt(bytes, k))
  }

  lemma {:induction false} NeighbourOrder(bytes: seq<bv8>, k: nat)
    requires 0 < k < RecordCount(bytes)
    requires ConsistentAcquisition(bytes)
    ensures Timestamp(bytes, k - 1) <= Timestamp(bytes, k)
  {
    OverflowCountGrowth(bytes, k, k + 1);
    if CumulativeOverflow(bytes, k - 1) < CumulativeOverflow(bytes, k) {
      MoreOverflowsMeansLater(bytes, k - 1, k);
    }
  }

  /** On a consistent acquisition the timestamps come out sorted. */
  lemma {:induction false} TimestampsSorted(bytes: seq<bv8>, i: nat, j: nat)
    requires i <= j < RecordCount(bytes)
    requires ConsistentAcquisition(bytes)
    ensures Timestamp(bytes, i) <= Timestamp(bytes, j)
    decreases j - i
  {
    if i < j {
      TimestampsSorted(bytes, i, j - 1);
      NeighbourOrder(bytes, j);
    }
  }

  /**
    With fewer than 2^39 records (a stream of more than three terabytes is
    needed to reach that), every timestamp fits in a non-negative int64, so
    the int64 arithmetic of the source never wraps and equals this model.
  */
  lemma {:induction false} TimestampFitsInt64(bytes: seq<bv8>, k: nat)
    requires k < RecordCount(bytes) < 0x80_0000_0000
    ensures 0 <= CumulativeOverflow(bytes, k) * OverflowStep <= Int64Max
    ensures 0 <= Timestamp(bytes, k) <= Int64Max
  {
    var c := CumulativeOverflow(bytes, k);
    assert c <= 0x80_0000_0000 - 1;
    assert c * OverflowStep <= (0x80_0000_0000 - 1) * OverflowStep;
  }

  // ---------------------------------------------------------------------
  // Streams that share records

  /** Record `k` reads the same six bytes in any stream that starts with those of `prefix`. */
  lemma {:induction false} RecordInPrefix(prefix: seq<bv8>, bytes: seq<bv8>, k: nat)
    requires prefix <= bytes && k < RecordCount(prefix)
    ensures k < RecordCount(bytes) && RecordAt(prefix, k) == RecordAt(bytes, k)
  {
  }

  lemma {:induction false} OverflowCountInPrefix(prefix: seq<bv8>, bytes: seq<bv8>, n: nat)
    requires prefix <= bytes && n <= RecordCount(prefix)
    ensures n <= RecordCount(bytes) && OverflowCount(prefix, n) == OverflowCount(bytes, n)
  {
    if n > 0 {
      OverflowCountInPrefix(prefix, bytes, n - 1);
      RecordInPrefix(prefix, bytes, n - 1);
    }
  }

  /**
    The decoder looks only backwards: decoding a prefix of the stream gives
    a prefix of each output. In particular a trailing partial record is
    dropped without changing any earlier output.
  */
  lemma {:induction false} DecodePrefix(prefix: seq<bv8>, bytes: seq<bv8>)
    requires prefix <= bytes
    ensures RecordCount(prefix) <= RecordCount(bytes)
    ensures Timestamps(prefix) == Timestamps(bytes)[..RecordCount(prefix)]
    ensures Detectors(prefix) == Detectors(bytes)[..RecordCount(prefix)]
    ensures Nanotimes(prefix) == Nanotimes(bytes)[..RecordCount(prefix)]
  {
    forall k | 0 <= k < RecordCount(prefix)
      ensures Timestamp(prefix, k) == Timestamp(bytes, k)
      ensures Detector(prefix, k) == Detector(bytes, k)
      ensures Nanotime(prefix, k) == Nanotime(bytes, k)
    {
      RecordInPrefix(prefix, bytes, k);
      OverflowCountInPrefix(prefix, bytes, k + 1);
    }
  }

  /** Up to five trailing bytes are ignored. */
  lemma {:induction false} TrailingPartialRecordDropped(bytes: seq<bv8>, tail: seq<bv8>)
    requires |bytes| % RecordSize == 0 && |tail| < RecordSize
    ensures RecordCount(bytes + tail) == RecordCount(bytes)
    ensures Timestamps(bytes + tail) == Timestamps(bytes)
    ensures Detectors(bytes + tail) == Detectors(bytes)
    ensures Nanotimes(bytes + tail) == Nanotimes(bytes)
  {
    DecodePrefix(bytes, bytes + tail);
  }

  /**
    The overflow count is local to one call: decoding `first + second` in one
    go shifts every timestamp of `second` by the overflows seen in `first`,
    compared with decoding `second` on its own (which starts from zero).
  */
  lemma {:induction false} ConcatenatedStreams(first: seq<bv8>, second: seq<bv8>, k: nat)
    requires |first| % RecordSize == 0 && k < RecordCount(second)
    ensures RecordCount(first) + k < RecordCount(first + second)
    ensures Timestamp(first + second, RecordCount(first) + k)
         == Timestamp(second, k) + OverflowCount(first, RecordCount(first)) * OverflowStep
  {
    var n := RecordCount(first);
    var both := first + second;
    CumulativeAfterPrefix(first, second, k);
    RecordAfterPrefix(first, second, k);
    var c1, c2 := OverflowCount(first, n), CumulativeOverflow(second, k);
    assert (c1 + c2) * OverflowStep == c1 * OverflowStep + c2 * OverflowStep;
  }

  /** Record `k` of `second` has, in `first + second`, the overflows of `first` added to its own count. */
  lemma {:induction false} CumulativeAfterPrefix(first: seq<bv8>, second: seq<bv8>, k: nat)
    requires |first| % RecordSize == 0 && k < RecordCount(second)
    ensures RecordCount(first) + k < RecordCount(first + second)
    ensures CumulativeOverflow(first + second, RecordCount(first) + k)
         == OverflowCount(first, RecordCount(first)) + CumulativeOverflow(second, k)
  {
    OverflowCountInPrefix(first, first + second, RecordCount(first));
    ShiftedOverflowCount(first, second, k + 1);
  }

  /** A stream of whole records followed by another has the records of both. */
  lemma {:induction false} ConcatRecordCount(first: seq<bv8>, second: seq<bv8>)
    requires |first| % RecordSize == 0
    ensures |first| == RecordSize * RecordCount(first)
    ensures RecordCount(first + second) == RecordCount(first) + RecordCount(second)
  {
  }

  /** Record `j` of `second` is record `RecordCount(first) + j` of `first + second`. */
  lemma {:induction false} RecordAfterPrefix(first: seq<bv8>, second: seq<bv8>, j: nat)
    requires |first| % RecordSize == 0 && j < RecordCount(second)
    ensures RecordCount(first) + j < RecordCount(first + second)
    ensures RecordAt(first + second, RecordCount(first) + j) == RecordAt(second, j)
  {
    var n := RecordCount(first);
    var both := first + second;
    ConcatRecordCount(first, second);
    var o, p := RecordSize * (n + j), RecordSize * j;
    assert o == |first| + p;
    assert both[o..o + RecordSize] == second[p..p + RecordSize];
  }

  lemma {:induction false} ShiftedOverflowCount(first: seq<bv8>, second: seq<bv8>, m: nat)
    requires |first| % RecordSize == 0 && m <= RecordCount(second)
    ensures RecordCount(first) + m <= RecordCount(first + second)
    ensures OverflowCount(first + second, RecordCount(first) + m)
         == OverflowCount(first + second, RecordCount(first)) + OverflowCount(second, m)
  {
    if m > 0 {
      ShiftedOverflowCount(first, second, m - 1);
      OverflowCountStep(first, second, m);
    } else {
      ConcatRecordCount(first, second);
      assert RecordCount(first) + m == RecordCount(first);
    }
  }

  /** One record further into `second` adds the same flag in both streams. */
  lemma {:induction false} OverflowCountStep(first: seq<bv8>, second: seq<bv8>, m: nat)
    requires |first| % RecordSize == 0 && 0 < m <= RecordCount(second)
    ensures RecordCount(first) + m <= RecordCount(first + second)
    ensures OverflowCount(first + second, RecordCount(first) + m)
         == OverflowCount(first + second, RecordCount(first) + (m - 1)) + OverflowBit(RecordAt(second, m - 1).field0)
    ensures OverflowCount(second, m) == OverflowCount(second, m - 1) + OverflowBit(RecordAt(second, m - 1).field0)
  {
    RecordAfterPrefix(first, second, m - 1);
  }

  // ---------------------------------------------------------------------
  // Worked examples and the documented overflow mask

  /** field0 = 0x1ABC, b = 0x01, c = 0x05, a = 0x0234: nanotime 1347 (= 4095 - 0xABC), detector 5, timestamp 66100. */
  lemma SingleRecordExample()
    ensures RecordCount([0xBC, 0x1A, 0x01, 0x05, 0x34, 0x02]) == 1
    ensures Nanotime([0xBC, 0x1A, 0x01, 0x05, 0x34, 0x02], 0) == 1347
    ensures Detector([0xBC, 0x1A, 0x01, 0x05, 0x34, 0x02], 0) == 5
    ensures Timestamp([0xBC, 0x1A, 0x01, 0x05, 0x34, 0x02], 0) == 66100
  {
    var bytes: seq<bv8> := [0xBC, 0x1A, 0x01, 0x05, 0x34, 0x02];
    var r := RecordAt(bytes, 0);
    assert r.field0 == 0x1ABC;
    assert OverflowBit(r.field0) == 0;
  }

  /** A record with bit 13 set counts its own overflow; the next record inherits the count. */
  lemma {:induction false} OverflowIsInclusive(bytes: seq<bv8>, k: nat)
    requires k < RecordCount(bytes)
    requires RecordAt(bytes, k).field0 & 0x2000 != 0
    ensures CumulativeOverflow(bytes, k) == OverflowCount(bytes, k) + 1
    ensures Timestamp(bytes, k) == Mantissa(RecordAt(bytes, k)) + (OverflowCount(bytes, k) + 1) * OverflowStep
    ensures k + 1 < RecordCount(bytes) && RecordAt(bytes, k + 1).field0 & 0x2000 == 0 ==>
              CumulativeOverflow(bytes, k + 1) == CumulativeOverflow(bytes, k)
  {
    assert OverflowBit(RecordAt(bytes, k).field0) == 1;
    if k + 1 < RecordCount(bytes) && RecordAt(bytes, k + 1).field0 & 0x2000 == 0 {
      assert OverflowBit(RecordAt(bytes, k + 1).field0) == 0;
    }
  }

  /**
    The flag read is bit 13 (mask 0x2000). The module docstring's mask 4096
    (0x1000) is bit 12: on field0 = 0x1000 the two disagree.
  */
  lemma DocumentedMaskDiffers()
    ensures forall f: bv16 :: OverflowBit(f) == 1 <==> f & 0x2000 != 0
    ensures OverflowBit(0x1000) == 0 && 0x1000 & 0x1000 as bv16 != 0
  {
  }
}
