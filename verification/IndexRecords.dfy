/**
 The fixed-width binary index records: a big-endian 32-bit line number, a big-endian 64-bit byte
 offset, and a message id of 32 bytes, cut or padded with zeros.
 */
module IndexRecords {

  type Byte = n: nat | n < 256

  const ID_SIZE: nat := 32
  const RECORD_SIZE: nat := 44

  datatype Record = Record(line: nat, offset: nat, id: seq<Byte>)

  function Pow256(width: nat): (p: nat)
    ensures p > 0
  {
    if width == 0 then 1 else 256 * Pow256(width - 1)
  }

  function BigEndian(n: nat, width: nat): (s: seq<Byte>)
    ensures |s| == width
  {
    if width == 0 then [] else BigEndian(n / 256, width - 1) + [n % 256]
  }

  function FromBigEndian(s: seq<Byte>): nat {
    if s == [] then 0 else 256 * FromBigEndian(s[..|s| - 1]) + s[|s| - 1]
  }

  lemma {:induction false} BigEndianRoundTrip(n: nat, width: nat)
    requires n < Pow256(width)
    ensures FromBigEndian(BigEndian(n, width)) == n
  {
    if width > 0 {
      BigEndianRoundTrip(n / 256, width - 1);
      assert BigEndian(n, width)[..width - 1] == BigEndian(n / 256, width - 1);
    }
  }

  function Zeros(n: nat): seq<Byte> {
    seq(n, i => 0)
  }

  function PadId(id: seq<Byte>): (s: seq<Byte>)
    ensures |s| == ID_SIZE
  {
    if |id| >= ID_SIZE then id[..ID_SIZE] else id + Zeros(ID_SIZE - |id|)
  }

  function StripZeros(s: seq<Byte>): seq<Byte> {
    if s != [] && s[|s| - 1] == 0 then StripZeros(s[..|s| - 1]) else s
  }

  /** Ids the index stores unchanged. */
  predicate Storable(id: seq<Byte>) {
    |id| <= ID_SIZE && (id != [] ==> id[|id| - 1] != 0)
  }

  lemma {:induction false} StripPadding(id: seq<Byte>, n: nat)
    ensures StripZeros(id + Zeros(n)) == StripZeros(id)
  {
    if n > 0 {
      assert (id + Zeros(n))[..|id| + n - 1] == id + Zeros(n - 1);
      StripPadding(id, n - 1);
    } else {
      assert id + Zeros(0) == id;
    }
  }

  lemma {:induction false} StripEndsNonZero(s: seq<Byte>)
    ensures StripZeros(s) <= s && (StripZeros(s) != [] ==> StripZeros(s)[|StripZeros(s)| - 1] != 0)
  {
    if s != [] && s[|s| - 1] == 0 {
      StripEndsNonZero(s[..|s| - 1]);
    }
  }

  /** An id survives storage exactly when it fits and does not end in a zero byte. */
  lemma IdRoundTrip(id: seq<Byte>)
    ensures StripZeros(PadId(id)) == id <==> Storable(id)
  {
    StripEndsNonZero(PadId(id));
    if |id| < ID_SIZE {
      StripPadding(id, ID_SIZE - |id|);
    } else if |id| == ID_SIZE {
      assert id[..ID_SIZE] == id;
    }
  }

  predicate Fits(r: Record) {
    r.line < Pow256(4) && r.offset < Pow256(8)
  }

  function Pack(r: Record): (s: seq<Byte>)
    ensures |s| == RECORD_SIZE
  {
    BigEndian(r.line, 4) + BigEndian(r.offset, 8) + PadId(r.id)
  }

  lemma DivideTwice(n: nat, b: nat)
    requires b > 0
    ensures n / 256 / b == n / (256 * b)
  {
    var m := n / 256;
    var q, r := m / b, m % b;
    Quotient(n, 256 * b, q, 256 * r + n % 256);
  }

  lemma Quotient(n: nat, d: nat, q: nat, r: nat)
    requires r < d && n == d * q + r
    ensures n / d == q
  {
    var k := n / d;
    assert d * k + n % d == n;
    SmallMultiple(d, k - q);
  }

  lemma SmallMultiple(d: int, x: int)
    requires d > 0
    ensures x >= 1 ==> d * x >= d
    ensures x <= -1 ==> d * x <= -d
  {
  }

  /** The most significant byte comes first. */
  lemma {:induction false} BigEndianAt(n: nat, width: nat, k: nat)
    requires k < width
    ensures BigEndian(n, width)[k] == n / Pow256(width - 1 - k) % 256
  {
    if k < width - 1 {
      BigEndianAt(n / 256, width - 1, k);
      DivideTwice(n, Pow256(width - 2 - k));
    }
  }

  /** The bytes of a record: four of the line number and eight of the offset, most significant first,
      then the id, cut at 32 bytes or followed by zeros. */
  lemma PackLayout(r: Record)
    ensures forall k :: 0 <= k < 4 ==> Pack(r)[k] == r.line / Pow256(3 - k) % 256
    ensures forall k :: 4 <= k < 12 ==> Pack(r)[k] == r.offset / Pow256(11 - k) % 256
    ensures forall k :: 12 <= k < 44 ==> Pack(r)[k] == if k - 12 < |r.id| then r.id[k - 12] else 0
  {
    hide BigEndian, Pow256;
    forall k | 0 <= k < 4 ensures Pack(r)[k] == r.line / Pow256(3 - k) % 256 {
      BigEndianAt(r.line, 4, k);
    }
    forall k | 4 <= k < 12 ensures Pack(r)[k] == r.offset / Pow256(11 - k) % 256 {
      BigEndianAt(r.offset, 8, k - 4);
    }
  }

  function Unpack(s: seq<Byte>): Record
    requires |s| == RECORD_SIZE
  {
    Record(FromBigEndian(s[..4]), FromBigEndian(s[4..12]), StripZeros(s[12..]))
  }

  /** Unpacking gives back what was packed, up to the id's storage form. */
  lemma RecordRoundTrip(r: Record)
    requires Fits(r)
    ensures Unpack(Pack(r)) == r.(id := StripZeros(PadId(r.id)))
  {
    BigEndianRoundTrip(r.line, 4);
    BigEndianRoundTrip(r.offset, 8);
    var s := Pack(r);
    assert s[..4] == BigEndian(r.line, 4);
    assert s[4..12] == BigEndian(r.offset, 8);
    assert s[12..] == PadId(r.id);
  }

  // ----- Index files

  function Encode(rs: seq<Record>): (s: seq<Byte>)
    ensures |s| == RECORD_SIZE * |rs|
  {
    if rs == [] then [] else Encode(rs[..|rs| - 1]) + Pack(rs[|rs| - 1])
  }

  lemma EncodeNone()
    ensures Encode([]) == []
  {
  }

  lemma {:induction false} EncodeAppend(a: seq<Record>, b: seq<Record>)
    ensures Encode(a + b) == Encode(a) + Encode(b)
  {
    hide Pack;
    if b == [] {
      assert a + b == a;
    } else {
      assert (a + b)[..|a + b| - 1] == a + b[..|b| - 1];
      EncodeAppend(a, b[..|b| - 1]);
    }
  }

  /** The n-th record of an index file, if it is all there. */
  function RecordAt(file: seq<Byte>, n: nat): (r: seq<Byte>)
    requires RECORD_SIZE * (n + 1) <= |file|
    ensures |r| == RECORD_SIZE
  {
    file[RECORD_SIZE * n..RECORD_SIZE * (n + 1)]
  }

  lemma {:induction false} EncodedRecordAt(rs: seq<Record>, n: nat)
    requires n < |rs|
    ensures RECORD_SIZE * (n + 1) <= |Encode(rs)| && RecordAt(Encode(rs), n) == Pack(rs[n])
  {
    var rest := Encode(rs[..|rs| - 1]);
    if n < |rs| - 1 {
      EncodedRecordAt(rs[..|rs| - 1], n);
      assert RecordAt(Encode(rs), n) == RecordAt(rest, n);
    } else {
      assert RecordAt(Encode(rs), n) == Pack(rs[n]);
    }
  }

  /** All whole records of an index file. */
  function Decode(file: seq<Byte>): (rs: seq<Record>)
    ensures |rs| == |file| / RECORD_SIZE
    ensures forall n :: 0 <= n < |rs| ==> rs[n] == Unpack(RecordAt(file, n))
  {
    seq(|file| / RECORD_SIZE, n requires 0 <= n < |file| / RECORD_SIZE => Unpack(RecordAt(file, n)))
  }

  predicate Exact(rs: seq<Record>) {
    forall n :: 0 <= n < |rs| ==> Fits(rs[n]) && Storable(rs[n].id)
  }

  /** An index file reads back as the records written to it. */
  lemma DecodeEncode(rs: seq<Record>)
    requires Exact(rs)
    ensures Decode(Encode(rs)) == rs
  {
    hide Pack, Unpack, Fits, Storable;
    var file := Encode(rs);
    assert |file| / RECORD_SIZE == |rs|;
    forall n | 0 <= n < |rs| ensures Decode(file)[n] == rs[n] {
      EncodedRecordAt(rs, n);
      RecordRoundTrip(rs[n]);
      IdRoundTrip(rs[n].id);
    }
  }

  /** Different indexes are stored differently. */
  lemma EncodeInjective(a: seq<Record>, b: seq<Record>)
    requires Exact(a) && Exact(b) && Encode(a) == Encode(b)
    ensures a == b
  {
    DecodeEncode(a);
    DecodeEncode(b);
  }

  lemma {:induction false} FromBigEndianRoundTrip(s: seq<Byte>)
    ensures BigEndian(FromBigEndian(s), |s|) == s
  {
    if s != [] {
      FromBigEndianRoundTrip(s[..|s| - 1]);
      var high, low := FromBigEndian(s[..|s| - 1]), s[|s| - 1];
      assert (256 * high + low) / 256 == high && (256 * high + low) % 256 == low;
    }
  }

  lemma {:induction false} StripThenPad(s: seq<Byte>)
    ensures |StripZeros(s)| <= |s| && StripZeros(s) + Zeros(|s| - |StripZeros(s)|) == s
  {
    if s != [] && s[|s| - 1] == 0 {
      StripThenPad(s[..|s| - 1]);
      var kept := StripZeros(s[..|s| - 1]);
      assert s[..|s| - 1] == kept + Zeros(|s| - 1 - |kept|);
      assert s == s[..|s| - 1] + [0];
      assert Zeros(|s| - |kept|) == Zeros(|s| - 1 - |kept|) + [0];
    }
  }

  /** Packing gives back what was unpacked. */
  lemma PackUnpack(s: seq<Byte>)
    requires |s| == RECORD_SIZE
    ensures Pack(Unpack(s)) == s
  {
    FromBigEndianRoundTrip(s[..4]);
    FromBigEndianRoundTrip(s[4..12]);
    StripThenPad(s[12..]);
    StripEndsNonZero(s[12..]);
    assert PadId(StripZeros(s[12..])) == s[12..];
    assert s == s[..4] + s[4..12] + s[12..];
  }

  lemma {:induction false} EncodeDecodePrefix(file: seq<Byte>, n: nat)
    requires RECORD_SIZE * n <= |file|
    ensures Encode(Decode(file)[..n]) == file[..RECORD_SIZE * n]
  {
    hide Pack, Unpack;
    var rs := Decode(file);
    if n > 0 {
      EncodeDecodePrefix(file, n - 1);
      assert rs[..n][..n - 1] == rs[..n - 1];
      PackUnpack(RecordAt(file, n - 1));
      assert file[..RECORD_SIZE * n] == file[..RECORD_SIZE * (n - 1)] + RecordAt(file, n - 1);
    }
  }

  /** A file of whole records is the encoding of what it reads. */
  lemma EncodeDecode(file: seq<Byte>)
    requires |file| % RECORD_SIZE == 0
    ensures Encode(Decode(file)) == file
  {
    var n := |file| / RECORD_SIZE;
    EncodeDecodePrefix(file, n);
    assert Decode(file)[..n] == Decode(file);
    assert file[..RECORD_SIZE * n] == file;
  }
}
