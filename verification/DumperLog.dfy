/** The volumes of cgatepp::Dumper as values: framed records behind a position
    header. */
module DumperLog {
  import opened Bits
  import opened ByteOrder
  import opened Sequences

  /** A serialised record. */
  type Record = seq<byte>

  const HEADER_SIZE: nat := 8

  /** A record with its size in front. */
  function Frame(r: Record): (f: seq<byte>)
    ensures |f| == 2 + |r|
  {
    BigEndian(|r|, 2) + r
  }

  function Encode(records: seq<Record>): seq<byte> {
    if records == [] then [] else Encode(records[..|records| - 1]) + Frame(records[|records| - 1])
  }

  lemma EncodeLast(all: seq<Record>, rest: seq<Record>, last: Record)
    requires all == rest + [last]
    ensures Encode(all) == Encode(rest) + Frame(last)
  {
    hide Frame;
    assert all[..|all| - 1] == rest;
  }

  lemma {:induction false} EncodeConcat(a: seq<Record>, b: seq<Record>)
    ensures Encode(a + b) == Encode(a) + Encode(b)
    decreases |b|
  {
    hide Frame;
    if b == [] {
      assert a + b == a;
    } else {
      var rest, last := b[..|b| - 1], b[|b| - 1];
      EncodeConcat(a, rest);
      EncodeLast(b, rest, last);
      EncodeLast(a + b, a + rest, last);
      assert Encode(a) + Encode(rest) + Frame(last) == Encode(a) + (Encode(rest) + Frame(last));
    }
  }

  /** Record `k` stands behind the records before it. */
  lemma EncodeAt(records: seq<Record>, k: nat)
    requires k < |records|
    ensures var from := |Encode(records[..k])|;
            && from + |Frame(records[k])| <= |Encode(records)|
            && Encode(records)[from..from + |Frame(records[k])|] == Frame(records[k])
            && |Encode(records[..k + 1])| == from + |Frame(records[k])|
  {
    hide Frame;
    EncodeConcat(records[..k + 1], records[k + 1..]);
    assert records[..k + 1] + records[k + 1..] == records;
    assert records[..k + 1][..k] == records[..k];
  }

  lemma EncodeEnd(records: seq<Record>, k: nat)
    requires k <= |records|
    ensures |Encode(records[..k])| <= |Encode(records)|
    ensures k < |records| ==> |Encode(records[..k])| + 2 <= |Encode(records)|
    ensures k == |records| ==> |Encode(records[..k])| == |Encode(records)|
  {
    if k < |records| { EncodeAt(records, k); } else { assert records[..k] == records; }
  }

  /** The position that the header of `data` holds. */
  function HeaderPosition(data: seq<byte>): nat
    requires |data| >= HEADER_SIZE
  {
    FromBigEndian(data[..HEADER_SIZE])
  }

  /** `data` is a volume that holds these records. */
  ghost predicate IsVolume(data: seq<byte>, records: seq<Record>, fileSize: nat) {
    var end := HEADER_SIZE + |Encode(records)|;
    && |data| == fileSize < 0x1_0000_0000_0000_0000 && end <= fileSize
    && HeaderPosition(data) == end
    && data[HEADER_SIZE..end] == Encode(records)
    && forall k :: 0 <= k < |records| ==> |records[k]| < 0x1_0000
  }

  /** All records of all volumes, oldest first. */
  ghost function Flatten(volumes: seq<seq<Record>>): seq<Record> {
    if volumes == [] then [] else Flatten(volumes[..|volumes| - 1]) + volumes[|volumes| - 1]
  }

  lemma {:induction false} FlattenSplit(volumes: seq<seq<Record>>, v: nat)
    requires v < |volumes|
    ensures |Flatten(volumes[..v])| + |volumes[v]| == |Flatten(volumes[..v + 1])| <= |Flatten(volumes)|
    ensures forall k :: 0 <= k < |volumes[v]| ==> Flatten(volumes)[|Flatten(volumes[..v])| + k] == volumes[v][k]
  {
    assert volumes[..v + 1][..v] == volumes[..v];
    if v == |volumes| - 1 {
      assert volumes[..v + 1] == volumes;
    } else {
      var n := |volumes| - 1;
      FlattenSplit(volumes[..n], v);
      assert volumes[..n][..v] == volumes[..v] && volumes[..n][..v + 1] == volumes[..v + 1];
    }
  }

  /** A fresh volume, all zeros, with its header set. */
  lemma NewVolume(zeros: seq<byte>, fileSize: nat)
    requires |zeros| == fileSize && HEADER_SIZE <= fileSize < 0x1_0000_0000_0000_0000
    requires forall i :: 0 <= i < fileSize ==> zeros[i] == 0
    ensures HeaderPosition(zeros) == 0
    ensures IsVolume(Written(zeros, 0, BigEndian(HEADER_SIZE, 8)), [], fileSize)
  {
    ZerosAreZero(zeros[..HEADER_SIZE]);
    Pow256Values();
    BigEndianInverse(HEADER_SIZE, 8);
    WrittenFirst(zeros, BigEndian(HEADER_SIZE, 8));
  }

  /** Writing the frame of a record and then the header adds the record. */
  lemma VolumeAppend(data: seq<byte>, records: seq<Record>, fileSize: nat, r: Record, pos: nat,
                     sized: seq<byte>, filled: seq<byte>, now: seq<byte>)
    requires IsVolume(data, records, fileSize) && |r| < 0x1_0000
    requires pos == HeaderPosition(data) && pos + 2 + |r| <= fileSize
    requires sized == Written(data, pos, BigEndian(|r|, 2)) && filled == Written(sized, pos + 2, r)
    requires now == Written(filled, 0, BigEndian(pos + 2 + |r|, 8))
    ensures IsVolume(now, records + [r], fileSize)
  {
    FrameWritten(data, pos, r, sized, filled);
    AppendedBytes(data, Encode(records), pos, Frame(r), filled, BigEndian(pos + 2 + |r|, 8), now);
    hide Written, Encode, BigEndian, Frame, HeaderPosition;
    EncodeSnoc(records, r);
    HeaderWritten(filled, pos + 2 + |r|);
  }

  lemma FrameWritten(data: seq<byte>, pos: nat, r: Record, sized: seq<byte>, filled: seq<byte>)
    requires pos + 2 + |r| <= |data|
    requires sized == Written(data, pos, BigEndian(|r|, 2)) && filled == Written(sized, pos + 2, r)
    ensures filled == Written(data, pos, Frame(r))
  {
    WrittenTwice(data, pos, BigEndian(|r|, 2), r);
  }

  lemma EncodeSnoc(records: seq<Record>, r: Record)
    ensures Encode(records + [r]) == Encode(records) + Frame(r)
  {
    assert (records + [r])[..|records|] == records;
  }

  lemma HeaderWritten(data: seq<byte>, pos: nat)
    requires |data| >= HEADER_SIZE && pos < 0x1_0000_0000_0000_0000
    ensures HeaderPosition(Written(data, 0, BigEndian(pos, 8))) == pos
  {
    Pow256Values();
    BigEndianInverse(pos, 8);
    WrittenFirst(data, BigEndian(pos, 8));
  }

  lemma AppendedBytes(data: seq<byte>, stored: seq<byte>, pos: nat, f: seq<byte>, filled: seq<byte>,
                      header: seq<byte>, now: seq<byte>)
    requires |header| == HEADER_SIZE && pos == HEADER_SIZE + |stored| && pos + |f| <= |data|
    requires data[HEADER_SIZE..pos] == stored
    requires filled == Written(data, pos, f) && now == Written(filled, 0, header)
    ensures now[HEADER_SIZE..pos + |f|] == stored + f
  {
    forall i | 0 <= i < |stored + f| ensures now[HEADER_SIZE..pos + |f|][i] == (stored + f)[i] {
      WrittenReads(filled, 0, header, HEADER_SIZE + i);
      WrittenReads(data, pos, f, HEADER_SIZE + i);
      if i < |stored| { assert data[HEADER_SIZE..pos][i] == data[HEADER_SIZE + i]; }
    }
  }
}
