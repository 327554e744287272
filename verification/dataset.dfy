/**
 * The in-memory dataset and the binary file layout that `load_dataset` decodes:
 * a 4-byte item count N, then N records of one label byte followed by the
 * 784 pixel bytes of the image, in file order.
 */
module Datasets {

  /** An unsigned byte, as stored in the file and in memory. */
  type Byte = b: int | 0 <= b < 256

  /** Pixels per image (28 by 28, accessed as a flat sequence). */
  const NumPixels: nat := 784
  /** Number of distinct labels; the frequency arrays have this many slots. */
  const NumLabels: nat := 10
  /** Bytes taken by the item count at the start of the file. */
  const HeaderSize: nat := 4
  /** Bytes per record: one label byte, then the pixels. */
  const RecordSize: nat := 785

  /** `labels[i]` is the label of `images[i]`. */
  datatype Dataset = Dataset(labels: seq<Byte>, images: seq<seq<Byte>>)

  /** Labels and images are paired one to one and every image has all its pixels. */
  predicate Valid(ds: Dataset) {
    && |ds.labels| == |ds.images|
    && forall i :: 0 <= i < |ds.images| ==> |ds.images[i]| == NumPixels
  }

  /** Every label can index the 10-slot frequency arrays of the classifier. */
  predicate LabelsInRange(ds: Dataset) {
    forall i :: 0 <= i < |ds.labels| ==> ds.labels[i] < NumLabels
  }

  /** The number of items, `num_items`. */
  function Size(ds: Dataset): nat {
    |ds.labels|
  }

  /** The item count at the start of the file, read little-endian. */
  function CountField(file: seq<Byte>): nat
    requires |file| >= HeaderSize
  {
    file[0] as int + 256 * file[1] as int + 65536 * file[2] as int + 16777216 * file[3] as int
  }

  /** Offset of the label byte of record `i`. */
  function RecordStart(i: nat): nat {
    4 + 785 * i
  }

  /**
   * A file the loader can read without running past its end: the count, read
   * into a C `int`, is non-negative (its top byte is below 128), and all the
   * records it announces are present. Trailing bytes are never read.
   */
  predicate WellFormedFile(file: seq<Byte>) {
    && |file| >= HeaderSize
    && file[3] < 128
    && |file| >= RecordStart(CountField(file))
  }

  /** The dataset a well-formed file holds. */
  function Parse(file: seq<Byte>): (ds: Dataset)
    requires WellFormedFile(file)
    ensures Valid(ds) && Size(ds) == CountField(file)
  {
    var n := CountField(file);
    Dataset(seq(n, i requires 0 <= i < n => file[RecordStart(i)]),
            seq(n, i requires 0 <= i < n => file[RecordStart(i) + 1 .. RecordStart(i) + RecordSize]))
  }

  /**
   * `load_dataset`: reads the count, allocates N labels and N images, then reads
   * the records one after another. `file` is the content of the opened file and
   * `pos` the position of the stream.
   */
  method LoadDataset(file: seq<Byte>) returns (ds: Dataset)
    requires WellFormedFile(file)
    ensures Valid(ds) && Size(ds) == CountField(file)
    ensures forall i :: 0 <= i < Size(ds) ==> ds.labels[i] == file[RecordStart(i)]
    ensures forall i :: 0 <= i < Size(ds) ==>
              ds.images[i] == file[RecordStart(i) + 1 .. RecordStart(i) + RecordSize]
    ensures ds == Parse(file)
  {
    var space := CountField(file);
    var pos := HeaderSize;
    var labels := new Byte[space];
    var images := new seq<Byte>[space];
    for i := 0 to space
      invariant pos == RecordStart(i)
      invariant forall k :: 0 <= k < i ==> labels[k] == file[RecordStart(k)]
      invariant forall k :: 0 <= k < i ==>
                  images[k] == file[RecordStart(k) + 1 .. RecordStart(k) + RecordSize]
    {
      labels[i] := file[pos];
      images[i] := file[pos + 1 .. pos + RecordSize];
      pos := pos + RecordSize;
    }
    ds := Dataset(labels[..], images[..]);
  }

  /** The count field for `n` items, little-endian. */
  function CountBytes(n: nat): (b: seq<Byte>)
    requires n < 0x8000_0000
    ensures |b| == HeaderSize && b[3] < 128
  {
    [n % 256, n / 256 % 256, n / 256 / 256 % 256, n / 256 / 256 / 256]
  }

  /** The records of the file, one label byte followed by the image, in order. */
  function EncodeRecords(labels: seq<Byte>, images: seq<seq<Byte>>): seq<Byte>
    requires |labels| == |images|
  {
    if |labels| == 0 then []
    else [labels[0]] + images[0] + EncodeRecords(labels[1..], images[1..])
  }

  /** The file that holds `ds`: the writer side of the format. */
  function Encode(ds: Dataset): seq<Byte>
    requires Valid(ds) && Size(ds) < 0x8000_0000
  {
    CountBytes(Size(ds)) + EncodeRecords(ds.labels, ds.images)
  }

  lemma CountFieldOfCountBytes(n: nat)
    requires n < 0x8000_0000
    ensures CountField(CountBytes(n)) == n
  {
  }

  /** The encoded records take 785 bytes each. */
  lemma {:induction false} EncodeRecordsLength(labels: seq<Byte>, images: seq<seq<Byte>>)
    requires |labels| == |images|
    requires forall i :: 0 <= i < |images| ==> |images[i]| == NumPixels
    ensures |EncodeRecords(labels, images)| == RecordSize * |labels|
  {
    if |labels| != 0 {
      EncodeRecordsLength(labels[1..], images[1..]);
    }
  }

  /** Past a prefix `head`, the bytes of `head + rest` are those of `rest`. */
  lemma AppendShift(head: seq<Byte>, rest: seq<Byte>, j: nat, w: nat)
    requires j < j + w <= |rest|
    ensures (head + rest)[|head| + j] == rest[j]
    ensures (head + rest)[|head| + j + 1 .. |head| + j + w] == rest[j + 1 .. j + w]
  {
  }

  /** Record `k` of the encoded records sits at offset 785 * k. */
  lemma {:induction false} EncodeRecordsAt(labels: seq<Byte>, images: seq<seq<Byte>>, k: nat)
    requires |labels| == |images| && k < |labels|
    requires forall i :: 0 <= i < |images| ==> |images[i]| == NumPixels
    ensures |EncodeRecords(labels, images)| == RecordSize * |labels|
    ensures EncodeRecords(labels, images)[RecordSize * k] == labels[k]
    ensures EncodeRecords(labels, images)[RecordSize * k + 1 .. RecordSize * k + RecordSize] == images[k]
  {
    EncodeRecordsLength(labels, images);
    var head := [labels[0]] + images[0];
    var rest := EncodeRecords(labels[1..], images[1..]);
    assert EncodeRecords(labels, images) == head + rest;
    if k == 0 {
      assert (head + rest)[1 .. RecordSize] == images[0];
    } else {
      EncodeRecordsAt(labels[1..], images[1..], k - 1);
      assert RecordSize * k == RecordSize + RecordSize * (k - 1);
      AppendShift(head, rest, RecordSize * (k - 1), RecordSize);
    }
  }

  /** Decoding the file written for a dataset gives that dataset back. */
  lemma ParseEncode(ds: Dataset)
    requires Valid(ds) && Size(ds) < 0x8000_0000
    ensures WellFormedFile(Encode(ds))
    ensures Parse(Encode(ds)) == ds
  {
    var n := Size(ds);
    var file := Encode(ds);
    var records := EncodeRecords(ds.labels, ds.images);
    CountFieldOfCountBytes(n);
    if n == 0 {
      assert records == [];
    } else {
      EncodeRecordsAt(ds.labels, ds.images, 0);
    }
    assert file == CountBytes(n) + records;
    assert CountField(file) == n;
    var parsed := Parse(file);
    forall i | 0 <= i < n
      ensures parsed.labels[i] == ds.labels[i] && parsed.images[i] == ds.images[i]
    {
      EncodeRecordsAt(ds.labels, ds.images, i);
      assert file[RecordStart(i)] == records[RecordSize * i];
      assert file[RecordStart(i) + 1 .. RecordStart(i) + RecordSize]
          == records[RecordSize * i + 1 .. RecordSize * i + RecordSize];
    }
  }

  /** Re-encoding the count read from a file gives back its first four bytes. */
  lemma CountBytesOfCountField(file: seq<Byte>)
    requires |file| >= HeaderSize && file[3] < 128
    ensures CountBytes(CountField(file)) == file[..HeaderSize]
  {
    var n := CountField(file);
    var b0, b1, b2, b3 := file[0] as int, file[1] as int, file[2] as int, file[3] as int;
    var q1, q2 := b1 + 256 * (b2 + 256 * b3), b2 + 256 * b3;
    DigitSplit(b0, q1);
    DigitSplit(b1, q2);
    DigitSplit(b2, b3);
    assert CountBytes(n) == [file[0], file[1], file[2], file[3]];
  }

  /** Splitting `r + 256 * q` into its low byte and the rest gives back `r` and `q`. */
  lemma DigitSplit(r: int, q: int)
    requires 0 <= r < 256
    ensures (r + 256 * q) % 256 == r && (r + 256 * q) / 256 == q
  {
  }

  /** Byte `q` past the header of a well-formed file is the matching byte of the encoded records. */
  lemma RecordByte(file: seq<Byte>, q: nat)
    requires WellFormedFile(file)
    requires HeaderSize <= q < RecordStart(CountField(file))
    ensures |EncodeRecords(Parse(file).labels, Parse(file).images)| == RecordSize * CountField(file)
    ensures EncodeRecords(Parse(file).labels, Parse(file).images)[q - HeaderSize] == file[q]
  {
    var ds := Parse(file);
    var records := EncodeRecords(ds.labels, ds.images);
    var k := (q - HeaderSize) / RecordSize;
    var r := (q - HeaderSize) % RecordSize;
    assert q == RecordStart(k) + r;
    EncodeRecordsAt(ds.labels, ds.images, k);
    if r != 0 {
      assert records[q - HeaderSize]
          == records[RecordSize * k + 1 .. RecordSize * k + RecordSize][r - 1];
    }
  }

  /**
   * Writing back a decoded dataset reproduces the file up to the end of its
   * last record: the loader reads exactly N records, in file order, and nothing else.
   */
  lemma EncodeParse(file: seq<Byte>)
    requires WellFormedFile(file)
    ensures Size(Parse(file)) < 0x8000_0000
    ensures Encode(Parse(file)) == file[..RecordStart(CountField(file))]
  {
    var ds := Parse(file);
    var n := CountField(file);
    var records := EncodeRecords(ds.labels, ds.images);
    CountBytesOfCountField(file);
    if n == 0 {
      assert records == [];
    } else {
      RecordByte(file, HeaderSize);
    }
    var prefix := file[..RecordStart(n)];
    assert prefix == file[..HeaderSize] + file[HeaderSize..RecordStart(n)];
    forall q | 0 <= q < RecordSize * n
      ensures records[q] == file[HeaderSize..RecordStart(n)][q]
    {
      RecordByte(file, q + HeaderSize);
    }
    assert records == file[HeaderSize..RecordStart(n)];
  }
}
