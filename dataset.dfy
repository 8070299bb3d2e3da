/**
 * The IDX (MNIST) decoder: an images file is parsed into a sequence of records whose
 * labels are unset, and a labels file then writes one label byte into each record,
 * in order. Both files are big-endian and start with a magic number; the images file
 * declares a record count and the two dimensions of every record.
 */
module Dataset {
  import opened Wrappers
  import opened BigEndian
  import opened Cursors
  import opened Blocks

  const IMAGES_MAGIC: int := 2051
  const LABELS_MAGIC: int := 2049
  /** Magic, count, rows and columns: four i32s before the first image. */
  const IMAGES_HEADER: nat := 16
  /** Magic and count: two i32s before the first label. */
  const LABELS_HEADER: nat := 8
  /** `usize` on the 64-bit targets the decoder is built for. */
  const USIZE_MODULUS: int := 0x1_0000_0000_0000_0000
  /** The tensor view is hard-wired to 28 x 28 images. */
  const SIDE: nat := 28

  datatype Error =
    | UnexpectedEof              // a cursor read ran past the end of the buffer
    | InvalidImagesMagic         // "Invalid magic number for images"
    | InvalidLabelsMagic         // "Invalid magic number for labels"
    | LabelCountMismatch         // "Mismatch between images dataset and labels"
    | LabelReadPanic(labelled: nat)  // `read_u8().unwrap()` panicked after `labelled` records were labelled

  /** One image: its pixel bytes, row-major, and its label once labels are loaded. */
  datatype MnistImage = MnistImage(image: seq<Byte>, lbl: Option<Byte>) {

    /**
     * The pixel values of the 1 x 1 x 28 x 28 tensor handed to the inference engine:
     * element (0, 0, y, x) is pixel `x + 28 * y`. The scaling by 1/255 is not modelled.
     */
    function ToTensor(): (t: seq<seq<seq<seq<Byte>>>>)
      requires |image| >= SIDE * SIDE
      ensures |t| == 1 && |t[0]| == 1 && |t[0][0]| == SIDE
      ensures forall y :: 0 <= y < SIDE ==> |t[0][0][y]| == SIDE
    {
      [[seq(SIDE, y requires 0 <= y < SIDE =>
          seq(SIDE, x requires 0 <= x < SIDE => image[TensorIndex(y, x)]))]]
    }
  }

  /** The pixel position the tensor reads for row `y`, column `x`. */
  function TensorIndex(y: nat, x: nat): (k: nat)
    ensures y < SIDE && x < SIDE ==> k < SIDE * SIDE && k / SIDE == y && k % SIDE == x
  {
    x + y * SIDE
  }

  // ---------------------------------------------------------------------------
  // Images file
  // ---------------------------------------------------------------------------

  /** `v as usize` for an i32 on a 64-bit target: negative values wrap to the top of the range. */
  function AsUsize(v: int): (u: nat)
    requires InI32(v)
    ensures u < USIZE_MODULUS
    ensures v >= 0 ==> u == v
    ensures v < 0 ==> u > I32_MAX
  {
    if v < 0 then v + USIZE_MODULUS else v
  }

  /**
   * What the decoder needs of a header it goes on to use: `x * y` does not overflow i32,
   * and when at least one record is to be read, `(x * y) as usize` is not the huge size
   * a negative product turns into.
   */
  predicate HeaderFits(content: seq<Byte>)
  {
    |content| >= IMAGES_HEADER && I32At(content, 0) == IMAGES_MAGIC ==>
      InI32(I32At(content, 8) * I32At(content, 12)) &&
      (I32At(content, 4) > 0 ==> I32At(content, 8) * I32At(content, 12) >= 0)
  }

  /** How many records `for _ in 0..n` reads: the declared count, or none if it is negative. */
  function RecordCount(content: seq<Byte>): (n: nat)
    requires |content| >= IMAGES_HEADER
    ensures n <= I32_MAX
    ensures I32At(content, 4) >= 0 ==> n == I32At(content, 4)
    ensures I32At(content, 4) <= 0 ==> n == 0
  {
    var declared := I32At(content, 4);
    if declared < 0 then 0 else declared
  }

  /** The size of one record: `(rows * cols) as usize`. */
  function RecordSize(content: seq<Byte>): (p: nat)
    requires HeaderFits(content)
    requires |content| >= IMAGES_HEADER && I32At(content, 0) == IMAGES_MAGIC
    ensures I32At(content, 8) * I32At(content, 12) >= 0 ==> p == I32At(content, 8) * I32At(content, 12)
    ensures I32At(content, 4) > 0 ==> p == I32At(content, 8) * I32At(content, 12)
  {
    AsUsize(I32At(content, 8) * I32At(content, 12))
  }

  /** Records with the given pixels and no labels, in order. */
  function Unlabelled(pixels: seq<seq<Byte>>): (r: seq<MnistImage>)
    ensures |r| == |pixels|
    ensures forall k :: 0 <= k < |r| ==> r[k].image == pixels[k] && r[k].lbl == None
  {
    seq(|pixels|, k requires 0 <= k < |pixels| => MnistImage(pixels[k], None))
  }

  /**
   * The images file as the decoder reads it: the magic, then count, rows and columns,
   * then `count` records of `rows * cols` bytes each, every one with its label unset.
   */
  function ImagesFile(content: seq<Byte>): (r: Result<seq<MnistImage>, Error>)
    requires HeaderFits(content)
    ensures |content| < 4 ==> r == Failure(UnexpectedEof)
    ensures |content| >= 4 && I32At(content, 0) != IMAGES_MAGIC ==> r == Failure(InvalidImagesMagic)
    ensures r.Success? <==>
      |content| >= IMAGES_HEADER && I32At(content, 0) == IMAGES_MAGIC &&
      IMAGES_HEADER + Span(RecordCount(content), RecordSize(content)) <= |content|
    ensures r.Success? ==> |r.value| == RecordCount(content)
  {
    if |content| < 4 then Failure(UnexpectedEof)
    else if I32At(content, 0) != IMAGES_MAGIC then Failure(InvalidImagesMagic)
    else if |content| < IMAGES_HEADER then Failure(UnexpectedEof)
    else
      var n, p := RecordCount(content), RecordSize(content);
      if |content| < IMAGES_HEADER + Span(n, p) then Failure(UnexpectedEof)
      else Success(Unlabelled(Chunks(content[IMAGES_HEADER..], p, n)))
  }

  /**
   * An images file decodes exactly when its magic is right and it holds the header and
   * `count * rows * cols` bytes after it.
   */
  lemma ImagesFileSucceedsIff(content: seq<Byte>)
    requires HeaderFits(content)
    ensures ImagesFile(content).Success? <==>
      |content| >= IMAGES_HEADER && I32At(content, 0) == IMAGES_MAGIC &&
      IMAGES_HEADER + RecordCount(content) * RecordSize(content) <= |content|
  {
    if |content| >= IMAGES_HEADER && I32At(content, 0) == IMAGES_MAGIC {
      SpanIsProduct(RecordCount(content), RecordSize(content));
    }
  }

  /** A buffer with the right magic that stops short of the header or of a record fails at end of input. */
  lemma ImagesFileTruncated(content: seq<Byte>)
    requires HeaderFits(content) && |content| >= 4 && I32At(content, 0) == IMAGES_MAGIC
    requires !ImagesFile(content).Success?
    ensures ImagesFile(content) == Failure(UnexpectedEof)
  {
  }

  /** Record `i` of a decoded images file is the `i`-th block of `rows * cols` bytes after the header. */
  lemma ImagesFileRecord(content: seq<Byte>, i: nat)
    requires HeaderFits(content) && ImagesFile(content).Success?
    requires i < |ImagesFile(content).value|
    ensures RecordSize(content) == I32At(content, 8) * I32At(content, 12)
    ensures var p := RecordSize(content);
      0 <= i * p && IMAGES_HEADER + i * p + p <= |content| && |ImagesFile(content).value[i].image| == p &&
      ImagesFile(content).value[i] == MnistImage(content[IMAGES_HEADER + i * p .. IMAGES_HEADER + i * p + p], None)
  {
    var n, p := RecordCount(content), RecordSize(content);
    var body := content[IMAGES_HEADER..];
    var block := Chunks(body, p, n)[i];
    SpanIsProduct(i, p);
    SpanMonotone(i + 1, n, p);
    SliceOfSuffix(content, IMAGES_HEADER, Span(i, p), Span(i, p) + p);
  }

  lemma SliceOfSuffix(s: seq<Byte>, h: nat, a: nat, b: nat)
    requires h <= |s| && a <= b <= |s| - h
    ensures s[h..][a..b] == s[h + a .. h + b]
  {
  }

  // ---------------------------------------------------------------------------
  // Labels file
  // ---------------------------------------------------------------------------

  /** The records after the first `|labels|` of them have been given those labels, in order. */
  function WithLabels(images: seq<MnistImage>, labels: seq<Byte>): (r: seq<MnistImage>)
    requires |labels| <= |images|
    ensures |r| == |images|
    ensures forall i :: 0 <= i < |labels| ==> r[i] == images[i].(lbl := Some(labels[i]))
    ensures forall i :: |labels| <= i < |images| ==> r[i] == images[i]
  {
    if labels == [] then images
    else [images[0].(lbl := Some(labels[0]))] + WithLabels(images[1..], labels[1..])
  }

  /** What loading a labels file does: the records afterwards, and whether the call succeeds. */
  datatype LabelsOutcome = LabelsOutcome(result: Result<(), Error>, images: seq<MnistImage>)

  /**
   * The labels file as the decoder reads it: the magic, a count that must equal the
   * number of records, then one byte per record. A buffer that runs out of label bytes
   * panics part way, after the records before that point have been labelled.
   */
  function ApplyLabelsFile(images: seq<MnistImage>, content: seq<Byte>): (r: LabelsOutcome)
    ensures |r.images| == |images|
    ensures forall i :: 0 <= i < |images| ==> r.images[i].image == images[i].image
    ensures r.result.Failure? && !r.result.error.LabelReadPanic? ==> r.images == images
    ensures |content| < LABELS_HEADER ==>
      r.images == images && r.result.Failure? && !r.result.error.LabelReadPanic?
    ensures r.result.Success? <==>
      |content| >= LABELS_HEADER + |images| && I32At(content, 0) == LABELS_MAGIC &&
      AsUsize(I32At(content, 4)) == |images|
  {
    if |content| < 4 then LabelsOutcome(Failure(UnexpectedEof), images)
    else if I32At(content, 0) != LABELS_MAGIC then LabelsOutcome(Failure(InvalidLabelsMagic), images)
    else if |content| < LABELS_HEADER then LabelsOutcome(Failure(UnexpectedEof), images)
    else if AsUsize(I32At(content, 4)) != |images| then LabelsOutcome(Failure(LabelCountMismatch), images)
    else if |content| < LABELS_HEADER + |images| then
      var k := |content| - LABELS_HEADER;
      LabelsOutcome(Failure(LabelReadPanic(k)), WithLabels(images, content[LABELS_HEADER..]))
    else
      LabelsOutcome(Success(()), WithLabels(images, content[LABELS_HEADER..LABELS_HEADER + |images|]))
  }

  /** A successful load gives record `i` the `i`-th byte after the header. */
  lemma LabelsFileSetsLabels(images: seq<MnistImage>, content: seq<Byte>)
    requires ApplyLabelsFile(images, content).result.Success?
    ensures forall i :: 0 <= i < |images| ==>
      ApplyLabelsFile(images, content).images[i].lbl == Some(content[LABELS_HEADER + i])
  {
  }

  /** A wrong magic or a count other than the number of records is rejected before any record is touched. */
  lemma LabelsFileRejects(images: seq<MnistImage>, content: seq<Byte>)
    requires |content| >= 4
    requires I32At(content, 0) != LABELS_MAGIC ||
      (|content| >= LABELS_HEADER && AsUsize(I32At(content, 4)) != |images|)
    ensures ApplyLabelsFile(images, content) == LabelsOutcome(
      Failure(if I32At(content, 0) != LABELS_MAGIC then InvalidLabelsMagic else LabelCountMismatch), images)
  {
  }

  /** A labels buffer too short for its header fails at end of input and touches no record. */
  lemma LabelsFileTruncatedHeader(images: seq<MnistImage>, content: seq<Byte>)
    requires |content| < 4 || (|content| < LABELS_HEADER && I32At(content, 0) == LABELS_MAGIC)
    ensures ApplyLabelsFile(images, content) == LabelsOutcome(Failure(UnexpectedEof), images)
  {
  }

  /**
   * A buffer that runs out of label bytes leaves the records it reached labelled and the
   * rest as they were: nothing is rolled back.
   */
  lemma LabelsFileShortBuffer(images: seq<MnistImage>, content: seq<Byte>)
    requires |content| >= LABELS_HEADER && I32At(content, 0) == LABELS_MAGIC
    requires AsUsize(I32At(content, 4)) == |images| > |content| - LABELS_HEADER
    ensures var k := |content| - LABELS_HEADER;
      var r := ApplyLabelsFile(images, content);
      r.result == Failure(LabelReadPanic(k)) &&
      (forall i :: 0 <= i < k ==> r.images[i] == images[i].(lbl := Some(content[LABELS_HEADER + i]))) &&
      (forall i :: k <= i < |images| ==> r.images[i] == images[i])
  {
  }

  // ---------------------------------------------------------------------------
  // The dataset object
  // ---------------------------------------------------------------------------

  class MnistDataset {
    var images: seq<MnistImage>

    constructor (images: seq<MnistImage>)
      ensures this.images == images
    {
      this.images := images;
    }

    /** Decodes an images file; on any failure no dataset is returned. */
    static method LoadImages(content: seq<Byte>) returns (r: Result<MnistDataset, Error>)
      requires HeaderFits(content)
      ensures r.Success? <==> ImagesFile(content).Success?
      ensures r.Success? ==> r.value.images == ImagesFile(content).value
      ensures r.Failure? ==> r.error == ImagesFile(content).error
      ensures r.Success? ==> fresh(r.value)
    {
      var cursor := new Cursor(content);
      var magic := cursor.ReadI32BE();
      if magic.None? {
        return Failure(UnexpectedEof);
      }
      if magic.value != IMAGES_MAGIC {
        return Failure(InvalidImagesMagic);
      }
      var numImages := cursor.ReadI32BE();
      if numImages.None? {
        return Failure(UnexpectedEof);
      }
      var x := cursor.ReadI32BE();
      if x.None? {
        return Failure(UnexpectedEof);
      }
      var y := cursor.ReadI32BE();
      if y.None? {
        return Failure(UnexpectedEof);
      }
      var numImgPixels := AsUsize(x.value * y.value);
      assert numImgPixels == RecordSize(content);
      var images := ReadRecords(cursor, numImages.value, numImgPixels);
      if images.Failure? {
        return Failure(images.error);
      }
      var dataset := new MnistDataset(images.value);
      return Success(dataset);
    }

    /**
     * The loop over the declared records: `n` times, reads `p` bytes at the cursor and
     * pushes them as an unlabelled record; the first short read fails the whole load.
     */
    static method ReadRecords(cursor: Cursor, n: int, p: nat) returns (r: Result<seq<MnistImage>, Error>)
      requires cursor.pos == IMAGES_HEADER <= |cursor.data|
      modifies cursor
      ensures var count := if n < 0 then 0 else n;
        r == if IMAGES_HEADER + Span(count, p) <= |cursor.data|
             then Success(Unlabelled(Chunks(cursor.data[IMAGES_HEADER..], p, count)))
             else Failure(UnexpectedEof)
      ensures r.Success? ==> cursor.pos == IMAGES_HEADER + Span(if n < 0 then 0 else n, p)
      ensures r.Failure? ==> cursor.pos == |cursor.data|
    {
      ghost var count, body := if n < 0 then 0 else n, cursor.data[IMAGES_HEADER..];
      var images: seq<MnistImage> := [];
      var i := 0;
      while i < n
        invariant 0 <= i <= count
        invariant cursor.pos == IMAGES_HEADER + Span(i, p) <= |cursor.data|
        invariant images == Unlabelled(Chunks(body, p, i))
      {
        var image := cursor.ReadExact(p);
        if image.None? {
          SpanMonotone(i + 1, count, p);
          return Failure(UnexpectedEof);
        }
        ReadRecordStep(cursor.data, p, i);
        images := images + [MnistImage(image.value, None)];
        i := i + 1;
      }
      return Success(images);
    }

    /**
     * Reads a labels file and writes its `i`-th label byte into record `i`. A wrong magic
     * or count leaves every record as it was; running out of label bytes does not.
     */
    method LoadLabels(content: seq<Byte>) returns (r: Result<(), Error>)
      modifies this
      ensures LabelsOutcome(r, images) == ApplyLabelsFile(old(images), content)
    {
      var cursor := new Cursor(content);
      var magic := cursor.ReadI32BE();
      if magic.None? {
        return Failure(UnexpectedEof);
      }
      if magic.value != LABELS_MAGIC {
        return Failure(InvalidLabelsMagic);
      }
      var numLabels := cursor.ReadI32BE();
      if numLabels.None? {
        return Failure(UnexpectedEof);
      }
      if AsUsize(numLabels.value) != |images| {
        return Failure(LabelCountMismatch);
      }
      var i := 0;
      while i < |images|
        invariant 0 <= i <= |images| == |old(images)|
        invariant cursor.pos == LABELS_HEADER + i <= |content|
        invariant images == WithLabels(old(images), content[LABELS_HEADER..LABELS_HEADER + i])
      {
        var b := cursor.ReadU8();
        if b.None? {
          assert content[LABELS_HEADER..LABELS_HEADER + i] == content[LABELS_HEADER..];
          return Failure(LabelReadPanic(i));
        }
        assert content[LABELS_HEADER..LABELS_HEADER + i + 1] == content[LABELS_HEADER..LABELS_HEADER + i] + [b.value];
        WithLabelsSnoc(old(images), content[LABELS_HEADER..LABELS_HEADER + i], b.value);
        images := images[i := images[i].(lbl := Some(b.value))];
        i := i + 1;
      }
      return Success(());
    }
  }

  /** Labelling one record more updates just that record. */
  lemma WithLabelsSnoc(images: seq<MnistImage>, labels: seq<Byte>, b: Byte)
    requires |labels| < |images|
    ensures var before := WithLabels(images, labels);
      WithLabels(images, labels + [b]) == before[|labels| := before[|labels|].(lbl := Some(b))]
  {
    var n := |labels|;
    var before, after := WithLabels(images, labels), WithLabels(images, labels + [b]);
    var expected := before[n := before[n].(lbl := Some(b))];
    forall i | 0 <= i < |images|
      ensures after[i] == expected[i]
    {
      if i < n {
        assert (labels + [b])[i] == labels[i];
      } else if i == n {
        assert (labels + [b])[i] == b;
      }
    }
    assert after == expected;
  }

  /** Reading record `i` at its offset extends the records read so far by that record. */
  lemma ReadRecordStep(content: seq<Byte>, p: nat, i: nat)
    requires IMAGES_HEADER + Span(i + 1, p) <= |content|
    ensures IMAGES_HEADER + Span(i, p) + p == IMAGES_HEADER + Span(i + 1, p)
    ensures Unlabelled(Chunks(content[IMAGES_HEADER..], p, i + 1)) ==
      Unlabelled(Chunks(content[IMAGES_HEADER..], p, i)) +
      [MnistImage(content[IMAGES_HEADER + Span(i, p) .. IMAGES_HEADER + Span(i, p) + p], None)]
  {
    var body := content[IMAGES_HEADER..];
    SpanMonotone(i, i + 1, p);
    SliceOfSuffix(content, IMAGES_HEADER, Span(i, p), Span(i + 1, p));
    UnlabelledSnoc(Chunks(body, p, i), body[Span(i, p) .. Span(i + 1, p)]);
  }

  lemma UnlabelledSnoc(pixels: seq<seq<Byte>>, b: seq<Byte>)
    ensures Unlabelled(pixels + [b]) == Unlabelled(pixels) + [MnistImage(b, None)]
  {
    assert Unlabelled(pixels + [b])[|pixels|] == MnistImage(b, None);
  }

  // ---------------------------------------------------------------------------
  // Round trips and the tensor view
  // ---------------------------------------------------------------------------

  /** The bytes of an images file holding `pixels`, each image `rows * cols` bytes. */
  function EncodeImagesFile(rows: int, cols: int, pixels: seq<seq<Byte>>): (content: seq<Byte>)
    requires InI32(rows) && InI32(cols) && |pixels| <= I32_MAX
  {
    EncodeI32(IMAGES_MAGIC) + EncodeI32(|pixels|) + EncodeI32(rows) + EncodeI32(cols) + Concat(pixels)
  }

  /** The bytes of a labels file holding `labels`. */
  function EncodeLabelsFile(labels: seq<Byte>): (content: seq<Byte>)
    requires |labels| <= I32_MAX
  {
    EncodeI32(LABELS_MAGIC) + EncodeI32(|labels|) + labels
  }

  /** The header fields of an encoded images file read back as written. */
  lemma ImagesHeaderOf(rows: int, cols: int, pixels: seq<seq<Byte>>, trailing: seq<Byte>)
    requires InI32(rows) && InI32(cols) && |pixels| <= I32_MAX
    ensures var content := EncodeImagesFile(rows, cols, pixels) + trailing;
      |content| >= IMAGES_HEADER &&
      I32At(content, 0) == IMAGES_MAGIC && I32At(content, 4) == |pixels| &&
      I32At(content, 8) == rows && I32At(content, 12) == cols &&
      content[IMAGES_HEADER..] == Concat(pixels) + trailing
  {
    var e0, e1, e2, e3 := EncodeI32(IMAGES_MAGIC), EncodeI32(|pixels|), EncodeI32(rows), EncodeI32(cols);
    var header, rest := e0 + e1 + e2 + e3, Concat(pixels) + trailing;
    assert EncodeImagesFile(rows, cols, pixels) + trailing == header + rest;
    HeaderFields(e0, e1, e2, e3);
    I32AtEncoded(header, 0, IMAGES_MAGIC);
    I32AtEncoded(header, 4, |pixels|);
    I32AtEncoded(header, 8, rows);
    I32AtEncoded(header, 12, cols);
    I32AtPrefix(header, rest, 0);
    I32AtPrefix(header, rest, 4);
    I32AtPrefix(header, rest, 8);
    I32AtPrefix(header, rest, 12);
  }

  /** The four 4-byte fields of a 16-byte header sit at offsets 0, 4, 8 and 12. */
  lemma HeaderFields(e0: seq<Byte>, e1: seq<Byte>, e2: seq<Byte>, e3: seq<Byte>)
    requires |e0| == |e1| == |e2| == |e3| == 4
    ensures var header := e0 + e1 + e2 + e3;
      |header| == IMAGES_HEADER &&
      header[0..4] == e0 && header[4..8] == e1 && header[8..12] == e2 && header[12..16] == e3
  {
  }

  /**
   * Decoding a well-formed images file, whatever bytes follow it, gives back exactly the
   * images written into it, in order and unlabelled.
   */
  lemma ImagesRoundTrip(rows: int, cols: int, pixels: seq<seq<Byte>>, trailing: seq<Byte>)
    requires InI32(rows) && InI32(cols) && 0 <= rows * cols <= I32_MAX && |pixels| <= I32_MAX
    requires forall k :: 0 <= k < |pixels| ==> |pixels[k]| == rows * cols
    ensures HeaderFits(EncodeImagesFile(rows, cols, pixels) + trailing)
    ensures ImagesFile(EncodeImagesFile(rows, cols, pixels) + trailing) == Success(Unlabelled(pixels))
  {
    ImagesHeaderOf(rows, cols, pixels, trailing);
    ChunksOfConcat(pixels, trailing, rows * cols);
  }

  /** Bytes after the last declared image are never read: appending them changes nothing. */
  lemma ImagesFileIgnoresTrailing(content: seq<Byte>, extra: seq<Byte>)
    requires HeaderFits(content) && ImagesFile(content).Success?
    ensures HeaderFits(content + extra)
    ensures ImagesFile(content + extra) == ImagesFile(content)
  {
    I32AtPrefix(content, extra, 0);
    I32AtPrefix(content, extra, 4);
    I32AtPrefix(content, extra, 8);
    I32AtPrefix(content, extra, 12);
    assert (content + extra)[IMAGES_HEADER..] == content[IMAGES_HEADER..] + extra;
    ChunksAppend(content[IMAGES_HEADER..], extra, RecordSize(content), RecordCount(content));
  }

  /**
   * Loading a well-formed labels file whose count matches, whatever bytes follow it,
   * succeeds and gives record `i` label `labels[i]`, leaving the pixels alone.
   */
  lemma LabelsRoundTrip(images: seq<MnistImage>, labels: seq<Byte>, trailing: seq<Byte>)
    requires |labels| == |images| <= I32_MAX
    ensures ApplyLabelsFile(images, EncodeLabelsFile(labels) + trailing)
         == LabelsOutcome(Success(()), WithLabels(images, labels))
  {
    LabelsHeaderOf(labels, trailing);
  }

  /** The header fields and label bytes of an encoded labels file read back as written. */
  lemma LabelsHeaderOf(labels: seq<Byte>, trailing: seq<Byte>)
    requires |labels| <= I32_MAX
    ensures var content := EncodeLabelsFile(labels) + trailing;
      |content| == LABELS_HEADER + |labels| + |trailing| &&
      I32At(content, 0) == LABELS_MAGIC && I32At(content, 4) == |labels| &&
      content[LABELS_HEADER..LABELS_HEADER + |labels|] == labels
  {
    var content := EncodeLabelsFile(labels) + trailing;
    var e0, e1 := EncodeI32(LABELS_MAGIC), EncodeI32(|labels|);
    assert content == e0 + e1 + (labels + trailing);
    assert I32At(content, 0) == LABELS_MAGIC by {
      assert content[0..4] == e0;
      DecodeEncodeI32(LABELS_MAGIC);
    }
    assert I32At(content, 4) == |labels| by {
      assert content[4..8] == e1;
      DecodeEncodeI32(|labels|);
    }
  }

  /** Decoding a matching pair of files pairs the `k`-th image with the `k`-th label. */
  lemma DecodePairedFiles(rows: int, cols: int, pixels: seq<seq<Byte>>, labels: seq<Byte>)
    requires InI32(rows) && InI32(cols) && 0 <= rows * cols <= I32_MAX && |pixels| <= I32_MAX
    requires forall k :: 0 <= k < |pixels| ==> |pixels[k]| == rows * cols
    requires |labels| == |pixels|
    ensures HeaderFits(EncodeImagesFile(rows, cols, pixels))
    ensures ImagesFile(EncodeImagesFile(rows, cols, pixels)) == Success(Unlabelled(pixels))
    ensures ApplyLabelsFile(Unlabelled(pixels), EncodeLabelsFile(labels)) == LabelsOutcome(
      Success(()), seq(|pixels|, k requires 0 <= k < |pixels| => MnistImage(pixels[k], Some(labels[k]))))
  {
    ImagesRoundTrip(rows, cols, pixels, []);
    assert EncodeImagesFile(rows, cols, pixels) + [] == EncodeImagesFile(rows, cols, pixels);
    LabelsRoundTrip(Unlabelled(pixels), labels, []);
    assert EncodeLabelsFile(labels) + [] == EncodeLabelsFile(labels);
    var paired := seq(|pixels|, k requires 0 <= k < |pixels| => MnistImage(pixels[k], Some(labels[k])));
    assert WithLabels(Unlabelled(pixels), labels) == paired;
  }

  /** The tensor's index map is a bijection from the 28 x 28 grid onto the first 784 pixels. */
  lemma TensorIndexBijective(y1: nat, x1: nat, y2: nat, x2: nat, k: nat)
    requires y1 < SIDE && x1 < SIDE && y2 < SIDE && x2 < SIDE && k < SIDE * SIDE
    ensures TensorIndex(y1, x1) < SIDE * SIDE
    ensures TensorIndex(y1, x1) == TensorIndex(y2, x2) ==> y1 == y2 && x1 == x2
    ensures k / SIDE < SIDE && TensorIndex(k / SIDE, k % SIDE) == k
  {
  }

  /** Read row by row, the tensor lists the first 784 pixels in their stored order. */
  lemma ToTensorRowMajor(img: MnistImage)
    requires |img.image| >= SIDE * SIDE
    ensures Concat(img.ToTensor()[0][0]) == img.image[..SIDE * SIDE]
  {
    var plane := img.ToTensor()[0][0];
    var s := img.image[..SIDE * SIDE];
    SpanIsProduct(SIDE, SIDE);
    var rows := Chunks(s, SIDE, SIDE);
    forall y | 0 <= y < SIDE
      ensures plane[y] == rows[y]
    {
      TensorRow(img, y);
    }
    assert plane == rows;
    ConcatChunks(s, SIDE, SIDE);
  }

  /** Row `y` of the tensor is the `y`-th run of 28 pixels. */
  lemma TensorRow(img: MnistImage, y: nat)
    requires |img.image| >= SIDE * SIDE && y < SIDE
    ensures SIDE * SIDE == Span(SIDE, SIDE)
    ensures img.ToTensor()[0][0][y] == Chunks(img.image[..SIDE * SIDE], SIDE, SIDE)[y]
  {
    SpanIsProduct(SIDE, SIDE);
    SpanIsProduct(y, SIDE);
    var row := Chunks(img.image[..SIDE * SIDE], SIDE, SIDE)[y];
    assert y * SIDE + SIDE <= SIDE * SIDE;
  }
}
