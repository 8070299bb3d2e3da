# IDX (MNIST) decoder — a Dafny model

This project models the dataset decoder of a small MNIST inference program
(`rust/src/dataset.rs`). The decoder reads two IDX files, both already in memory as bytes:

- **Images file.** A big-endian i32 magic (2051), then the record count `N`, then the
  dimensions `x` and `y`, then `N` records of `x * y` pixel bytes each. Decoding builds a
  `MnistDataset` whose `MnistImage` records all have their label unset.
- **Labels file.** A magic (2049), then a count that must equal the number of records, then
  one label byte per record. These bytes are written into the records in order, in place.

`MnistImage::to_tensor` exposes a record as a 1 x 1 x 28 x 28 tensor. Element `(0, 0, y, x)`
of the tensor is pixel `x + 28 * y`.

Layout:

- `wrappers.dfy` — `Option` and `Result`.
- `big_endian.dfy` — big-endian two's-complement i32 over bytes, as `read_i32::<BigEndian>`
  reads it. Includes its inverse, used to build well-formed files.
- `cursor.dfy` — class `Cursor`, the `std::io::Cursor` the decoder reads through. Its methods
  are `read_exact`, `read_u8` and `read_i32`. A read that runs out of bytes fails and leaves
  the cursor at the end, as current std does; the decoder never reads the position after a
  failed read.
- `blocks.dfy` — cutting a buffer into consecutive fixed-size records, and laying records end
  to end. `Span(n, p)` counts the bytes of `n` records of `p` bytes one record at a time, and
  `SpanIsProduct` shows it equals `n * p`.
- `dataset.dfy` — `MnistImage`, `MnistDataset` and its two loaders.
  - The loaders are methods over a `Cursor`, proved against the specification functions
    `ImagesFile` and `ApplyLabelsFile`.
  - Lemmas about those functions state what the decoder promises: failure cases, record
    layout, ignored trailing bytes, labels in order, and round trips.

`LoadLabels` is not all-or-nothing. A labels file whose count matches but whose bytes run
out makes `read_u8().unwrap()` panic. By then every record before that point has already
been labelled, and nothing is rolled back. The model returns `LabelReadPanic(k)` together
with the records as the panic leaves them: the first `k` labelled, the rest unchanged
(`LabelsFileShortBuffer`).

A wrong magic and a count mismatch are different. Both are detected before any record is
touched, so those failures leave the records exactly as they were (`LabelsFileRejects`).

## Model

| member | source | states |
|---|---|---|
| BigEndian.DecodeI32 | rust/src/dataset.rs:37 | four bytes read most significant first give an i32, and it is negative exactly when the top bit of the first byte is set |
| BigEndian.DecodeEncodeI32 | rust/src/dataset.rs:37 | every i32 written as four big-endian bytes reads back as itself |
| BigEndian.EncodeDecodeI32 | rust/src/dataset.rs:37 | every four bytes are the encoding of the i32 they decode to, so the big-endian read is a bijection between 4-byte strings and i32 values |
| BigEndian.I32At | rust/src/dataset.rs:37-42 | the i32 at an offset is an i32 decoded from the four bytes there |
| BigEndian.I32AtEncoded | rust/src/dataset.rs:37-42 | four bytes that encode a value read back as that value at whatever offset they sit |
| BigEndian.I32AtPrefix | rust/src/dataset.rs:37-42 | the i32 read at an offset depends only on the bytes up to offset + 4, not on any bytes after them |
| Cursors.Cursor.constructor | rust/src/dataset.rs:36 | a new cursor is over the whole buffer, at position 0 |
| Cursors.Cursor.ReadExact | rust/src/dataset.rs:47-48 | with n bytes left, it returns the next n bytes and advances by n; otherwise it fails and moves to the end of the buffer (as current std does; the decoder never reads the position after a failed read) |
| Cursors.Cursor.ReadU8 | rust/src/dataset.rs:79 | returns the byte at the position and advances by one, or fails at the end of the buffer |
| Cursors.Cursor.ReadI32BE | rust/src/dataset.rs:37-42 | returns the big-endian i32 at the position and advances by four, or fails when fewer than four bytes remain |
| Blocks.SpanIsProduct | rust/src/dataset.rs:43-48 | n records of p bytes, read one after another, take exactly n * p bytes |
| Blocks.Chunks | rust/src/dataset.rs:46-53 | the n records read from a buffer: there are n of them, and record k is the p bytes starting where record k - 1 ended |
| Blocks.ChunksAppend | rust/src/dataset.rs:46-53 | appending bytes after the last record changes none of the records read |
| Blocks.ChunksOfConcat | rust/src/dataset.rs:46-53 | records of one size laid end to end, whatever follows, are read back as the same records in the same order |
| Blocks.ConcatChunks | rust/src/dataset.rs:46-53 | the records read, laid end to end, are exactly the first n * p bytes: no byte is skipped or read twice |
| Blocks.ConcatUniform | rust/src/dataset.rs:46-53 | in records of one size laid end to end, record k starts at offset k * p (as `Span(k, p)`) and the total length is n * p |
| Blocks.ConcatLength | rust/src/dataset.rs:46-53 | n records of p bytes laid end to end take `Span(n, p)` bytes |
| Blocks.ConcatBlock | rust/src/dataset.rs:46-53 | in records of one size laid end to end, record k is the p bytes at offset `Span(k, p)` |
| Dataset.MnistImage.ToTensor | rust/src/dataset.rs:16-21 | the tensor has shape 1 x 1 x 28 x 28 |
| Dataset.TensorIndexBijective | rust/src/dataset.rs:17-18 | the index map (y, x) to x + 28 * y sends the 28 x 28 grid into [0, 784) one-to-one, and every index in [0, 784) is hit |
| Dataset.TensorIndex | rust/src/dataset.rs:18 | for a row and column inside the 28 x 28 grid, the index `x + y * 28` is below 784, and dividing it by 28 gives back the row and the remainder gives back the column |
| Dataset.ToTensorRowMajor | rust/src/dataset.rs:16-21 | read row by row, the tensor plane lists the first 784 pixels in their stored order |
| Dataset.AsUsize | rust/src/dataset.rs:74 | `as usize` on a 64-bit target: a non-negative i32 is kept, a negative one becomes a value above i32::MAX, so it can never equal a record count that came from a non-negative i32 |
| Dataset.RecordCount | rust/src/dataset.rs:40-46 | the number of times `for _ in 0..num_images` runs: the declared count when it is non-negative, and zero when it is zero or negative |
| Dataset.RecordSize | rust/src/dataset.rs:41-43 | `(x * y) as usize`: it equals x * y whenever that product is non-negative, and in particular whenever at least one record is to be read |
| Dataset.Unlabelled | rust/src/dataset.rs:49-52 | one record per pixel block, in order, each with its label unset |
| Dataset.ImagesFile | rust/src/dataset.rs:36-61 | under 4 bytes fails with an end-of-file error. A magic other than 2051 fails as an invalid images magic. It succeeds exactly when the header is complete and max(N, 0) * x * y bytes follow it, giving max(N, 0) records |
| Dataset.ImagesFileSucceedsIff | rust/src/dataset.rs:37-53 | decoding succeeds if and only if the magic is 2051 and the buffer holds 16 + max(N, 0) * x * y bytes; any shorter buffer fails as a whole |
| Dataset.ImagesFileTruncated | rust/src/dataset.rs:40-48 | with the magic 2051 read, a buffer that stops before the end of the header or inside a record fails with the end-of-file error of the `?` reads |
| Dataset.ImagesFileRecord | rust/src/dataset.rs:45-53 | record i is the bytes from 16 + i * x * y up to 16 + (i + 1) * x * y, its length is x * y, and its label is unset |
| Dataset.ImagesFileIgnoresTrailing | rust/src/dataset.rs:45-54 | bytes after the last declared record are never read: appending them leaves the result unchanged |
| Dataset.ImagesRoundTrip | rust/src/dataset.rs:36-61 | a well-formed images file, with any trailing bytes, decodes to exactly the images written into it, in order and unlabelled |
| Dataset.MnistDataset.constructor | rust/src/dataset.rs:59-61 | the dataset holds the given records |
| Dataset.MnistDataset.LoadImages | rust/src/dataset.rs:30-62 | decoding through the cursor succeeds exactly when `ImagesFile` does. It yields a dataset of exactly those records, and otherwise returns the same error and no dataset. The dataset returned is a new object |
| Dataset.MnistDataset.ReadRecords | rust/src/dataset.rs:45-54 | the loop reads max(N, 0) records of p bytes, each from where the previous one stopped, or fails on the first short read. On success the cursor stands just after the last record read; on failure it stands at the end of the buffer |
| Dataset.WithLabels | rust/src/dataset.rs:79 | the first k records receive the k label bytes in order; every other record and every pixel is unchanged |
| Dataset.WithLabelsSnoc | rust/src/dataset.rs:79 | labelling one record more changes only that record |
| Dataset.ApplyLabelsFile | rust/src/dataset.rs:64-85 | the records keep their number and pixels. A failure other than the label-read panic leaves them unchanged. Loading succeeds exactly when the magic is 2049, the count as usize equals the number of records, and that many label bytes follow the header. A buffer too short for the 8-byte header fails before any record is touched |
| Dataset.LabelsFileSetsLabels | rust/src/dataset.rs:79 | after a successful load, record i has label byte 8 + i of the file |
| Dataset.LabelsFileRejects | rust/src/dataset.rs:71-82 | once 4 bytes are read, a wrong magic fails as an invalid labels magic, and with the 8-byte header read, a count other than the number of records fails as a mismatch; either way every record is left as it was |
| Dataset.LabelsFileTruncatedHeader | rust/src/dataset.rs:71-74 | a labels buffer under 4 bytes, or with magic 2049 but under 8 bytes, fails with the end-of-file error of the `?` reads and leaves every record as it was |
| Dataset.LabelsFileShortBuffer | rust/src/dataset.rs:79 | when label bytes run out after k of them, the first k records are labelled, the rest are untouched, and the load fails |
| Dataset.MnistDataset.LoadLabels | rust/src/dataset.rs:64-85 | the result and the new records are exactly what `ApplyLabelsFile` gives for the old records |
| Dataset.LabelsRoundTrip | rust/src/dataset.rs:64-85 | a well-formed labels file with a matching count, with any trailing bytes, gives record i the i-th label and succeeds |
| Dataset.DecodePairedFiles | rust/src/dataset.rs:98-107 | loading a matching images file and labels file pairs the k-th image with the k-th label |

## Left out

- File reading (`read_to_end`, `rust/src/dataset.rs:33` and `:67`) is left out. The loaders take the file contents as a byte sequence, and an I/O error is not modelled.
- Dataset.MnistImage.ToTensor: gives the raw pixel bytes at each position. It leaves out the `f32` conversion, the division by 255 and the `tract` `Tensor` wrapper, because floating point is outside the model. It requires at least 784 pixels, where the source panics on an out-of-range index. Like the source, it fixes the side at 28 rather than using the declared dimensions.
- Dataset.ImagesFile and Dataset.MnistDataset.LoadImages require `HeaderFits`. This excludes headers where `x * y` overflows i32, which panics in debug builds and wraps in release builds. It also excludes a negative `x * y` when `N > 0`: its `as usize` is a size near 2^64, and `vec!` cannot allocate that, so the program panics or aborts, depending on the toolchain. A negative product with `N <= 0` is modelled, because the source reads no record then.
- Dataset.AsUsize: `usize` is taken to be 64 bits wide.
- Dataset.MnistDataset.LoadLabels: the panic of `read_u8().unwrap()` on a short labels buffer is modelled as the error value `LabelReadPanic(k)`. The records are left as the panic leaves them. Unwinding itself is not modelled.
- The `anyhow` error messages are modelled as the constructors of `Error`. A failed read is `UnexpectedEof`.
- The test module (`rust/src/dataset.rs:89-109`) reads fixed files from one machine and checks that there are 10000 records. Only the pairing it exercises is stated, as `DecodePairedFiles`.
- The command-line driver, the inference engine and the accuracy count are not part of this model.
