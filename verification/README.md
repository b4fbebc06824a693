# HDF5 signature check

This project models how the go-h5 reader validates an HDF5 file. An HDF5 file
without a user block begins with the 8-byte format signature 137 72 68 70 13 10
26 10 (hex 89 48 44 46 0d 0a 1a 0a), as Level 0A "Format Signature and
Superblock" of the HDF5 File Format Specification defines. The reader looks for
it at offset 0 only.

`newH5Reader` loads the whole file and builds a `Reader`. The reader holds the file
name and an in-memory byte reader over the file content; of that byte reader the
model keeps only the forward cursor.
`parseSignature` reads exactly eight bytes through that cursor and compares them
with the magic. It can end in three distinct ways:

- success;
- the read error, when the content is shorter than eight bytes;
- the "Input File is Not hdf5 Format : <name>" error, when the eight bytes differ from the magic.

The model is in two modules:

- `ByteStream` (`byte_stream.dfy`) models the library pieces the check relies on:
  - the byte type;
  - the `ByteReader` class: a cursor over a byte sequence whose position advances as it reads;
  - the exact-length read that fills a byte buffer or fails, which stands in for `binary.Read` on a `bytes.Reader`;
  - the three-way lexicographic comparison `bytes.Compare`, proved against an independent definition of lexicographic order.
- `H5Reader` (`h5_reader.dfy`) models `reader.go`:
  - the signature constants;
  - the `Status` outcome datatype and the text of its format-mismatch error;
  - the specification function `CheckSignature` and the lemmas about it;
  - the `Reader` class with its `ParseSignature` method;
  - `NewH5Reader`, which assigns the reader's fields one by one and validates the content.

## Model

| member | source | states |
|---|---|---|
| `ByteStream.ByteReader.constructor` | reader.go:68 | a fresh in-memory reader holds exactly the given content, with its cursor at the first byte |
| `ByteStream.ByteReader.ReadFull` | reader.go:33-36 | reading into the chunk succeeds exactly when enough bytes remain. On success the chunk holds the next chunk-length bytes and the cursor advances by that many. On failure the remaining bytes are consumed, so the cursor ends at the end, and the chunk is untouched. The content never changes |
| `ByteStream.Compare` | reader.go:39 | the comparison returns -1, 0 or 1, and 0 exactly when the two byte slices are equal |
| `ByteStream.CompareIsLexicographic` | reader.go:39 | -1 exactly when the first slice precedes the second in lexicographic order; +1 exactly when the second precedes the first |
| `H5Reader.Status.Message` | reader.go:40 | the format-mismatch message is longer than the file name and ends with it |
| `H5Reader.CheckSignature` | reader.go:26-44 | success exactly when at least eight bytes remain and each of the first eight equals the corresponding magic byte; the read error exactly when fewer than eight remain; the format error exactly when eight remain and one of them differs from the magic. The format error carries the file name, and its message ends with it |
| `H5Reader.MagicAccepted` | reader.go:33-43 | any content that begins with the magic passes, whatever follows |
| `H5Reader.OnlyFirstEightBytesMatter` | reader.go:33-39 | two inputs that agree on their first eight bytes get the same outcome |
| `H5Reader.AppendKeepsOutcome` | reader.go:33-39 | appending bytes to content of at least eight bytes keeps the outcome, so only a read error can change when bytes are appended |
| `H5Reader.Reader.constructor` | reader.go:66 | a new reader has no input and an empty file name |
| `H5Reader.Reader.ParseSignature` | reader.go:26-44 | the outcome is `CheckSignature` of the bytes not yet consumed. The content is unchanged. The cursor advances by exactly eight bytes unless the read failed, in which case it ends at the end |
| `H5Reader.NewH5Reader` | reader.go:66-75 | returns a fresh reader whose file name and content are the given ones, whatever the outcome. The outcome is `CheckSignature` of the whole content, so the check starts at the first byte |

## Left out

- File-system access in `newH5Reader` (reader.go:47-64) is not modelled: `os.Stat`, `os.Open`, `ioutil.ReadAll` and `file.Close`. The model starts from the already-loaded content and the file name. The empty reader returned when one of these steps fails is not modelled either.
- `main` and the pretty-printing of the reader (reader.go:78-86) are left out; they only print.
- The `Seek` and `ReadAt` capabilities of the `FileReader` interface (reader.go:14-18) are left out. The shown code never uses them; only the forward cursor is modelled.
- `ParseSignature` models one read-error case. Go's library returns `io.EOF` when no byte was available and `io.ErrUnexpectedEOF` when some were; the model does not tell these apart. The text of the read error is not modelled.
- `signatureSize` and `signatureValue` are defined in a file that is not part of this model. Their values are taken from the comment at reader.go:27-28: size 8, bytes 137 72 68 70 13 10 26 10.
- The signature is checked at offset 0 only, as reader.go:33-39 does. Level 0A of the HDF5 File Format Specification also allows a user block before the superblock, with the signature at offset 512, 1024, 2048 and so on. The model, like the code, rejects such files.
- The superblock and any field decoding are not modelled, because no such code exists in reader.go.
