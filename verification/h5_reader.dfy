/** HDF5 file reader: validation of the format signature, the 8-byte magic
    sequence that an HDF5 file without a user block begins with (HDF5 File
    Format Specification, Level 0A "Format Signature and Superblock"). The
    signature is looked for at offset 0 only. */
module H5Reader {
  import opened ByteStream

  /** Number of bytes in the format signature. */
  const SignatureSize: nat := 8

  /** The format signature: decimal 137 72 68 70 13 10 26 10,
      hexadecimal 89 48 44 46 0d 0a 1a 0a, "\211HDF\r\n\032\n". */
  const Signature: seq<byte> := [137, 72, 68, 70, 13, 10, 26, 10]

  /** Text of the format-mismatch error, before the file name. */
  const NotFormatPrefix: string := "Input File is Not hdf5 Format : "

  /** Outcome of the signature check: success, the error of the underlying
      read (the stream held too few bytes), or the format-mismatch error that
      names the file. */
  datatype Status = Ok | ReadErr | NotFormat(fileName: string)
  {
    /** The message of the format-mismatch error: it names the file. */
    function Message(): (msg: string)
      requires NotFormat?
      ensures |msg| > |fileName|
      ensures msg[|msg| - |fileName|..] == fileName
    {
      NotFormatPrefix + fileName
    }
  }

  /** The outcome of checking the signature against the bytes `stream` that a
      reader has not yet consumed, for a reader labelled `fileName`. */
  function CheckSignature(stream: seq<byte>, fileName: string): (r: Status)
    ensures r == Ok <==>
      |stream| >= SignatureSize && forall k :: 0 <= k < SignatureSize ==> stream[k] == Signature[k]
    ensures r == ReadErr <==> |stream| < SignatureSize
    ensures r == NotFormat(fileName) <==>
      |stream| >= SignatureSize && exists k :: 0 <= k < SignatureSize && stream[k] != Signature[k]
    ensures r.NotFormat? ==> r.fileName == fileName && r.Message()[|r.Message()| - |fileName|..] == fileName
  {
    if |stream| < SignatureSize then ReadErr
    else if Compare(stream[..SignatureSize], Signature) != 0 then NotFormat(fileName)
    else
      assert forall k :: 0 <= k < SignatureSize ==> stream[k] == stream[..SignatureSize][k];
      Ok
  }

  /** Any content that starts with the magic passes, whatever follows it. */
  lemma {:induction false} MagicAccepted(rest: seq<byte>, fileName: string)
    ensures CheckSignature(Signature + rest, fileName) == Ok
  {
    assert (Signature + rest)[..SignatureSize] == Signature;
  }

  /** Bytes after the first eight never affect the outcome. */
  lemma {:induction false} OnlyFirstEightBytesMatter(a: seq<byte>, b: seq<byte>, fileName: string)
    requires |a| >= SignatureSize && |b| >= SignatureSize
    requires a[..SignatureSize] == b[..SignatureSize]
    ensures CheckSignature(a, fileName) == CheckSignature(b, fileName)
  {
  }

  /** Appending bytes to content that already holds eight bytes keeps the
      outcome, so only a read error can change when more bytes follow. */
  lemma {:induction false} AppendKeepsOutcome(stream: seq<byte>, rest: seq<byte>, fileName: string)
    ensures |stream| >= SignatureSize ==>
      CheckSignature(stream + rest, fileName) == CheckSignature(stream, fileName)
  {
    if |stream| >= SignatureSize {
      assert (stream + rest)[..SignatureSize] == stream[..SignatureSize];
      OnlyFirstEightBytesMatter(stream + rest, stream, fileName);
    }
  }

  /** A reader over the content of one file. `input` is nil until the reader
      is set up, as in a zero-valued reader. */
  class Reader {
    var input: ByteReader?
    var fileName: string

    ghost predicate Valid()
      reads this, input
    {
      input != null && input.Valid()
    }

    /** A zero-valued reader: no input and an empty file name. */
    constructor ()
      ensures input == null && fileName == ""
    {
      input := null;
      fileName := "";
    }

    /** Reads the next eight bytes of the input and compares them with the
        format signature. */
    method ParseSignature() returns (st: Status)
      requires Valid()
      modifies input
      ensures Valid()
      ensures input.data == old(input.data)
      ensures st == CheckSignature(old(input.Unread()), fileName)
      ensures st == ReadErr ==> input.pos == |input.data|
      ensures st != ReadErr ==> input.pos == old(input.pos) + SignatureSize
    {
      var chunk := new byte[SignatureSize];
      var ok := input.ReadFull(chunk);
      if !ok {
        return ReadErr;
      }
      if Compare(chunk[..], Signature) != 0 {
        return NotFormat(fileName);
      }
      return Ok;
    }
  }

  /** Sets up a reader over the already-loaded content `data` of the file
      `fileName` and checks its signature. The reader is returned whatever
      the outcome; the check always starts at the first byte of the data. */
  method NewH5Reader(fileName: string, data: seq<byte>) returns (reader: Reader, st: Status)
    ensures fresh(reader) && fresh(reader.input)
    ensures reader.Valid()
    ensures reader.fileName == fileName && reader.input.data == data
    ensures st == CheckSignature(data, fileName)
    ensures st == ReadErr ==> reader.input.pos == |data|
    ensures st != ReadErr ==> reader.input.pos == SignatureSize
  {
    reader := new Reader();
    reader.fileName := fileName;
    reader.input := new ByteReader(data);
    st := reader.ParseSignature();
  }
}
