/** The in-memory byte stream the signature check reads from: a forward-reading
    cursor over a fixed byte sequence (Go's `bytes.Reader`), the exact-length
    read that `binary.Read` performs into a byte slice, and the three-way
    lexicographic comparison of byte slices (`bytes.Compare`). */
module ByteStream {

  newtype byte = b: int | 0 <= b < 256

  /** A cursor over a byte sequence. `data` is the whole content handed to the
      reader; `pos` is the number of bytes already consumed. */
  class ByteReader {
    var data: seq<byte>
    var pos: nat

    ghost predicate Valid()
      reads this
    {
      pos <= |data|
    }

    /** The bytes not yet consumed. */
    ghost function Unread(): (s: seq<byte>)
      reads this
      requires Valid()
      ensures |s| == |data| - pos
    {
      data[pos..]
    }

    /** A fresh reader positioned at the start of `content`. */
    constructor (content: seq<byte>)
      ensures Valid()
      ensures data == content && pos == 0
    {
      data := content;
      pos := 0;
    }

    /** Fills `chunk` with the next `chunk.Length` bytes. When fewer bytes
        remain, the read fails: the remaining bytes are consumed, so the cursor
        ends at the end of the data, and `chunk` is left as it was. */
    method ReadFull(chunk: array<byte>) returns (ok: bool)
      requires Valid()
      modifies this, chunk
      ensures Valid()
      ensures data == old(data)
      ensures ok <==> old(pos) + chunk.Length <= |data|
      ensures ok ==> pos == old(pos) + chunk.Length && chunk[..] == old(Unread())[..chunk.Length]
      ensures !ok ==> pos == |data| && chunk[..] == old(chunk[..])
    {
      if |data| - pos < chunk.Length {
        pos := |data|;
        return false;
      }
      var n := 0;
      while n < chunk.Length
        invariant 0 <= n <= chunk.Length
        invariant pos == old(pos) + n <= |data|
        invariant data == old(data)
        invariant chunk[..n] == data[old(pos)..pos]
      {
        chunk[n] := data[pos];
        n := n + 1;
        pos := pos + 1;
      }
      ok := true;
    }
  }

  /** `a` precedes `b` in lexicographic order: at the first position where they
      differ `a` holds the smaller byte, or `a` is a proper prefix of `b`. */
  ghost predicate LexLess(a: seq<byte>, b: seq<byte>)
  {
    exists i :: 0 <= i <= |a| && i <= |b| && a[..i] == b[..i] &&
      ((i == |a| && i < |b|) || (i < |a| && i < |b| && a[i] < b[i]))
  }

  /** Three-way comparison of two byte slices: 0 when they are equal, -1 when
      `a` comes first lexicographically, +1 otherwise. */
  function Compare(a: seq<byte>, b: seq<byte>): (r: int)
    ensures -1 <= r <= 1
    ensures r == 0 <==> a == b
  {
    if a == [] then (if b == [] then 0 else -1)
    else if b == [] then 1
    else if a[0] < b[0] then -1
    else if a[0] > b[0] then 1
    else
      assert a == [a[0]] + a[1..] && b == [b[0]] + b[1..];
      Compare(a[1..], b[1..])
  }

  /** Compare agrees with the lexicographic order in both directions. */
  lemma {:induction false} CompareIsLexicographic(a: seq<byte>, b: seq<byte>)
    ensures Compare(a, b) == -1 <==> LexLess(a, b)
    ensures Compare(a, b) == 1 <==> LexLess(b, a)
  {
    if a == [] || b == [] {
      LexLessEmpty(a, b);
    } else if a[0] != b[0] {
      assert a[..0] == b[..0];
      LexLessHead(a, b);
    } else {
      CompareIsLexicographic(a[1..], b[1..]);
      LexLessTail(a, b);
    }
  }

  lemma LexLessEmpty(a: seq<byte>, b: seq<byte>)
    requires a == [] || b == []
    ensures LexLess(a, b) <==> a == [] && b != []
    ensures LexLess(b, a) <==> b == [] && a != []
  {
    if a == [] && b != [] {
      assert a[..0] == b[..0];
    } else if b == [] && a != [] {
      assert b[..0] == a[..0];
    }
  }

  lemma LexLessHead(a: seq<byte>, b: seq<byte>)
    requires a != [] && b != [] && a[0] != b[0]
    ensures LexLess(a, b) <==> a[0] < b[0]
    ensures LexLess(b, a) <==> b[0] < a[0]
  {
    assert a[..0] == b[..0];
    forall i | 0 < i <= |a| && i <= |b|
      ensures a[..i] != b[..i]
    {
      assert a[..i][0] == a[0] && b[..i][0] == b[0];
    }
  }

  lemma LexLessTail(a: seq<byte>, b: seq<byte>)
    requires a != [] && b != [] && a[0] == b[0]
    ensures LexLess(a, b) <==> LexLess(a[1..], b[1..])
    ensures LexLess(b, a) <==> LexLess(b[1..], a[1..])
  {
    forall x: seq<byte>, y: seq<byte> | x != [] && y != [] && x[0] == y[0]
      ensures LexLess(x, y) <==> LexLess(x[1..], y[1..])
    {
      if LexLess(x, y) {
        var i :| 0 <= i <= |x| && i <= |y| && x[..i] == y[..i] &&
          ((i == |x| && i < |y|) || (i < |x| && i < |y| && x[i] < y[i]));
        assert i != 0;
        assert x[1..][..i - 1] == x[..i][1..];
        assert y[1..][..i - 1] == y[..i][1..];
      }
      if LexLess(x[1..], y[1..]) {
        var j :| 0 <= j <= |x[1..]| && j <= |y[1..]| && x[1..][..j] == y[1..][..j] &&
          ((j == |x[1..]| && j < |y[1..]|) || (j < |x[1..]| && j < |y[1..]| && x[1..][j] < y[1..][j]));
        assert x[..j + 1] == [x[0]] + x[1..][..j];
        assert y[..j + 1] == [y[0]] + y[1..][..j];
      }
    }
  }
}
