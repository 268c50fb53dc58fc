/** The two byte streams the converter works on, with the behaviour of Python 3's
    buffered binary files: the `.bmp` opened with `open(name, 'rb')` and the `.raw`
    created with `open(name, 'xb')`. Only the calls the converter makes are modelled. */
module PyIo {

  /** One byte of a file. */
  newtype byte = b: int | 0 <= b < 256

  /** The exception a read can raise. `BufferedReader.read(n)` accepts -1 ("read to
      end of file") and any n >= 0; every other negative length raises ValueError. */
  datatype IoError = NegativeReadLength

  datatype Result<T> = Ok(value: T) | Err(error: IoError)

  function Min(a: int, b: int): int
  {
    if a <= b then a else b
  }

  /** A file opened for binary reading: its whole contents and a cursor. */
  class Reader {
    const data: seq<byte>
    var pos: nat

    ghost predicate Valid()
      reads this
    {
      pos <= |data|
    }

    /** `open(name, 'rb')` on a file holding `contents`. */
    constructor Open(contents: seq<byte>)
      ensures Valid() && data == contents && pos == 0
    {
      data := contents;
      pos := 0;
    }

    /** `read(n)`: with n == -1 everything up to end of file; with n >= 0 the next n
        bytes, fewer when the file ends first, and `b''` at end of file or when n == 0;
        with n < -1 the ValueError, and the cursor stays where it was. */
    method Read(n: int) returns (r: Result<seq<byte>>)
      requires Valid()
      modifies this`pos
      ensures Valid()
      ensures n < -1 ==> r == Err(NegativeReadLength) && pos == old(pos)
      ensures n == -1 ==> pos == |data| && r == Ok(data[old(pos)..])
      ensures n >= 0 ==> pos == Min(old(pos) + n, |data|) && r == Ok(data[old(pos)..pos])
    {
      if n < -1 {
        r := Err(NegativeReadLength);
      } else if n == -1 {
        r := Ok(data[pos..]);
        pos := |data|;
      } else {
        var next := Min(pos + n, |data|);
        r := Ok(data[pos..next]);
        pos := next;
      }
    }
  }

  /** A file freshly created for binary writing: the bytes written so far. */
  class Writer {
    var written: seq<byte>

    /** `open(name, 'xb')`: the new file is empty. */
    constructor Create()
      ensures written == []
    {
      written := [];
    }

    /** `write(b)` appends `b`; writing `b''` leaves the file as it was. */
    method Write(b: seq<byte>)
      modifies this
      ensures written == old(written) + b
    {
      written := written + b;
    }
  }
}
