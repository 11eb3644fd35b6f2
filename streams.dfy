/** The byte streams the codecs read and write. A stream is a finite byte
    sequence with a cursor; its status flags are the ones the codecs test. */
module Streams {
  import opened PpmBytes

  /** A `std::ifstream` opened in binary mode on `data`. */
  class Reader {
    const data: seq<Byte>
    var pos: nat
    var eof: bool  // eofbit

    ghost predicate Valid()
      reads this
    {
      pos <= |data| && (eof ==> pos == |data|)
    }

    constructor (data: seq<Byte>)
      ensures Valid() && this.data == data && pos == 0 && !eof
    {
      this.data := data;
      pos := 0;
      eof := false;
    }

    /** `istream::read(buf, n)`: extracts up to n bytes; extracting fewer sets eofbit. */
    method Read(n: nat) returns (got: seq<Byte>)
      requires Valid()
      modifies this
      ensures Valid()
      ensures got == data[old(pos)..old(pos) + Min(n, |data| - old(pos))]
      ensures pos == old(pos) + |got|
      ensures eof == (old(eof) || |got| < n)
    {
      var k := Min(n, |data| - pos);
      got := data[pos..pos + k];
      pos := pos + k;
      eof := eof || k < n;
    }
  }

  /** A C `FILE*` reading `data`. Once `data` is exhausted the device reports
      either end of file or, when `failsAtEnd`, a read error. */
  class CFile {
    const data: seq<Byte>
    const failsAtEnd: bool
    var pos: nat
    var eof: bool    // the end-of-file indicator tested by feof
    var error: bool  // the error indicator tested by ferror

    ghost predicate Valid()
      reads this
    {
      && pos <= |data|
      && (eof ==> pos == |data| && !failsAtEnd)
      && (error ==> pos == |data| && failsAtEnd)
    }

    constructor (data: seq<Byte>, failsAtEnd: bool)
      ensures Valid() && this.data == data && this.failsAtEnd == failsAtEnd
      ensures pos == 0 && !eof && !error
    {
      this.data := data;
      this.failsAtEnd := failsAtEnd;
      pos := 0;
      eof := false;
      error := false;
    }

    /** `fread(ptr, 1, cnt, fp)`: reads up to cnt bytes; reading fewer sets
        the end-of-file or the error indicator. */
    method Read(cnt: nat) returns (got: seq<Byte>)
      requires Valid()
      modifies this
      ensures Valid()
      ensures got == data[old(pos)..old(pos) + Min(cnt, |data| - old(pos))]
      ensures pos == old(pos) + |got|
      ensures eof == (old(eof) || (|got| < cnt && !failsAtEnd))
      ensures error == (old(error) || (|got| < cnt && failsAtEnd))
    {
      var k := Min(cnt, |data| - pos);
      got := data[pos..pos + k];
      pos := pos + k;
      if k < cnt {
        if failsAtEnd {
          error := true;
        } else {
          eof := true;
        }
      }
    }
  }

  /** An output stream; `written` is everything written to it so far. */
  class Writer {
    var written: seq<Byte>

    constructor ()
      ensures written == []
    {
      written := [];
    }

    method Write(bytes: seq<Byte>)
      modifies this
      ensures written == old(written) + bytes
    {
      written := written + bytes;
    }
  }
}
