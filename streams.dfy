/** The two FILE streams: one read sequentially by fread, one appended to by
    fwrite. A short read is reported instead of ending the process. */
module Streams {
  import opened Words

  /** An input file opened with fopen(..., "rb"), and its read position. */
  class InStream {
    const data: seq<Word>
    var pos: nat

    ghost predicate Valid()
      reads this
    {
      pos <= |data|
    }

    constructor Open(file: seq<Word>)
      ensures Valid() && data == file && pos == 0
    {
      data := file;
      pos := 0;
    }

    /** `my_fread` of n words: succeeds only when all n are there. */
    method Read(n: nat) returns (ok: bool, ws: seq<Word>)
      requires Valid()
      modifies this
      ensures Valid()
      ensures ok <==> old(pos) + n <= |data|
      ensures ok ==> |ws| == n && ws == data[old(pos)..old(pos) + n] && pos == old(pos) + n
      ensures !ok ==> pos == |data|
    {
      if pos + n <= |data| {
        ws := data[pos..pos + n];
        pos := pos + n;
        ok := true;
      } else {
        ws := data[pos..];
        pos := |data|;
        ok := false;
      }
    }
  }

  /** An output file opened with fopen(..., "wb"): what has been written so far. */
  class OutStream {
    var written: seq<Word>

    constructor Create()
      ensures written == []
    {
      written := [];
    }

    /** `my_fwrite` */
    method Write(ws: seq<Word>)
      modifies this
      ensures written == old(written) + ws
    {
      written := written + ws;
    }
  }
}
