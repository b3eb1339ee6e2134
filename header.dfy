/** The snapshot header record (`IO_HEADER`) and its 256-byte encoding. */
module IoHeader {
  import opened Words

  const NumTypes: nat := 6

  /** `sizeof(IO_HEADER)`: 24+48+8+8+4+4+24+4+4+32+96 bytes. */
  const HeaderBytes: nat := 256
  const HeaderWords: nat := 64

  type Counts = s: seq<Int32> | |s| == 6 witness [0, 0, 0, 0, 0, 0]
  type Masses = s: seq<Double> | |s| == 6
    witness [ZeroDouble, ZeroDouble, ZeroDouble, ZeroDouble, ZeroDouble, ZeroDouble]
  type Fill = s: seq<Word> | |s| == 24 witness seq(24, _ => 0)

  /** The fields of `IO_HEADER`, in declaration order. */
  datatype Header = Header(
    npart: Counts,
    mass: Masses,
    time: Double,
    redshift: Double,
    flagSfr: Int32,
    flagFeedback: Int32,
    npartTotal: Counts,
    flagCooling: Int32,
    numFiles: Int32,
    boxSize: Double,
    omega0: Double,
    omegaLambda: Double,
    hubbleParam: Double,
    fill: Fill)

  function IntWords(xs: seq<Int32>): (ws: seq<Word>)
    ensures |ws| == |xs|
  {
    seq(|xs|, i requires 0 <= i < |xs| => FromInt32(xs[i]))
  }

  function DoubleWords(d: Double): seq<Word>
  {
    [d.lo, d.hi]
  }

  function DoublesWords(ds: seq<Double>): (ws: seq<Word>)
    ensures |ws| == 2 * |ds|
  {
    if ds == [] then [] else DoubleWords(ds[0]) + DoublesWords(ds[1..])
  }

  function DecodeInts(ws: seq<Word>): (xs: seq<Int32>)
    ensures |xs| == |ws|
  {
    seq(|ws|, i requires 0 <= i < |ws| => ToInt32(ws[i]))
  }

  function DecodeDoubles(ws: seq<Word>): (ds: seq<Double>)
    requires |ws| % 2 == 0
    ensures |ds| == |ws| / 2
    decreases |ws|
  {
    if ws == [] then [] else [Double(ws[0], ws[1])] + DecodeDoubles(ws[2..])
  }

  /** The bytes fwrite puts on disk for the header record. */
  function EncodeHeader(h: Header): (ws: seq<Word>)
    ensures |ws| == HeaderWords
  {
    IntWords(h.npart) + DoublesWords(h.mass) + DoubleWords(h.time) + DoubleWords(h.redshift)
    + IntWords([h.flagSfr, h.flagFeedback]) + IntWords(h.npartTotal)
    + IntWords([h.flagCooling, h.numFiles])
    + DoubleWords(h.boxSize) + DoubleWords(h.omega0) + DoubleWords(h.omegaLambda) + DoubleWords(h.hubbleParam)
    + h.fill
  }

  /** The header fread fills in from 256 bytes. */
  function DecodeHeader(ws: seq<Word>): Header
    requires |ws| == HeaderWords
  {
    Header(
      DecodeInts(ws[0..6]),
      DecodeDoubles(ws[6..18]),
      Double(ws[18], ws[19]),
      Double(ws[20], ws[21]),
      ToInt32(ws[22]),
      ToInt32(ws[23]),
      DecodeInts(ws[24..30]),
      ToInt32(ws[30]),
      ToInt32(ws[31]),
      Double(ws[32], ws[33]),
      Double(ws[34], ws[35]),
      Double(ws[36], ws[37]),
      Double(ws[38], ws[39]),
      ws[40..64])
  }

  lemma {:induction false} DecodeIntWords(xs: seq<Int32>)
    ensures DecodeInts(IntWords(xs)) == xs
  {
  }

  lemma {:induction false} DecodeDoublesWords(ds: seq<Double>)
    ensures DecodeDoubles(DoublesWords(ds)) == ds
  {
    if ds != [] {
      var ws := DoublesWords(ds);
      assert ws[2..] == DoublesWords(ds[1..]);
      DecodeDoublesWords(ds[1..]);
    }
  }

  lemma {:induction false} DoublesWordsDecode(ws: seq<Word>)
    requires |ws| % 2 == 0
    ensures DoublesWords(DecodeDoubles(ws)) == ws
    decreases |ws|
  {
    if ws != [] {
      DoublesWordsDecode(ws[2..]);
      assert ws == ws[..2] + ws[2..];
    }
  }

  lemma {:induction false} IntWordsDecode(ws: seq<Word>)
    ensures IntWords(DecodeInts(ws)) == ws
  {
    forall i | 0 <= i < |ws| ensures IntWords(DecodeInts(ws))[i] == ws[i] {
      FromToInt32(ws[i]);
    }
  }

  /** Reading back what was written gives the same header. */
  lemma {:induction false} DecodeEncodeHeader(h: Header)
    ensures DecodeHeader(EncodeHeader(h)) == h
  {
    var ws := EncodeHeader(h);
    assert ws[0..6] == IntWords(h.npart);
    assert ws[6..18] == DoublesWords(h.mass);
    assert ws[24..30] == IntWords(h.npartTotal);
    assert ws[40..64] == h.fill;
    DecodeIntWords(h.npart);
    DecodeIntWords(h.npartTotal);
    DecodeDoublesWords(h.mass);
  }

  /** Writing back what was read gives the same 256 bytes, padding included. */
  lemma {:induction false} EncodeDecodeHeader(ws: seq<Word>)
    requires |ws| == HeaderWords
    ensures EncodeHeader(DecodeHeader(ws)) == ws
  {
    var h := DecodeHeader(ws);
    IntWordsDecode(ws[0..6]);
    IntWordsDecode(ws[24..30]);
    DoublesWordsDecode(ws[6..18]);
    FromToInt32(ws[22]);
    FromToInt32(ws[23]);
    FromToInt32(ws[30]);
    FromToInt32(ws[31]);
    var e := EncodeHeader(h);
    assert e[0..6] == ws[0..6];
    assert e[6..18] == ws[6..18];
    assert e[24..30] == ws[24..30];
    assert e[40..64] == ws[40..64];
    forall i | 0 <= i < 64 ensures e[i] == ws[i] {
      if i < 6 {
        assert e[i] == e[0..6][i];
      } else if i < 18 {
        assert e[i] == e[6..18][i - 6];
      } else if 24 <= i < 30 {
        assert e[i] == e[24..30][i - 24];
      } else if 40 <= i {
        assert e[i] == e[40..64][i - 40];
      }
    }
  }
}
