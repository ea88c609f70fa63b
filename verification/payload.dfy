/**
 * The application image `apps.bin` (payload/run.py) and how the loader reads
 * it back (apps/loader/src/main.rs).
 *
 * The image starts with the number of applications as a little-endian
 * 64-bit word, followed by one `(offset, size)` pair of such words per
 * application, followed by the applications' contents one after the other.
 * The builder starts from a file truncated to 32 MiB of zeros and places
 * every piece with a seek and a write; the loader finds the image at
 * `PLASH_START` and reads the count and the pairs back.
 *
 * Python byte strings index as integers in `0..256`, so bytes are `octet`s
 * here and `struct.pack('<Q', v)` is arithmetic on `v`.
 */
module Payload {
  import opened Outcomes

  type octet = x: int | 0 <= x < 256

  /** Where the loader expects the image: `PLASH_START`. */
  const PLASH_START: nat := 0x2200_0000
  /** The size the image file is truncated to before anything is written. */
  const IMAGE_SIZE: nat := 32 * 1024 * 1024
  const WORD_SIZE: nat := 8
  const U64_LIMIT: nat := 0x1_0000_0000_0000_0000

  // ----- little-endian words -----------------------------------------------------

  function Pow256(k: nat): (r: nat)
    ensures r >= 1
  {
    if k == 0 then 1 else 256 * Pow256(k - 1)
  }

  /** The `k` bytes of `x`, least significant first (`x` is taken modulo `256^k`). */
  function LeBytes(x: nat, k: nat): (r: seq<octet>)
    ensures |r| == k
  {
    if k == 0 then [] else [x % 256] + LeBytes(x / 256, k - 1)
  }

  /** The number whose little-endian bytes are `b`. */
  function LeValue(b: seq<octet>): (r: nat)
    ensures r < Pow256(|b|)
  {
    if b == [] then 0 else b[0] + 256 * LeValue(b[1..])
  }

  /** Encoding a number below `256^k` in `k` bytes and decoding them gives it back. */
  lemma {:induction false} LeRoundTrip(x: nat, k: nat)
    requires x < Pow256(k)
    ensures LeValue(LeBytes(x, k)) == x
  {
    if k > 0 {
      var b := LeBytes(x, k);
      assert b[1..] == LeBytes(x / 256, k - 1);
      assert x / 256 < Pow256(k - 1);
      LeRoundTrip(x / 256, k - 1);
    }
  }

  /** `struct.pack('<Q', x)`. */
  function Word(x: nat): (r: seq<octet>)
    requires x < U64_LIMIT
    ensures |r| == WORD_SIZE && LeValue(r) == x
  {
    Pow256Word();
    LeRoundTrip(x, WORD_SIZE);
    LeBytes(x, WORD_SIZE)
  }

  /** Eight bytes hold exactly the numbers below `2^64`. */
  lemma Pow256Word()
    ensures Pow256(WORD_SIZE) == U64_LIMIT
  {
  }

  /** The 64-bit word stored at `img[o..o+8]`, as the loader reads a `usize`. */
  function WordAt(img: seq<octet>, o: nat): (r: nat)
    requires o + WORD_SIZE <= |img|
    ensures r < U64_LIMIT
  {
    Pow256Word();
    LeValue(img[o..o + WORD_SIZE])
  }

  // ----- the file the builder writes ---------------------------------------------

  /** `n` zero bytes. */
  function Gap(n: nat): (r: seq<octet>)
    ensures |r| == n && forall k :: 0 <= k < n ==> r[k] == 0
  {
    seq(n, k => 0)
  }

  function Max(a: nat, b: nat): nat
  {
    if a < b then b else a
  }

  /**
   * Writing `d` at position `pos` of a file holding `buf`: the bytes are
   * replaced, the file grows when the write runs past its end, and a gap
   * between the old end and `pos` reads as zeros.  An empty write changes
   * nothing.
   */
  function WriteAt(buf: seq<octet>, pos: nat, d: seq<octet>): (r: seq<octet>)
    ensures |d| == 0 ==> r == buf
    ensures |d| > 0 ==> |r| == Max(|buf|, pos + |d|) && r[pos..pos + |d|] == d
    ensures forall k :: 0 <= k < |buf| && !(pos <= k < pos + |d|) ==> r[k] == buf[k]
  {
    if |d| == 0 then buf
    else
      var r := seq(Max(|buf|, pos + |d|), k requires 0 <= k < Max(|buf|, pos + |d|) =>
        if pos <= k < pos + |d| then d[k - pos] else if k < |buf| then buf[k] else 0);
      assert forall k :: 0 <= k < |d| ==> r[pos..pos + |d|][k] == d[k];
      r
  }

  /** A write leaves every byte range it does not touch as it was. */
  lemma WriteKeeps(buf: seq<octet>, pos: nat, d: seq<octet>, p: nat, len: nat)
    requires p + len <= |buf|
    requires p + len <= pos || pos + |d| <= p
    ensures |WriteAt(buf, pos, d)| >= p + len
    ensures WriteAt(buf, pos, d)[p..p + len] == buf[p..p + len]
  {
    var r := WriteAt(buf, pos, d);
    assert forall k :: p <= k < p + len ==> r[k] == buf[k];
  }

  /** The header length, where the first application's contents start: `8 * (2n + 1)`. */
  function HeaderEnd(n: nat): nat
  {
    WORD_SIZE * (n * 2 + 1)
  }

  /** The total size of `files`. */
  function SizeSum(files: seq<seq<octet>>): nat
  {
    if files == [] then 0 else SizeSum(files[..|files| - 1]) + |files[|files| - 1]|
  }

  /** Where the contents of application `i` start. */
  function Offset(files: seq<seq<octet>>, i: nat): nat
    requires i <= |files|
  {
    HeaderEnd(|files|) + SizeSum(files[..i])
  }

  /** The contents are laid out back to back: each starts where the previous one ends. */
  lemma OffsetNext(files: seq<seq<octet>>, i: nat)
    requires i < |files|
    ensures Offset(files, i + 1) == Offset(files, i) + |files[i]|
  {
    assert files[..i + 1][..i] == files[..i];
  }

  /**
   * The header ends where the first contents begin, and the contents of
   * earlier applications end before later ones start.
   */
  lemma {:induction false} OffsetsOrdered(files: seq<seq<octet>>, i: nat, j: nat)
    requires i < j <= |files|
    ensures Offset(files, 0) == HeaderEnd(|files|) == WORD_SIZE + 16 * |files|
    ensures Offset(files, i) + |files[i]| <= Offset(files, j)
    decreases j - i
  {
    assert files[..0] == [];
    OffsetNext(files, i);
    if i + 1 < j {
      OffsetsOrdered(files, i + 1, j);
    }
  }

  /** Every value `struct.pack('<Q', _)` is given fits in 64 bits. */
  predicate Fits(files: seq<seq<octet>>)
  {
    && |files| < U64_LIMIT
    && forall i :: 0 <= i < |files| ==> Offset(files, i) < U64_LIMIT && |files[i]| < U64_LIMIT
  }

  /** Header entry `j` of `img` holds application `j`'s offset and size. */
  predicate HeaderHolds(img: seq<octet>, files: seq<seq<octet>>, j: nat)
    requires j < |files|
  {
    && Offset(files, j) < U64_LIMIT && |files[j]| < U64_LIMIT && 16 * j + 24 <= |img|
    && img[16 * j + 8..16 * j + 16] == Word(Offset(files, j)) && img[16 * j + 16..16 * j + 24] == Word(|files[j]|)
  }

  /** The contents of application `j` are in place in `img` (trivially so when empty). */
  predicate ContentHolds(img: seq<octet>, files: seq<seq<octet>>, j: nat)
    requires j < |files|
  {
    |files[j]| > 0 ==> Offset(files, j) + |files[j]| <= |img| && img[Offset(files, j)..Offset(files, j) + |files[j]|] == files[j]
  }

  // ----- the loader --------------------------------------------------------------

  /** Where an application's contents are in memory and how many bytes they take. */
  datatype App = App(start: nat, size: nat)

  /**
   * The loader's view of the image: the count from word 0 and, for each
   * application, `PLASH_START + word[1 + 2i]` and `word[2 + 2i]`.  An image
   * too short to hold the header it announces has no decoding.
   */
  function Decode(img: seq<octet>): (r: Option<seq<App>>)
    ensures r.Some? ==> |img| >= WORD_SIZE && |r.value| == WordAt(img, 0) && |img| >= HeaderEnd(|r.value|)
    ensures r.Some? ==> forall i :: 0 <= i < |r.value| ==>
      r.value[i] == App(PLASH_START + WordAt(img, 16 * i + 8), WordAt(img, 16 * i + 16))
    ensures r.None? ==> |img| < WORD_SIZE || |img| < HeaderEnd(WordAt(img, 0))
  {
    if |img| < WORD_SIZE then None
    else
      var n := WordAt(img, 0);
      if |img| < HeaderEnd(n) then None
      else Some(seq(n, i requires 0 <= i < n => App(PLASH_START + WordAt(img, 16 * i + 8), WordAt(img, 16 * i + 16))))
  }

  /** The bytes an application's `(start, size)` covers, when they lie inside the image. */
  function Code(img: seq<octet>, app: App): (r: Option<seq<octet>>)
    ensures r.Some? <==> PLASH_START <= app.start && app.start - PLASH_START + app.size <= |img|
    ensures r.Some? ==> |r.value| == app.size
  {
    if app.start < PLASH_START || app.start - PLASH_START + app.size > |img| then None
    else Some(img[app.start - PLASH_START..app.start - PLASH_START + app.size])
  }

  /** What the loader should find for `files`: application `i` at `PLASH_START + Offset(i)`. */
  function Apps(files: seq<seq<octet>>): (r: seq<App>)
    ensures |r| == |files|
    ensures forall i :: 0 <= i < |files| ==> r[i] == App(PLASH_START + Offset(files, i), |files[i]|)
  {
    seq(|files|, i requires 0 <= i < |files| => App(PLASH_START + Offset(files, i), |files[i]|))
  }

  /**
   * `run.py`: truncate to 32 MiB, write the count, then for each file its
   * header entry and its contents, advancing the header and content
   * offsets.  A value too large for `struct.pack('<Q', _)` raises, which is
   * `None` here.  The loader decodes the result into exactly the files.
   */
  method Build(files: seq<seq<octet>>) returns (r: Option<seq<octet>>)
    ensures r.None? <==> !Fits(files)
    ensures r.Some? ==> |r.value| >= IMAGE_SIZE
    ensures r.Some? ==> Decode(r.value) == Some(Apps(files))
    ensures r.Some? ==> forall i :: 0 <= i < |files| ==> Code(r.value, Apps(files)[i]) == Some(files[i])
  {
    var n := |files|;
    var buf := Gap(IMAGE_SIZE);
    if n >= U64_LIMIT {
      return None;
    }
    var offsetContent := WORD_SIZE * (n * 2 + 1);
    buf := WriteAt(buf, 0, Word(n));
    var offsetHeader := WORD_SIZE;
    var i := 0;
    BuildStart(files);
    while i < n
      invariant 0 <= i <= n
      invariant offsetHeader == 16 * i + 8
      invariant offsetContent == Offset(files, i)
      invariant FitsUpTo(files, i)
      invariant Built(buf, files, i)
    {
      var fsize := |files[i]|;
      if offsetContent >= U64_LIMIT || fsize >= U64_LIMIT {
        TooLarge(files, i);
        return None;
      }
      buf := WriteEntry(buf, files, i);
      OffsetNext(files, i);
      offsetHeader := offsetHeader + 16;
      offsetContent := offsetContent + fsize;
      i := i + 1;
    }
    AllFit(files);
    LoaderReadsBack(buf, files);
    return Some(buf);
  }

  /**
   * One round of the builder's loop: seek to the header entry and write the
   * content offset and the size, then seek to the content offset and write
   * the file.
   */
  function Round(buf: seq<octet>, files: seq<seq<octet>>, i: nat): seq<octet>
    requires i < |files| && Offset(files, i) < U64_LIMIT && |files[i]| < U64_LIMIT
  {
    var headed := WriteAt(WriteAt(buf, 16 * i + 8, Word(Offset(files, i))), 16 * i + 8 + WORD_SIZE, Word(|files[i]|));
    WriteAt(headed, Offset(files, i), files[i])
  }

  /** The first `i` applications' offsets and sizes fit in 64 bits. */
  predicate FitsUpTo(files: seq<seq<octet>>, i: nat)
    requires i <= |files|
  {
    i == 0 || (FitsUpTo(files, i - 1) && Offset(files, i - 1) < U64_LIMIT && |files[i - 1]| < U64_LIMIT)
  }

  /** `Fits` is `FitsUpTo` over all the applications, with a count that fits. */
  lemma {:induction false} FitsUpToAll(files: seq<seq<octet>>, i: nat)
    requires i <= |files| < U64_LIMIT
    ensures FitsUpTo(files, i) <==> forall j :: 0 <= j < i ==> Offset(files, j) < U64_LIMIT && |files[j]| < U64_LIMIT
  {
    if i > 0 {
      FitsUpToAll(files, i - 1);
    }
  }

  /** An offset or size too large for 64 bits means the files do not fit. */
  lemma TooLarge(files: seq<seq<octet>>, i: nat)
    requires i < |files| && (Offset(files, i) >= U64_LIMIT || |files[i]| >= U64_LIMIT)
    ensures !Fits(files)
  {
  }

  /** A count that fits and offsets and sizes that all fit are `Fits`. */
  lemma AllFit(files: seq<seq<octet>>)
    requires |files| < U64_LIMIT && FitsUpTo(files, |files|)
    ensures Fits(files)
  {
    FitsUpToAll(files, |files|);
  }

  /**
   * What the builder has written after `i` rounds: the count, header
   * entries and contents of the first `i` applications, in a file at least
   * 32 MiB long that reaches past entry `i - 1` and past the last non-empty
   * contents.
   */
  predicate Built(buf: seq<octet>, files: seq<seq<octet>>, i: nat)
    requires i <= |files|
  {
    && |buf| >= IMAGE_SIZE && |buf| >= 16 * i + 8
    && (SizeSum(files[..i]) > 0 ==> |buf| >= Offset(files, i))
    && |files| < U64_LIMIT && buf[0..WORD_SIZE] == Word(|files|)
    && forall j :: 0 <= j < i ==> HeaderHolds(buf, files, j) && ContentHolds(buf, files, j)
  }

  /** After the count is written, nothing else is in place yet. */
  lemma BuildStart(files: seq<seq<octet>>)
    requires |files| < U64_LIMIT
    ensures Built(WriteAt(Gap(IMAGE_SIZE), 0, Word(|files|)), files, 0)
    ensures Offset(files, 0) == WORD_SIZE * (|files| * 2 + 1)
  {
    var buf := WriteAt(Gap(IMAGE_SIZE), 0, Word(|files|));
    assert buf[0..WORD_SIZE] == Word(|files|);
    assert files[..0] == [];
  }

  /** Application `i`'s contents start after the whole header. */
  lemma OffsetPastHeader(files: seq<seq<octet>>, i: nat)
    requires i < |files|
    ensures Offset(files, i) >= HeaderEnd(|files|) >= 16 * i + 24
  {
  }

  /** A round leaves alone every range before entry `i` and every range between the header and `Offset(i)`. */
  lemma RoundKeeps(buf: seq<octet>, files: seq<seq<octet>>, i: nat, p: nat, len: nat)
    requires i < |files| && Offset(files, i) < U64_LIMIT && |files[i]| < U64_LIMIT
    requires p + len <= |buf|
    requires p + len <= 16 * i + 8 || (16 * i + 24 <= p && p + len <= Offset(files, i))
    ensures |Round(buf, files, i)| >= p + len
    ensures Round(buf, files, i)[p..p + len] == buf[p..p + len]
  {
    OffsetPastHeader(files, i);
    var mid := WriteAt(buf, 16 * i + 8, Word(Offset(files, i)));
    var headed := WriteAt(mid, 16 * i + 8 + WORD_SIZE, Word(|files[i]|));
    WriteKeeps(buf, 16 * i + 8, Word(Offset(files, i)), p, len);
    WriteKeeps(mid, 16 * i + 8 + WORD_SIZE, Word(|files[i]|), p, len);
    WriteKeeps(headed, Offset(files, i), files[i], p, len);
  }

  /** A round puts entry `i` in place. */
  lemma RoundWrites(buf: seq<octet>, files: seq<seq<octet>>, i: nat)
    requires i < |files| && Offset(files, i) < U64_LIMIT && |files[i]| < U64_LIMIT
    ensures |Round(buf, files, i)| >= Max(|buf|, 16 * i + 24)
    ensures |files[i]| > 0 ==> |Round(buf, files, i)| >= Offset(files, i) + |files[i]|
    ensures HeaderHolds(Round(buf, files, i), files, i) && ContentHolds(Round(buf, files, i), files, i)
  {
    RoundHeader(buf, files, i);
    RoundContent(buf, files, i);
  }

  /** A round writes entry `i`'s offset and size words. */
  lemma RoundHeader(buf: seq<octet>, files: seq<seq<octet>>, i: nat)
    requires i < |files| && Offset(files, i) < U64_LIMIT && |files[i]| < U64_LIMIT
    ensures |Round(buf, files, i)| >= Max(|buf|, 16 * i + 24)
    ensures HeaderHolds(Round(buf, files, i), files, i)
  {
    var off := Offset(files, i);
    OffsetPastHeader(files, i);
    var headed := WriteAt(WriteAt(buf, 16 * i + 8, Word(off)), 16 * i + 8 + WORD_SIZE, Word(|files[i]|));
    HeaderWrites(buf, 16 * i + 8, off, |files[i]|);
    WriteKeeps(headed, off, files[i], 16 * i + 8, WORD_SIZE);
    WriteKeeps(headed, off, files[i], 16 * i + 16, WORD_SIZE);
  }

  /** A round writes application `i`'s contents at its offset. */
  lemma RoundContent(buf: seq<octet>, files: seq<seq<octet>>, i: nat)
    requires i < |files| && Offset(files, i) < U64_LIMIT && |files[i]| < U64_LIMIT
    ensures |files[i]| > 0 ==> |Round(buf, files, i)| >= Offset(files, i) + |files[i]|
    ensures ContentHolds(Round(buf, files, i), files, i)
  {
  }


  /** Writing two words back to back at `p` puts both in place. */
  lemma HeaderWrites(buf: seq<octet>, p: nat, x: nat, y: nat)
    requires x < U64_LIMIT && y < U64_LIMIT
    ensures var headed := WriteAt(WriteAt(buf, p, Word(x)), p + WORD_SIZE, Word(y));
      && |headed| >= Max(|buf|, p + 16)
      && headed[p..p + WORD_SIZE] == Word(x) && headed[p + WORD_SIZE..p + 16] == Word(y)
  {
    var mid := WriteAt(buf, p, Word(x));
    WriteKeeps(mid, p + WORD_SIZE, Word(y), p, WORD_SIZE);
  }


  /**
   * The loop body of `run.py`: seek to header entry `i`, write the content
   * offset and the size, seek to the content offset, write the file.
   */
  method WriteEntry(buf: seq<octet>, files: seq<seq<octet>>, i: nat) returns (r: seq<octet>)
    requires i < |files| && Offset(files, i) < U64_LIMIT && |files[i]| < U64_LIMIT
    requires Built(buf, files, i)
    ensures Built(r, files, i + 1)
  {
    r := WriteAt(buf, 16 * i + 8, Word(Offset(files, i)));
    r := WriteAt(r, 16 * i + 8 + WORD_SIZE, Word(|files[i]|));
    r := WriteAt(r, Offset(files, i), files[i]);
    BuildStep(buf, files, i);
  }

  /** One round of the builder's loop keeps every earlier entry and adds entry `i`. */
  lemma BuildStep(before: seq<octet>, files: seq<seq<octet>>, i: nat)
    requires i < |files| && Offset(files, i) < U64_LIMIT && |files[i]| < U64_LIMIT
    requires Built(before, files, i)
    ensures Built(Round(before, files, i), files, i + 1)
  {
    var after := Round(before, files, i);
    RoundBounds(before, files, i);
    forall j | 0 <= j < i + 1
      ensures HeaderHolds(after, files, j) && ContentHolds(after, files, j)
    {
      if j == i {
        RoundWrites(before, files, i);
      } else {
        KeptHeader(before, files, i, j);
        if |files[j]| > 0 {
          KeptContent(before, files, i, j);
        }
      }
    }
  }

  /** A round keeps the count and grows the file past entry `i` and past its contents. */
  lemma RoundBounds(before: seq<octet>, files: seq<seq<octet>>, i: nat)
    requires i < |files| && Offset(files, i) < U64_LIMIT && |files[i]| < U64_LIMIT
    requires Built(before, files, i)
    ensures var after := Round(before, files, i);
      && |after| >= IMAGE_SIZE && |after| >= 16 * (i + 1) + 8
      && (SizeSum(files[..i + 1]) > 0 ==> |after| >= Offset(files, i + 1))
      && after[0..WORD_SIZE] == Word(|files|)
  {
    var after := Round(before, files, i);
    RoundWrites(before, files, i);
    RoundKeeps(before, files, i, 0, WORD_SIZE);
    assert after[0..WORD_SIZE] == before[0..WORD_SIZE];
    OffsetNext(files, i);
    assert files[..i + 1][..i] == files[..i];
    assert SizeSum(files[..i + 1]) == SizeSum(files[..i]) + |files[i]|;
  }

  /** A round keeps the header entry of an earlier application. */
  lemma KeptHeader(before: seq<octet>, files: seq<seq<octet>>, i: nat, j: nat)
    requires i < |files| && Offset(files, i) < U64_LIMIT && |files[i]| < U64_LIMIT
    requires j < i && HeaderHolds(before, files, j)
    ensures HeaderHolds(Round(before, files, i), files, j)
  {
    RoundKeeps(before, files, i, 16 * j + 8, 16);
    HeaderWords(before, Round(before, files, i), j);
  }

  /** A round keeps the non-empty contents of an earlier application. */
  lemma KeptContent(before: seq<octet>, files: seq<seq<octet>>, i: nat, j: nat)
    requires i < |files| && Offset(files, i) < U64_LIMIT && |files[i]| < U64_LIMIT
    requires j < i && |files[j]| > 0
    requires SizeSum(files[..i]) > 0 ==> |before| >= Offset(files, i)
    requires ContentHolds(before, files, j)
    ensures ContentHolds(Round(before, files, i), files, j)
  {
    OffsetsOrdered(files, j, i);
    SizeSumPositive(files, j, i);
    OffsetPastHeader(files, j);
    RoundKeeps(before, files, i, Offset(files, j), |files[j]|);
  }

  /** Two images agreeing on a 16-byte header entry agree on its two words. */
  lemma HeaderWords(a: seq<octet>, b: seq<octet>, j: nat)
    requires 16 * j + 24 <= |a| && 16 * j + 24 <= |b|
    requires a[16 * j + 8..16 * j + 24] == b[16 * j + 8..16 * j + 24]
    ensures a[16 * j + 8..16 * j + 16] == b[16 * j + 8..16 * j + 16]
    ensures a[16 * j + 16..16 * j + 24] == b[16 * j + 16..16 * j + 24]
  {
    assert a[16 * j + 8..16 * j + 24][..8] == a[16 * j + 8..16 * j + 16];
    assert b[16 * j + 8..16 * j + 24][..8] == b[16 * j + 8..16 * j + 16];
    assert a[16 * j + 8..16 * j + 24][8..] == a[16 * j + 16..16 * j + 24];
    assert b[16 * j + 8..16 * j + 24][8..] == b[16 * j + 16..16 * j + 24];
  }


  /** A non-empty file among the first `i` makes their total positive. */
  lemma {:induction false} SizeSumPositive(files: seq<seq<octet>>, j: nat, i: nat)
    requires j < i <= |files| && |files[j]| > 0
    ensures SizeSum(files[..i]) > 0
    decreases i
  {
    assert files[..i][..i - 1] == files[..i - 1];
    if j < i - 1 {
      SizeSumPositive(files, j, i - 1);
    }
  }

  /** A finished image decodes into the applications it was built from. */
  lemma LoaderReadsBack(img: seq<octet>, files: seq<seq<octet>>)
    requires Built(img, files, |files|)
    ensures Decode(img) == Some(Apps(files))
    ensures forall i :: 0 <= i < |files| ==> Code(img, Apps(files)[i]) == Some(files[i])
  {
    assert files[..|files|] == files;
    HeadersDecode(img, files);
    forall i | 0 <= i < |files|
      ensures Code(img, Apps(files)[i]) == Some(files[i])
    {
      OffsetInImage(img, files, i);
      ContentLoads(img, files, i);
    }
  }

  /** Header entries in place decode into the applications' positions and sizes. */
  lemma HeadersDecode(img: seq<octet>, files: seq<seq<octet>>)
    requires |img| >= 16 * |files| + 8 && |files| < U64_LIMIT && img[0..WORD_SIZE] == Word(|files|)
    requires forall j :: 0 <= j < |files| ==> HeaderHolds(img, files, j)
    ensures Decode(img) == Some(Apps(files))
  {
    var d := Decode(img);
    assert d.Some?;
    forall i | 0 <= i < |files|
      ensures d.value[i] == Apps(files)[i]
    {
      assert HeaderHolds(img, files, i);
    }
    assert d.value == Apps(files);
  }

  /** Contents in place are what the loader finds at an application's position. */
  lemma ContentLoads(img: seq<octet>, files: seq<seq<octet>>, i: nat)
    requires i < |files| && Offset(files, i) <= |img|
    requires ContentHolds(img, files, i)
    ensures Code(img, Apps(files)[i]) == Some(files[i])
  {
    if |files[i]| == 0 {
      assert files[i] == [];
    }
  }

  /** In a finished image every application's position lies inside the image. */
  lemma OffsetInImage(img: seq<octet>, files: seq<seq<octet>>, i: nat)
    requires i < |files| && |img| >= 16 * |files| + 8
    requires SizeSum(files) > 0 ==> |img| >= Offset(files, |files|)
    ensures Offset(files, i) <= |img|
  {
    var n := |files|;
    assert files[..n] == files;
    OffsetsOrdered(files, i, n);
  }


}
