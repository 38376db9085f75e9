/** `test_chardev.c`: reading a device that repeats a string for ever, through an offset that wraps
around with the 64-bit words of the machine.
 */
module CharDevice {
  import opened Helpers

  const WORD := 0x1_0000_0000_0000_0000

  /** Character `k` of the endless repetition of the content. */
  function Stream(content: seq<int>, k: nat): int
    requires content != []
  {
    content[k % |content|]
  }

  /** What a read of `n` characters at offset `off` delivers. */
  function Piece(content: seq<int>, off: nat, n: nat): (p: seq<int>)
    requires content != []
    ensures |p| == n
  {
    seq(n, i requires 0 <= i < n => content[(i + off) % WORD % |content|])
  }

  function StreamPiece(content: seq<int>, off: nat, n: nat): (p: seq<int>)
    requires content != []
    ensures |p| == n
  {
    seq(n, i requires 0 <= i < n => Stream(content, off + i))
  }

  // ---------------------------------------------------------------------------
  // The device

  /** A division by zero stops the read; otherwise it returns the number of characters. */
  datatype Result = DivisionByZero | Read(n: nat)

  class OpenFile {
    const content: seq<int>
    var off: nat

    ghost predicate Valid()
      reads this
    {
      off < WORD
    }

    constructor (content: seq<int>)
      ensures Valid() && this.content == content && off == 0
    {
      this.content := content;
      off := 0;
    }

    method ReadMebeim(buf: array<int>, n: nat) returns (r: Result)
      requires Valid() && n < WORD && n <= buf.Length
      modifies this`off, buf
      ensures Valid()
      ensures r == if n > 0 && content == [] then DivisionByZero else Read(n)
      ensures r.DivisionByZero? ==> off == old(off) && buf[..] == old(buf[..])
      ensures r.Read? ==> off == (old(off) + n) % WORD && buf[n..] == old(buf[n..])
      ensures r.Read? && content != [] ==> buf[..n] == Piece(content, old(off), n)
    {
      var i := 0;
      var o := off;
      while i < n
        invariant 0 <= i <= n && off == o && (i > 0 ==> content != [])
        invariant content != [] ==> forall k :: 0 <= k < i ==> buf[k] == Piece(content, o, n)[k]
        invariant forall k :: i <= k < buf.Length ==> buf[k] == old(buf[k])
      {
        if |content| == 0 {
          assert buf[..] == old(buf[..]);
          return DivisionByZero;
        }
        buf[i] := content[(i + o) % WORD % |content|];
        i := i + 1;
      }
      assert buf[n..] == old(buf[n..]);
      off := (off + n) % WORD;
      r := Read(n);
    }
  }

  // ---------------------------------------------------------------------------
  // Chunks

  lemma PieceAt(content: seq<int>, off: nat, n: nat, i: nat)
    requires content != [] && i < n
    ensures Piece(content, off, n)[i] == Stream(content, (i + off) % WORD)
    ensures StreamPiece(content, off, n)[i] == Stream(content, i + off)
  {
  }

  lemma SmallRemainder(x: nat)
    ensures x < WORD ==> x % WORD == x
  {
  }

  /** Reading n and then m characters is reading n + m at once, wherever the offset is. */
  lemma ReadsCompose(content: seq<int>, off: nat, n: nat, m: nat)
    requires content != []
    ensures Piece(content, off, n + m) == Piece(content, off, n) + Piece(content, (off + n) % WORD, m)
    ensures ((off + n) % WORD + m) % WORD == (off + (n + m)) % WORD
  {
    hide Piece, StreamPiece, Stream;
    RemainderOfSum(off + n, m, WORD);
    var whole, first, rest := Piece(content, off, n + m), Piece(content, off, n), Piece(content, (off + n) % WORD, m);
    forall i | 0 <= i < n + m
      ensures whole[i] == (first + rest)[i]
    {
      PieceAt(content, off, n + m, i);
      if i < n {
        PieceAt(content, off, n, i);
      } else {
        PieceAt(content, (off + n) % WORD, m, i - n);
        RemainderOfSum(off + n, i - n, WORD);
      }
    }
  }

  function Total(sizes: seq<nat>): nat {
    if sizes == [] then 0 else sizes[0] + Total(sizes[1..])
  }

  /** What a sequence of reads delivers, one after the other. */
  function Reads(content: seq<int>, off: nat, sizes: seq<nat>): seq<int>
    requires content != []
    decreases |sizes|
  {
    if sizes == [] then []
    else Piece(content, off, sizes[0]) + Reads(content, (off + sizes[0]) % WORD, sizes[1..])
  }

  /** The offset that a sequence of reads leaves. */
  function OffsetAfter(off: nat, sizes: seq<nat>): nat
    decreases |sizes|
  {
    if sizes == [] then off else OffsetAfter((off + sizes[0]) % WORD, sizes[1..])
  }

  /** Any sequence of reads delivers what one read of the total size does, and leaves the offset that
      this one does. */
  lemma {:induction false} ReadsAreOneRead(content: seq<int>, off: nat, sizes: seq<nat>)
    requires content != []
    ensures Reads(content, off, sizes) == Piece(content, off, Total(sizes))
    ensures off < WORD ==> OffsetAfter(off, sizes) == (off + Total(sizes)) % WORD
    decreases |sizes|
  {
    hide Piece;
    if sizes == [] {
      SmallRemainder(off);
    } else {
      ReadsAreOneRead(content, (off + sizes[0]) % WORD, sizes[1..]);
      ReadsCompose(content, off, sizes[0], Total(sizes[1..]));
    }
  }

  /** The stream starts with the content and repeats it. */
  lemma StreamRepeats(content: seq<int>, k: nat)
    requires content != []
    ensures k < |content| ==> Stream(content, k) == content[k]
    ensures Stream(content, k + |content|) == Stream(content, k)
  {
    if k < |content| {
      RemainderIs(k, 0, |content|, k);
    }
    RemainderOfShift(k, 1, |content|);
  }

  /** As long as the offset does not wrap, the reads are consecutive pieces of the endless stream. */
  lemma ReadsAreStream(content: seq<int>, off: nat, sizes: seq<nat>)
    requires content != [] && off + Total(sizes) <= WORD
    ensures Reads(content, off, sizes) == StreamPiece(content, off, Total(sizes))
  {
    ReadsAreOneRead(content, off, sizes);
    var n := Total(sizes);
    forall i | 0 <= i < n
      ensures Piece(content, off, n)[i] == StreamPiece(content, off, n)[i]
    {
      PieceAt(content, off, n, i);
      SmallRemainder(i + off);
    }
  }

  /** The character that the stream has 2^64 characters after character `k`. */
  function Later(content: seq<int>, k: nat): int
    requires content != []
  {
    content[(k + WORD) % |content|]
  }

  /** The content looks the same when it is entered 2^64 characters later. */
  ghost predicate SurvivesWrap(content: seq<int>)
    requires content != []
  {
    forall k: nat {:trigger Later(content, k)} :: k < |content| ==> content[k] == Later(content, k)
  }

  /** Across a wrap, all reads continue the stream exactly if the content is one that survives it,
      which "mebeim" does not. */
  lemma WrapIsSeamless(content: seq<int>)
    requires 0 < |content| < 0x8000_0000_0000_0000
    ensures (forall off, n :: 0 <= off < WORD && 0 <= n < WORD ==>
               Piece(content, off, n) == StreamPiece(content, off, n)) <==> SurvivesWrap(content)
  {
    if SurvivesWrap(content) {
      forall off, n | 0 <= off < WORD && 0 <= n < WORD
        ensures Piece(content, off, n) == StreamPiece(content, off, n)
      {
        SeamlessPiece(content, off, n);
      }
    }
    if forall off, n :: 0 <= off < WORD && 0 <= n < WORD ==> Piece(content, off, n) == StreamPiece(content, off, n) {
      forall k: nat | k < |content|
        ensures content[k] == Later(content, k)
      {
        assert Piece(content, WORD - 1, k + 2) == StreamPiece(content, WORD - 1, k + 2);
        LastOfPiece(content, k);
      }
    }
  }

  lemma LastOfPiece(content: seq<int>, k: nat)
    requires k < |content| < 0x8000_0000_0000_0000
    ensures Piece(content, WORD - 1, k + 2)[k + 1] == content[k]
    ensures StreamPiece(content, WORD - 1, k + 2)[k + 1] == Later(content, k)
  {
    RemainderOfShift(k, 1, WORD);
    SmallRemainder(k);
    PieceAt(content, WORD - 1, k + 2, k + 1);
    assert (k + 1 + (WORD - 1)) % WORD == k;
    RemainderIs(k, 0, |content|, k);
  }

  lemma SeamlessPiece(content: seq<int>, off: nat, n: nat)
    requires content != [] && SurvivesWrap(content) && off < WORD && n < WORD
    ensures Piece(content, off, n) == StreamPiece(content, off, n)
  {
    forall i | 0 <= i < n
      ensures Piece(content, off, n)[i] == StreamPiece(content, off, n)[i]
    {
      PieceAt(content, off, n, i);
      SeamlessAt(content, i + off);
    }
  }

  lemma SeamlessAt(content: seq<int>, t: nat)
    requires content != [] && SurvivesWrap(content) && t < 2 * WORD
    ensures Stream(content, t % WORD) == Stream(content, t)
  {
    if t >= WORD {
      var u := t - WORD;
      RemainderOfShift(u, 1, WORD);
      SmallRemainder(u);
      RemainderOfSum(u, WORD, |content|);
      assert content[u % |content|] == Later(content, u % |content|);
    } else {
      SmallRemainder(t);
    }
  }

  lemma MebeimDoesNotSurvive()
    ensures var content := ['m' as int, 'e' as int, 'b' as int, 'e' as int, 'i' as int, 'm' as int];
            !SurvivesWrap(content)
  {
    var content := ['m' as int, 'e' as int, 'b' as int, 'e' as int, 'i' as int, 'm' as int];
    assert Later(content, 0) == content[4] != content[0];
  }
}
