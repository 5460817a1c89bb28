/**
 * Fixed-size splitting of the input text (Chatbot-meditate.py, line 8):
 * `[text[i:i + size] for i in range(0, len(text), size)]`.
 */
module Chunking {
  import opened Concat

  /** Largest number of characters sent in one synthesis request. */
  const MaxLength: nat := 4096

  function Min(a: int, b: int): int
  {
    if a <= b then a else b
  }

  /** Number of starts in `range(0, n, size)`: the least q with q * size >= n. */
  function CeilDiv(n: nat, size: nat): (q: nat)
    requires size > 0
    ensures q * size >= n
    ensures q > 0 ==> (q - 1) * size < n
  {
    var q := (n + size - 1) / size;
    var r := (n + size - 1) % size;
    assert n + size - 1 == q * size + r;
    assert q * size - size == (q - 1) * size;
    q
  }

  lemma MulMonotone(a: nat, b: nat, size: nat)
    requires a <= b
    ensures a * size <= b * size
  {
  }

  /** Chunk k: the Python slice `text[k*size : k*size + size]`, which stops at
      the end of the text. */
  function Chunk(text: string, size: nat, k: nat): (c: string)
    requires size > 0 && k < CeilDiv(|text|, size)
    ensures 0 < |c| <= size && k * size + |c| <= |text|
    ensures k < CeilDiv(|text|, size) - 1 ==> |c| == size
    ensures k == CeilDiv(|text|, size) - 1 ==> k * size + |c| == |text|
  {
    ChunkStart(|text|, size, k);
    text[k * size..Min(k * size + size, |text|)]
  }

  /** Chunk k starts inside the text, and every chunk but the last ends
      inside it too. */
  lemma ChunkStart(n: nat, size: nat, k: nat)
    requires size > 0 && k < CeilDiv(n, size)
    ensures k * size < n
    ensures k < CeilDiv(n, size) - 1 ==> k * size + size < n
  {
    MulMonotone(k, CeilDiv(n, size) - 1, size);
    if k < CeilDiv(n, size) - 1 {
      MulMonotone(k + 1, CeilDiv(n, size) - 1, size);
      assert k * size + size == (k + 1) * size;
    }
  }

  /** The list comprehension of line 8. */
  function Chunks(text: string, size: nat): (chunks: seq<string>)
    requires size > 0
    ensures |chunks| * size >= |text|
    ensures |chunks| > 0 ==> (|chunks| - 1) * size < |text|
  {
    seq(CeilDiv(|text|, size), k requires 0 <= k < CeilDiv(|text|, size) => Chunk(text, size, k))
  }

  /** Every chunk is non-empty and at most `size` long; all but the last are
      exactly `size` long. */
  lemma ChunkLengths(text: string, size: nat)
    requires size > 0
    ensures forall k :: 0 <= k < |Chunks(text, size)| ==> 0 < |Chunks(text, size)[k]| <= size
    ensures forall k :: 0 <= k < |Chunks(text, size)| - 1 ==> |Chunks(text, size)[k]| == size
  {
    var n := CeilDiv(|text|, size);
    forall k | 0 <= k < n
      ensures 0 < |Chunks(text, size)[k]| <= size
      ensures k < n - 1 ==> |Chunks(text, size)[k]| == size
    {
      MulMonotone(k, n - 1, size);
      if k < n - 1 {
        MulMonotone(k + 1, n - 1, size);
        assert k * size + size == (k + 1) * size;
      }
    }
  }

  /** The number of chunks is ceil(len(text) / size); an empty text gives none. */
  lemma ChunkCount(text: string, size: nat)
    requires size > 0
    ensures |Chunks(text, size)| * size >= |text|
    ensures |Chunks(text, size)| > 0 ==> (|Chunks(text, size)| - 1) * size < |text|
    ensures |Chunks(text, size)| == 0 <==> text == []
  {
    var n := |Chunks(text, size)|;
    if n > 0 && text == [] {
      MulMonotone(0, n - 1, size);
    }
  }

  /** The first j chunks together are exactly the first j * size characters
      (or the whole text), so chunk j starts at offset j * size. */
  lemma {:induction false} ChunksPrefix(text: string, size: nat, j: nat)
    requires size > 0 && j <= |Chunks(text, size)|
    ensures Flatten(Chunks(text, size)[..j]) == text[..Min(j * size, |text|)]
  {
    var chunks := Chunks(text, size);
    if j == 0 {
      assert chunks[..0] == [];
    } else {
      ChunksPrefix(text, size, j - 1);
      MulMonotone(j - 1, |chunks| - 1, size);
      var start, stop := (j - 1) * size, Min(j * size, |text|);
      assert start + size == j * size;
      assert start < |text| && start <= stop;
      assert chunks[j - 1] == text[start..stop];
      assert chunks[..j][..j - 1] == chunks[..j - 1];
      calc {
        Flatten(chunks[..j]);
        Flatten(chunks[..j - 1]) + chunks[j - 1];
        text[..start] + text[start..stop];
        { assert text[..stop] == text[..start] + text[start..stop]; }
        text[..stop];
      }
    }
  }

  /** Joining the chunks in order gives back the text exactly. */
  lemma Reassemble(text: string, size: nat)
    requires size > 0
    ensures Flatten(Chunks(text, size)) == text
  {
    var chunks := Chunks(text, size);
    ChunksPrefix(text, size, |chunks|);
    assert chunks[..|chunks|] == chunks;
  }

  /** The split is the only one of its shape: any list of non-empty pieces of
      at most `size` characters, all but the last exactly `size` long, that
      joins to the text is the list of chunks. */
  lemma SplitIsUnique(text: string, size: nat, pieces: seq<string>)
    requires size > 0
    requires Flatten(pieces) == text
    requires forall k :: 0 <= k < |pieces| ==> 0 < |pieces[k]| <= size
    requires forall k :: 0 <= k < |pieces| - 1 ==> |pieces[k]| == size
    ensures pieces == Chunks(text, size)
  {
    var chunks := Chunks(text, size);
    FlattenLength(pieces);
    if pieces == [] {
      assert text == [];
      ChunkCount(text, size);
    } else {
      var m := |pieces|;
      FullPiecesPrefix(pieces, size, m - 1);
      assert pieces[..m - 1] + [pieces[m - 1]] == pieces;
      FlattenLength(pieces[..m - 1]);
      assert |text| == (m - 1) * size + |pieces[m - 1]|;
      assert (m - 1) * size + size == m * size;
      CeilDivUnique(|text|, size, m);
      forall k | 0 <= k < m
        ensures pieces[k] == chunks[k]
      {
        PieceAt(pieces, size, k);
        MulMonotone(k, m - 1, size);
        if k < m - 1 {
          MulMonotone(k + 1, m - 1, size);
        }
        assert k * size + size == (k + 1) * size;
      }
    }
  }

  /** When the first j pieces are full, they join to j * size characters. */
  lemma {:induction false} FullPiecesPrefix(pieces: seq<string>, size: nat, j: nat)
    requires j <= |pieces|
    requires forall k :: 0 <= k < j ==> |pieces[k]| == size
    ensures TotalLength(pieces[..j]) == j * size
  {
    if j > 0 {
      FullPiecesPrefix(pieces, size, j - 1);
      assert pieces[..j][..j - 1] == pieces[..j - 1];
      assert (j - 1) * size + size == j * size;
    }
  }

  /** Piece k of a split whose earlier pieces are full sits at offset k * size. */
  lemma PieceAt(pieces: seq<string>, size: nat, k: nat)
    requires k < |pieces|
    requires forall i :: 0 <= i < |pieces| - 1 ==> |pieces[i]| == size
    ensures k * size + |pieces[k]| <= |Flatten(pieces)|
    ensures Flatten(pieces)[k * size..k * size + |pieces[k]|] == pieces[k]
  {
    FragmentPlacement(pieces, k);
    FullPiecesPrefix(pieces, size, k);
  }

  /** The ceiling is determined by its two bounds. */
  lemma CeilDivUnique(n: nat, size: nat, m: nat)
    requires size > 0 && m > 0
    requires m * size >= n > (m - 1) * size
    ensures m == CeilDiv(n, size)
  {
    var q := CeilDiv(n, size);
    if q < m {
      MulMonotone(q, m - 1, size);
    } else if q > m {
      MulMonotone(m, q - 1, size);
    }
  }
}
