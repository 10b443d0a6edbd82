/**
 * The column-masked write of the golden models. The Python code decodes the
 * stored word, the input word and the write-enable mask into MSB-first bit
 * lists and, for every list column `j` whose mask character is '1', copies a
 * slice of the input word starting at `j*W` into the stored word.
 *
 * The slice is `span` characters long: `W` in the structured and FIFO-bench
 * testers, `W-1` in the array2dtest.py script.
 */
module ColumnWrite {
  import opened Bits

  /** List position `p` lies in a written slice of a column `>= from`. */
  predicate Selected(we: seq<char>, w: nat, span: nat, from: nat, p: nat)
  {
    w >= 1 && from <= p / w < |we| && we[p / w] == '1' && p % w < span
  }

  /** The column loop: columns `j, j+1, ...` copy `span` characters of `din` when enabled. */
  function WriteSlices(word: seq<char>, din: seq<char>, we: seq<char>, w: nat, span: nat, j: nat): (r: seq<char>)
    requires 1 <= w && span <= w && |word| == |we| * w && |din| == |word| && j <= |we|
    ensures |r| == |word|
    ensures forall p :: 0 <= p < |word| ==>
              r[p] == (if Selected(we, w, span, j, p) then din[p] else word[p])
    decreases |we| - j
  {
    if j == |we| then
      word
    else
      BlockFits(j, |we|, w);
      var word' := if we[j] == '1' then CopySlice(word, din, j * w, span) else word;
      var r := WriteSlices(word', din, we, w, span, j + 1);
      assert forall p :: 0 <= p < |word| ==>
          r[p] == (if Selected(we, w, span, j, p) then din[p] else word[p]) by {
        forall p | 0 <= p < |word|
          ensures r[p] == (if Selected(we, w, span, j, p) then din[p] else word[p])
        {
          InSlice(p, j, w, span);
        }
      }
      r
  }

  /** Python's `word[a : a+span] = din[a : a+span]`. */
  function CopySlice(word: seq<char>, din: seq<char>, a: nat, span: nat): (r: seq<char>)
    requires |din| == |word| && a + span <= |word|
    ensures |r| == |word|
    ensures forall p :: 0 <= p < |word| ==> r[p] == (if a <= p < a + span then din[p] else word[p])
  {
    word[..a] + din[a .. a + span] + word[a + span..]
  }

  /** Position `p` is in the first `span` places of block `j` exactly when it is in `[j*w, j*w+span)`. */
  lemma InSlice(p: nat, j: nat, w: nat, span: nat)
    requires 1 <= w && span <= w
    ensures (p / w == j && p % w < span) <==> (j * w <= p < j * w + span)
  {
    var c := p / w;
    assert p == c * w + p % w && p % w < w;
    if j * w <= p < j * w + span {
      InBlock(p, j, w);
    }
  }

  /** Mask character `n-1-k` decides block `k` of the written word, up to `span`. */
  lemma WrittenBlock(word: seq<char>, din: seq<char>, we: seq<char>, w: nat, span: nat, k: nat, q: nat)
    requires 1 <= w && span <= w && |word| == |we| * w && |din| == |word| && k < |we| && q < w
    ensures Block(WriteSlices(word, din, we, w, span, 0), |we|, w, k)[q]
            == if we[|we| - 1 - k] == '1' && q < span then Block(din, |we|, w, k)[q]
               else Block(word, |we|, w, k)[q]
  {
    var n := |we|;
    var j := n - 1 - k;
    BlockFits(j, n, w);
    var p := j * w + q;
    InBlock(p, j, w);
    assert Block(word, n, w, k)[q] == word[p];
    assert Block(din, n, w, k)[q] == din[p];
  }

  /** Whole columns: a written block is the input's block or the old block. */
  lemma WrittenBlockFull(word: seq<char>, din: seq<char>, we: seq<char>, n: nat, w: nat, k: nat)
    requires 1 <= w && |we| == n && |word| == n * w && |din| == |word| && k < n
    ensures we[n - 1 - k] == '1' ==>
              Block(WriteSlices(word, din, we, w, w, 0), n, w, k) == Block(din, n, w, k)
    ensures we[n - 1 - k] != '1' ==>
              Block(WriteSlices(word, din, we, w, w, 0), n, w, k) == Block(word, n, w, k)
  {
    var r := WriteSlices(word, din, we, w, w, 0);
    var src := if we[n - 1 - k] == '1' then din else word;
    forall q | 0 <= q < w
      ensures Block(r, n, w, k)[q] == Block(src, n, w, k)[q]
    {
      WrittenBlock(word, din, we, w, w, k, q);
    }
    assert Block(r, n, w, k) == Block(src, n, w, k);
  }

  lemma WriteSlicesBinary(word: seq<char>, din: seq<char>, we: seq<char>, w: nat, span: nat)
    requires 1 <= w && span <= w && |word| == |we| * w && |din| == |word|
    requires IsBinary(word) && IsBinary(din)
    ensures IsBinary(WriteSlices(word, din, we, w, span, 0))
  {
    var r := WriteSlices(word, din, we, w, span, 0);
    forall p | 0 <= p < |r| ensures r[p] == '0' || r[p] == '1' {
      assert r[p] == (if Selected(we, w, span, 0, p) then din[p] else word[p]);
    }
  }

  /** A word of `n` columns of `w` bits. */
  predicate IsWord(x: nat, n: nat, w: nat)
  {
    x < Pow2(n * w)
  }

  /**
   * The integer testers' write: decode, apply the column loop with slices of
   * `span` characters, encode.
   */
  function WriteWord(prev: nat, we: nat, din: nat, n: nat, w: nat, span: nat): (r: nat)
    requires 1 <= w && span <= w && IsWord(prev, n, w) && IsWord(din, n, w) && we < Pow2(n)
    ensures IsWord(r, n, w)
  {
    var so, sd, sw := IntToBlist(prev, n * w), IntToBlist(din, n * w), IntToBlist(we, n);
    WriteSlicesBinary(so, sd, sw, w, span);
    BlistToInt(WriteSlices(so, sd, sw, w, span, 0))
  }

  /** The write of the structured and FIFO-bench testers: whole columns. */
  function MaskedWrite(prev: nat, we: nat, din: nat, n: nat, w: nat): (r: nat)
    requires 1 <= w && IsWord(prev, n, w) && IsWord(din, n, w) && we < Pow2(n)
    ensures IsWord(r, n, w)
    ensures forall k :: 0 <= k < n ==>
              Column(r, k, w) == if MaskBit(we, k) == 1 then Column(din, k, w) else Column(prev, k, w)
  {
    var r := WriteWord(prev, we, din, n, w, w);
    forall k | 0 <= k < n
      ensures Column(r, k, w) == if MaskBit(we, k) == 1 then Column(din, k, w) else Column(prev, k, w)
    {
      MaskedColumn(prev, we, din, n, w, k);
    }
    r
  }

  lemma MaskedColumn(prev: nat, we: nat, din: nat, n: nat, w: nat, k: nat)
    requires 1 <= w && IsWord(prev, n, w) && IsWord(din, n, w) && we < Pow2(n) && k < n
    ensures Column(WriteWord(prev, we, din, n, w, w), k, w)
            == if MaskBit(we, k) == 1 then Column(din, k, w) else Column(prev, k, w)
  {
    var sw := IntToBlist(we, n);
    MaskBitOfBlist(we, n, k);
    var src := if sw[n - 1 - k] == '1' then din else prev;
    WrittenColumnFrom(prev, we, din, n, w, k);
    ValueColumn(src, n, w, k);
  }

  lemma WrittenColumnFrom(prev: nat, we: nat, din: nat, n: nat, w: nat, k: nat)
    requires 1 <= w && IsWord(prev, n, w) && IsWord(din, n, w) && we < Pow2(n) && k < n
    ensures Column(WriteWord(prev, we, din, n, w, w), k, w)
            == BlistToInt(Block(IntToBlist(if IntToBlist(we, n)[n - 1 - k] == '1' then din else prev, n * w), n, w, k))
  {
    var so, sd, sw := IntToBlist(prev, n * w), IntToBlist(din, n * w), IntToBlist(we, n);
    assert WriteWord(prev, we, din, n, w, w) == BlistToInt(WriteSlices(so, sd, sw, w, w, 0));
    WrittenColumn(so, sd, sw, n, w, k);
  }

  /** Column `k` of a word, read off the word's bit list. */
  lemma ValueColumn(x: nat, n: nat, w: nat, k: nat)
    requires IsWord(x, n, w) && k < n
    ensures Column(x, k, w) == BlistToInt(Block(IntToBlist(x, n * w), n, w, k))
  {
    BlistRoundTrip(x, n * w);
    ColumnOfBlist(IntToBlist(x, n * w), n, w, k);
  }

  /** Column `k` of the written bit list is the value of the selected source block. */
  lemma WrittenColumn(so: seq<char>, sd: seq<char>, sw: seq<char>, n: nat, w: nat, k: nat)
    requires 1 <= w && |sw| == n && |so| == n * w && |sd| == |so| && k < n
    requires IsBinary(so) && IsBinary(sd)
    ensures IsBinary(WriteSlices(so, sd, sw, w, w, 0))
    ensures Column(BlistToInt(WriteSlices(so, sd, sw, w, w, 0)), k, w)
            == if sw[n - 1 - k] == '1' then BlistToInt(Block(sd, n, w, k)) else BlistToInt(Block(so, n, w, k))
  {
    WriteSlicesBinary(so, sd, sw, w, w);
    var rs := WriteSlices(so, sd, sw, w, w, 0);
    ColumnOfBlist(rs, n, w, k);
    WrittenBlockFull(so, sd, sw, n, w, k);
  }

  /**
   * The column equations pin the written word down: any word whose columns
   * are the enabled columns of `din` and the other columns of `prev` is the
   * masked write.
   */
  lemma MaskedWriteUnique(prev: nat, we: nat, din: nat, n: nat, w: nat, v: nat)
    requires w >= 1 && IsWord(prev, n, w) && IsWord(din, n, w) && we < Pow2(n) && IsWord(v, n, w)
    requires forall k :: 0 <= k < n ==>
               Column(v, k, w) == if MaskBit(we, k) == 1 then Column(din, k, w) else Column(prev, k, w)
    ensures v == MaskedWrite(prev, we, din, n, w)
  {
    ColumnsDetermineWord(v, MaskedWrite(prev, we, din, n, w), n, w);
  }

  /**
   * The bit-string tester's write: position by position, character `q` of
   * `din` replaces character `q` of the stored word when the mask character
   * of its column is '1'.
   */
  function WriteBitwise(word: seq<char>, din: seq<char>, we: seq<char>, w: nat): (r: seq<char>)
    requires 1 <= w && |word| == |we| * w && |din| == |word|
    ensures |r| == |word|
  {
    seq(|word|, p requires 0 <= p < |word| =>
      if p / w < |we| && we[p / w] == '1' then din[p] else word[p])
  }

  /** The per-character copy and the slice assignment of whole columns agree. */
  lemma BitwiseIsSlices(word: seq<char>, din: seq<char>, we: seq<char>, w: nat)
    requires 1 <= w && |word| == |we| * w && |din| == |word|
    ensures WriteBitwise(word, din, we, w) == WriteSlices(word, din, we, w, w, 0)
  {
    var a, b := WriteBitwise(word, din, we, w), WriteSlices(word, din, we, w, w, 0);
    forall p | 0 <= p < |word| ensures a[p] == b[p] {
      BitwiseAt(word, din, we, w, p);
    }
  }

  lemma BitwiseAt(word: seq<char>, din: seq<char>, we: seq<char>, w: nat, p: nat)
    requires 1 <= w && |word| == |we| * w && |din| == |word| && p < |word|
    ensures WriteBitwise(word, din, we, w)[p] == WriteSlices(word, din, we, w, w, 0)[p]
  {
    var c := p / w;
    assert p % w < w;
    assert Selected(we, w, w, 0, p) <==> c < |we| && we[c] == '1';
  }
}
