/**
 * MSB-first bit lists (`int_to_blist` / `blist_to_int`) and the column
 * arithmetic of a memory word: column `k` of a word of `W`-bit columns is
 * `(x / 2^(k*W)) % 2^W`, write-enable bit `k` is `(we / 2^k) % 2`.
 */
module Bits {

  function Pow2(n: nat): (r: nat)
    ensures r >= 1
  {
    if n == 0 then 1 else 2 * Pow2(n - 1)
  }

  lemma {:induction false} Pow2Add(a: nat, b: nat)
    ensures Pow2(a + b) == Pow2(a) * Pow2(b)
  {
    if a > 0 {
      Pow2Add(a - 1, b);
      assert Pow2(a + b) == 2 * Pow2(a - 1 + b);
    }
  }

  /** Euclidean division of `q*d + r` by `d` recovers `q` and `r`. */
  lemma DivModOf(q: nat, r: nat, d: nat)
    requires 0 < d && r < d
    ensures (q * d + r) / d == q
    ensures (q * d + r) % d == r
  {
    var x := q * d + r;
    var q', r' := x / d, x % d;
    assert x == q' * d + r';
    if q' < q {
      MulAtLeast(q', q - q', d);
      assert false;
    } else if q' > q {
      MulAtLeast(q, q' - q, d);
      assert false;
    }
  }

  /** Adding `k >= 1` to a factor adds at least one `d`. */
  lemma MulAtLeast(a: nat, k: nat, d: nat)
    requires k >= 1
    ensures (a + k) * d >= a * d + d
  {
    assert (a + k) * d == a * d + k * d;
    assert k * d == (k - 1) * d + d;
  }

  /** Position `p` lies in block `j` of width `w`. */
  lemma InBlock(p: nat, j: nat, w: nat)
    requires j * w <= p < j * w + w
    ensures p / w == j && p % w == p - j * w
  {
    DivModOf(j, p - j * w, w);
  }

  /** Block `j` of `n` blocks of width `w` ends inside the `n*w` positions. */
  lemma BlockFits(j: nat, n: nat, w: nat)
    requires j < n
    ensures j * w + w <= n * w
  {
    MulAtLeast(j, n - j, w);
  }

  predicate IsBinary(s: seq<char>)
  {
    forall i :: 0 <= i < |s| ==> s[i] == '0' || s[i] == '1'
  }

  /** The value of one bit character. */
  function BitValue(c: char): (b: nat)
    ensures b < 2
    ensures b == 1 <==> c == '1'
  {
    if c == '1' then 1 else 0
  }

  /** `int_to_blist`: the `n`-character binary string of `x`, most significant bit first. */
  function IntToBlist(x: nat, n: nat): (s: seq<char>)
    requires x < Pow2(n)
    ensures |s| == n && IsBinary(s)
  {
    if n == 0 then [] else IntToBlist(x / 2, n - 1) + [if x % 2 == 1 then '1' else '0']
  }

  /** `blist_to_int`: the unsigned value of an MSB-first binary string. */
  function BlistToInt(s: seq<char>): (x: nat)
    requires IsBinary(s)
    ensures x < Pow2(|s|)
  {
    if |s| == 0 then 0 else 2 * BlistToInt(s[..|s| - 1]) + BitValue(s[|s| - 1])
  }

  lemma {:induction false} BlistRoundTrip(x: nat, n: nat)
    requires x < Pow2(n)
    ensures BlistToInt(IntToBlist(x, n)) == x
  {
    if n > 0 {
      var s := IntToBlist(x, n);
      var q := x / 2;
      assert q < Pow2(n - 1);
      var head := IntToBlist(q, n - 1);
      assert s == head + [s[n - 1]];
      assert s[..n - 1] == head;
      BlistRoundTrip(q, n - 1);
      assert BitValue(s[n - 1]) == x % 2;
      assert BlistToInt(s) == 2 * q + x % 2;
    }
  }

  lemma {:induction false} IntRoundTrip(s: seq<char>)
    requires IsBinary(s)
    ensures IntToBlist(BlistToInt(s), |s|) == s
  {
    if |s| > 0 {
      var n := |s|;
      var t := s[..n - 1];
      IntRoundTrip(t);
      var x, b := BlistToInt(s), BitValue(s[n - 1]);
      assert x == BlistToInt(t) * 2 + b;
      DivModOf(BlistToInt(t), b, 2);
      assert IntToBlist(x, n) == IntToBlist(x / 2, n - 1) + [if x % 2 == 1 then '1' else '0'];
      assert (if x % 2 == 1 then '1' else '0') == s[n - 1];
      assert s == t + [s[n - 1]];
    }
  }

  /** Two binary strings of one length with one value are the same string. */
  lemma BlistInjective(s: seq<char>, t: seq<char>)
    requires IsBinary(s) && IsBinary(t) && |s| == |t|
    requires BlistToInt(s) == BlistToInt(t)
    ensures s == t
  {
    IntRoundTrip(s);
    IntRoundTrip(t);
  }

  lemma {:induction false} BlistConcat(a: seq<char>, b: seq<char>)
    requires IsBinary(a) && IsBinary(b)
    ensures IsBinary(a + b)
    ensures BlistToInt(a + b) == BlistToInt(a) * Pow2(|b|) + BlistToInt(b)
  {
    var ab := a + b;
    assert IsBinary(ab) by {
      forall i | 0 <= i < |ab| ensures ab[i] == '0' || ab[i] == '1' {
        if i < |a| { assert ab[i] == a[i]; } else { assert ab[i] == b[i - |a|]; }
      }
    }
    if |b| == 0 {
      assert ab == a;
    } else {
      var b' := b[..|b| - 1];
      BlistConcat(a, b');
      assert ab[..|ab| - 1] == a + b';
      assert ab[|ab| - 1] == b[|b| - 1];
      var c := BitValue(b[|b| - 1]);
      var x, p' := BlistToInt(a), Pow2(|b'|);
      assert BlistToInt(ab) == 2 * BlistToInt(a + b') + c;
      assert BlistToInt(b) == 2 * BlistToInt(b') + c;
      DoubleProduct(x, p');
    }
  }

  lemma DoubleProduct(x: nat, p: nat)
    ensures 2 * (x * p) == x * (2 * p)
  {
  }

  /** Column `k` of a word made of `w`-bit columns, column 0 least significant. */
  function Column(x: nat, k: nat, w: nat): (c: nat)
    ensures c < Pow2(w)
  {
    (x / Pow2(k * w)) % Pow2(w)
  }

  /** Write-enable bit `k` of a column mask. */
  function MaskBit(we: nat, k: nat): (b: nat)
    ensures b < 2
  {
    (we / Pow2(k)) % 2
  }

  /** The list positions of integer column `k` in an MSB-first string of `n` columns of width `w`. */
  function Block(s: seq<char>, n: nat, w: nat, k: nat): (b: seq<char>)
    requires k < n && |s| == n * w
    ensures |b| == w
    ensures IsBinary(s) ==> IsBinary(b)
  {
    BlockFits(n - 1 - k, n, w);
    s[(n - 1 - k) * w .. (n - 1 - k) * w + w]
  }

  /** Integer column `k` is the value of list block `n-1-k`. */
  lemma ColumnOfBlist(s: seq<char>, n: nat, w: nat, k: nat)
    requires IsBinary(s) && k < n && |s| == n * w
    ensures Column(BlistToInt(s), k, w) == BlistToInt(Block(s, n, w, k))
  {
    var m, l := (n - 1 - k) * w, k * w;
    SplitAt(n, k, w);
    var hi, mid, lo := s[..m], s[m..m + w], s[m + w..];
    assert |lo| == l;
    assert mid == Block(s, n, w, k);
    var hm := hi + mid;
    assert s == hm + lo;
    BlistConcat(hi, mid);
    BlistConcat(hm, lo);
    DigitOfParts(BlistToInt(s), BlistToInt(hm), BlistToInt(hi), BlistToInt(mid), BlistToInt(lo), Pow2(l), Pow2(w));
  }

  /** The middle digit of `(h*q + m)*p + l` in the mixed radix `p`, `q`. */
  lemma DigitOfParts(x: nat, hm: nat, h: nat, m: nat, l: nat, p: nat, q: nat)
    requires 0 < p && 0 < q && l < p && m < q
    requires hm == h * q + m && x == hm * p + l
    ensures x / p % q == m
  {
    DivModOf(hm, l, p);
    DivModOf(h, m, q);
  }

  /** Block `n-1-k` splits an `n*w`-character string into `n-1-k` blocks, one block and `k` blocks. */
  lemma SplitAt(n: nat, k: nat, w: nat)
    requires k < n
    ensures (n - 1 - k) * w >= 0 && k * w >= 0
    ensures (n - 1 - k) * w + w + k * w == n * w
  {
    assert n == (n - 1 - k) + 1 + k;
  }

  /** Mask bit `k` is the character at list position `n-1-k` of the mask's bit list. */
  lemma MaskBitOfBlist(we: nat, n: nat, k: nat)
    requires we < Pow2(n) && k < n
    ensures MaskBit(we, k) == 1 <==> IntToBlist(we, n)[n - 1 - k] == '1'
  {
    var s := IntToBlist(we, n);
    BlistRoundTrip(we, n);
    ColumnOfBlist(s, n, 1, k);
    var b := Block(s, n, 1, k);
    assert b == [s[n - 1 - k]];
    assert b[..0] == [];
  }

  /** Every position of an `n*w`-character string lies in some block `j < n`. */
  lemma BlockOfPosition(p: nat, n: nat, w: nat)
    requires w >= 1 && p < n * w
    ensures p / w < n
    ensures (p / w) * w <= p < (p / w) * w + w
  {
    var j := p / w;
    assert p == j * w + p % w;
    if j >= n {
      MulMono(n, j, w);
      assert false;
    }
  }

  lemma MulMono(a: nat, b: nat, w: nat)
    requires a <= b
    ensures a * w <= b * w
  {
    if a < b {
      MulAtLeast(a, b - a, w);
    }
  }

  /** Position `p` of a string is found in block `n-1-p/w`. */
  lemma PositionInBlock(s: seq<char>, n: nat, w: nat, p: nat)
    requires w >= 1 && |s| == n * w && p < n * w
    ensures p / w < n
    ensures s[p] == Block(s, n, w, n - 1 - p / w)[p - (p / w) * w]
  {
    BlockOfPosition(p, n, w);
    var j := p / w;
    var k := n - 1 - j;
    assert n - 1 - k == j;
    var b := Block(s, n, w, k);
    BlockFits(j, n, w);
    assert b == s[j * w .. j * w + w];
    assert b[p - j * w] == s[p];
  }

  /** Equal columns have equal blocks in the words' bit lists. */
  lemma SameColumnSameBlock(x: nat, y: nat, n: nat, w: nat, k: nat)
    requires k < n && x < Pow2(n * w) && y < Pow2(n * w)
    requires Column(x, k, w) == Column(y, k, w)
    ensures Block(IntToBlist(x, n * w), n, w, k) == Block(IntToBlist(y, n * w), n, w, k)
  {
    var sx, sy := IntToBlist(x, n * w), IntToBlist(y, n * w);
    BlistRoundTrip(x, n * w);
    BlistRoundTrip(y, n * w);
    ColumnOfBlist(sx, n, w, k);
    ColumnOfBlist(sy, n, w, k);
    BlistInjective(Block(sx, n, w, k), Block(sy, n, w, k));
  }

  /** A word of `n` columns is determined by its columns. */
  lemma ColumnsDetermineWord(x: nat, y: nat, n: nat, w: nat)
    requires w >= 1 && x < Pow2(n * w) && y < Pow2(n * w)
    requires forall k :: 0 <= k < n ==> Column(x, k, w) == Column(y, k, w)
    ensures x == y
  {
    var sx, sy := IntToBlist(x, n * w), IntToBlist(y, n * w);
    forall p | 0 <= p < n * w
      ensures sx[p] == sy[p]
    {
      BlockOfPosition(p, n, w);
      SameCharacter(x, y, n, w, p);
    }
    assert sx == sy;
    BlistRoundTrip(x, n * w);
    BlistRoundTrip(y, n * w);
  }

  /** Words with equal column `n-1-p/w` agree at position `p` of their bit lists. */
  lemma SameCharacter(x: nat, y: nat, n: nat, w: nat, p: nat)
    requires w >= 1 && x < Pow2(n * w) && y < Pow2(n * w) && p < n * w && p / w < n
    requires Column(x, n - 1 - p / w, w) == Column(y, n - 1 - p / w, w)
    ensures IntToBlist(x, n * w)[p] == IntToBlist(y, n * w)[p]
  {
    var sx, sy := IntToBlist(x, n * w), IntToBlist(y, n * w);
    PositionInBlock(sx, n, w, p);
    PositionInBlock(sy, n, w, p);
    SameColumnSameBlock(x, y, n, w, n - 1 - p / w);
  }
}
