/**
 * One Hamming block, as the codec lays it out.
 *
 * A block of n bits (3 <= n <= 80) has positions 1..n, held at indices
 * 0..n-1 of a `seq<bool>`.  Every power of two below n is a control
 * position; every position from 3 to n that is not a power of two carries
 * data.  When n itself is a power of two, position n is neither: the encoder
 * leaves it 0 and the decoder ignores it.  Control position c holds the
 * even parity of the positions u with bit c set, i.e. with (u / c) % 2 == 1.
 */
module Hamming {
  import opened BitStreams

  // ---------------------------------------------------------------- powers of two

  function Pow2(k: nat): (r: nat)
    ensures r >= 1
  {
    if k == 0 then 1 else 2 * Pow2(k - 1)
  }

  /** The exponent of the largest power of two not above v. */
  function Log2(v: nat): (k: nat)
    requires v >= 1
    ensures Pow2(k) <= v < 2 * Pow2(k)
  {
    if v == 1 then 0 else 1 + Log2(v / 2)
  }

  lemma {:induction false} Pow2Mono(a: nat, b: nat)
    requires a < b
    ensures 2 * Pow2(a) <= Pow2(b)
    decreases b
  {
    if a + 1 < b {
      Pow2Mono(a, b - 1);
    }
  }

  /** Powers of two are ordered as their exponents. */
  lemma Pow2Order(a: nat, b: nat)
    ensures a < b <==> Pow2(a) < Pow2(b)
    ensures a == b <==> Pow2(a) == Pow2(b)
  {
    if a < b {
      Pow2Mono(a, b);
    } else if b < a {
      Pow2Mono(b, a);
    }
  }

  lemma {:induction false} Pow2Add(a: nat, b: nat)
    ensures Pow2(a + b) == Pow2(a) * Pow2(b)
    decreases b
  {
    if b > 0 {
      Pow2Add(a, b - 1);
      assert Pow2(a + b) == 2 * Pow2(a + b - 1);
    }
  }

  /**
   * `a & b` on non-negative integers, computed digit by digit in base two,
   * as C computes it on the non-negative `int` values the codec uses.
   */
  function BitAnd(a: nat, b: nat): (r: nat)
    ensures r <= a && r <= b
    decreases a
  {
    if a == 0 || b == 0 then 0 else 2 * BitAnd(a / 2, b / 2) + (a % 2) * (b % 2)
  }

  lemma {:induction false} BitAndSelf(a: nat)
    ensures BitAnd(a, a) == a
    decreases a
  {
    if a != 0 {
      BitAndSelf(a / 2);
    }
  }

  /** `isPowOf2`: `value > 0 && (value & (value - 1)) == 0`. */
  function IsPowOf2(value: int): (r: bool)
  {
    value > 0 && BitAnd(value, value - 1) == 0
  }

  /** Above one, a power of two is even and its half is again a power of two. */
  lemma PowOf2Step(v: int)
    requires v >= 2
    ensures IsPowOf2(v) <==> v % 2 == 0 && IsPowOf2(v / 2)
  {
    if v % 2 == 1 {
      assert (v - 1) / 2 == v / 2;
      BitAndSelf(v / 2);
      assert BitAnd(v, v - 1) == 2 * BitAnd(v / 2, v / 2);
    } else {
      assert (v - 1) / 2 == v / 2 - 1;
      assert BitAnd(v, v - 1) == 2 * BitAnd(v / 2, v / 2 - 1);
    }
  }

  /** `isPowOf2` holds of exactly the powers of two. */
  lemma {:induction false} PowOf2Iff(v: int)
    ensures IsPowOf2(v) <==> v >= 1 && v == Pow2(Log2(v))
    decreases v
  {
    if v >= 2 {
      PowOf2Step(v);
      PowOf2Iff(v / 2);
      assert Log2(v) == 1 + Log2(v / 2);
    } else if v == 1 {
      assert BitAnd(1, 0) == 0;
    }
  }

  lemma PowOf2IsPow2(k: nat)
    ensures IsPowOf2(Pow2(k))
  {
    var v := Pow2(k);
    if Log2(v) < k {
      Pow2Mono(Log2(v), k);
    } else if Log2(v) > k {
      Pow2Mono(k, Log2(v));
    }
    PowOf2Iff(v);
  }

  // ---------------------------------------------------------------- groups

  /** Division is determined by a quotient and a remainder in range. */
  lemma DivUnique(e: int, d: int, q: int, r: int)
    requires d > 0 && 0 <= r < d && e == d * q + r
    ensures e / d == q && e % d == r
  {
    var q', r' := e / d, e % d;
    assert e == d * q' + r';
    assert d * (q' - q) == d * q' - d * q;
    assert d * (q' - q) == r - r';
    MulBound(d, q' - q);
  }

  lemma MulBound(d: int, x: int)
    requires d > 0 && -d < d * x < d
    ensures x == 0
  {
  }

  /** Position u belongs to the group checked by control position c. */
  predicate InGroup(u: int, c: int)
    requires c >= 1
  {
    (u / c) % 2 == 1
  }

  /** The next lower bit: e % 2P splits into e % P plus bit P of e. */
  lemma ModSplit(e: nat, k: nat)
    ensures e % Pow2(k + 1) == e % Pow2(k) + (if InGroup(e, Pow2(k)) then Pow2(k) else 0)
  {
    var p := Pow2(k);
    var a, b := e / p, e % p;
    assert e == p * a + b;
    var hi := if a % 2 == 1 then p else 0;
    assert a == 2 * (a / 2) + a % 2;
    assert p * a == (2 * p) * (a / 2) + p * (a % 2);
    assert Pow2(k + 1) == 2 * p;
    DivUnique(e, 2 * p, a / 2, hi + b);
  }

  /** Between q * c and (q + 1) * c the quotient by c is q. */
  lemma DivBetween(u: int, c: int, q: int)
    requires c >= 1 && q * c <= u < q * c + c
    ensures u / c == q
  {
    DivUnique(u, c, q, u - q * c);
  }

  /** A control position checks itself and no other control position. */
  lemma PowGroup(j: nat, k: nat)
    ensures InGroup(Pow2(j), Pow2(k)) <==> j == k
  {
    if j < k {
      Pow2Mono(j, k);
      DivUnique(Pow2(j), Pow2(k), 0, Pow2(j));
    } else if j > k {
      PowGroupAbove(j, k);
    } else {
      DivUnique(Pow2(j), Pow2(k), 1, 0);
    }
  }

  lemma PowGroupAbove(j: nat, k: nat)
    requires j > k
    ensures !InGroup(Pow2(j), Pow2(k))
  {
    var a := j - k;
    Pow2Add(k, a);
    DivUnique(Pow2(k + a), Pow2(k), Pow2(a), 0);
    assert Pow2(a) == 2 * Pow2(a - 1);
  }

  /** Positions below c are in no group of c. */
  lemma BelowGroup(u: int, c: int)
    requires 0 <= u < c
    ensures !InGroup(u, c)
  {
    DivUnique(u, c, 0, u);
  }

  /** Two power-of-two positions are in each other's group only when equal. */
  lemma ControlGroup(u: int, c: int)
    requires IsPowOf2(u) && IsPowOf2(c)
    ensures InGroup(u, c) <==> u == c
  {
    PowOf2Iff(u);
    PowOf2Iff(c);
    PowGroup(Log2(u), Log2(c));
  }

  // ---------------------------------------------------------------- layout

  /** Position p carries data (in a block of at least p bits). */
  predicate DataPos(p: int)
  {
    p >= 3 && !IsPowOf2(p)
  }

  /** Position p of an n-bit block is a control position. */
  predicate IsControl(p: int, n: int)
  {
    1 <= p < n && IsPowOf2(p)
  }

  /** The number of data positions among 1..m. */
  function DataCount(m: nat): (k: nat)
    ensures k <= m
  {
    if m == 0 then 0 else DataCount(m - 1) + (if DataPos(m) then 1 else 0)
  }

  /** No number strictly between 2^k and 2^(k+1) passes `isPowOf2`. */
  lemma NotPowBetween(k: nat, v: int)
    requires Pow2(k) < v < 2 * Pow2(k)
    ensures !IsPowOf2(v)
  {
    PowOf2Iff(v);
    if IsPowOf2(v) {
      Pow2Order(k, Log2(v));
      Pow2Order(Log2(v), k + 1);
      assert false;
    }
  }

  /** Between 2^k and 2^(k+1) every position carries data. */
  lemma {:induction false} DataCountRun(k: nat, a: nat, v: nat)
    requires k >= 1 && Pow2(k) <= a <= v < 2 * Pow2(k)
    ensures DataCount(v) == DataCount(a) + (v - a)
    decreases v
  {
    if v > a {
      DataCountRun(k, a, v - 1);
      NotPowBetween(k, v);
      assert Pow2(k) == 2 * Pow2(k - 1);
    }
  }

  /** A block of 2^k bits, for k at least 1, has 2^k - k - 1 data positions. */
  lemma {:induction false} DataCountPow2(k: nat)
    requires k >= 1
    ensures DataCount(Pow2(k)) == Pow2(k) - k - 1
  {
    if k == 1 {
      assert BitAnd(2, 1) == 0;
      assert DataCount(2) == 0;
    } else {
      DataCountPow2(k - 1);
      var h := Pow2(k - 1);
      assert Pow2(k) == 2 * h;
      DataCountRun(k - 1, h, 2 * h - 1);
      PowOf2IsPow2(k);
    }
  }

  /** The bits d, cut or padded with zeros to k bits. */
  function Fill(d: seq<bool>, k: nat): (r: seq<bool>)
    ensures |r| == k
    ensures forall i :: 0 <= i < k ==> r[i] == (i < |d| && d[i])
  {
    seq(k, i requires 0 <= i < k => i < |d| && d[i])
  }

  lemma FillAll(d: seq<bool>)
    ensures Fill(d, |d|) == d
  {
  }

  /**
   * The data bits d laid out over an n-bit block: the i-th data position
   * gets d[i], or 0 once d has run out; every other position is 0.
   */
  function Place(d: seq<bool>, n: nat): (r: seq<bool>)
    ensures |r| == n
  {
    seq(n, t => DataPos(t + 1) && DataCount(t) < |d| && d[DataCount(t)])
  }

  /** The bits at the data positions of a block, in order. */
  function DataBits(b: seq<bool>): (r: seq<bool>)
    ensures |r| == DataCount(|b|)
  {
    if b == [] then [] else DataBits(b[..|b| - 1]) + (if DataPos(|b|) then [b[|b| - 1]] else [])
  }

  /** Reading the data positions of a laid-out block gives the data back, zero-padded. */
  lemma {:induction false} PlaceData(d: seq<bool>, n: nat)
    ensures DataBits(Place(d, n)) == Fill(d, DataCount(n))
  {
    if n > 0 {
      PlaceData(d, n - 1);
      var p, k := Place(d, n), DataCount(n - 1);
      assert p[..n - 1] == Place(d, n - 1);
      assert DataBits(p) == Fill(d, k) + (if DataPos(n) then [p[n - 1]] else []);
      if DataPos(n) {
        assert p[n - 1] == (k < |d| && d[k]);
        assert Fill(d, k + 1) == Fill(d, k) + [p[n - 1]];
      }
    }
  }

  /** Only the data positions of a block matter to DataBits. */
  lemma {:induction false} DataBitsAgree(a: seq<bool>, b: seq<bool>)
    requires |a| == |b|
    requires forall p :: 1 <= p <= |a| && DataPos(p) ==> a[p - 1] == b[p - 1]
    ensures DataBits(a) == DataBits(b)
    decreases |a|
  {
    if a != [] {
      DataBitsAgree(a[..|a| - 1], b[..|b| - 1]);
    }
  }

  /** Position e of a block inverted; 0 (or a position outside) leaves it alone. */
  function FlipAt(b: seq<bool>, e: int): (r: seq<bool>)
    ensures |r| == |b|
  {
    if 1 <= e <= |b| then b[e - 1 := !b[e - 1]] else b
  }

  lemma FlipTwice(b: seq<bool>, e: int)
    ensures FlipAt(FlipAt(b, e), e) == b
  {
  }

  // ---------------------------------------------------------------- parity

  /** The parity of the members of group c among positions 1..m. */
  function ParityUpTo(b: seq<bool>, c: int, m: nat): bool
    requires c >= 1 && m <= |b|
  {
    if m == 0 then false else ParityUpTo(b, c, m - 1) != (InGroup(m, c) && b[m - 1])
  }

  /** The parity of group c over the whole block. */
  function Parity(b: seq<bool>, c: int): bool
    requires c >= 1
  {
    ParityUpTo(b, c, |b|)
  }

  /** Two blocks that agree on the members of group c have the same parity there. */
  lemma {:induction false} ParityAgree(a: seq<bool>, b: seq<bool>, c: int, m: nat)
    requires c >= 1 && m <= |a| && m <= |b|
    requires forall u :: 1 <= u <= m && InGroup(u, c) ==> a[u - 1] == b[u - 1]
    ensures ParityUpTo(a, c, m) == ParityUpTo(b, c, m)
  {
    if m > 0 {
      ParityAgree(a, b, c, m - 1);
    }
  }

  /** Inverting one bit inverts the parity of exactly the groups it is in. */
  lemma {:induction false} ParityFlip(b: seq<bool>, c: int, m: nat, e: int)
    requires c >= 1 && m <= |b| && 1 <= e <= |b|
    ensures ParityUpTo(FlipAt(b, e), c, m) == (ParityUpTo(b, c, m) != (e <= m && InGroup(e, c)))
  {
    if m > 0 {
      ParityFlip(b, c, m - 1, e);
    }
  }

  /** A group has no members below its control position. */
  lemma {:induction false} ParityBelow(b: seq<bool>, c: int, m: nat)
    requires c >= 1 && m <= |b| && m < c
    ensures !ParityUpTo(b, c, m)
  {
    if m > 0 {
      BelowGroup(m, c);
      ParityBelow(b, c, m - 1);
    }
  }

  /** Parity over a prefix only looks at the prefix. */
  lemma {:induction false} ParityPrefix(b: seq<bool>, c: int, m: nat, k: nat)
    requires c >= 1 && m <= k <= |b|
    ensures ParityUpTo(b[..k], c, m) == ParityUpTo(b, c, m)
  {
    if m > 0 {
      ParityPrefix(b, c, m - 1, k);
    }
  }

  /** The block with every control position set to the parity of its group. */
  function SetControls(b: seq<bool>): (r: seq<bool>)
    ensures |r| == |b|
  {
    seq(|b|, t requires 0 <= t < |b| => if IsControl(t + 1, |b|) then Parity(b, t + 1) else b[t])
  }

  /** The block with its control positions cleared, as the decoder's buffer holds it. */
  function Working(r: seq<bool>, n: int): (w: seq<bool>)
    ensures |w| == |r|
  {
    seq(|r|, t requires 0 <= t < |r| => !IsControl(t + 1, n) && r[t])
  }

  /** Every control position holds the parity of its group's other positions. */
  predicate ParityHolds(b: seq<bool>)
  {
    forall c :: 1 <= c <= |b| && IsControl(c, |b|) ==> b[c - 1] == Parity(Working(b, |b|), c)
  }

  /** The code word the encoder writes for the data bits d. */
  function EncodeBlock(d: seq<bool>, n: nat): (r: seq<bool>)
    ensures |r| == n
  {
    SetControls(Place(d, n))
  }

  /** Clearing the control positions of a code word gives back the laid-out data. */
  lemma EncodeWorking(d: seq<bool>, n: nat)
    ensures Working(EncodeBlock(d, n), n) == Place(d, n)
  {
    var e, p := EncodeBlock(d, n), Place(d, n);
    forall t | 0 <= t < n
      ensures Working(e, n)[t] == p[t]
    {
    }
  }

  /** The data positions of a code word hold the data, zero-padded to a full block. */
  lemma EncodeData(d: seq<bool>, n: nat)
    ensures DataBits(EncodeBlock(d, n)) == Fill(d, DataCount(n))
  {
    var e, p := EncodeBlock(d, n), Place(d, n);
    forall q | 1 <= q <= n && DataPos(q)
      ensures e[q - 1] == p[q - 1]
    {
      assert !IsControl(q, n);
    }
    DataBitsAgree(e, p);
    PlaceData(d, n);
  }

  /** Every control position of a code word holds the parity of its group. */
  lemma EncodeParity(d: seq<bool>, n: nat)
    ensures ParityHolds(EncodeBlock(d, n))
  {
    EncodeWorking(d, n);
  }

  /** When the block size is a power of two, the last position of a code word is 0. */
  lemma EncodeLast(d: seq<bool>, n: nat)
    requires n >= 1 && IsPowOf2(n)
    ensures !EncodeBlock(d, n)[n - 1]
  {
  }

  // ---------------------------------------------------------------- syndrome

  /** The received bit at control position c disagrees with the recomputed parity. */
  predicate Mismatch(r: seq<bool>, c: int)
    requires 1 <= c <= |r|
  {
    r[c - 1] != Parity(Working(r, |r|), c)
  }

  /**
   * The control positions 2^k, 2^(k+1), ... below |r| whose bit disagrees
   * with the recomputed parity, in increasing order.
   */
  function ErrorsFrom(r: seq<bool>, k: nat): (es: seq<int>)
    ensures forall i :: 0 <= i < |es| ==> 1 <= es[i] < |r|
    decreases |r| - Pow2(k)
  {
    if Pow2(k) >= |r| then []
    else (if Mismatch(r, Pow2(k)) then [Pow2(k)] else []) + ErrorsFrom(r, k + 1)
  }

  /** The control positions of a received block whose check fails. */
  function Errors(r: seq<bool>): seq<int>
  {
    ErrorsFrom(r, 0)
  }

  function Sum(s: seq<int>): int
  {
    if s == [] then 0 else s[0] + Sum(s[1..])
  }

  /** The syndrome: the sum of the failing control positions. */
  function Syndrome(r: seq<bool>): int
  {
    Sum(Errors(r))
  }

  /** The received block with the position the syndrome names inverted, if any check failed. */
  function Corrected(r: seq<bool>): (c: seq<bool>)
    ensures |c| == |r|
  {
    if |Errors(r)| > 0 then FlipAt(r, Syndrome(r)) else r
  }

  /** The data bits the decoder takes from one received block. */
  function DecodeBlock(r: seq<bool>): (d: seq<bool>)
    ensures |d| == DataCount(|r|)
  {
    DataBits(Corrected(r))
  }

  /** The first exponent from k on whose power of two reaches n. */
  function StopFrom(n: int, k: nat): (s: nat)
    ensures s >= k && Pow2(s) >= n
    ensures s > k ==> Pow2(s - 1) < n
    decreases n - Pow2(k)
  {
    if Pow2(k) >= n then k else StopFrom(n, k + 1)
  }

  /**
   * After at most one inverted bit at position e (0 for none), the check of
   * control position c fails exactly when e is in c's group.
   */
  lemma MismatchSingle(d: seq<bool>, n: nat, e: int, c: int)
    requires 0 <= e <= n && IsControl(c, n)
    ensures Mismatch(FlipAt(EncodeBlock(d, n), e), c) == InGroup(e, c)
  {
    var code := EncodeBlock(d, n);
    var r := FlipAt(code, e);
    var w := Working(code, n);
    EncodeParity(d, n);
    assert code[c - 1] == Parity(w, c);
    if e == 0 {
      BelowGroup(0, c);
    } else if IsControl(e, n) {
      assert Working(r, n) == w;
      ControlGroup(e, c);
    } else {
      assert Working(r, n) == FlipAt(w, e);
      ParityFlip(w, c, n, e);
    }
  }

  /**
   * When the checks of the control positions fail exactly for the bits of e,
   * the failing positions, counted from 2^k on, add up to the bits of e from
   * 2^k up to the first power of two that reaches |r|.
   */
  lemma ErrorsSum(r: seq<bool>, e: nat, k: nat)
    requires forall j: nat :: Pow2(j) < |r| ==> Mismatch(r, Pow2(j)) == InGroup(e, Pow2(j))
    ensures e % Pow2(k) + Sum(ErrorsFrom(r, k)) == e % Pow2(StopFrom(|r|, k))
    decreases |r| - Pow2(k)
  {
    if Pow2(k) < |r| {
      var head := if Mismatch(r, Pow2(k)) then [Pow2(k)] else [];
      var rest := ErrorsFrom(r, k + 1);
      assert ErrorsFrom(r, k) == head + rest;
      if head != [] {
        SumCons(Pow2(k), rest);
      } else {
        assert head + rest == rest;
      }
      ErrorsSum(r, e, k + 1);
      ModSplit(e, k);
    }
  }

  /**
   * After at most one inverted bit at position e (0 for none), the syndrome
   * names e, except when e is the last position of a block whose size is a
   * power of two: that position is in no group and the syndrome is 0.
   */
  lemma SyndromeSingle(d: seq<bool>, n: nat, e: int)
    requires n >= 1 && 0 <= e <= n
    ensures Syndrome(FlipAt(EncodeBlock(d, n), e)) == if e == n && IsPowOf2(n) then 0 else e
  {
    var r := FlipAt(EncodeBlock(d, n), e);
    forall j: nat | Pow2(j) < n
      ensures Mismatch(r, Pow2(j)) == InGroup(e, Pow2(j))
    {
      PowOf2IsPow2(j);
      MismatchSingle(d, n, e, Pow2(j));
    }
    ErrorsSum(r, e, 0);
    DivUnique(e, 1, e, 0);
    var top := StopFrom(n, 0);
    LastIsTop(n, top);
    if e < Pow2(top) {
      DivUnique(e, Pow2(top), 0, e);
    } else {
      DivUnique(e, Pow2(top), 1, 0);
    }
  }

  /** The first power of two that reaches n is n itself exactly when n is a power of two. */
  lemma LastIsTop(n: nat, top: nat)
    requires n >= 1 && top == StopFrom(n, 0)
    ensures IsPowOf2(n) <==> n == Pow2(top)
  {
    PowOf2Iff(n);
    PowOf2IsPow2(top);
    Pow2Order(Log2(n), top);
    if top > 0 {
      Pow2Order(top - 1, Log2(n));
    }
  }

  /**
   * Single-error correction: whatever single bit of a code word is inverted
   * (or none, e = 0), the decoder takes the encoded data bits back out.
   */
  lemma CorrectsSingleError(d: seq<bool>, n: nat, e: int)
    requires n >= 1 && 0 <= e <= n
    ensures DecodeBlock(FlipAt(EncodeBlock(d, n), e)) == Fill(d, DataCount(n))
  {
    var code := EncodeBlock(d, n);
    var r := FlipAt(code, e);
    SyndromeSingle(d, n, e);
    EncodeData(d, n);
    if e == n && IsPowOf2(n) {
      assert Corrected(r) == r;
      DataBitsAgree(r, code);
    } else {
      FlipTwice(code, e);
      assert Corrected(r) == code;
    }
  }

  /** A full block of data survives any single inverted bit. */
  lemma RoundTripBlock(d: seq<bool>, n: nat, e: int)
    requires n >= 1 && |d| == DataCount(n) && 0 <= e <= n
    ensures DecodeBlock(FlipAt(EncodeBlock(d, n), e)) == d
  {
    CorrectsSingleError(d, n, e);
    FillAll(d);
  }

  lemma SumCons(x: int, s: seq<int>)
    ensures Sum([x] + s) == x + Sum(s)
  {
    assert ([x] + s)[1..] == s;
  }

  /** The failing positions from 2^k on add up to less than the first power of two reaching |r|. */
  lemma ErrorsBound(r: seq<bool>, k: nat)
    ensures 0 <= Sum(ErrorsFrom(r, k)) <= Pow2(StopFrom(|r|, k)) - Pow2(k)
    ensures |ErrorsFrom(r, k)| > 0 ==> Sum(ErrorsFrom(r, k)) >= 1
    decreases |r| - Pow2(k)
  {
    if Pow2(k) < |r| {
      var rest := ErrorsFrom(r, k + 1);
      ErrorsBound(r, k + 1);
      assert StopFrom(|r|, k) == StopFrom(|r|, k + 1);
      assert Pow2(k + 1) == 2 * Pow2(k);
      if Mismatch(r, Pow2(k)) {
        assert ErrorsFrom(r, k) == [Pow2(k)] + rest;
        SumCons(Pow2(k), rest);
      } else {
        assert ErrorsFrom(r, k) == [] + rest;
        assert [] + rest == rest;
      }
    } else {
      assert ErrorsFrom(r, k) == [] && StopFrom(|r|, k) == k;
    }
  }

  /**
   * In a block of at most 80 bits the syndrome is at most 127, so the
   * decoder's `unsigned char` sum never wraps; it is at least 1 when a check failed.
   */
  lemma SyndromeBound(r: seq<bool>)
    requires |r| <= 80
    ensures 0 <= Syndrome(r) <= 127
    ensures |Errors(r)| > 0 ==> Syndrome(r) >= 1
  {
    ErrorsBound(r, 0);
    var top := StopFrom(|r|, 0);
    assert Pow2(7) == 128;
    if top > 0 {
      Pow2Order(top - 1, 7);
    }
    Pow2Order(top, 7);
  }
}
