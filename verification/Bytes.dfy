/**
  Bytes, byte strings and the fixed-width integers that the programs store in them.
 */
module Bytes {

  type byte = x: int | 0 <= x < 256

  datatype Option<+T> = None | Some(value: T)

  /** A stretch of a buffer: what the programs keep as a (length, pointer) pair. */
  datatype Span = Span(start: nat, size: nat) {

    function End(): nat {
      start + size
    }

    predicate Within(b: seq<byte>) {
      End() <= |b|
    }

    function Of(b: seq<byte>): seq<byte>
      requires Within(b)
    {
      b[start..End()]
    }
  }

  /** The bytes `x` lie in `b` from `at` on. */
  predicate Holds(b: seq<byte>, at: nat, x: seq<byte>) {
    at + |x| <= |b| && b[at..at + |x|] == x
  }

  lemma HoldsAt(b: seq<byte>, at: nat, x: seq<byte>, i: nat)
    requires Holds(b, at, x) && i < |x|
    ensures b[at + i] == x[i]
  {
    assert b[at + i] == b[at..at + |x|][i];
  }

  lemma HoldsParts(b: seq<byte>, at: nat, x: seq<byte>, y: seq<byte>)
    requires Holds(b, at, x + y)
    ensures Holds(b, at, x) && Holds(b, at + |x|, y)
  {
    assert b[at..at + |x|] == b[at..at + |x + y|][..|x|];
    assert b[at + |x|..at + |x| + |y|] == b[at..at + |x + y|][|x|..];
  }

  /** A suffix that starts with `x` holds `x`, and the rest follows it. */
  lemma SuffixParts(b: seq<byte>, at: nat, x: seq<byte>, rest: seq<byte>)
    requires at <= |b| && b[at..] == x + rest
    ensures Holds(b, at, x)
    ensures at + |x| <= |b| && b[at + |x|..] == rest
  {
    assert b[at..at + |x|] == b[at..][..|x|];
    assert b[at + |x|..] == b[at..][|x|..];
  }

  // ---------------------------------------------------------------- concatenation

  function Concat(parts: seq<seq<byte>>): seq<byte> {
    if parts == [] then [] else parts[0] + Concat(parts[1..])
  }

  lemma {:induction false} ConcatSplit(xs: seq<seq<byte>>, ys: seq<seq<byte>>)
    ensures Concat(xs + ys) == Concat(xs) + Concat(ys)
  {
    if xs == [] {
      assert xs + ys == ys;
    } else {
      assert (xs + ys)[1..] == xs[1..] + ys;
      ConcatSplit(xs[1..], ys);
    }
  }

  lemma ConcatOne(x: seq<byte>)
    ensures Concat([x]) == x
  {
    assert Concat([x]) == x + Concat([]);
  }

  lemma Assoc<T>(a: seq<T>, b: seq<T>, c: seq<T>)
    ensures a + (b + c) == (a + b) + c
  {
  }

  function Sum(ns: seq<nat>): nat {
    if ns == [] then 0 else ns[0] + Sum(ns[1..])
  }

  lemma {:induction false} SumSplit(xs: seq<nat>, ys: seq<nat>)
    ensures Sum(xs + ys) == Sum(xs) + Sum(ys)
  {
    if xs == [] {
      assert xs + ys == ys;
    } else {
      assert (xs + ys)[1..] == xs[1..] + ys;
      SumSplit(xs[1..], ys);
    }
  }

  function Lengths(parts: seq<seq<byte>>): (ns: seq<nat>)
    ensures |ns| == |parts|
  {
    seq(|parts|, i requires 0 <= i < |parts| => |parts[i]|)
  }

  lemma LengthsCons(p: seq<byte>, parts: seq<seq<byte>>)
    ensures Lengths([p] + parts) == [|p|] + Lengths(parts)
  {
  }

  lemma LengthsSnoc(parts: seq<seq<byte>>, p: seq<byte>)
    ensures Sum(Lengths(parts + [p])) == Sum(Lengths(parts)) + |p|
  {
    assert Lengths(parts + [p]) == Lengths(parts) + [|p|];
    SumSplit(Lengths(parts), [|p|]);
    assert Sum([|p|]) == |p| + Sum([]);
  }

  lemma {:induction false} ConcatLength(parts: seq<seq<byte>>)
    ensures |Concat(parts)| == Sum(Lengths(parts))
  {
    if parts != [] {
      assert Lengths(parts)[1..] == Lengths(parts[1..]);
      ConcatLength(parts[1..]);
    }
  }

  /** What a list of spans shows of a buffer. */
  function Contents(b: seq<byte>, spans: seq<Span>): (r: seq<seq<byte>>)
    requires forall s <- spans :: s.Within(b)
    ensures |r| == |spans|
    ensures forall i :: 0 <= i < |spans| ==> spans[i] in spans && r[i] == spans[i].Of(b)
  {
    seq(|spans|, i requires 0 <= i < |spans| => spans[i].Of(b))
  }

  /** The same spans, seen from a buffer that starts `base` bytes earlier. */
  function Shift(base: nat, spans: seq<Span>): (r: seq<Span>)
    ensures |r| == |spans|
    ensures forall i :: 0 <= i < |r| ==> r[i] == Span(base + spans[i].start, spans[i].size)
  {
    seq(|spans|, i requires 0 <= i < |spans| => Span(base + spans[i].start, spans[i].size))
  }

  lemma ShiftCons(base: nat, s: Span, rest: seq<Span>)
    ensures Shift(base, [s] + rest) == [Span(base + s.start, s.size)] + Shift(base, rest)
  {
  }

  /** Spans of a part of a buffer show the same bytes when they are seen from the whole. */
  lemma ShiftedContents(b: seq<byte>, part: Span, spans: seq<Span>)
    requires part.Within(b) && forall s <- spans :: s.Within(part.Of(b))
    ensures forall s <- Shift(part.start, spans) :: s.Within(b)
    ensures Contents(b, Shift(part.start, spans)) == Contents(part.Of(b), spans)
  {
    var shifted := Shift(part.start, spans);
    forall i | 0 <= i < |spans|
      ensures shifted[i].Within(b) && shifted[i].Of(b) == spans[i].Of(part.Of(b))
    {
      assert spans[i] in spans;
      SliceOfSlice(b, part, spans[i]);
    }
  }

  lemma SliceOfSlice(b: seq<byte>, part: Span, s: Span)
    requires part.Within(b) && s.Within(part.Of(b))
    ensures Span(part.start + s.start, s.size).Within(b)
    ensures Span(part.start + s.start, s.size).Of(b) == s.Of(part.Of(b))
  {
  }

  lemma ContentsSplit(b: seq<byte>, spans: seq<Span>)
    requires spans != [] && forall s <- spans :: s.Within(b)
    ensures forall s <- spans[1..] :: s.Within(b)
    ensures spans[0].Within(b) && Contents(b, spans)[0] == spans[0].Of(b)
    ensures Contents(b, spans)[1..] == Contents(b, spans[1..])
  {
    assert spans[0] in spans;
  }

  lemma ContentsSnoc(b: seq<byte>, spans: seq<Span>, s: Span)
    requires s.Within(b) && forall t <- spans :: t.Within(b)
    ensures forall t <- spans + [s] :: t.Within(b)
    ensures Contents(b, spans + [s]) == Contents(b, spans) + [s.Of(b)]
  {
  }

  // ---------------------------------------------------------------- fixed-width integers

  function Pow256(k: nat): (p: nat)
    ensures p > 0
  {
    if k == 0 then 1 else 256 * Pow256(k - 1)
  }

  /** Shifting right by `8 * i` bits, byte by byte. */
  function ShiftRightBytes(n: nat, i: nat): nat {
    if i == 0 then n else ShiftRightBytes(n / 256, i - 1)
  }

  /** The low `k` bytes of `n`, most significant first. */
  function BigEndian(n: nat, k: nat): (s: seq<byte>)
    ensures |s| == k
  {
    if k == 0 then [] else BigEndian(n / 256, k - 1) + [n % 256]
  }

  function FromBigEndian(s: seq<byte>): nat {
    if s == [] then 0 else FromBigEndian(s[..|s| - 1]) * 256 + s[|s| - 1]
  }

  /** Byte `k - 1 - i` of the big-endian form is the value shifted right by `i` bytes. */
  lemma {:induction false} BigEndianAt(n: nat, k: nat, i: nat)
    requires i < k
    ensures BigEndian(n, k)[k - 1 - i] == ShiftRightBytes(n, i) % 256
  {
    if i > 0 {
      BigEndianAt(n / 256, k - 1, i - 1);
    }
  }

  /** Reading back what was written keeps exactly the low `k` bytes of the value. */
  lemma {:induction false} BigEndianTruncates(n: nat, k: nat)
    ensures FromBigEndian(BigEndian(n, k)) == n % Pow256(k)
  {
    if k > 0 {
      var s := BigEndian(n, k);
      assert s[..k - 1] == BigEndian(n / 256, k - 1);
      BigEndianTruncates(n / 256, k - 1);
      ModStep(n, Pow256(k - 1));
    }
  }

  lemma ModStep(n: nat, m: nat)
    requires m > 0
    ensures (n / 256) % m * 256 + n % 256 == n % (256 * m)
  {
    var q, r := n / 256 / m, (n / 256) % m;
    assert n / 256 == q * m + r;
    assert n == (256 * m) * q + (r * 256 + n % 256);
    assert 0 <= r * 256 + n % 256 < 256 * m;
    ModUnique(n, 256 * m, q, r * 256 + n % 256);
  }

  lemma ModUnique(n: nat, d: nat, q: nat, r: nat)
    requires 0 <= r < d && n == d * q + r
    ensures n % d == r
  {
    var q', r' := n / d, n % d;
    if q' > q {
      MulMonotonic(d, q + 1, q');
    } else if q' < q {
      MulMonotonic(d, q' + 1, q);
    }
  }

  lemma MulMonotonic(d: nat, x: int, y: int)
    requires x <= y
    ensures d * x <= d * y
  {
  }

  /** The size field survives exactly when the value fits it. */
  lemma BigEndianRoundTrip(n: nat, k: nat)
    ensures FromBigEndian(BigEndian(n, k)) == n <==> n < Pow256(k)
  {
    BigEndianTruncates(n, k);
  }

  /** The low `k` bytes of `n`, least significant first (how the host stores a `uint64_t`). */
  function LittleEndian(n: nat, k: nat): (s: seq<byte>)
    ensures |s| == k
  {
    if k == 0 then [] else [n % 256] + LittleEndian(n / 256, k - 1)
  }

  function FromLittleEndian(s: seq<byte>): nat {
    if s == [] then 0 else s[0] + 256 * FromLittleEndian(s[1..])
  }

  lemma {:induction false} LittleEndianTruncates(n: nat, k: nat)
    ensures FromLittleEndian(LittleEndian(n, k)) == n % Pow256(k)
  {
    if k > 0 {
      LittleEndianTruncates(n / 256, k - 1);
      ModStep(n, Pow256(k - 1));
    }
  }

  lemma LittleEndianRoundTrip(n: nat, k: nat)
    ensures FromLittleEndian(LittleEndian(n, k)) == n <==> n < Pow256(k)
  {
    LittleEndianTruncates(n, k);
  }

  // ---------------------------------------------------------------- byte by byte

  lemma BigEndianStep(n: nat, k: nat)
    requires k > 0
    ensures BigEndian(n, k) == BigEndian(n / 0x100, k - 1) + [n % 0x100]
    ensures BigEndian(n, 0) == []
  {
  }

  /** The two, three or four bytes of a size, high byte first. */
  lemma BigEndianBytes(n: nat)
    ensures BigEndian(n, 2) == [n / 0x100 % 0x100, n % 0x100]
    ensures BigEndian(n, 3) == [n / 0x1_0000 % 0x100, n / 0x100 % 0x100, n % 0x100]
    ensures BigEndian(n, 4) == [n / 0x100_0000 % 0x100, n / 0x1_0000 % 0x100, n / 0x100 % 0x100, n % 0x100]
  {
    hide *;
    var n1, n2, n3 := n / 0x100, n / 0x1_0000, n / 0x100_0000;
    assert n2 == n1 / 0x100 && n3 == n2 / 0x100;
    BigEndianStep(n, 2);
    BigEndianStep(n, 3);
    BigEndianStep(n, 4);
    BigEndianStep(n1, 1);
    BigEndianStep(n1, 2);
    BigEndianStep(n1, 3);
    BigEndianStep(n2, 1);
    BigEndianStep(n2, 2);
    BigEndianStep(n3, 1);
  }

  lemma LittleEndianStep(n: nat, k: nat)
    requires k > 0
    ensures LittleEndian(n, k) == [n % 0x100] + LittleEndian(n / 0x100, k - 1)
  {
  }

  /** The eight bytes of a `uint64_t`, low byte first. */
  lemma LittleEndianBytes(n: nat)
    ensures LittleEndian(n, 8)
         == [n % 0x100, n / 0x100 % 0x100, n / 0x1_0000 % 0x100, n / 0x100_0000 % 0x100,
             n / 0x1_0000_0000 % 0x100, n / 0x100_0000_0000 % 0x100,
             n / 0x1_0000_0000_0000 % 0x100, n / 0x100_0000_0000_0000 % 0x100]
  {
    hide *;
    var n1, n2, n3 := n / 0x100, n / 0x1_0000, n / 0x100_0000;
    var n4, n5 := n / 0x1_0000_0000, n / 0x100_0000_0000;
    var n6, n7 := n / 0x1_0000_0000_0000, n / 0x100_0000_0000_0000;
    assert n2 == n1 / 0x100 && n3 == n2 / 0x100 && n4 == n3 / 0x100;
    assert n5 == n4 / 0x100 && n6 == n5 / 0x100 && n7 == n6 / 0x100;
    LittleEndianStep(n, 8);
    LittleEndianStep(n1, 7);
    LittleEndianStep(n2, 6);
    LittleEndianStep(n3, 5);
    LittleEndianStep(n4, 4);
    LittleEndianStep(n5, 3);
    LittleEndianStep(n6, 2);
    LittleEndianStep(n7, 1);
  }
}
