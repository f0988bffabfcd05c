/**
 Octets, byte orders, alignment, and the cells an encoder writes.

 The cursor of Fast-CDR steps over alignment padding without storing anything there, so an
 encoding is not a string of octets: it is a string of cells, some of which are gaps whose
 contents are whatever the buffer held before.
 */
module Wire {

  type byte = x: int | 0 <= x < 256

  datatype Option<+T> = None | Some(value: T)

  datatype Endian = Little | Big

  const TWO_TO_THE_31 := 0x8000_0000
  const TWO_TO_THE_32 := 0x1_0000_0000

  // ---------------------------------------------------------------------------------------
  // Fixed-width numbers
  // ---------------------------------------------------------------------------------------

  function Pow256(n: nat): (p: nat)
    ensures p > 0
  {
    if n == 0 then 1 else 256 * Pow256(n - 1)
  }

  function LittleOctets(w: nat, v: nat): (s: seq<byte>)
    ensures |s| == w
  {
    if w == 0 then [] else [v % 256] + LittleOctets(w - 1, v / 256)
  }

  function LittleValue(s: seq<byte>): nat
  {
    if s == [] then 0 else s[0] + 256 * LittleValue(s[1..])
  }

  function BigOctets(w: nat, v: nat): (s: seq<byte>)
    ensures |s| == w
  {
    if w == 0 then [] else BigOctets(w - 1, v / 256) + [v % 256]
  }

  function BigValue(s: seq<byte>): nat
  {
    if s == [] then 0 else 256 * BigValue(s[..|s| - 1]) + s[|s| - 1]
  }

  function NumberOctets(e: Endian, w: nat, v: nat): (s: seq<byte>)
    ensures |s| == w
  {
    if e.Little? then LittleOctets(w, v) else BigOctets(w, v)
  }

  function NumberValue(e: Endian, s: seq<byte>): nat
  {
    if e.Little? then LittleValue(s) else BigValue(s)
  }

  lemma {:induction false} LittleRoundTrip(w: nat, v: nat)
    requires v < Pow256(w)
    ensures LittleValue(LittleOctets(w, v)) == v
  {
    if w > 0 {
      LittleRoundTrip(w - 1, v / 256);
      assert LittleOctets(w, v)[1..] == LittleOctets(w - 1, v / 256);
    }
  }

  lemma {:induction false} BigRoundTrip(w: nat, v: nat)
    requires v < Pow256(w)
    ensures BigValue(BigOctets(w, v)) == v
  {
    if w > 0 {
      BigRoundTrip(w - 1, v / 256);
      assert BigOctets(w, v)[..w - 1] == BigOctets(w - 1, v / 256);
    }
  }

  /** A number that fits its width is read back unchanged, in either byte order. */
  lemma NumberRoundTrip(e: Endian, w: nat, v: nat)
    requires v < Pow256(w)
    ensures NumberValue(e, NumberOctets(e, w, v)) == v
  {
    LittleRoundTrip(w, v);
    BigRoundTrip(w, v);
  }

  lemma PowersOf256()
    ensures Pow256(1) == 0x100
    ensures Pow256(2) == 0x1_0000
    ensures Pow256(4) == TWO_TO_THE_32
    ensures Pow256(8) == 0x1_0000_0000_0000_0000
  {
    assert Pow256(2) == 256 * Pow256(1);
    assert Pow256(3) == 256 * Pow256(2);
    assert Pow256(4) == 256 * Pow256(3);
    assert Pow256(5) == 256 * Pow256(4);
    assert Pow256(6) == 256 * Pow256(5);
    assert Pow256(7) == 256 * Pow256(6);
    assert Pow256(8) == 256 * Pow256(7);
  }

  // ---------------------------------------------------------------------------------------
  // Alignment
  // ---------------------------------------------------------------------------------------

  /** The item sizes of section 9.3.1.1 of CORBA 3.3 Part 2. */
  type Width = a: nat | a == 1 || a == 2 || a == 4 || a == 8 witness 1

  /** The distance from `pos` back to the multiple of `a` at or below it. */
  function Misalignment(pos: nat, a: Width): (d: nat)
    ensures d < a && d <= pos
  {
    if a == 1 then 0 else if a == 2 then pos % 2 else if a == 4 then pos % 4 else pos % 8
  }

  predicate Aligned(pos: nat, a: Width)
  {
    Misalignment(pos, a) == 0
  }

  function AlignUp(pos: nat, a: Width): (p: nat)
    ensures pos <= p < pos + a
    ensures Aligned(p, a)
    ensures Aligned(pos, a) ==> p == pos
  {
    var d := Misalignment(pos, a);
    if d == 0 then pos else pos + (a - d)
  }

  /** AlignUp is the least multiple of `a` at or above `pos`. */
  lemma AlignUpLeast(pos: nat, a: Width, q: nat)
    requires pos <= q && Aligned(q, a)
    ensures AlignUp(pos, a) <= q
  {
  }

  lemma AlignUpMonotone(p: nat, q: nat, a: Width)
    requires p <= q
    ensures AlignUp(p, a) <= AlignUp(q, a)
  {
  }

  /** Positions that differ by a multiple of `a` receive the same padding. */
  lemma AlignUpShift(p: nat, d: nat, a: Width)
    requires Aligned(d, a)
    ensures AlignUp(p + d, a) == AlignUp(p, a) + d
  {
    MisalignmentShift(p, d, a);
  }

  lemma MisalignmentShift(p: nat, d: nat, a: Width)
    requires Aligned(d, a)
    ensures Misalignment(p + d, a) == Misalignment(p, a)
  {
    if a == 2 {
      Shift2(p / 2, p % 2, d / 2);
    } else if a == 4 {
      Shift4(p / 4, p % 4, d / 4);
    } else if a == 8 {
      Shift8(p / 8, p % 8, d / 8);
    }
  }

  lemma Shift2(q: nat, r: nat, k: nat)
    requires r < 2
    ensures (2 * q + r + 2 * k) % 2 == r
  {
  }

  lemma Shift4(q: nat, r: nat, k: nat)
    requires r < 4
    ensures (4 * q + r + 4 * k) % 4 == r
  {
  }

  lemma Shift8(q: nat, r: nat, k: nat)
    requires r < 8
    ensures (8 * q + r + 8 * k) % 8 == r
  {
  }

  // ---------------------------------------------------------------------------------------
  // Cells
  // ---------------------------------------------------------------------------------------

  datatype Cell = Gap | Octet(b: byte)

  function Gaps(n: nat): (c: seq<Cell>)
    ensures |c| == n
  {
    seq(n, _ => Gap)
  }

  function Octets(s: seq<byte>): (c: seq<Cell>)
    ensures |c| == |s|
    ensures forall i :: 0 <= i < |s| ==> c[i] == Octet(s[i])
  {
    seq(|s|, i requires 0 <= i < |s| => Octet(s[i]))
  }

  /** Buffer `buf` holds `cells` from position `at` on; what lies in the gaps does not matter. */
  ghost predicate Holds(buf: seq<byte>, at: nat, cells: seq<Cell>)
  {
    && at + |cells| <= |buf|
    && forall i :: 0 <= i < |cells| && cells[i].Octet? ==> buf[at + i] == cells[i].b
  }

  lemma HoldsSplit(buf: seq<byte>, at: nat, x: seq<Cell>, y: seq<Cell>)
    ensures Holds(buf, at, x + y) <==> Holds(buf, at, x) && Holds(buf, at + |x|, y)
  {
    if Holds(buf, at, x + y) {
      forall i | 0 <= i < |x| && x[i].Octet?
        ensures buf[at + i] == x[i].b
      {
        assert (x + y)[i] == x[i];
      }
      forall i | 0 <= i < |y| && y[i].Octet?
        ensures buf[at + |x| + i] == y[i].b
      {
        assert (x + y)[|x| + i] == y[i];
      }
    }
    if Holds(buf, at, x) && Holds(buf, at + |x|, y) {
      forall i | 0 <= i < |x + y| && (x + y)[i].Octet?
        ensures buf[at + i] == (x + y)[i].b
      {
        if i >= |x| {
          assert (x + y)[i] == y[i - |x|];
        }
      }
    }
  }

  lemma HoldsOctets(buf: seq<byte>, at: nat, s: seq<byte>)
    ensures Holds(buf, at, Octets(s)) <==> at + |s| <= |buf| && buf[at..at + |s|] == s
  {
    if at + |s| <= |buf| && buf[at..at + |s|] == s {
      forall i | 0 <= i < |s|
        ensures buf[at + i] == Octets(s)[i].b
      {
        assert buf[at..at + |s|][i] == s[i];
      }
    }
    if Holds(buf, at, Octets(s)) {
      forall i | 0 <= i < |s|
        ensures buf[at + i] == s[i]
      {
        assert Octets(s)[i] == Octet(s[i]);
      }
    }
  }

  /** The buffer after the cells have been written at `at`. */
  function Overlay(buf: seq<byte>, at: nat, cells: seq<Cell>): (r: seq<byte>)
    requires at + |cells| <= |buf|
    ensures |r| == |buf|
    ensures Holds(r, at, cells)
    ensures r[..at] == buf[..at] && r[at + |cells|..] == buf[at + |cells|..]
  {
    seq(|buf|, i requires 0 <= i < |buf| =>
      if at <= i < at + |cells| && cells[i - at].Octet? then cells[i - at].b else buf[i])
  }

  lemma OverlayConcat(buf: seq<byte>, at: nat, x: seq<Cell>, y: seq<Cell>)
    requires at + |x| + |y| <= |buf|
    ensures Overlay(Overlay(buf, at, x), at + |x|, y) == Overlay(buf, at, x + y)
  {
  }

  function Zeros(n: nat): (z: seq<byte>)
    ensures |z| == n
  {
    seq(n, _ => 0)
  }

  /** The octets a buffer of zeros holds after the cells have been written to it. */
  function Fill(cells: seq<Cell>): (s: seq<byte>)
    ensures |s| == |cells|
    ensures Holds(s, 0, cells)
  {
    seq(|cells|, i requires 0 <= i < |cells| => if cells[i].Octet? then cells[i].b else 0)
  }
}
