/**
 The part of Fast-CDR's `Cdr` the codec uses: a cursor over a raw buffer that cannot grow.
 An `ok` of false is the exception NotEnoughMemory (or BadParam) thrown by the operation.
 */
module CdrStream {
  import opened Wire
  import opened Encoding

  /** What a write from `from` does to a buffer; one that fails leaves the first of its cells. */
  ghost predicate Wrote(before: seq<byte>, after: seq<byte>, limit: nat, from: nat, cells: seq<Cell>, ok: bool)
  {
    && from <= limit <= |before|
    && (ok ==> WroteFirst(before, after, limit, from, cells, |cells|))
    && (!ok ==> exists n: nat :: WroteFirst(before, after, limit, from, cells, n))
  }

  ghost predicate WroteFirst(before: seq<byte>, after: seq<byte>, limit: nat, from: nat, cells: seq<Cell>, n: nat)
  {
    n <= |cells| && from + n <= limit <= |before| && after == Overlay(before, from, cells[..n])
  }

  lemma WroteNothing(before: seq<byte>, limit: nat, from: nat, cells: seq<Cell>)
    requires from <= limit <= |before|
    ensures Wrote(before, before, limit, from, [], true)
    ensures Wrote(before, before, limit, from, cells, false)
  {
    assert Overlay(before, from, []) == before;
    assert cells[..0] == [];
    assert WroteFirst(before, before, limit, from, cells, 0);
  }

  lemma WroteGaps(before: seq<byte>, limit: nat, from: nat, n: nat)
    requires from + n <= limit <= |before|
    ensures Wrote(before, before, limit, from, Gaps(n), true)
  {
    assert Overlay(before, from, Gaps(n)) == before;
    assert Gaps(n)[..n] == Gaps(n);
  }

  lemma WroteAll(before: seq<byte>, after: seq<byte>, limit: nat, from: nat, cells: seq<Cell>)
    requires from + |cells| <= limit <= |before|
    ensures Wrote(before, after, limit, from, cells, true) <==> after == Overlay(before, from, cells)
  {
    assert cells[..|cells|] == cells;
  }

  lemma WroteBoth(before: seq<byte>, mid: seq<byte>, after: seq<byte>, limit: nat, from: nat, x: seq<Cell>, y: seq<Cell>, ok: bool)
    requires Wrote(before, mid, limit, from, x, true)
    requires Wrote(mid, after, limit, from + |x|, y, ok)
    ensures Wrote(before, after, limit, from, x + y, ok)
  {
    WroteAll(before, mid, limit, from, x);
    var n: nat :| WroteFirst(mid, after, limit, from + |x|, y, n) && (ok ==> n == |y|);
    assert (x + y)[..|x| + n] == x + y[..n];
    OverlayConcat(before, from, x, y[..n]);
    assert WroteFirst(before, after, limit, from, x + y, |x| + n);
  }

  /** A write that failed among the first of some cells is a failed write of all of them. */
  lemma WroteBadly(before: seq<byte>, after: seq<byte>, limit: nat, from: nat, x: seq<Cell>, y: seq<Cell>)
    requires Wrote(before, after, limit, from, x, false) && x <= y
    ensures Wrote(before, after, limit, from, y, false)
  {
    var n: nat :| WroteFirst(before, after, limit, from, x, n);
    assert x[..n] == y[..n];
    assert WroteFirst(before, after, limit, from, y, n);
  }

  class Cdr {
    const buffer: array<byte>
    const limit: nat
    var endian: Endian
    var origin: nat
    var offset: nat

    ghost predicate Valid()
      reads this
    {
      origin <= offset <= limit <= buffer.Length
    }

    /** The position that alignment is computed from. */
    ghost function Position(): nat
      requires Valid()
      reads this
    {
      offset - origin
    }

    /** The octets from the alignment origin on. */
    ghost function Body(): seq<byte>
      requires Valid()
      reads this, buffer
    {
      buffer[origin..limit]
    }

    constructor (buffer: array<byte>, limit: nat, endian: Endian)
      requires limit <= buffer.Length
      ensures Valid() && this.buffer == buffer && this.limit == limit && this.endian == endian
      ensures origin == 0 && offset == 0
    {
      this.buffer := buffer;
      this.limit := limit;
      this.endian := endian;
      this.origin := 0;
      this.offset := 0;
    }

    method ResetAlignment()
      requires Valid()
      modifies this`origin
      ensures Valid() && origin == offset
    {
      origin := offset;
    }

    // -------------------------------------------------------------------------------------
    // Writing
    // -------------------------------------------------------------------------------------

    method PutOctets(s: seq<byte>) returns (ok: bool)
      requires Valid()
      modifies this`offset, buffer
      ensures Valid()
      ensures ok <==> old(offset) + |s| <= limit
      ensures ok ==> offset == old(offset) + |s|
      ensures Wrote(old(buffer[..]), buffer[..], limit, old(offset), Octets(s), ok)
    {
      hide Wrote, WroteFirst;
      ghost var before := buffer[..];
      if limit - offset < |s| {
        WroteNothing(before, limit, offset, Octets(s));
        return false;
      }
      for i := 0 to |s|
        modifies buffer
        invariant forall k :: 0 <= k < i ==> buffer[offset + k] == s[k]
        invariant forall k :: 0 <= k < buffer.Length && !(offset <= k < offset + i) ==> buffer[k] == before[k]
      {
        buffer[offset + i] := s[i];
      }
      assert buffer[..] == Overlay(before, offset, Octets(s));
      WroteAll(before, buffer[..], limit, offset, Octets(s));
      offset := offset + |s|;
      ok := true;
    }

    /** Steps over the padding, then stores the number; the padding keeps its old contents. */
    method PutNumber(w: Width, v: nat) returns (ok: bool)
      requires Valid()
      modifies this`offset, buffer
      ensures Valid()
      ensures ok <==> old(offset) + |NumberCells(endian, w, v, old(Position()))| <= limit
      ensures ok ==> offset == old(offset) + |NumberCells(endian, w, v, old(Position()))|
      ensures Wrote(old(buffer[..]), buffer[..], limit, old(offset), NumberCells(endian, w, v, old(Position())), ok)
    {
      hide AlignUp, Overlay, Octets, Gaps, NumberCells, Wrote, NumberOctets;
      var padding := AlignUp(offset - origin, w) - (offset - origin);
      if limit - offset < padding + w {
        WroteNothing(buffer[..], limit, offset, NumberCells(endian, w, v, Position()));
        return false;
      }
      ghost var before, from := buffer[..], offset;
      NumberCellsParts(endian, w, v, Position());
      WroteGaps(before, limit, from, padding);
      offset := offset + padding;
      ok := PutOctets(NumberOctets(endian, w, v));
      WroteBoth(before, before, buffer[..], limit, from, Gaps(padding), Octets(NumberOctets(endian, w, v)), ok);
    }

    /** A `uint32_t`: the cast keeps the low 32 bits. */
    method PutWord(v: nat) returns (ok: bool)
      requires Valid()
      modifies this`offset, buffer
      ensures Valid()
      ensures ok <==> old(offset) + |WordCells(endian, v, old(Position()))| <= limit
      ensures ok ==> offset == old(offset) + |WordCells(endian, v, old(Position()))|
      ensures Wrote(old(buffer[..]), buffer[..], limit, old(offset), WordCells(endian, v, old(Position())), ok)
    {
      ok := PutNumber(4, v % TWO_TO_THE_32);
    }

    method PutString(s: seq<byte>) returns (ok: bool)
      requires Valid()
      modifies this`offset, buffer
      ensures Valid()
      ensures ok <==> old(offset) + |StringCells(endian, s, old(Position()))| <= limit
      ensures ok ==> offset == old(offset) + |StringCells(endian, s, old(Position()))|
      ensures Wrote(old(buffer[..]), buffer[..], limit, old(offset), StringCells(endian, s, old(Position())), ok)
    {
      ghost var before, from, cells := buffer[..], offset, WordCells(endian, |s| + 1, Position());
      ok := PutWord(|s| + 1);
      if ok {
        ghost var mid := buffer[..];
        ok := PutOctets(s + [0]);
        WroteBoth(before, mid, buffer[..], limit, from, cells, Octets(s + [0]), ok);
      } else {
        WroteBadly(before, buffer[..], limit, from, cells, StringCells(endian, s, old(Position())));
      }
    }

    /** One word per UTF-16 unit. */
    method PutWideString(s: seq<nat>) returns (ok: bool)
      requires Valid()
      modifies this`offset, buffer
      ensures Valid()
      ensures ok <==> old(offset) + |WideStringCells(endian, s, old(Position()))| <= limit
      ensures ok ==> offset == old(offset) + |WideStringCells(endian, s, old(Position()))|
      ensures Wrote(old(buffer[..]), buffer[..], limit, old(offset), WideStringCells(endian, s, old(Position())), ok)
    {
      hide WordCells, WideStringCells, WideCells, Wrote;
      ghost var before, from, pos := buffer[..], offset, Position();
      ghost var done := WordCells(endian, |s|, pos);
      ghost var total := WideStringCells(endian, s, pos);
      WideStringParts(endian, s, pos);
      ok := PutWord(|s|);
      var i := 0;
      assert s[0..] == s && s[|s|..] == [];
      NoWideCells(endian);
      while ok && i < |s|
        invariant Valid() && i <= |s|
        invariant Wrote(before, buffer[..], limit, from, done, ok)
        invariant ok ==> offset == from + |done| && total == done + WideCells(endian, s[i..], pos + |done|)
        invariant done <= total
        invariant !ok ==> from + |total| > limit
        decreases |s| - i, ok
      {
        ghost var c := WordCells(endian, s[i], pos + |done|);
        ghost var mid := buffer[..];
        WideCellsStep(endian, s, i, pos, done);
        ok := PutWord(s[i]);
        WroteBoth(before, mid, buffer[..], limit, from, done, c, ok);
        done := done + c;
        i := i + 1;
      }
      if ok {
        assert total == done + [] == done;
      } else {
        WroteBadly(before, buffer[..], limit, from, done, total);
      }
    }

    /** The encapsulation header: PLAIN_CDR in this stream's byte order, no options. */
    method SerializeEncapsulation() returns (ok: bool)
      requires Valid()
      modifies this`offset, this`origin, buffer
      ensures Valid()
      ensures ok <==> old(offset) + 4 <= limit
      ensures ok ==> offset == origin == old(offset) + 4
      ensures Wrote(old(buffer[..]), buffer[..], limit, old(offset), Octets(Header(endian)), ok)
    {
      ok := PutOctets(Header(endian));
      if ok {
        ResetAlignment();
      }
    }

    // -------------------------------------------------------------------------------------
    // Reading
    // -------------------------------------------------------------------------------------

    method GetNumber(w: Width) returns (ok: bool, v: nat)
      requires Valid()
      modifies this`offset
      ensures Valid()
      ensures ReadNumber(endian, w, Body(), old(Position())) == if ok then Got(v, Position()) else Fail
    {
      var from := origin + AlignUp(offset - origin, w);
      if from + w > limit {
        return false, 0;
      }
      hide AlignUp, NumberValue;
      SubSlice(buffer[..], origin, limit, from - origin, from - origin + w);
      assert buffer[origin..limit] == buffer[..][origin..limit];
      assert buffer[from..from + w] == buffer[..][from..from + w];
      v := NumberValue(endian, buffer[from..from + w]);
      offset := from + w;
      ok := true;
    }

    method GetString() returns (ok: bool, s: seq<byte>)
      requires Valid()
      modifies this`offset
      ensures Valid()
      ensures ReadString(endian, Body(), old(Position())) == if ok then Got(s, Position()) else Fail
    {
      hide ReadNumber;
      var n;
      ok, n := GetNumber(4);
      if !ok || n == 0 {
        return ok, [];
      }
      if offset + n > limit {
        return false, [];
      }
      var from := offset;
      assert buffer[from + n - 1] == Body()[from - origin + n - 1];
      assert buffer[from..from + n - 1] == Body()[from - origin..from - origin + n - 1];
      assert buffer[from..from + n] == Body()[from - origin..from - origin + n];
      offset := offset + n;
      s := if buffer[from + n - 1] == 0 then buffer[from..from + n - 1] else buffer[from..from + n];
    }

    /** Fills the string by index, each word cut to 16 bits. */
    method GetWideString() returns (ok: bool, s: seq<nat>)
      requires Valid()
      modifies this`offset
      ensures Valid()
      ensures ReadWideString(endian, Body(), old(Position())) == if ok then Got(s, Position()) else Fail
    {
      hide ReadNumber;
      s := [];
      var n;
      ok, n := GetNumber(4);
      if !ok {
        return;
      }
      ghost var start := Position();
      ghost var whole := ReadWide(endian, n, Body(), start);
      var i := 0;
      PrependNone(whole);
      while ok && i < n
        invariant Valid() && i <= n
        invariant ok ==> whole == Prepend(s, ReadWide(endian, n - i, Body(), Position()))
        invariant !ok ==> whole == Fail
        decreases n - i, ok
      {
        ghost var rest := ReadWide(endian, n - i, Body(), Position());
        var c;
        ok, c := GetNumber(4);
        if ok {
          PrependOnce(s, c % 0x1_0000, ReadWide(endian, n - i - 1, Body(), Position()));
          s := s + [c % 0x1_0000];
        }
        i := i + 1;
      }
      assert s + [] == s;
    }

    /** jump: false, and the cursor stays, unless so many octets remain. */
    method Jump(size: nat) returns (ok: bool)
      requires Valid()
      modifies this`offset
      ensures Valid()
      ensures ok <==> old(offset) + size <= limit
      ensures offset == if ok then old(offset) + size else old(offset)
    {
      ok := size <= limit - offset;
      if ok {
        offset := offset + size;
      }
    }

    /** Tries a jump and takes it back: the cursor does not move, only the answer counts. */
    method CheckSequenceSize(size: nat) returns (ok: bool)
      requires Valid()
      modifies this`offset
      ensures Valid() && offset == old(offset)
      ensures ok <==> size <= limit - offset
    {
      var state := offset;
      ok := Jump(size);
      offset := state;
    }

    /** Takes the byte order from the header; encapsulations other than PLAIN_CDR are refused. */
    method ReadEncapsulation() returns (ok: bool)
      requires Valid()
      modifies this`offset, this`origin, this`endian
      ensures Valid()
      ensures ok <==> old(offset) + 4 <= limit && HeaderEndian(buffer[old(offset)..old(offset) + 4]).Some?
      ensures ok ==> offset == origin == old(offset) + 4
      ensures ok ==> HeaderEndian(buffer[old(offset)..old(offset) + 4]) == Some(endian)
    {
      if limit - offset < 4 {
        return false;
      }
      var header := buffer[offset..offset + 4];
      match HeaderEndian(header)
      case None => ok := false;
      case Some(e) =>
        endian := e;
        offset := offset + 4;
        ResetAlignment();
        ok := true;
    }
  }

  function Header(e: Endian): (h: seq<byte>)
    ensures |h| == 4
  {
    [0, if e.Little? then 1 else 0, 0, 0]
  }

  /** The byte order a PLAIN_CDR header announces. */
  function HeaderEndian(h: seq<byte>): Option<Endian>
    requires |h| == 4
  {
    if h[0] != 0 || h[1] > 1 then None else Some(if h[1] == 1 then Little else Big)
  }

  lemma HeaderReadBack(e: Endian)
    ensures HeaderEndian(Header(e)) == Some(e)
  {
  }

  function Prepend<T>(done: seq<T>, rest: Read<seq<T>>): Read<seq<T>>
  {
    if rest.Fail? then Fail else Got(done + rest.value, rest.pos)
  }

  lemma PrependNone<T>(rest: Read<seq<T>>)
    ensures Prepend([], rest) == rest
  {
    if rest.Got? {
      assert [] + rest.value == rest.value;
    }
  }

  lemma PrependOnce<T>(done: seq<T>, v: T, rest: Read<seq<T>>)
    ensures Prepend(done, Prepend([v], rest)) == Prepend(done + [v], rest)
  {
    if rest.Got? {
      assert done + ([v] + rest.value) == (done + [v]) + rest.value;
    }
  }

  lemma NoWideCells(e: Endian)
    ensures forall pos: nat :: WideCells(e, [], pos) == []
  {
  }

  lemma WideCellsStep(e: Endian, s: seq<nat>, i: nat, pos: nat, done: seq<Cell>)
    requires i < |s|
    ensures var c := WordCells(e, s[i], pos + |done|);
      done + WideCells(e, s[i..], pos + |done|) == (done + c) + WideCells(e, s[i + 1..], pos + |done + c|)
  {
    hide WordCells;
    assert s[i..][1..] == s[i + 1..];
  }

  lemma SubSlice<T>(s: seq<T>, from: nat, to: nat, i: nat, j: nat)
    requires i <= j && from + j <= to <= |s|
    ensures s[from..to][i..j] == s[from + i..from + j]
  {
    var x, y := s[from..to][i..j], s[from + i..from + j];
    assert forall k :: 0 <= k < j - i ==> x[k] == s[from..to][i + k] == s[from + i + k] == y[k];
    assert x == y;
  }

  lemma NumberCellsParts(e: Endian, w: Width, v: nat, pos: nat)
    ensures NumberCells(e, w, v, pos) == Gaps(AlignUp(pos, w) - pos) + Octets(NumberOctets(e, w, v))
  {
  }

  lemma WideStringParts(e: Endian, s: seq<nat>, pos: nat)
    ensures var c := WordCells(e, |s|, pos);
      WideStringCells(e, s, pos) == c + WideCells(e, s, pos + |c|)
  {
  }
}
