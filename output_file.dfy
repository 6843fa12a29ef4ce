/** The output file the icon is written to: positioned writes into a growable byte buffer,
    with the semantics of a Python binary file opened "wb". */
module OutputFiles {
  import opened Bytes

  function Max(a: nat, b: nat): nat { if a >= b then a else b }

  /** The content of a file after writing s at position at: s replaces what was there, the file
      grows to cover the write, and a gap between the old end and at reads as zero bytes. */
  function Overwrite(content: seq<byte>, at: nat, s: seq<byte>): (r: seq<byte>)
    ensures |r| == Max(|content|, at + |s|)
  {
    seq(Max(|content|, at + |s|), i =>
      if at <= i < at + |s| then s[i - at] else if 0 <= i < |content| then content[i] else 0)
  }

  /** Byte by byte: a covered byte comes from s, any other from the old content, or is zero. */
  lemma {:induction false} OverwriteBytes(content: seq<byte>, at: nat, s: seq<byte>)
    ensures forall i | 0 <= i < |Overwrite(content, at, s)| ::
      Overwrite(content, at, s)[i]
        == if at <= i < at + |s| then s[i - at] else if i < |content| then content[i] else 0
  {
  }

  /** Writing at the end appends. */
  lemma {:induction false} OverwriteAtEnd(content: seq<byte>, s: seq<byte>)
    ensures Overwrite(content, |content|, s) == content + s
  {
    var r := Overwrite(content, |content|, s);
    OverwriteBytes(content, |content|, s);
    assert forall i | 0 <= i < |r| :: r[i] == (content + s)[i];
  }

  /** Writing inside the file replaces exactly the bytes covered. */
  lemma {:induction false} OverwriteInside(content: seq<byte>, at: nat, s: seq<byte>)
    requires at + |s| <= |content|
    ensures Overwrite(content, at, s) == content[..at] + s + content[at + |s|..]
  {
    var r := Overwrite(content, at, s);
    var q := content[..at] + s + content[at + |s|..];
    OverwriteBytes(content, at, s);
    assert |r| == |q|;
    forall i | 0 <= i < |r| ensures r[i] == q[i] {
      if i < at {
      } else if i < at + |s| {
        assert q[i] == s[i - at];
      } else {
        assert q[i] == content[at + |s|..][i - at - |s|];
      }
    }
  }

  /** Two writes back to back are one write of both. */
  lemma {:induction false} OverwriteTwice(content: seq<byte>, at: nat, s: seq<byte>, t: seq<byte>)
    ensures Overwrite(Overwrite(content, at, s), at + |s|, t) == Overwrite(content, at, s + t)
  {
    var r := Overwrite(Overwrite(content, at, s), at + |s|, t);
    var q := Overwrite(content, at, s + t);
    OverwriteBytes(Overwrite(content, at, s), at + |s|, t);
    OverwriteBytes(content, at, s);
    OverwriteBytes(content, at, s + t);
    assert |r| == |q|;
    forall i | 0 <= i < |r| ensures r[i] == q[i] {
      if at <= i < at + |s| {
        assert (s + t)[i - at] == s[i - at];
      } else if at + |s| <= i < at + |s| + |t| {
        assert (s + t)[i - at] == t[i - at - |s|];
      }
    }
  }

  /** An open output file: the first size bytes of buf are its content, pos its write position. */
  class OutputFile {
    var buf: array<byte>
    var size: nat
    var pos: nat

    ghost predicate Valid()
      reads this
    {
      size <= buf.Length
    }

    /** The bytes the file holds. */
    ghost function Contents(): seq<byte>
      reads this, buf
      requires Valid()
    {
      buf[..size]
    }

    /** A newly created, empty file, positioned at its start. */
    constructor ()
      ensures Valid() && Contents() == [] && pos == 0
      ensures fresh(buf)
    {
      buf := new byte[0];
      size := 0;
      pos := 0;
    }

    /** `seek(offset)`: move the write position; the content is unchanged. */
    method Seek(offset: nat)
      requires Valid()
      modifies this`pos
      ensures Valid() && pos == offset
      ensures Contents() == old(Contents())
    {
      pos := offset;
    }

    /** Makes room for end bytes without changing the content or the position. */
    method Reserve(end: nat)
      requires Valid()
      modifies this
      ensures Valid() && end <= buf.Length
      ensures buf == old(buf) || fresh(buf)
      ensures size == old(size) && pos == old(pos)
      ensures Contents() == old(Contents())
    {
      if buf.Length < end {
        var grown := new byte[Max(end, 2 * buf.Length)];
        forall i | 0 <= i < size {
          grown[i] := buf[i];
        }
        buf := grown;
      }
    }

    /** `write(s)`: s replaces the bytes from the position on, and the position moves past it. */
    method Write(s: seq<byte>)
      requires Valid()
      modifies this, buf
      ensures Valid()
      ensures buf == old(buf) || fresh(buf)
      ensures Contents() == Overwrite(old(Contents()), old(pos), s)
      ensures pos == old(pos) + |s|
    {
      var end := pos + |s|;
      Reserve(end);
      ghost var before := Contents();
      forall i | size <= i < pos {
        buf[i] := 0;
      }
      forall i | pos <= i < end {
        buf[i] := s[i - pos];
      }
      var oldPos := pos;
      size := Max(size, end);
      pos := end;
      ghost var after := Overwrite(before, oldPos, s);
      OverwriteBytes(before, oldPos, s);
      assert |Contents()| == |after|;
      forall i | 0 <= i < size ensures Contents()[i] == after[i] {
        if oldPos <= i < end {
        } else if i < |before| {
          assert before[i] == Contents()[i];
        }
      }
    }
  }
}
