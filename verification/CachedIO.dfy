/** Cached sequential file access (include/cached_io.h). A plain file is its bytes and a position. */
module CachedIO {
  import opened Wrappers

  type Byte = x: int | 0 <= x < 256

  // What a plain read of n bytes at pos gives; None when they are not all there.
  function PlainRead(file: seq<Byte>, pos: nat, n: nat): Option<seq<Byte>> {
    if pos + n <= |file| then Some(file[pos..pos + n]) else None
  }

  // Reads one after another; one that is rejected consumes nothing.
  function PlainReads(file: seq<Byte>, pos: nat, sizes: seq<nat>): (r: seq<Option<seq<Byte>>>)
    decreases |sizes|
  {
    if sizes == [] then []
    else
      var first := PlainRead(file, pos, sizes[0]);
      [first] + PlainReads(file, if first.Some? then pos + sizes[0] else pos, sizes[1..])
  }

  lemma SplitSlice(s: seq<Byte>, lo: nat, hi: nat, n: nat)
    requires lo + n <= hi <= |s|
    ensures s[lo..hi][..n] == s[lo..lo + n] && s[lo..hi][n..] == s[lo + n..hi]
    ensures s[lo..hi] == s[lo..lo + n] + s[lo + n..hi]
  {
  }

  // Two reads side by side, the second right behind the first.
  lemma Joined(before: seq<Byte>, mid: seq<Byte>, after: seq<Byte>, a: seq<Byte>, b: seq<Byte>)
    requires |a| + |b| <= |before| == |mid| == |after|
    requires mid[..|a|] == a && mid[|a|..] == before[|a|..]
    requires after[..|a|] == mid[..|a|] && after[|a|..|a| + |b|] == b && after[|a| + |b|..] == mid[|a| + |b|..]
    ensures after[..|a| + |b|] == a + b && after[|a| + |b|..] == before[|a| + |b|..]
  {
    assert before[|a| + |b|..] == before[|a|..][|b|..];
    assert mid[|a| + |b|..] == mid[|a|..][|b|..];
  }

  /** cached_ifstream: file and tell are the underlying stream. */
  class CachedInput {
    const file: seq<Byte>
    var tell: nat
    var cacheSize: nat
    var cacheBuf: array<Byte>
    var curOff: nat
    var fsize: nat

    // The unread part of the cache is the stretch of the file just before the stream's position.
    ghost predicate Valid()
      reads this, cacheBuf
    {
      && fsize == |file| && cacheSize == cacheBuf.Length && curOff <= cacheSize
      && cacheSize - curOff <= tell <= |file|
      && cacheBuf[curOff..] == file[tell - (cacheSize - curOff)..tell]
    }

    ghost function Position(): (p: nat)
      requires Valid()
      reads this, cacheBuf
      ensures p <= |file|
    {
      tell - (cacheSize - curOff)
    }

    constructor (contents: seq<Byte>, cache: nat)
      requires cache > 0
      ensures Valid() && fresh(cacheBuf) && file == contents && Position() == 0
    {
      file := contents;
      cacheSize, curOff, tell, fsize := cache, 0, 0, 0;
      cacheBuf := new Byte[0];
      new;
      Open(cache);
    }

    method Open(cache: nat)
      requires cache > 0
      modifies this
      ensures Valid() && fresh(cacheBuf) && Position() == 0
      ensures cacheSize == if cache < |file| then cache else |file|
    {
      curOff := 0;
      fsize := |file|;
      tell := 0;
      cacheSize := if cache < fsize then cache else fsize;
      cacheBuf := new Byte[cacheSize];
      Refill();
    }

    // reader.read(cache_buf, cache_size)
    method Refill()
      requires cacheSize == cacheBuf.Length && tell + cacheSize <= |file|
      modifies this`tell, cacheBuf
      ensures tell == old(tell) + cacheSize && cacheBuf[..] == file[old(tell)..tell]
    {
      forall i | 0 <= i < cacheSize {
        cacheBuf[i] := file[tell + i];
      }
      tell := tell + cacheSize;
    }

    // memcpy(to + at, cache_buf + cur_off, n)
    method CopyCached(to: array<Byte>, n: nat)
      requires Valid() && n <= cacheSize - curOff && n <= to.Length && to != cacheBuf
      modifies to
      ensures Valid() && to[..n] == file[Position()..Position() + n] && to[n..] == old(to[n..])
    {
      ghost var p := Position();
      SplitSlice(file, p, tell, n);
      SplitSlice(cacheBuf[..], curOff, cacheSize, n);
      forall i | 0 <= i < n {
        to[i] := cacheBuf[curOff + i];
      }
      assert to[..n] == cacheBuf[..][curOff..curOff + n];
    }

    // reader.read(to + at, n)
    method ReadDirect(to: array<Byte>, at: nat, n: nat)
      requires tell + n <= |file| && at + n <= to.Length
      modifies to, this`tell
      ensures tell == old(tell) + n
      ensures to[..at] == old(to[..at]) && to[at..at + n] == file[old(tell)..tell] && to[at + n..] == old(to[at + n..])
    {
      forall i | 0 <= i < n {
        to[at + i] := file[tell + i];
      }
      tell := tell + n;
    }

    // The stream fills the cache again if it can; otherwise reads go to the stream directly.
    method RefillIfPossible()
      requires fsize == |file| && cacheSize == cacheBuf.Length == curOff && tell <= |file|
      modifies this`tell, this`curOff, cacheBuf
      ensures Valid() && Position() == old(tell)
    {
      if fsize - tell >= cacheSize {
        Refill();
        curOff := 0;
      }
    }

    // The cache is used up: the rest comes from the stream.
    method ReadPast(to: array<Byte>, n: nat)
      requires Valid() && n <= to.Length && to != cacheBuf
      requires n > cacheSize - curOff && Position() + n <= |file|
      modifies this`tell, this`curOff, cacheBuf, to
      ensures Valid() && Position() == old(Position()) + n && to[..n] == file[old(Position())..old(Position()) + n]
      ensures to[n..] == old(to[n..])
    {
      ghost var p := Position();
      var cached := cacheSize - curOff;
      ghost var before := to[..];
      CopyCached(to, cached);
      ghost var mid := to[..];
      ReadDirect(to, cached, n - cached);
      Joined(before, mid, to[..], file[p..p + cached], file[p + cached..p + n]);
      SplitSlice(file, p, p + n, cached);
      curOff := cacheSize;
      RefillIfPossible();
    }

    /** A read gives the next n bytes of the file, or is rejected, exactly as a plain file at the same position would;
        the cache never shows. */
    method Read(to: array<Byte>, n: nat) returns (ok: bool)
      requires Valid() && n <= to.Length && to != cacheBuf
      modifies this`tell, this`curOff, cacheBuf, to
      ensures Valid()
      ensures ok == PlainRead(file, old(Position()), n).Some?
      ensures ok ==> to[..n] == file[old(Position())..old(Position()) + n] && Position() == old(Position()) + n
      ensures ok ==> to[n..] == old(to[n..])
      ensures !ok ==> to[..] == old(to[..]) && Position() == old(Position())
    {
      ok := true;
      if n <= cacheSize - curOff {
        CopyCached(to, n);
        ghost var p := Position();
        SplitSlice(file, p, tell, n);
        SplitSlice(cacheBuf[..], curOff, cacheSize, n);
        curOff := curOff + n;
      } else if n - (cacheSize - curOff) > fsize - tell {
        ok := false;
      } else {
        ReadPast(to, n);
      }
    }

    /** For any sequence of read sizes: the bytes and the rejections of sequential plain reads. */
    method ReadAll(to: array<Byte>, sizes: seq<nat>) returns (out: seq<Option<seq<Byte>>>)
      requires Valid() && to != cacheBuf && forall i :: 0 <= i < |sizes| ==> sizes[i] <= to.Length
      modifies this`tell, this`curOff, cacheBuf, to
      ensures Valid() && out == PlainReads(file, old(Position()), sizes)
    {
      out := [];
      ghost var start := Position();
      for i := 0 to |sizes|
        invariant Valid()
        invariant PlainReads(file, start, sizes) == out + PlainReads(file, Position(), sizes[i..])
      {
        var n := sizes[i];
        assert sizes[i..][1..] == sizes[i + 1..];
        var ok := Read(to, n);
        out := out + [if ok then Some(to[..n]) else None];
      }
    }
  }

  // Bytes written over a file at pos, which may lie inside it.
  function Overwrite(file: seq<Byte>, pos: nat, bytes: seq<Byte>): (r: seq<Byte>)
    requires pos <= |file|
    ensures |r| == if pos + |bytes| < |file| then |file| else pos + |bytes|
  {
    file[..pos] + bytes + if pos + |bytes| < |file| then file[pos + |bytes|..] else []
  }

  // Two writes in a row are one write.
  lemma OverwriteTwice(file: seq<Byte>, pos: nat, a: seq<Byte>, b: seq<Byte>)
    requires pos <= |file|
    ensures Overwrite(Overwrite(file, pos, a), pos + |a|, b) == Overwrite(file, pos, a + b)
  {
    var mid := Overwrite(file, pos, a);
    assert mid[..pos + |a|] == file[..pos] + a;
  }

  function Flatten(chunks: seq<seq<Byte>>): seq<Byte> {
    if chunks == [] then [] else Flatten(chunks[..|chunks| - 1]) + chunks[|chunks| - 1]
  }

  lemma FlattenNext(chunks: seq<seq<Byte>>, i: nat)
    requires i < |chunks|
    ensures Flatten(chunks[..i + 1]) == Flatten(chunks[..i]) + chunks[i]
  {
    assert chunks[..i + 1][..i] == chunks[..i];
  }

  /** cached_ofstream: disk and tell are the underlying stream. */
  class CachedOutput {
    var disk: seq<Byte>
    var tell: nat
    var isOpen: bool
    const cacheSize: nat
    var cacheBuf: array?<Byte>
    var curOff: nat
    var fsize: nat

    ghost predicate Valid()
      reads this, cacheBuf
    {
      isOpen && cacheBuf != null && cacheBuf.Length == cacheSize && curOff <= cacheSize && tell <= |disk|
    }

    // What the file holds once the cache is on disk, and where the next byte goes.
    ghost function Contents(): seq<Byte>
      requires Valid()
      reads this, cacheBuf
    {
      Overwrite(disk, tell, cacheBuf[..curOff])
    }

    ghost function Position(): (p: nat)
      requires Valid()
      reads this, cacheBuf
      ensures p <= |Contents()|
    {
      tell + curOff
    }

    // Every byte ever written, overwritten ones included.
    ghost function Written(): nat
      reads this
    {
      fsize + curOff
    }

    constructor (cache: nat)
      requires cache > 0
      ensures Valid() && fresh(cacheBuf) && Contents() == [] && Position() == 0 && Written() == 0
    {
      disk, tell, isOpen := [], 0, true;
      cacheSize, curOff, fsize := cache, 0, 0;
      cacheBuf := new Byte[cache];
    }

    // writer.write(bytes)
    method WriteThrough(bytes: seq<Byte>)
      requires tell <= |disk|
      modifies this`disk, this`tell
      ensures disk == Overwrite(old(disk), old(tell), bytes) && tell == old(tell) + |bytes| && tell <= |disk|
    {
      disk := Overwrite(disk, tell, bytes);
      tell := tell + |bytes|;
    }

    method FlushCache()
      requires Valid()
      modifies this`disk, this`tell, this`curOff, this`fsize, cacheBuf
      ensures Valid() && curOff == 0 && disk == old(Contents())
      ensures Contents() == old(Contents()) && Position() == old(Position()) && Written() == old(Written())
    {
      ghost var cached := cacheBuf[..curOff];
      WriteThrough(cacheBuf[..curOff]);
      fsize := fsize + curOff;
      forall i | 0 <= i < cacheSize {
        cacheBuf[i] := 0;
      }
      curOff := 0;
      assert cacheBuf[..0] == [];
    }

    /** A write lands at the logical position, whether cached or written through. */
    method Write(bytes: seq<Byte>)
      requires Valid()
      modifies this`disk, this`tell, this`curOff, this`fsize, cacheBuf
      ensures Valid() && Contents() == Overwrite(old(Contents()), old(Position()), bytes)
      ensures Position() == old(Position()) + |bytes| && Written() == old(Written()) + |bytes|
    {
      ghost var cached := cacheBuf[..curOff];
      OverwriteTwice(disk, tell, cached, bytes);
      if |bytes| <= cacheSize - curOff {
        forall i | 0 <= i < |bytes| {
          cacheBuf[curOff + i] := bytes[i];
        }
        curOff := curOff + |bytes|;
        assert cacheBuf[..curOff] == cached + bytes;
      } else {
        WriteThrough(cacheBuf[..curOff]);
        fsize := fsize + curOff;
        WriteThrough(bytes);
        fsize := fsize + |bytes|;
        forall i | 0 <= i < cacheSize {
          cacheBuf[i] := 0;
        }
        curOff := 0;
      }
    }

    method Reset()
      requires Valid()
      modifies this`disk, this`tell, this`curOff, this`fsize, cacheBuf
      ensures Valid() && Contents() == old(Contents()) && Position() == 0 && Written() == old(Written())
    {
      FlushCache();
      tell := 0;
    }

    method Close()
      requires Valid()
      modifies this, cacheBuf
      ensures !isOpen && cacheBuf == null && disk == old(Contents()) && fsize == old(Written())
    {
      if curOff > 0 {
        FlushCache();
      }
      cacheBuf := null;
      isOpen := false;
    }

    // The bytes written since the logical file was `start` and the logical position `pos`.
    ghost predicate Wrote(start: seq<Byte>, pos: nat, written: nat, bytes: seq<Byte>)
      reads this, cacheBuf
    {
      && Valid() && pos <= |start|
      && Contents() == Overwrite(start, pos, bytes)
      && Position() == pos + |bytes| && Written() == written + |bytes|
    }

    method WriteNext(chunk: seq<Byte>, ghost start: seq<Byte>, ghost pos: nat, ghost written: nat,
                     ghost bytes: seq<Byte>)
      requires Wrote(start, pos, written, bytes)
      modifies this`disk, this`tell, this`curOff, this`fsize, cacheBuf
      ensures Wrote(start, pos, written, bytes + chunk)
    {
      OverwriteTwice(start, pos, bytes, chunk);
      Write(chunk);
    }

    method WriteAll(chunks: seq<seq<Byte>>)
      requires Valid()
      modifies this`disk, this`tell, this`curOff, this`fsize, cacheBuf
      ensures Valid() && Contents() == Overwrite(old(Contents()), old(Position()), Flatten(chunks))
      ensures Position() == old(Position()) + |Flatten(chunks)| && Written() == old(Written()) + |Flatten(chunks)|
    {
      ghost var start, pos, written := Contents(), Position(), Written();
      for i := 0 to |chunks|
        invariant Wrote(start, pos, written, Flatten(chunks[..i]))
      {
        FlattenNext(chunks, i);
        WriteNext(chunks[i], start, pos, written, Flatten(chunks[..i]));
      }
      assert chunks[..|chunks|] == chunks;
    }
  }

  lemma PatchedSize(b: seq<Byte>, header: seq<Byte>)
    ensures Overwrite([], 0, b) == b
    ensures |b| + |header| == |Overwrite(b, 0, header)| <==> header == [] || b == []
  {
  }

  /** The pattern of every writer in the repository: a body, then reset and the final header over its beginning. The
      file is the header followed by the rest of the body; the reported size counts the header a second time, so it is
      the file's size exactly when there was no header to rewrite or no body under it. */
  method WriteThenPatch(chunks: seq<seq<Byte>>, header: seq<Byte>, cache: nat) returns (disk: seq<Byte>, fsize: nat)
    requires cache > 0
    ensures disk == Overwrite(Flatten(chunks), 0, header)
    ensures fsize == |Flatten(chunks)| + |header|
    ensures fsize == |disk| <==> header == [] || Flatten(chunks) == []
  {
    var w := new CachedOutput(cache);
    PatchedSize(Flatten(chunks), header);
    w.WriteAll(chunks);
    w.Reset();
    w.Write(header);
    w.Close();
    disk, fsize := w.disk, w.fsize;
  }
}
