/** Save and restore: a bounded buffer in front of a file that takes and gives any part of what
    is asked for. */
module SaveRestore {

  type Byte = x: int | 0 <= x < 256

  const BUFFER_SIZE: nat := 256 * 1024
  const BUFFER_INSERT_SIZE: nat := 16 * 1024

  /** How the system calls go: each entry is the most that one call transfers, 0 for a call that
      is to be tried again. Past the end of the list a call transfers all that it can. */
  function Got(sched: seq<nat>, remaining: nat): nat {
    if sched == [] || sched[0] > remaining then remaining else sched[0]
  }

  function Later(sched: seq<nat>): seq<nat> {
    if sched == [] then [] else sched[1..]
  }

  // ---------------------------------------------------------------- writing

  class VerilatedSave {
    const bufp: array<Byte>
    var cp: nat
    var file: seq<Byte>
    var sched: seq<nat>

    constructor (sched: seq<nat>)
      ensures Valid() && fresh(bufp) && Contents() == []
    {
      bufp := new Byte[BUFFER_SIZE];
      cp, file := 0, [];
      this.sched := sched;
    }

    /** The cursor is in the buffer, with room for one more block after a check. */
    ghost predicate Valid()
      reads this
    {
      bufp.Length == BUFFER_SIZE && cp <= BUFFER_SIZE
    }

    /** All that has been written. */
    ghost function Contents(): seq<Byte>
      reads this, bufp
      requires Valid()
    {
      file + bufp[..cp]
    }

    /** `flush`, on an open file. */
    method Flush()
      requires Valid()
      modifies this
      ensures Valid() && cp == 0 && Contents() == file == old(Contents())
    {
      var wp: nat := 0;
      while true
        invariant wp <= cp == old(cp) && Valid() && file + bufp[wp..cp] == old(Contents())
        decreases cp - wp, |sched|
      {
        var remaining := cp - wp;
        if remaining == 0 { break; }
        var got := Got(sched, remaining);
        sched := Later(sched);
        if got > 0 {
          assert bufp[wp..cp] == bufp[wp..wp + got] + bufp[wp + got..cp];
          file := file + bufp[wp..wp + got];
          wp := wp + got;
        }
      }
      cp := 0;
    }

    method BufferCheck()
      requires Valid()
      modifies this
      ensures Valid() && Contents() == old(Contents()) && cp + BUFFER_INSERT_SIZE <= BUFFER_SIZE
    {
      if cp > BUFFER_SIZE - BUFFER_INSERT_SIZE { Flush(); }
    }

    /** `write`: block by block, with a check before each. */
    method Write(datap: seq<Byte>)
      requires Valid()
      modifies this, bufp
      ensures Valid() && Contents() == old(Contents()) + datap
    {
      var size: nat := |datap|;
      var dp: nat := 0;
      assert Contents() == Contents() + datap[..0];
      while size != 0
        invariant dp + size == |datap| && Valid() && Contents() == old(Contents()) + datap[..dp]
        decreases size
      {
        BufferCheck();
        var blk := if size > BUFFER_INSERT_SIZE then BUFFER_INSERT_SIZE else size;
        CopyIn(datap, dp, blk);
        assert datap[..dp] + datap[dp..dp + blk] == datap[..dp + blk];
        dp := dp + blk;
        size := size - blk;
      }
      assert datap[..dp] == datap;
    }

    /** The inner loop of `write`. */
    method CopyIn(datap: seq<Byte>, dp0: nat, blk: nat)
      requires Valid() && dp0 + blk <= |datap| && cp + blk <= BUFFER_SIZE
      modifies this`cp, bufp
      ensures Valid() && file == old(file) && Contents() == old(Contents()) + datap[dp0..dp0 + blk]
    {
      ghost var was := bufp[..cp];
      var dp := dp0;
      var maxp := dp + blk;
      while dp < maxp
        invariant dp0 <= dp <= maxp && cp == old(cp) + (dp - dp0) && cp <= BUFFER_SIZE
        invariant bufp[..cp] == was + datap[dp0..dp]
      {
        ghost var part := bufp[..cp];
        bufp[cp] := datap[dp];
        assert bufp[..cp + 1] == part + [datap[dp]];
        cp := cp + 1;
        dp := dp + 1;
      }
      assert file + bufp[..cp] == (file + was) + datap[dp0..dp0 + blk];
    }
  }

  // ---------------------------------------------------------------- reading

  /** A stream goes on with zeros after its end. */
  function ByteAt(s: seq<Byte>, k: nat): Byte {
    if k < |s| then s[k] else 0
  }

  /** The same bytes for ever. */
  ghost predicate SameStream(s: seq<Byte>, t: seq<Byte>) {
    forall k: nat {:trigger ByteAt(s, k)} {:trigger ByteAt(t, k)} :: ByteAt(s, k) == ByteAt(t, k)
  }

  class VerilatedRestore {
    const bufp: array<Byte>
    var cp: nat
    var endp: nat
    var rest: seq<Byte>
    var sched: seq<nat>

    /** `open`: nothing is in the buffer yet. */
    constructor (file: seq<Byte>, sched: seq<nat>)
      ensures Valid() && fresh(bufp) && Pending() == file
    {
      bufp := new Byte[BUFFER_SIZE];
      cp, endp, rest := 0, 0, file;
      this.sched := sched;
    }

    ghost predicate Valid()
      reads this
    {
      bufp.Length == BUFFER_SIZE && cp <= endp <= BUFFER_SIZE
    }

    /** What is still to be read, up to the zeros. */
    ghost function Pending(): seq<Byte>
      reads this, bufp
      requires Valid()
    {
      bufp[cp..endp] + rest
    }

    /** `fill`: move the rest down, then read until the buffer is full. */
    method Fill()
      requires Valid()
      modifies this, bufp
      ensures Valid() && cp == 0 && endp == BUFFER_SIZE && SameStream(Pending(), old(Pending()))
    {
      MoveDown();
      while true
        invariant Valid() && cp == 0 && Pending() == old(Pending())
        decreases BUFFER_SIZE - endp, |sched|
      {
        var remaining := BUFFER_SIZE - endp;
        if remaining == 0 { break; }
        if rest == [] {
          ZeroFill();
          break;
        }
        var got := Got(sched, if remaining < |rest| then remaining else |rest|);
        sched := Later(sched);
        if got > 0 { ReadIn(got); }
      }
    }

    /** The bytes not yet read go to the start; the ranges may overlap. */
    method MoveDown()
      requires Valid()
      modifies this`cp, this`endp, bufp
      ensures Valid() && cp == 0 && Pending() == old(Pending())
    {
      ghost var was := bufp[..];
      var rp: nat := 0;
      var sp := cp;
      while sp < endp
        invariant sp == cp + rp && sp <= endp && cp == old(cp) && endp == old(endp)
        invariant forall k :: 0 <= k < rp ==> bufp[k] == was[cp + k]
        invariant forall k :: sp <= k < endp ==> bufp[k] == was[k]
      {
        bufp[rp] := bufp[sp];
        rp, sp := rp + 1, sp + 1;
      }
      endp := endp - cp;
      cp := 0;
      MovedIs(bufp[..], was, old(cp), old(endp));
      assert bufp[..][..endp] == bufp[cp..endp];
    }

    static lemma MovedIs(now: seq<Byte>, was: seq<Byte>, c: nat, e: nat)
      requires c <= e <= |was| == |now| && forall k :: 0 <= k < e - c ==> now[k] == was[c + k]
      ensures now[..e - c] == was[c..e]
    {
    }

    /** What one system call brings. */
    method ReadIn(got: nat)
      requires Valid() && 0 < got <= |rest| && endp + got <= BUFFER_SIZE
      modifies this`endp, this`rest, bufp
      ensures Valid() && endp == old(endp) + got && Pending() == old(Pending())
    {
      ghost var was := bufp[cp..endp];
      var k: nat := 0;
      while k < got
        invariant k <= got && endp == old(endp) && rest == old(rest) && bufp[cp..endp] == was
        invariant forall i :: 0 <= i < k ==> bufp[endp + i] == rest[i]
      {
        bufp[endp + k] := rest[k];
        k := k + 1;
      }
      assert bufp[cp..endp + got] == was + rest[..got];
      assert rest == rest[..got] + rest[got..];
      endp := endp + got;
      rest := rest[got..];
    }

    /** At the end of the file the buffer is filled with zeros. */
    method ZeroFill()
      requires Valid() && rest == []
      modifies this`endp, bufp
      ensures Valid() && endp == BUFFER_SIZE && SameStream(Pending(), old(Pending()))
    {
      ghost var was := bufp[cp..endp];
      ghost var e := endp;
      while endp < BUFFER_SIZE
        invariant e <= endp <= BUFFER_SIZE && bufp[cp..e] == was
        invariant forall i :: e <= i < endp ==> bufp[i] == 0
      {
        bufp[endp] := 0;
        endp := endp + 1;
      }
      ghost var now := Pending();
      forall k: nat ensures ByteAt(now, k) == ByteAt(was + rest, k) {
        if k < e - cp { assert bufp[cp..e][k] == was[k]; }
      }
    }

    method BufferCheck()
      requires Valid()
      modifies this, bufp
      ensures Valid() && cp + BUFFER_INSERT_SIZE <= endp && SameStream(Pending(), old(Pending()))
    {
      if cp + BUFFER_INSERT_SIZE > endp { Fill(); }
    }

    /** `read`. */
    method Read(size0: nat) returns (datap: seq<Byte>)
      requires Valid()
      modifies this, bufp
      ensures Valid() && |datap| == size0
      ensures IsPart(datap, old(Pending()), 0) && Follows(Pending(), old(Pending()), size0)
    {
      datap := [];
      var size: nat := size0;
      ghost var before := Pending();
      while size != 0
        invariant Valid() && |datap| + size == size0
        invariant IsPart(datap, before, 0) && Follows(Pending(), before, |datap|)
        decreases size
      {
        ghost var p0 := Pending();
        BufferCheck();
        var blk: nat := if size > BUFFER_INSERT_SIZE then BUFFER_INSERT_SIZE else size;
        ghost var p1 := Pending();
        var block := CopyOut(blk);
        ReadStep(datap, before, p0, p1, Pending(), block);
        datap := datap + block;
        size := size - blk;
      }
    }

    /** The inner loop of `read`. */
    method CopyOut(blk: nat) returns (block: seq<Byte>)
      requires Valid() && cp + blk <= endp
      modifies this`cp
      ensures Valid() && |block| == blk && old(Pending()) == block + Pending()
    {
      block := [];
      ghost var c := cp;
      while |block| < blk
        invariant |block| <= blk && cp == c + |block| && block == bufp[c..cp]
      {
        block := block + [bufp[cp]];
        cp := cp + 1;
      }
      assert bufp[c..endp] == bufp[c..cp] + bufp[cp..endp];
    }

    /** `readDiffers`: one check, so no more than a block at a time. */
    method ReadDiffers(datap: seq<Byte>) returns (differs: bool)
      requires Valid() && |datap| <= BUFFER_INSERT_SIZE
      modifies this, bufp
      ensures Valid() && Follows(Pending(), old(Pending()), |datap|)
      ensures differs == !IsPart(datap, old(Pending()), 0)
    {
      ghost var p0 := Pending();
      BufferCheck();
      ghost var p1 := Pending();
      ghost var block;
      differs, block := CompareOut(datap);
      ghost var p2 := Pending();
      FollowsMore(p0, p0, p1, p2, 0, |datap|, block);
      assert Follows(p2, p0, |datap|);
      ComparePart(datap, block, p0);
    }

    /** The loop of `readDiffers`: any difference stays in miss. */
    method CompareOut(datap: seq<Byte>) returns (miss: bool, ghost block: seq<Byte>)
      requires Valid() && cp + |datap| <= endp
      modifies this`cp
      ensures Valid() && |block| == |datap| && old(Pending()) == block + Pending() && miss == (block != datap)
    {
      miss, block := false, [];
      ghost var c := cp;
      var dp: nat := 0;
      while dp < |datap|
        invariant dp <= |datap| && cp == c + dp && block == bufp[c..cp] && miss == (block != datap[..dp])
      {
        if datap[dp] != bufp[cp] { miss := true; }
        SameNext(block, datap, dp, bufp[cp]);
        block := block + [bufp[cp]];
        dp, cp := dp + 1, cp + 1;
      }
      assert datap[..dp] == datap;
      assert bufp[c..endp] == bufp[c..cp] + bufp[cp..endp];
    }
  }

  lemma SameNext(block: seq<Byte>, datap: seq<Byte>, n: nat, x: Byte)
    requires n < |datap| && |block| == n
    ensures block + [x] == datap[..n + 1] <==> block == datap[..n] && x == datap[n]
  {
    assert datap[..n + 1] == datap[..n] + [datap[n]];
    if block + [x] == datap[..n + 1] {
      assert (block + [x])[..n] == block && datap[..n + 1][..n] == datap[..n];
      assert (block + [x])[n] == x;
    }
  }

  /** s is t without its first n bytes. */
  ghost predicate Follows(s: seq<Byte>, t: seq<Byte>, n: nat) {
    forall k: nat {:trigger ByteAt(s, k)} :: ByteAt(s, k) == ByteAt(t, k + n)
  }

  lemma FollowsMore(before: seq<Byte>, p0: seq<Byte>, p1: seq<Byte>, p2: seq<Byte>, n: nat, blk: nat, block: seq<Byte>)
    requires Follows(p0, before, n) && SameStream(p1, p0) && p1 == block + p2 && |block| == blk
    ensures Follows(p2, before, n + blk)
    ensures forall k :: 0 <= k < blk ==> block[k] == ByteAt(before, n + k)
  {
    forall k: nat ensures ByteAt(p2, k) == ByteAt(before, k + (n + blk)) {
      assert ByteAt(p1, k + blk) == ByteAt(p2, k);
      assert ByteAt(p0, k + blk) == ByteAt(before, k + blk + n);
    }
    forall k | 0 <= k < blk ensures block[k] == ByteAt(before, n + k) {
      assert ByteAt(p1, k) == block[k] && ByteAt(p0, k) == ByteAt(before, k + n);
    }
  }

  lemma ComparePart(datap: seq<Byte>, block: seq<Byte>, p: seq<Byte>)
    requires |block| == |datap| && forall k :: 0 <= k < |block| ==> block[k] == ByteAt(p, 0 + k)
    ensures block == datap <==> IsPart(datap, p, 0)
  {
    if IsPart(datap, p, 0) {
      forall k | 0 <= k < |datap| ensures block[k] == datap[k] { assert datap[k] == ByteAt(p, 0 + k); }
    }
  }

  /** One block of a read. */
  lemma ReadStep(datap: seq<Byte>, before: seq<Byte>, p0: seq<Byte>, p1: seq<Byte>, p2: seq<Byte>, block: seq<Byte>)
    requires IsPart(datap, before, 0) && Follows(p0, before, |datap|) && SameStream(p1, p0) && p1 == block + p2
    ensures IsPart(datap + block, before, 0) && Follows(p2, before, |datap + block|)
  {
    FollowsMore(before, p0, p1, p2, |datap|, |block|, block);
    forall k | 0 <= k < |datap| ensures datap[k] == ByteAt(before, k) { assert datap[k] == ByteAt(before, 0 + k); }
    Extend(datap, block, before);
  }

  /** A part of what follows n bytes is a part from n on. */
  lemma PartFollows(chunk: seq<Byte>, p0: seq<Byte>, p1: seq<Byte>, file: seq<Byte>, n: nat)
    requires Follows(p0, file, n) && IsPart(chunk, p0, 0) && Follows(p1, p0, |chunk|)
    ensures IsPart(chunk, file, n) && Follows(p1, file, n + |chunk|)
  {
    forall k | 0 <= k < |chunk| ensures chunk[k] == ByteAt(file, n + k) {
      assert chunk[k] == ByteAt(p0, 0 + k) == ByteAt(file, k + n);
    }
    forall k: nat ensures ByteAt(p1, k) == ByteAt(file, k + (n + |chunk|)) {
      assert ByteAt(p1, k) == ByteAt(p0, k + |chunk|) == ByteAt(file, (k + |chunk|) + n);
    }
  }

  /** The same for the comparison with an expected text. */
  lemma SignatureFollows(text: seq<Byte>, p0: seq<Byte>, p1: seq<Byte>, file: seq<Byte>, n: nat)
    requires Follows(p0, file, n) && Follows(p1, p0, |text|)
    ensures IsPart(text, p0, 0) == IsPart(text, file, n) && Follows(p1, file, n + |text|)
  {
    forall k | 0 <= k < |text| ensures (text[k] == ByteAt(p0, 0 + k)) == (text[k] == ByteAt(file, n + k)) {
      assert ByteAt(p0, k) == ByteAt(file, k + n);
    }
    forall k: nat ensures ByteAt(p1, k) == ByteAt(file, k + (n + |text|)) {
      assert ByteAt(p1, k) == ByteAt(p0, k + |text|) == ByteAt(file, (k + |text|) + n);
    }
  }

  lemma Extend(datap: seq<Byte>, block: seq<Byte>, before: seq<Byte>)
    requires forall k :: 0 <= k < |datap| ==> datap[k] == ByteAt(before, k)
    requires forall k :: 0 <= k < |block| ==> block[k] == ByteAt(before, |datap| + k)
    ensures forall k :: 0 <= k < |datap + block| ==> (datap + block)[k] == ByteAt(before, k)
  {
    forall k | 0 <= k < |datap + block| ensures (datap + block)[k] == ByteAt(before, k) {
      if k >= |datap| {
        var j: nat := k - |datap|;
        assert block[j] == ByteAt(before, |datap| + j);
      }
    }
  }

  // ---------------------------------------------------------------- round trip

  function Joined(chunks: seq<seq<Byte>>): seq<Byte> {
    if chunks == [] then [] else chunks[0] + Joined(chunks[1..])
  }

  const HEADER: seq<Byte>   // "verilatorsave01\n"
    := [118, 101, 114, 105, 108, 97, 116, 111, 114, 115, 97, 118, 101, 48, 49, 10]

  const TRAILER: seq<Byte>  // "vltsaved"
    := [118, 108, 116, 115, 97, 118, 101, 100]

  /** A whole save: open, any writes, close. */
  method SaveAll(header: seq<Byte>, trailer: seq<Byte>, model: seq<Byte>, chunks: seq<seq<Byte>>, sched: seq<nat>)
    returns (file: seq<Byte>)
    ensures file == header + model + Joined(chunks) + trailer
  {
    var os := new VerilatedSave(sched);
    os.Write(header);
    os.Write(model);
    assert os.Contents() + Joined(chunks[0..]) == header + model + Joined(chunks) by {
      assert chunks[0..] == chunks;
    }
    for i := 0 to |chunks|
      invariant fresh(os) && fresh(os.bufp) && os.Valid() &&
                os.Contents() + Joined(chunks[i..]) == header + model + Joined(chunks)
    {
      ghost var was := os.Contents();
      os.Write(chunks[i]);
      assert chunks[i..][1..] == chunks[i + 1..];
      assert (was + chunks[i]) + Joined(chunks[i + 1..]) == was + (chunks[i] + Joined(chunks[i + 1..]));
    }
    os.Write(trailer);
    os.Flush();
    file := os.file;
  }

  /** A whole restore of the same sizes: the bytes read, and whether the signatures were right. */
  method RestoreAll(header: seq<Byte>, trailer: seq<Byte>, file: seq<Byte>, modelSize: nat, sizes: seq<nat>,
                    sched: seq<nat>)
    returns (ok: bool, model: seq<Byte>, chunks: seq<seq<Byte>>)
    requires |header| <= BUFFER_INSERT_SIZE && |trailer| <= BUFFER_INSERT_SIZE
    ensures |model| == modelSize && |chunks| == |sizes| && forall i :: 0 <= i < |sizes| ==> |chunks[i]| == sizes[i]
    ensures ok ==> IsPart(header, file, 0) && IsPart(trailer, file, |header| + |model| + |Joined(chunks)|)
    ensures !ok ==> !IsPart(header, file, 0) || !IsPart(trailer, file, |header| + |model| + |Joined(chunks)|)
    ensures IsPart(model + Joined(chunks), file, |header|)
  {
    var os, d := OpenFile(header, file, sched);
    model := ReadPart(os, modelSize, file, |header|);
    chunks := ReadChunks(os, |header|, model, sizes, file);
    var e := CheckSignature(os, trailer, file, |header| + |model| + |Joined(chunks)|);
    ok := !d && !e;
  }

  /** `open` of a restore, and its header. */
  method OpenFile(header: seq<Byte>, file: seq<Byte>, sched: seq<nat>) returns (os: VerilatedRestore, differs: bool)
    requires |header| <= BUFFER_INSERT_SIZE
    ensures fresh(os) && fresh(os.bufp) && os.Valid() && Follows(os.Pending(), file, |header|)
    ensures differs == !IsPart(header, file, 0)
  {
    os := new VerilatedRestore(file, sched);
    differs := os.ReadDiffers(header);
  }

  method ReadChunks(os: VerilatedRestore, ghost n: nat, ghost model: seq<Byte>, sizes: seq<nat>, ghost file: seq<Byte>)
    returns (chunks: seq<seq<Byte>>)
    requires os.Valid() && IsPart(model, file, n) && Follows(os.Pending(), file, n + |model|)
    modifies os, os.bufp
    ensures os.Valid() && |chunks| == |sizes| && forall i :: 0 <= i < |sizes| ==> |chunks[i]| == sizes[i]
    ensures IsPart(model + Joined(chunks), file, n) && Follows(os.Pending(), file, n + |model| + |Joined(chunks)|)
  {
    chunks := [];
    assert model + Joined([]) == model;
    for i := 0 to |sizes|
      invariant os.Valid() && |chunks| == i
      invariant forall k :: 0 <= k < i ==> |chunks[k]| == sizes[k]
      invariant IsPart(model + Joined(chunks), file, n)
      invariant Follows(os.Pending(), file, n + |model| + |Joined(chunks)|)
    {
      var chunk := ReadPart(os, sizes[i], file, n + |model| + |Joined(chunks)|);
      JoinedMore(chunks, chunk);
      PartMore(model, Joined(chunks), chunk, file, n);
      chunks := chunks + [chunk];
    }
  }

  method ReadPart(os: VerilatedRestore, size: nat, ghost file: seq<Byte>, ghost n: nat) returns (chunk: seq<Byte>)
    requires os.Valid() && Follows(os.Pending(), file, n)
    modifies os, os.bufp
    ensures os.Valid() && |chunk| == size && IsPart(chunk, file, n) && Follows(os.Pending(), file, n + size)
  {
    ghost var p := os.Pending();
    chunk := os.Read(size);
    PartFollows(chunk, p, os.Pending(), file, n);
  }

  method CheckSignature(os: VerilatedRestore, text: seq<Byte>, ghost file: seq<Byte>, ghost n: nat)
    returns (differs: bool)
    requires os.Valid() && |text| <= BUFFER_INSERT_SIZE && Follows(os.Pending(), file, n)
    modifies os, os.bufp
    ensures os.Valid() && differs == !IsPart(text, file, n) && Follows(os.Pending(), file, n + |text|)
  {
    ghost var p := os.Pending();
    differs := os.ReadDiffers(text);
    SignatureFollows(text, p, os.Pending(), file, n);
  }

  /** The bytes of a stand in s from n on. */
  ghost predicate IsPart(a: seq<Byte>, s: seq<Byte>, n: nat) {
    forall k :: 0 <= k < |a| ==> a[k] == ByteAt(s, n + k)
  }

  lemma {:induction false} JoinedMore(chunks: seq<seq<Byte>>, chunk: seq<Byte>)
    ensures Joined(chunks + [chunk]) == Joined(chunks) + chunk
    decreases |chunks|
  {
    if chunks == [] {
      assert [chunk][1..] == [] && chunks + [chunk] == [chunk];
    } else {
      assert (chunks + [chunk])[1..] == chunks[1..] + [chunk];
      JoinedMore(chunks[1..], chunk);
    }
  }

  lemma PartMore(model: seq<Byte>, joined: seq<Byte>, chunk: seq<Byte>, file: seq<Byte>, n: nat)
    requires IsPart(model + joined, file, n) && IsPart(chunk, file, n + |model| + |joined|)
    ensures IsPart(model + (joined + chunk), file, n)
  {
    forall k | 0 <= k < |model + (joined + chunk)| ensures (model + (joined + chunk))[k] == ByteAt(file, n + k) {
      if k < |model + joined| {
        assert (model + joined)[k] == ByteAt(file, n + k);
      } else {
        var j: nat := k - |model + joined|;
        assert chunk[j] == ByteAt(file, n + |model| + |joined| + j);
      }
    }
  }

  /** What is read back is what was written, however the calls were split on either side. */
  lemma RoundTrip(header: seq<Byte>, trailer: seq<Byte>, model: seq<Byte>, chunks: seq<seq<Byte>>, file: seq<Byte>,
                  model2: seq<Byte>, chunks2: seq<seq<Byte>>)
    requires file == header + model + Joined(chunks) + trailer
    requires |model2| == |model| && |chunks2| == |chunks|
    requires forall i :: 0 <= i < |chunks| ==> |chunks2[i]| == |chunks[i]|
    requires IsPart(model2 + Joined(chunks2), file, |header|)
    ensures model2 == model && chunks2 == chunks
    ensures IsPart(header, file, 0) && IsPart(trailer, file, |header| + |model2| + |Joined(chunks2)|)
  {
    SameLength(chunks, chunks2);
    var a, b := model + Joined(chunks), model2 + Joined(chunks2);
    forall k | 0 <= k < |a| ensures a[k] == b[k] {
      assert file[|header| + k] == a[k];
      assert b[k] == ByteAt(file, |header| + k);
    }
    assert a == b;
    assert a[..|model|] == b[..|model|] && a[|model|..] == b[|model|..];
    assert Joined(chunks) == Joined(chunks2);
    SameChunks(chunks, chunks2);
  }

  /** A save and a restore of the same sizes. */
  method SaveThenRestore(model: seq<Byte>, chunks: seq<seq<Byte>>, puts: seq<nat>, gets: seq<nat>)
    returns (ok: bool, model2: seq<Byte>, chunks2: seq<seq<Byte>>)
    ensures ok && model2 == model && chunks2 == chunks
  {
    var file := SaveAll(HEADER, TRAILER, model, chunks, puts);
    var sizes := seq(|chunks|, i requires 0 <= i < |chunks| => |chunks[i]|);
    ok, model2, chunks2 := RestoreAll(HEADER, TRAILER, file, |model|, sizes, gets);
    RoundTrip(HEADER, TRAILER, model, chunks, file, model2, chunks2);
  }

  lemma {:induction false} SameLength(a: seq<seq<Byte>>, b: seq<seq<Byte>>)
    requires |a| == |b| && forall i :: 0 <= i < |a| ==> |a[i]| == |b[i]|
    ensures |Joined(a)| == |Joined(b)|
    decreases |a|
  {
    if a != [] { SameLength(a[1..], b[1..]); }
  }

  lemma {:induction false} SameChunks(a: seq<seq<Byte>>, b: seq<seq<Byte>>)
    requires |a| == |b| && (forall i :: 0 <= i < |a| ==> |a[i]| == |b[i]|) && Joined(a) == Joined(b)
    ensures a == b
    decreases |a|
  {
    if a != [] {
      var n := |a[0]|;
      assert Joined(a)[..n] == a[0] && Joined(b)[..n] == b[0];
      assert Joined(a)[n..] == Joined(a[1..]) && Joined(b)[n..] == Joined(b[1..]);
      SameChunks(a[1..], b[1..]);
      assert a == [a[0]] + a[1..] && b == [b[0]] + b[1..];
    }
  }
}
