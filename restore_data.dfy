/** Capturing and restoring the bytes of the region list: the guarded byte
    copy, the snapshot buffer filled region by region in list order, the
    copy back in the same order, and the two globals the engine keeps. The
    program's memory is an array indexed by address; the snapshot buffer is
    a separate array whose own address (where malloc placed it) is an input,
    because the copy guard tests both pointers. */
module RestoreData {
  import opened RestoreInfo

  /** restore_memcpy treats any address below this as invalid. */
  const COPY_GUARD: nat := 0x1000

  /** The guard of restore_memcpy: both pointers at or above COPY_GUARD. */
  predicate Copies(dstAddr: nat, srcAddr: nat) {
    dstAddr >= COPY_GUARD && srcAddr >= COPY_GUARD
  }

  /** restore_memcpy: copy sz bytes from src (at index srcAt, address
      srcAddr) to dst (at index dstAt, address dstAddr), or nothing at all
      when either address is below the guard. */
  method RestoreMemcpy(dst: array<byte>, dstAt: nat, dstAddr: nat,
                       src: array<byte>, srcAt: nat, srcAddr: nat, sz: nat)
    requires dst != src
    requires Copies(dstAddr, srcAddr) ==> dstAt + sz <= dst.Length && srcAt + sz <= src.Length
    modifies dst
    ensures dst[..] == if Copies(dstAddr, srcAddr)
                       then old(dst[..dstAt]) + src[srcAt..srcAt + sz] + old(dst[dstAt + sz..])
                       else old(dst[..])
  {
    if dstAddr < COPY_GUARD || srcAddr < COPY_GUARD {
      return;
    }
    var i := 0;
    while i < sz
      invariant i <= sz
      invariant forall k :: 0 <= k < dst.Length ==>
        dst[k] == if dstAt <= k < dstAt + i then src[srcAt + (k - dstAt)] else old(dst[k])
    {
      dst[dstAt + i] := src[srcAt + i];
      i := i + 1;
    }
    CopiedSlices(old(dst[..]), dst[..], src[..], dstAt, srcAt, sz);
  }


  // ---------------------------------------------------------------------
  // The list as save and restore walk it: up to the first all-zero record

  predicate Terminated(s: seq<Record>) {
    TERMINATOR in s
  }

  /** Where the `iter->ptr || iter->size` walk stops. */
  function TermIndex(s: seq<Record>): (n: nat)
    requires Terminated(s)
    ensures n < |s| && s[n] == TERMINATOR
    ensures forall i :: 0 <= i < n ==> s[i] != TERMINATOR
  {
    if s[0] == TERMINATOR then 0 else 1 + TermIndex(s[1..])
  }

  function Regions(s: seq<Record>): seq<Record>
    requires Terminated(s)
  {
    s[..TermIndex(s)]
  }

  /** Every region the guard lets through lies inside memory. */
  predicate Mapped(rs: seq<Record>, memLen: nat) {
    forall i :: 0 <= i < |rs| ==> rs[i].ptr >= COPY_GUARD ==> rs[i].ptr + rs[i].size <= memLen
  }

  /** Region r, at buffer offset off, passes the copy guard in both directions. */
  predicate RegionCopied(r: Record, off: nat, bufAddr: nat) {
    Copies(r.ptr, bufAddr + off)
  }

  lemma TotalPrefix(rs: seq<Record>, i: nat)
    requires i < |rs|
    ensures Total(rs[..i + 1]) == Total(rs[..i]) + rs[i].size
  {
    assert rs[..i + 1][..i] == rs[..i];
  }

  lemma {:induction false} TotalPrefixBound(rs: seq<Record>, i: nat)
    requires i <= |rs|
    ensures Total(rs[..i]) <= Total(rs)
    decreases |rs| - i
  {
    if i < |rs| {
      TotalPrefix(rs, i);
      TotalPrefixBound(rs, i + 1);
    } else {
      assert rs[..i] == rs;
    }
  }

  /** buf holds, at each guarded region's offset, that region's bytes of mem. */
  predicate Saved(buf: seq<byte>, mem: seq<byte>, rs: seq<Record>, bufAddr: nat)
    decreases |rs|
  {
    rs == [] ||
    var n := |rs| - 1;
    var r := rs[n];
    var off := Total(rs[..n]);
    && Saved(buf, mem, rs[..n], bufAddr)
    && (RegionCopied(r, off, bufAddr) ==>
          && off + r.size <= |buf|
          && r.ptr + r.size <= |mem|
          && buf[off..off + r.size] == mem[r.ptr..r.ptr + r.size])
  }

  /** One region written back: restore_memcpy(r.ptr, buf + off, r.size). */
  function WriteRegion(mem: seq<byte>, buf: seq<byte>, r: Record, off: nat, bufAddr: nat): (m: seq<byte>)
    requires RegionCopied(r, off, bufAddr) ==> r.ptr + r.size <= |mem| && off + r.size <= |buf|
    ensures |m| == |mem|
  {
    if RegionCopied(r, off, bufAddr) then mem[..r.ptr] + buf[off..off + r.size] + mem[r.ptr + r.size..]
    else mem
  }

  /** Memory after writing every region back from buf, in list order. */
  function Restored(mem: seq<byte>, buf: seq<byte>, rs: seq<Record>, bufAddr: nat): (m: seq<byte>)
    requires Mapped(rs, |mem|) && Total(rs) <= |buf|
    ensures |m| == |mem|
    decreases |rs|
  {
    if rs == [] then mem
    else
      var n := |rs| - 1;
      assert Mapped(rs[..n], |mem|);
      WriteRegion(Restored(mem, buf, rs[..n], bufAddr), buf, rs[n], Total(rs[..n]), bufAddr)
  }

  /** Restored on one more region of rs, unfolded once. */
  lemma RestoredStep(mem: seq<byte>, buf: seq<byte>, rs: seq<Record>, i: nat, bufAddr: nat)
    requires i < |rs| && Total(rs[..i + 1]) == Total(rs[..i]) + rs[i].size <= |buf|
    requires Mapped(rs[..i], |mem|) && Mapped(rs[..i + 1], |mem|)
    requires rs[i].ptr >= COPY_GUARD ==> rs[i].ptr + rs[i].size <= |mem|
    ensures Restored(mem, buf, rs[..i + 1], bufAddr)
      == WriteRegion(Restored(mem, buf, rs[..i], bufAddr), buf, rs[i], Total(rs[..i]), bufAddr)
  {
    assert rs[..i + 1][..i] == rs[..i];
  }

  /** Address a lies in a region that passes the copy guard. */
  predicate Covered(rs: seq<Record>, bufAddr: nat, a: nat)
    decreases |rs|
  {
    rs != [] &&
    var n := |rs| - 1;
    || Covered(rs[..n], bufAddr, a)
    || (RegionCopied(rs[n], Total(rs[..n]), bufAddr) && rs[n].ptr <= a < rs[n].ptr + rs[n].size)
  }

  lemma MappedPrefix(rs: seq<Record>, i: nat, memLen: nat)
    requires Mapped(rs, memLen) && i <= |rs|
    ensures Mapped(rs[..i], memLen)
  {
  }

  lemma {:induction false} SavedFrame(b1: seq<byte>, b2: seq<byte>, mem: seq<byte>, rs: seq<Record>, bufAddr: nat)
    requires Saved(b1, mem, rs, bufAddr)
    requires Total(rs) <= |b1| && Total(rs) <= |b2|
    requires b1[..Total(rs)] == b2[..Total(rs)]
    ensures Saved(b2, mem, rs, bufAddr)
    decreases |rs|
  {
    if rs != [] {
      var n := |rs| - 1;
      var r := rs[n];
      var off := Total(rs[..n]);
      assert b1[..off] == b1[..Total(rs)][..off];
      assert b2[..off] == b2[..Total(rs)][..off];
      SavedFrame(b1, b2, mem, rs[..n], bufAddr);
      if RegionCopied(r, off, bufAddr) {
        assert b2[off..off + r.size] == b2[..Total(rs)][off..off + r.size];
        assert b1[off..off + r.size] == b1[..Total(rs)][off..off + r.size];
      }
    }
  }

  /** A byte-by-byte copy of sz bytes to offset off, as a splice of sequences. */
  lemma CopiedSlices(before: seq<byte>, after: seq<byte>, src: seq<byte>, off: nat, at: nat, sz: nat)
    requires |before| == |after| && off + sz <= |after| && at + sz <= |src|
    requires forall k :: 0 <= k < |after| ==>
      after[k] == if off <= k < off + sz then src[at + (k - off)] else before[k]
    ensures after == before[..off] + src[at..at + sz] + before[off + sz..]
  {
    var spliced := before[..off] + src[at..at + sz] + before[off + sz..];
    forall k | 0 <= k < |after|
      ensures after[k] == spliced[k]
    {
      if k < off {
      } else if k < off + sz {
        assert spliced[k] == src[at..at + sz][k - off];
      } else {
        assert spliced[k] == before[off + sz..][k - off - sz];
      }
    }
  }

  /** Saved on a list with one more region, unfolded once. */
  lemma SavedSnoc(buf: seq<byte>, mem: seq<byte>, pre: seq<Record>, r: Record, bufAddr: nat)
    ensures Saved(buf, mem, pre + [r], bufAddr) <==>
      && Saved(buf, mem, pre, bufAddr)
      && (RegionCopied(r, Total(pre), bufAddr) ==>
            && Total(pre) + r.size <= |buf|
            && r.ptr + r.size <= |mem|
            && buf[Total(pre)..Total(pre) + r.size] == mem[r.ptr..r.ptr + r.size])
  {
    var grown := pre + [r];
    assert grown[..|grown| - 1] == pre;
  }

  /** One more region copied into the buffer, nothing before its offset touched. */
  lemma SavedStep(before: seq<byte>, after: seq<byte>, mem: seq<byte>, pre: seq<Record>, r: Record, bufAddr: nat)
    requires |before| == |after| && Total(pre) + r.size <= |after|
    requires Saved(before, mem, pre, bufAddr)
    requires before[..Total(pre)] == after[..Total(pre)]
    requires RegionCopied(r, Total(pre), bufAddr) ==>
      && r.ptr + r.size <= |mem|
      && after[Total(pre)..Total(pre) + r.size] == mem[r.ptr..r.ptr + r.size]
    ensures Saved(after, mem, pre + [r], bufAddr)
  {
    SavedFrame(before, after, mem, pre, bufAddr);
    SavedSnoc(after, mem, pre, r, bufAddr);
  }

  /** The round trip: after saving from m0, memory changed arbitrarily to m1
      and restored from the saved buffer holds m0's bytes at every address of
      a guarded region and m1's everywhere else. */
  lemma {:induction false} SaveRestoreRoundTrip(m0: seq<byte>, m1: seq<byte>, buf: seq<byte>, rs: seq<Record>, bufAddr: nat)
    requires |m0| == |m1| && Mapped(rs, |m0|) && Total(rs) <= |buf|
    requires Saved(buf, m0, rs, bufAddr)
    ensures forall a :: 0 <= a < |m1| ==>
      Restored(m1, buf, rs, bufAddr)[a] == if Covered(rs, bufAddr, a) then m0[a] else m1[a]
    decreases |rs|
  {
    if rs != [] {
      var n := |rs| - 1;
      var r := rs[n];
      var off := Total(rs[..n]);
      assert Mapped(rs[..n], |m0|);
      SaveRestoreRoundTrip(m0, m1, buf, rs[..n], bufAddr);
      var prev := Restored(m1, buf, rs[..n], bufAddr);
      var next := Restored(m1, buf, rs, bufAddr);
      assert next == WriteRegion(prev, buf, r, off, bufAddr);
      forall a | 0 <= a < |m1|
        ensures next[a] == if Covered(rs, bufAddr, a) then m0[a] else m1[a]
      {
        if RegionCopied(r, off, bufAddr) && r.ptr <= a < r.ptr + r.size {
          assert next[a] == buf[off..off + r.size][a - r.ptr];
          assert m0[r.ptr..r.ptr + r.size][a - r.ptr] == m0[a];
        } else if RegionCopied(r, off, bufAddr) {
          assert next[a] == prev[a];
        }
      }
    }
  }

  // ---------------------------------------------------------------------
  // Save and restore

  /** The first walk of usfstl_save_restore_data: the sum of the region
      sizes up to the terminator. */
  method RegionsSize(info: array<Record>) returns (total: nat)
    requires Terminated(info[..])
    ensures total == Total(Regions(info[..]))
  {
    ghost var rs := Regions(info[..]);
    ghost var n := TermIndex(info[..]);
    var iter := 0;
    total := 0;
    while info[iter].ptr != 0 || info[iter].size != 0
      invariant iter <= n
      invariant total == Total(rs[..iter])
      decreases n - iter
    {
      assert info[iter] == rs[iter];
      TotalPrefix(rs, iter);
      total := total + info[iter].size;
      iter := iter + 1;
    }
    assert info[iter] == TERMINATOR;
    assert rs[..iter] == rs;
  }

  /** One pass of the copy walk of usfstl_save_restore_data: region i of rs
      into the buffer at offset off, behind the regions already saved. */
  method SaveRegion(data: array<byte>, mem: array<byte>, r: Record, off: nat, dataAddr: nat,
                    ghost rs: seq<Record>, ghost i: nat)
    requires data != mem
    requires i < |rs| && r == rs[i] && off == Total(rs[..i]) && Total(rs) <= data.Length
    requires Mapped(rs, mem.Length)
    requires Saved(data[..], mem[..], rs[..i], dataAddr)
    modifies data
    ensures off + r.size == Total(rs[..i + 1]) <= Total(rs)
    ensures data[..] == if RegionCopied(r, off, dataAddr)
                        then old(data[..off]) + mem[r.ptr..r.ptr + r.size] + old(data[off + r.size..])
                        else old(data[..])
    ensures Saved(data[..], mem[..], rs[..i + 1], dataAddr)
  {
    TotalPrefix(rs, i);
    TotalPrefixBound(rs, i + 1);
    ghost var before := data[..];
    RestoreMemcpy(data, off, dataAddr + off, mem, r.ptr, r.ptr, r.size);
    SavedStep(before, data[..], mem[..], rs[..i], r, dataAddr);
    assert rs[..i + 1] == rs[..i] + [r];
  }

  /** usfstl_save_restore_data: size the buffer to the sum of the region
      sizes, then copy each region into it in list order. dataAddr is the
      address malloc returned. */
  method SaveRestoreData(info: array<Record>, mem: array<byte>, dataAddr: nat) returns (data: array<byte>)
    requires Terminated(info[..])
    requires Mapped(Regions(info[..]), mem.Length)
    ensures fresh(data)
    ensures data.Length == Total(Regions(info[..]))
    ensures Saved(data[..], mem[..], Regions(info[..]), dataAddr)
  {
    ghost var rs := Regions(info[..]);
    ghost var n := TermIndex(info[..]);
    var total := RegionsSize(info);
    data := new byte[total];
    var iter := 0;
    var off := 0;
    while info[iter].ptr != 0 || info[iter].size != 0
      invariant iter <= n
      invariant off == Total(rs[..iter])
      invariant Saved(data[..], mem[..], rs[..iter], dataAddr)
      decreases n - iter
    {
      var r := info[iter];
      assert r == rs[iter];
      SaveRegion(data, mem, r, off, dataAddr, rs, iter);
      off := off + r.size;
      iter := iter + 1;
    }
    assert info[iter] == TERMINATOR;
    assert rs[..iter] == rs;
  }

  /** One pass of the walk of usfstl_restore_data: region i of rs written
      back from the buffer at offset off, over memory that started as m0. */
  method RestoreRegion(mem: array<byte>, data: array<byte>, r: Record, off: nat, dataAddr: nat,
                       ghost m0: seq<byte>, ghost rs: seq<Record>, ghost i: nat)
    requires data != mem && mem.Length == |m0|
    requires i < |rs| && r == rs[i] && off == Total(rs[..i]) <= Total(rs) <= data.Length
    requires Mapped(rs, |m0|) && Mapped(rs[..i], |m0|)
    requires mem[..] == Restored(m0, data[..], rs[..i], dataAddr)
    modifies mem
    ensures off + r.size == Total(rs[..i + 1]) <= Total(rs)
    ensures Mapped(rs[..i + 1], |m0|)
    ensures mem[..] == WriteRegion(old(mem[..]), data[..], r, off, dataAddr)
    ensures mem[..] == Restored(m0, data[..], rs[..i + 1], dataAddr)
  {
    TotalPrefix(rs, i);
    TotalPrefixBound(rs, i + 1);
    MappedPrefix(rs, i + 1, |m0|);
    RestoredStep(m0, data[..], rs, i, dataAddr);
    RestoreMemcpy(mem, r.ptr, r.ptr, data, off, dataAddr + off, r.size);
  }


  /** usfstl_restore_data: copy the buffer back out to each region, at the
      same offsets and in the same order as the save. */
  method RestoreRegions(info: array<Record>, data: array<byte>, dataAddr: nat, mem: array<byte>)
    requires data != mem && info as object != mem
    requires Terminated(info[..])
    requires Mapped(Regions(info[..]), mem.Length)
    requires Total(Regions(info[..])) <= data.Length
    modifies mem
    ensures mem[..] == Restored(old(mem[..]), data[..], old(Regions(info[..])), dataAddr)
  {
    ghost var rs := Regions(info[..]);
    ghost var n := TermIndex(info[..]);
    ghost var m0 := mem[..];
    var iter := 0;
    var off := 0;
    while info[iter].ptr != 0 || info[iter].size != 0
      invariant iter <= n
      invariant off == Total(rs[..iter]) <= Total(rs)
      invariant Mapped(rs[..iter], |m0|)
      invariant mem[..] == Restored(m0, data[..], rs[..iter], dataAddr)
      decreases n - iter
    {
      var r := info[iter];
      assert r == rs[iter];
      RestoreRegion(mem, data, r, off, dataAddr, m0, rs, iter);
      off := off + r.size;
      iter := iter + 1;
    }
    assert info[iter] == TERMINATOR;
    assert rs[..iter] == rs;
  }

  // ---------------------------------------------------------------------
  // The engine's two globals

  /** A list stored by the loader yields its regions to the save walk: a
      prefix of the region list, all of it when no region is all-zero. */
  lemma RegionsOfStoredList(a: seq<Record>, c: seq<Record>)
    requires StoresList(a, c)
    ensures Terminated(a)
    ensures |Regions(a)| <= |c| && Regions(a) == c[..|Regions(a)|]
    ensures TERMINATOR !in c ==> Regions(a) == c
  {
    assert a[|c|] == TERMINATOR;
    var n := TermIndex(a);
    assert n <= |c|;
    assert Regions(a) == a[..|c|][..n];
    if TERMINATOR !in c {
      forall i | 0 <= i < |c| ensures a[i] != TERMINATOR {
        assert a[i] == c[i];
      }
    }
  }

  /** g_usfstl_restore_info and g_usfstl_restore_data. */
  class Globals {
    var info: array<Record>
    var data: array<byte>
    var dataAddr: nat
    var saved: bool

    ghost predicate Valid()
      reads this, info
    {
      saved ==> Terminated(info[..]) && data.Length == Total(Regions(info[..]))
    }

    constructor ()
      ensures Valid() && !saved
    {
      info := new Record[1](_ => TERMINATOR);
      data := new byte[0];
      dataAddr := 0;
      saved := false;
    }

    /** usfstl_save_globals: load the region list, then snapshot it. A file
        error is fatal in the source (an assertion); here it leaves the
        globals untouched. */
    method SaveGlobals(file: seq<byte>, bytesRead: int, base: nat, excl: seq<Range>,
                       mem: array<byte>, mallocAddr: nat) returns (r: Result<()>)
      requires |file| % RECORD_SIZE == 0 ==>
        Mapped(Compacted(DecodeRecords(file) + [TERMINATOR], base, excl), mem.Length)
      modifies this
      ensures r.Err? <==> |file| % RECORD_SIZE != 0 || bytesRead != |file|
      ensures r.Err? ==> unchanged(this)
      ensures r.Ok? ==>
        var c := Compacted(DecodeRecords(file) + [TERMINATOR], base, excl);
        && Valid() && saved && fresh(info) && fresh(data) && dataAddr == mallocAddr
        && StoresList(info[..], c)
        && Regions(info[..]) == c[..|Regions(info[..])|]
        && (TERMINATOR !in c ==> Regions(info[..]) == c)
        && Saved(data[..], mem[..], Regions(info[..]), dataAddr)
    {
      var loaded := ReadRestoreInfo(file, bytesRead, base, excl);
      if loaded.Err? {
        return Err(loaded.error);
      }
      var c := Compacted(DecodeRecords(file) + [TERMINATOR], base, excl);
      RegionsOfStoredList(loaded.value[..], c);
      var buf := SaveRestoreData(loaded.value, mem, mallocAddr);
      info, data, dataAddr, saved := loaded.value, buf, mallocAddr, true;
      return Ok(());
    }

    /** usfstl_restore_globals. */
    method RestoreGlobals(mem: array<byte>)
      requires Valid() && saved && data != mem && info as object != mem
      requires Mapped(Regions(info[..]), mem.Length)
      modifies mem
      ensures mem[..] == Restored(old(mem[..]), data[..], old(Regions(info[..])), dataAddr)
    {
      RestoreRegions(info, data, dataAddr, mem);
    }
  }
}
