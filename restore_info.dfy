/** Loading the region list of the global-memory snapshot engine: the
    records of the `.globals` file, the exclusion test on a region's start
    address, relocation by the load bias, and the in-place pass that drops
    excluded records and coalesces contiguous survivors. */
module RestoreInfo {

  newtype byte = x: int | 0 <= x < 256

  /** uintptr_t is 64 bits wide on the supported targets. */
  const WORD: nat := 0x1_0000_0000_0000_0000
  const WORD_BYTES: nat := 8
  /** sizeof(struct restore_info): a pointer and a size, both uintptr_t. */
  const RECORD_SIZE: nat := 16

  /** One `struct restore_info`: a region's start address and its length. */
  datatype Record = Record(ptr: nat, size: nat)

  /** The all-zero record that ends every region list. */
  const TERMINATOR: Record := Record(0, 0)

  /** A half-open address range [start, stop), the bounds of a linker section. */
  datatype Range = Range(start: nat, stop: nat)

  datatype LoadError = MisalignedFile | ShortRead

  datatype Result<T> = Ok(value: T) | Err(error: LoadError)

  predicate InRange(p: nat, r: Range) {
    r.start <= p < r.stop
  }

  // ---------------------------------------------------------------------
  // Exclusion ranges

  /** should_restore: the chain of range tests, one per excluded section. */
  function ShouldRestore(p: nat, excl: seq<Range>): (b: bool)
    ensures b <==> forall i :: 0 <= i < |excl| ==> !InRange(p, excl[i])
  {
    if excl == [] then true
    else if InRange(p, excl[0]) then false
    else ShouldRestore(p, excl[1..])
  }

  /** The linker sections whose contents are never snapshotted. */
  datatype Sections = Sections(
    norestore: Range,
    opt: Range,
    tests: Range,
    staticReferenceData: Range,
    rpcp: Range,
    rpcstub: Range)

  /** The ranges should_restore tests, in its order; the test-declaration
      section is only excluded when not building the library variant. */
  function Exclusions(s: Sections, library: bool): (excl: seq<Range>)
    ensures |excl| == if library then 5 else 6
  {
    [s.norestore, s.opt]
    + (if library then [] else [s.tests])
    + [s.staticReferenceData, s.rpcp, s.rpcstub]
  }

  lemma ShouldRestoreSections(p: nat, s: Sections, library: bool)
    ensures ShouldRestore(p, Exclusions(s, library)) <==>
      && !InRange(p, s.norestore)
      && !InRange(p, s.opt)
      && (!library ==> !InRange(p, s.tests))
      && !InRange(p, s.staticReferenceData)
      && !InRange(p, s.rpcp)
      && !InRange(p, s.rpcstub)
  {
    var tail := [s.staticReferenceData, s.rpcp, s.rpcstub];
    ShouldRestoreCons(p, s.rpcstub, []);
    ShouldRestoreCons(p, s.rpcp, [s.rpcstub]);
    ShouldRestoreCons(p, s.staticReferenceData, [s.rpcp, s.rpcstub]);
    var mid := if library then tail else [s.tests] + tail;
    ShouldRestoreCons(p, s.tests, tail);
    ShouldRestoreCons(p, s.opt, mid);
    ShouldRestoreCons(p, s.norestore, [s.opt] + mid);
    assert Exclusions(s, library) == [s.norestore] + ([s.opt] + mid);
  }

  lemma ShouldRestoreCons(p: nat, r: Range, rest: seq<Range>)
    ensures ShouldRestore(p, [r] + rest) == (!InRange(p, r) && ShouldRestore(p, rest))
  {
    assert ([r] + rest)[1..] == rest;
  }

  // ---------------------------------------------------------------------
  // Relocation

  /** `iter->ptr + base` in unsigned (wrapping) pointer arithmetic. */
  function Relocate(p: nat, base: nat): (q: nat)
    ensures q < WORD
    ensures p + base < WORD ==> q == p + base
  {
    (p + base) % WORD
  }

  // ---------------------------------------------------------------------
  // The file format: native-endian (little-endian) 64-bit words

  function Pow256(n: nat): (r: nat)
    ensures r >= 1
  {
    if n == 0 then 1 else 256 * Pow256(n - 1)
  }

  /** The value of a little-endian byte string. */
  function LeWord(b: seq<byte>): nat {
    if b == [] then 0 else b[0] as nat + 256 * LeWord(b[1..])
  }

  /** The n-byte little-endian encoding of w (the low n bytes of w). */
  function LeBytes(w: nat, n: nat): (b: seq<byte>)
    ensures |b| == n
  {
    if n == 0 then [] else [(w % 256) as byte] + LeBytes(w / 256, n - 1)
  }

  lemma {:induction false} LeWordBound(b: seq<byte>)
    ensures LeWord(b) < Pow256(|b|)
  {
    if b != [] {
      LeWordBound(b[1..]);
    }
  }

  lemma {:induction false} LeWordLeBytes(w: nat, n: nat)
    requires w < Pow256(n)
    ensures LeWord(LeBytes(w, n)) == w
  {
    if n > 0 {
      var b := LeBytes(w, n);
      var q, d := w / 256, w % 256;
      assert w == 256 * q + d;
      assert q < Pow256(n - 1);
      LeWordLeBytes(q, n - 1);
      assert b[1..] == LeBytes(q, n - 1);
      assert b[0] as nat == d;
    }
  }

  /** A file of whole records, read as the array `read()` fills. */
  function DecodeRecords(file: seq<byte>): (rs: seq<Record>)
    requires |file| % RECORD_SIZE == 0
    ensures |rs| == |file| / RECORD_SIZE
    ensures forall i :: 0 <= i < |rs| ==> rs[i].ptr < WORD && rs[i].size < WORD
    decreases |file|
  {
    if file == [] then []
    else
      LeWordBound(file[..8]);
      LeWordBound(file[8..16]);
      assert Pow256(8) == WORD;
      [Record(LeWord(file[..8]), LeWord(file[8..16]))] + DecodeRecords(file[16..])
  }

  /** What the build step writes for a list of records. */
  function EncodeRecords(rs: seq<Record>): (file: seq<byte>)
    ensures |file| == RECORD_SIZE * |rs|
  {
    if rs == [] then []
    else LeBytes(rs[0].ptr, WORD_BYTES) + LeBytes(rs[0].size, WORD_BYTES) + EncodeRecords(rs[1..])
  }

  lemma {:induction false} DecodeEncode(rs: seq<Record>)
    requires forall i :: 0 <= i < |rs| ==> rs[i].ptr < WORD && rs[i].size < WORD
    ensures DecodeRecords(EncodeRecords(rs)) == rs
  {
    if rs != [] {
      var file := EncodeRecords(rs);
      assert Pow256(8) == WORD;
      assert file[..8] == LeBytes(rs[0].ptr, 8);
      assert file[8..16] == LeBytes(rs[0].size, 8);
      assert file[16..] == EncodeRecords(rs[1..]);
      LeWordLeBytes(rs[0].ptr, 8);
      LeWordLeBytes(rs[0].size, 8);
      DecodeEncode(rs[1..]);
    }
  }

  // ---------------------------------------------------------------------
  // The scan, the filter and the coalescing rule

  /** Index of the first record whose (unrelocated) ptr is 0: where the
      `iter->ptr != 0` scan stops. */
  function ScanEnd(raw: seq<Record>): (n: nat)
    ensures n <= |raw|
    ensures forall i :: 0 <= i < n ==> raw[i].ptr != 0
    ensures n < |raw| ==> raw[n].ptr == 0
  {
    if raw == [] then 0
    else if raw[0].ptr == 0 then 0
    else 1 + ScanEnd(raw[1..])
  }

  /** The records the scan visits. */
  function Scanned(raw: seq<Record>): seq<Record> {
    raw[..ScanEnd(raw)]
  }

  function Total(rs: seq<Record>): nat {
    if rs == [] then 0 else Total(rs[..|rs| - 1]) + rs[|rs| - 1].size
  }

  /** Relocated records whose start address passes should_restore, in order. */
  function Kept(rs: seq<Record>, base: nat, excl: seq<Range>): seq<Record> {
    if rs == [] then []
    else
      var r := rs[|rs| - 1];
      var p := Relocate(r.ptr, base);
      var pre := Kept(rs[..|rs| - 1], base, excl);
      if ShouldRestore(p, excl) then pre + [Record(p, r.size)] else pre
  }

  /** Region b starts exactly where region a ends. */
  predicate Abuts(a: Record, b: Record) {
    a.ptr + a.size == b.ptr
  }

  /** One step of the coalescing rule: grow the last output record when r
      starts where it ends, otherwise start a new output record. */
  function Push(out: seq<Record>, r: Record): seq<Record> {
    if |out| > 0 && Abuts(out[|out| - 1], r) then
      var last := out[|out| - 1];
      out[..|out| - 1] + [Record(last.ptr, last.size + r.size)]
    else out + [r]
  }

  function Coalesce(rs: seq<Record>): seq<Record> {
    if rs == [] then [] else Push(Coalesce(rs[..|rs| - 1]), rs[|rs| - 1])
  }

  /** The region list usfstl_read_restore_info leaves before its terminator. */
  function Compacted(raw: seq<Record>, base: nat, excl: seq<Range>): seq<Record> {
    Coalesce(Kept(Scanned(raw), base, excl))
  }

  predicate NoContiguous(rs: seq<Record>) {
    forall i :: 0 < i < |rs| ==> !Abuts(rs[i - 1], rs[i])
  }

  /** Every start address is a relocated address that passes should_restore. */
  predicate StartsRestorable(rs: seq<Record>, excl: seq<Range>) {
    forall i :: 0 <= i < |rs| ==> rs[i].ptr < WORD && ShouldRestore(rs[i].ptr, excl)
  }

  function Starts(rs: seq<Record>): set<nat> {
    set i | 0 <= i < |rs| :: rs[i].ptr
  }

  lemma TotalSnoc(rs: seq<Record>, r: Record)
    ensures Total(rs + [r]) == Total(rs) + r.size
  {
    assert (rs + [r])[..|rs|] == rs;
  }

  lemma {:induction false} KeptShape(rs: seq<Record>, base: nat, excl: seq<Range>)
    ensures |Kept(rs, base, excl)| <= |rs|
    ensures StartsRestorable(Kept(rs, base, excl), excl)
    ensures forall a :: a in Starts(Kept(rs, base, excl)) ==>
      exists j :: 0 <= j < |rs| && a == Relocate(rs[j].ptr, base)
  {
    if rs != [] {
      var init := rs[..|rs| - 1];
      KeptShape(init, base, excl);
      var k := Kept(rs, base, excl);
      var ki := Kept(init, base, excl);
      forall a | a in Starts(k)
        ensures exists j :: 0 <= j < |rs| && a == Relocate(rs[j].ptr, base)
      {
        var i :| 0 <= i < |k| && k[i].ptr == a;
        if i < |ki| {
          assert a in Starts(ki);
          var j :| 0 <= j < |init| && a == Relocate(init[j].ptr, base);
          assert rs[j] == init[j];
        } else {
          assert a == Relocate(rs[|rs| - 1].ptr, base);
        }
      }
    }
  }

  lemma PushTotal(out: seq<Record>, r: Record)
    ensures Total(Push(out, r)) == Total(out) + r.size
  {
    if |out| > 0 && Abuts(out[|out| - 1], r) {
      var last := out[|out| - 1];
      TotalSnoc(out[..|out| - 1], Record(last.ptr, last.size + r.size));
      assert out == out[..|out| - 1] + [last];
    } else {
      TotalSnoc(out, r);
    }
  }

  lemma {:induction false} CoalesceTotal(rs: seq<Record>)
    ensures Total(Coalesce(rs)) == Total(rs)
  {
    if rs != [] {
      CoalesceTotal(rs[..|rs| - 1]);
      PushTotal(Coalesce(rs[..|rs| - 1]), rs[|rs| - 1]);
    }
  }

  lemma {:induction false} CoalesceLength(rs: seq<Record>)
    ensures |Coalesce(rs)| <= |rs|
  {
    if rs != [] {
      CoalesceLength(rs[..|rs| - 1]);
    }
  }

  lemma {:induction false} CoalesceNoContiguous(rs: seq<Record>)
    ensures NoContiguous(Coalesce(rs))
  {
    if rs != [] {
      CoalesceNoContiguous(rs[..|rs| - 1]);
      var c := Coalesce(rs[..|rs| - 1]);
      var r := rs[|rs| - 1];
      var out := Push(c, r);
      if |c| > 0 && Abuts(c[|c| - 1], r) {
        forall i | 0 < i < |out| ensures !Abuts(out[i - 1], out[i]) {
          assert out[i - 1] == c[i - 1];
          assert out[i].ptr == c[i].ptr;
        }
      }
    }
  }

  lemma {:induction false} CoalesceStarts(rs: seq<Record>)
    ensures Starts(Coalesce(rs)) <= Starts(rs)
  {
    if rs != [] {
      var init := rs[..|rs| - 1];
      CoalesceStarts(init);
      var c := Coalesce(init);
      var out := Coalesce(rs);
      forall a | a in Starts(out) ensures a in Starts(rs) {
        var i :| 0 <= i < |out| && out[i].ptr == a;
        if i < |c| {
          assert a == c[i].ptr && a in Starts(c);
          var j :| 0 <= j < |init| && init[j].ptr == a;
          assert rs[j] == init[j];
        } else {
          assert a == rs[|rs| - 1].ptr;
        }
      }
    }
  }

  lemma {:induction false} CoalesceIdempotent(rs: seq<Record>)
    requires NoContiguous(rs)
    ensures Coalesce(rs) == rs
  {
    if rs != [] {
      var init := rs[..|rs| - 1];
      var last := rs[|rs| - 1];
      assert NoContiguous(init) by {
        forall i | 0 < i < |init| ensures !Abuts(init[i - 1], init[i]) {
          assert init[i - 1] == rs[i - 1] && init[i] == rs[i];
        }
      }
      CoalesceIdempotent(init);
      if |init| > 0 {
        assert !Abuts(rs[|rs| - 2], rs[|rs| - 1]);
        assert init[|init| - 1] == rs[|rs| - 2];
      }
      assert Push(init, last) == init + [last];
      assert init + [last] == rs;
    }
  }

  lemma {:induction false} KeptIdentity(rs: seq<Record>, excl: seq<Range>)
    requires StartsRestorable(rs, excl)
    ensures Kept(rs, 0, excl) == rs
  {
    if rs != [] {
      var init := rs[..|rs| - 1];
      KeptIdentity(init, excl);
      assert init + [rs[|rs| - 1]] == rs;
    }
  }

  /** A list with no zero start address, followed by the terminator, is
      scanned up to the terminator. */
  lemma ScannedOfList(c: seq<Record>)
    requires forall i :: 0 <= i < |c| ==> c[i].ptr != 0
    ensures ScanEnd(c + [TERMINATOR]) == |c|
    ensures Scanned(c + [TERMINATOR]) == c
  {
    var again := c + [TERMINATOR];
    assert again[|c|] == TERMINATOR;
    assert forall i :: 0 <= i < |c| ==> again[i] == c[i];
    assert again[..|c|] == c;
  }

  lemma KeptStep(raw: seq<Record>, i: nat, base: nat, excl: seq<Range>)
    requires i < |raw|
    ensures var p := Relocate(raw[i].ptr, base);
      Kept(raw[..i + 1], base, excl)
        == Kept(raw[..i], base, excl) + (if ShouldRestore(p, excl) then [Record(p, raw[i].size)] else [])
  {
    assert raw[..i + 1][..i] == raw[..i];
  }

  lemma CoalesceStep(k: seq<Record>, r: Record)
    ensures Coalesce(k + [r]) == Push(Coalesce(k), r)
  {
    assert (k + [r])[..|k|] == k;
  }

  /** The region list holds exactly the bytes of the kept records. */
  lemma CompactedTotal(raw: seq<Record>, base: nat, excl: seq<Range>)
    ensures Total(Compacted(raw, base, excl)) == Total(Kept(Scanned(raw), base, excl))
  {
    CoalesceTotal(Kept(Scanned(raw), base, excl));
  }

  /** Shape of the region list: no longer than the scanned input, no two
      neighbours contiguous, every start address a relocated input address
      that passes should_restore. */
  lemma CompactedShape(raw: seq<Record>, base: nat, excl: seq<Range>)
    ensures |Compacted(raw, base, excl)| <= ScanEnd(raw)
    ensures NoContiguous(Compacted(raw, base, excl))
    ensures StartsRestorable(Compacted(raw, base, excl), excl)
    ensures forall a :: a in Starts(Compacted(raw, base, excl)) ==>
      exists j :: 0 <= j < ScanEnd(raw) && raw[j].ptr != 0 && a == Relocate(raw[j].ptr, base)
  {
    var s := Scanned(raw);
    var k := Kept(s, base, excl);
    var c := Compacted(raw, base, excl);
    KeptShape(s, base, excl);
    CoalesceLength(k);
    CoalesceNoContiguous(k);
    CoalesceStarts(k);
    forall i | 0 <= i < |c| ensures c[i].ptr < WORD && ShouldRestore(c[i].ptr, excl) {
      assert c[i].ptr in Starts(c);
      var m :| 0 <= m < |k| && k[m].ptr == c[i].ptr;
    }
    forall a | a in Starts(c)
      ensures exists j :: 0 <= j < ScanEnd(raw) && raw[j].ptr != 0 && a == Relocate(raw[j].ptr, base)
    {
      assert a in Starts(k);
      var j :| 0 <= j < |s| && a == Relocate(s[j].ptr, base);
      assert s[j] == raw[j];
    }
  }

  /** Running the pass again, with zero bias, over its own output (plus the
      terminator) changes nothing, provided no region starts at address 0
      (such a region would stop the second scan early). */
  lemma RecompactIsNoOp(raw: seq<Record>, base: nat, excl: seq<Range>)
    requires forall i :: 0 <= i < |Compacted(raw, base, excl)| ==> Compacted(raw, base, excl)[i].ptr != 0
    ensures var c := Compacted(raw, base, excl); Compacted(c + [TERMINATOR], 0, excl) == c
  {
    var c := Compacted(raw, base, excl);
    ScannedOfList(c);
    CompactedShape(raw, base, excl);
    KeptIdentity(c, excl);
    CoalesceIdempotent(c);
  }

  lemma CoalesceExample()
    ensures Compacted([Record(0x1000, 16), Record(0x1010, 16), Record(0x2000, 8), TERMINATOR], 0, [])
         == [Record(0x1000, 32), Record(0x2000, 8)]
  {
    var raw := [Record(0x1000, 16), Record(0x1010, 16), Record(0x2000, 8), TERMINATOR];
    var s := [Record(0x1000, 16), Record(0x1010, 16), Record(0x2000, 8)];
    ScannedOfList(s);
    assert raw == s + [TERMINATOR];
    KeptIdentity(s, []);
    assert s[..2][..1] == [Record(0x1000, 16)];
    assert s[..2] == [Record(0x1000, 16), Record(0x1010, 16)];
    assert Coalesce(s[..1]) == [Record(0x1000, 16)];
    assert Coalesce(s[..2]) == [Record(0x1000, 32)];
  }

  /** The exclusion test looks at the start address only: a region that
      starts outside every excluded section is kept whole even when it runs
      into one. */
  lemma ExclusionByStartOnly()
    ensures Compacted([Record(0x1000, 0x100), TERMINATOR], 0, [Range(0x1080, 0x1100)])
         == [Record(0x1000, 0x100)]
  {
    var excl := [Range(0x1080, 0x1100)];
    var raw := [Record(0x1000, 0x100), TERMINATOR];
    ScannedOfList([Record(0x1000, 0x100)]);
    assert raw == [Record(0x1000, 0x100)] + [TERMINATOR];
    assert ShouldRestore(0x1000, excl);
    KeptIdentity([Record(0x1000, 0x100)], excl);
  }

  // ---------------------------------------------------------------------
  // The in-place pass

  /** `a` holds the region list c followed by the terminator. */
  predicate StoresList(a: seq<Record>, c: seq<Record>) {
    |c| < |a| && a[..|c|] == c && a[|c|] == TERMINATOR
  }

  /** The body of the loop for a record that survives the filter: grow the
      record under the `out` cursor, or advance `out` and store r there. */
  method EmitRecord(info: array<Record>, count: nat, r: Record) returns (count': nat)
    requires count < info.Length
    modifies info
    ensures count' == |Push(old(info[..count]), r)| && 0 < count' <= count + 1
    ensures info[..count'] == Push(old(info[..count]), r)
    ensures forall j :: 0 <= j < info.Length && j != count' - 1 ==> info[j] == old(info[j])
  {
    ghost var out := info[..count];
    if count > 0 && info[count - 1].ptr + info[count - 1].size == r.ptr {
      info[count - 1] := Record(info[count - 1].ptr, info[count - 1].size + r.size);
      count' := count;
      assert info[..count'] == out[..count - 1] + [info[count - 1]];
    } else {
      info[count] := r;
      count' := count + 1;
      assert info[..count'] == out + [r];
    }
  }

  /** One pass of the loop of usfstl_read_restore_info: relocate the record
      under `iter`, and emit it when should_restore keeps it. */
  method CompactStep(info: array<Record>, iter: nat, count: nat, base: nat, excl: seq<Range>, ghost raw: seq<Record>)
    returns (count': nat)
    requires count <= iter < info.Length && iter < |raw| && info[iter] == raw[iter]
    requires info[..count] == Coalesce(Kept(raw[..iter], base, excl))
    modifies info
    ensures count' <= iter + 1
    ensures info[..count'] == Coalesce(Kept(raw[..iter + 1], base, excl))
    ensures forall j :: iter < j < info.Length ==> info[j] == old(info[j])
  {
    var size := info[iter].size;
    var ptr := Relocate(info[iter].ptr, base);
    ghost var k := Kept(raw[..iter], base, excl);
    KeptStep(raw, iter, base, excl);
    if ShouldRestore(ptr, excl) {
      assert Kept(raw[..iter + 1], base, excl) == k + [Record(ptr, size)];
      CoalesceStep(k, Record(ptr, size));
      count' := EmitRecord(info, count, Record(ptr, size));
    } else {
      assert Kept(raw[..iter + 1], base, excl) == k;
      count' := count;
    }
  }

  /** The filter-and-coalesce loop of usfstl_read_restore_info: `iter` reads,
      `count` is one past the `out` cursor and never passes `iter`. */
  method CompactInPlace(info: array<Record>, base: nat, excl: seq<Range>) returns (count: nat)
    requires exists k :: 0 <= k < info.Length && info[k].ptr == 0
    modifies info
    ensures count <= ScanEnd(old(info[..]))
    ensures StoresList(info[..], Compacted(old(info[..]), base, excl))
  {
    ghost var raw := info[..];
    ghost var n := ScanEnd(raw);
    var iter := 0;
    count := 0;
    while info[iter].ptr != 0
      invariant n < info.Length
      invariant count <= iter <= n
      invariant forall j :: iter <= j < info.Length ==> info[j] == raw[j]
      invariant info[..count] == Coalesce(Kept(raw[..iter], base, excl))
      decreases n - iter
    {
      assert info[iter] == raw[iter];
      assert iter < n;
      count := CompactStep(info, iter, count, base, excl, raw);
      iter := iter + 1;
    }
    assert info[iter] == raw[iter];
    assert Scanned(raw) == raw[..iter];
    ghost var compacted := info[..count];
    info[count] := TERMINATOR;
    assert info[..count] == compacted;
  }

  /** usfstl_read_restore_info with the file contents, the byte count that
      read() returned and the load bias as inputs. */
  method ReadRestoreInfo(file: seq<byte>, bytesRead: int, base: nat, excl: seq<Range>)
    returns (r: Result<array<Record>>)
    ensures r.Err? <==> |file| % RECORD_SIZE != 0 || bytesRead != |file|
    ensures r == Err(MisalignedFile) <==> |file| % RECORD_SIZE != 0
    ensures r == Err(ShortRead) <==> |file| % RECORD_SIZE == 0 && bytesRead != |file|
    ensures r.Ok? ==>
      && |file| % RECORD_SIZE == 0
      && fresh(r.value)
      && r.value.Length == |file| / RECORD_SIZE + 1
      && StoresList(r.value[..], Compacted(DecodeRecords(file) + [TERMINATOR], base, excl))
  {
    if |file| % RECORD_SIZE != 0 {
      return Err(MisalignedFile);
    }
    var n := |file| / RECORD_SIZE;
    // calloc: the worst case, plus a zeroed record that ends the scan
    var info := new Record[n + 1](_ => TERMINATOR);
    if bytesRead != |file| {
      return Err(ShortRead);
    }
    var recs := DecodeRecords(file);
    for i := 0 to n
      invariant info[..i] == recs[..i]
      invariant info[i..] == seq(n + 1 - i, _ => TERMINATOR)
    {
      info[i] := recs[i];
      assert info[..i + 1] == info[..i] + [recs[i]];
    }
    assert info[..] == recs + [TERMINATOR];
    assert info[n].ptr == 0;
    var count := CompactInPlace(info, base, excl);
    return Ok(info);
  }
}
