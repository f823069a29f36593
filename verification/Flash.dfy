/** The stream that compiled code is written to: one page is buffered, finished pages go
    to flash memory, where a write can only clear bits and erasing works by sector. */
module Flash {
  import opened Prelude
  import opened Digits

  type Byte = bv8

  const ERASED: Byte := 0xFF

  /** FLASH_PAGE_SIZE is 256, FLASH_SECTOR_SIZE is 4096 and an entry header has 16 bytes. */
  function PageStart(a: nat): nat { a / 256 * 256 }

  function SectorStart(a: nat): nat { a / 4096 * 4096 }

  function SectorEnd(a: nat): nat { SectorStart(a) + 4096 }

  /** Writing new over old sets no bit. */
  predicate ClearsOnly(was: Byte, new_: Byte) { (new_ & !was) == 0 }

  lemma ClearsErased(b: Byte)
    ensures ClearsOnly(ERASED, b)
  {}

  lemma ClearsSame(b: Byte)
    ensures ClearsOnly(b, b)
  {}

  predicate AllClear(was: seq<Byte>, new_: seq<Byte>) {
    |was| == |new_| && forall i :: 0 <= i < |new_| ==> ClearsOnly(was[i], new_[i])
  }

  datatype Result = Done | SetsBits | PlatformFailed

  /** data at position i of s. */
  function Patched(s: seq<Byte>, i: nat, data: seq<Byte>): (r: seq<Byte>)
    requires i + |data| <= |s|
    ensures |r| == |s|
    ensures forall x :: 0 <= x < |s| ==> r[x] == if i <= x < i + |data| then data[x - i] else s[x]
  {
    s[..i] + data + s[i + |data|..]
  }

  // ---- the memory ----

  /** jit_stream_flash_platform_write_page: the memory ands the page in, so what is
      written must only clear bits for it to be what is read back. */
  method WritePage(flash: array<Byte>, reliable: bool, addr: nat, page: seq<Byte>) returns (ok: bool)
    requires addr % 256 == 0 && addr + 256 <= flash.Length && |page| == 256
    requires forall a :: addr <= a < addr + 256 ==> ClearsOnly(flash[a], page[a - addr])
    modifies flash
    ensures reliable ==> ok
    ensures flash[..] == if ok then Patched(old(flash[..]), addr, page) else old(flash[..])
  {
    ok := Granted(reliable);
    if !ok { return; }
    for i := 0 to 256
      invariant forall a :: addr <= a < addr + i ==> flash[a] == page[a - addr]
      invariant forall a :: 0 <= a < flash.Length && !(addr <= a < addr + i) ==> flash[a] == old(flash[a])
    {
      AndOfClears(flash[addr + i], page[i]);
      flash[addr + i] := flash[addr + i] & page[i];
    }
    ok := true;
  }

  lemma AndOfClears(was: Byte, new_: Byte)
    requires ClearsOnly(was, new_)
    ensures was & new_ == new_
  {}

  /** jit_stream_flash_platform_erase_sector */
  method EraseSector(flash: array<Byte>, reliable: bool, addr: nat) returns (ok: bool)
    requires addr % 4096 == 0 && addr + 4096 <= flash.Length
    modifies flash
    ensures reliable ==> ok
    ensures if ok then forall i :: addr <= i < addr + 4096 ==> flash[i] == ERASED else flash[..] == old(flash[..])
    ensures forall i :: 0 <= i < flash.Length && !(addr <= i < addr + 4096) ==> flash[i] == old(flash[i])
  {
    ok := Granted(reliable);
    if !ok { return; }
    for i := 0 to 4096
      invariant forall x :: addr <= x < addr + i ==> flash[x] == ERASED
      invariant forall x :: 0 <= x < flash.Length && !(addr <= x < addr + 4096) ==> flash[x] == old(flash[x])
    {
      flash[addr + i] := ERASED;
    }
    ok := true;
  }

  /** Whether anything from a to the end of its sector is not erased. */
  method HasStaleData(flash: array<Byte>, from: nat, to: nat) returns (stale: bool)
    requires from <= to <= flash.Length
    ensures stale <==> exists i :: from <= i < to && flash[i] != ERASED
  {
    var i := from;
    while i < to
      invariant from <= i <= to && forall x :: from <= x < i ==> flash[x] == ERASED
    {
      if flash[i] != ERASED { return true; }
      i := i + 1;
    }
    stale := false;
  }

  // ---- the stream, on values ----

  /** A page lies in one sector; the next page is in it too, or begins the next sector. */
  lemma PageInSector(base: nat)
    requires base % 256 == 0
    ensures base + 256 <= SectorEnd(base)
    ensures SectorStart(base + 256) == if base + 256 == SectorEnd(base) then base + 256 else SectorStart(base)
  {
    var i, p := base / 4096, base % 4096;
    assert base == 4096 * i + p && p % 256 == 0;
  }

  /** The current page lies in memory, up to the end of its sector. */
  ghost predicate Shape(f: seq<Byte>, buf: seq<Byte>, base: nat, entry: nat, written: seq<Byte>, before: seq<Byte>) {
    && |buf| == 256 && base % 256 == 0 && SectorEnd(base) <= |f|
    && |before| == entry && entry < base + 256 && base <= entry + |written| <= base + 256
  }

  /** From the page on, and from the entry on, memory is erased to the end of the sector. */
  ghost predicate ErasedAhead(f: seq<Byte>, base: nat, entry: nat)
    requires SectorEnd(base) <= |f|
  {
    forall a :: base <= a < SectorEnd(base) && entry <= a ==> f[a] == ERASED
  }

  ghost predicate ErasedBehind(buf: seq<Byte>, from: nat) {
    forall i :: from <= i < |buf| ==> buf[i] == ERASED
  }

  /** Nothing before the entry has changed. */
  ghost predicate Kept(f: seq<Byte>, buf: seq<Byte>, base: nat, before: seq<Byte>) {
    && |before| <= |f| && (forall a :: 0 <= a < |before| ==> f[a] == before[a])
    && (forall i :: 0 <= i < |buf| && base + i < |before| ==> buf[i] == before[base + i])
  }

  /** A byte of the stream: in the buffer, or in a page already written. */
  ghost function ByteAt(f: seq<Byte>, buf: seq<Byte>, base: nat, a: nat): Byte
    requires a < base + |buf| && base <= |f|
  {
    if a >= base then buf[a - base] else f[a]
  }

  /** Flushed pages and the buffer hold what was written. */
  ghost predicate Holds(f: seq<Byte>, buf: seq<Byte>, base: nat, entry: nat, written: seq<Byte>)
    requires base <= |f| && entry + |written| <= base + |buf|
  {
    forall i :: 0 <= i < |written| ==> written[i] == ByteAt(f, buf, base, entry + i)
  }

  ghost predicate Good(f: seq<Byte>, buf: seq<Byte>, base: nat, entry: nat, written: seq<Byte>, before: seq<Byte>) {
    && Shape(f, buf, base, entry, written, before) && ErasedAhead(f, base, entry)
    && ErasedBehind(buf, entry + |written| - base) && Kept(f, buf, base, before) && Holds(f, buf, base, entry, written)
  }

  /** Writing the buffer's page clears bits only. */
  lemma FlushClears(f: seq<Byte>, buf: seq<Byte>, base: nat, entry: nat, written: seq<Byte>, before: seq<Byte>)
    requires Good(f, buf, base, entry, written, before)
    ensures base + 256 <= |f| && forall a :: base <= a < base + 256 ==> ClearsOnly(f[a], buf[a - base])
  {
    PageInSector(base);
    forall a | base <= a < base + 256 ensures ClearsOnly(f[a], buf[a - base]) {
      if a < entry { ClearsSame(f[a]); } else { ClearsErased(buf[a - base]); }
    }
  }

  /** Everything written is in memory. */
  ghost predicate InFlash(f: seq<Byte>, entry: nat, written: seq<Byte>, before: seq<Byte>) {
    && |before| == entry && entry + |written| <= |f|
    && (forall a :: 0 <= a < entry ==> f[a] == before[a])
    && (forall i :: 0 <= i < |written| ==> f[entry + i] == written[i])
  }

  lemma Flushed(f: seq<Byte>, buf: seq<Byte>, base: nat, entry: nat, written: seq<Byte>, before: seq<Byte>)
    requires Good(f, buf, base, entry, written, before) && base + 256 <= |f|
    ensures InFlash(Patched(f, base, buf), entry, written, before)
    ensures forall a :: base + 256 <= a < SectorEnd(base) ==> Patched(f, base, buf)[a] == ERASED
  {
    hide Patched;
    PageInSector(base);
    var f' := Patched(f, base, buf);
    forall i | 0 <= i < |written| ensures f'[entry + i] == written[i] {
      assert written[i] == ByteAt(f, buf, base, entry + i);
    }
  }

  /** A page read from memory behind what is written. */
  lemma FreshPage(f: seq<Byte>, buf: seq<Byte>, base: nat, entry: nat, written: seq<Byte>, before: seq<Byte>)
    requires InFlash(f, entry, written, before) && |buf| == 256 && base % 256 == 0 && SectorEnd(base) <= |f|
    requires base <= entry + |written| && entry + |written| < base + 256 && entry < base + 256
    requires forall i :: 0 <= i < 256 ==> buf[i] == f[base + i]
    requires forall a :: base <= a < SectorEnd(base) && entry <= a ==> f[a] == ERASED
    requires |written| == 0 || base == entry + |written|
    ensures Good(f, buf, base, entry, written, before)
  {
    PageInSector(base);
  }

  /** One byte behind the others in the buffer. */
  lemma OneMore(f: seq<Byte>, buf: seq<Byte>, base: nat, entry: nat, written: seq<Byte>, before: seq<Byte>, b: Byte)
    requires Good(f, buf, base, entry, written, before) && entry + |written| < base + 256
    ensures Good(f, buf[entry + |written| - base := b], base, entry, written + [b], before)
    ensures buf[entry + |written| - base] == ERASED
  {
    var n := |written|;
    var buf' := buf[entry + n - base := b];
    forall i | 0 <= i < n + 1 ensures (written + [b])[i] == ByteAt(f, buf', base, entry + i) {
      if i < n { assert written[i] == ByteAt(f, buf, base, entry + i); }
    }
  }

  // ---- the stream ----

  class Stream {
    const flash: array<Byte>
    /** whether the platform never fails */
    const reliable: bool
    /** address of the entry header */
    const entry: nat
    /** address of the page in the buffer */
    var base: nat
    var offset: nat
    const buffer: array<Byte>
    /** header and code written so far, replacements included */
    ghost var written: seq<Byte>
    /** what the memory held before the entry */
    ghost const before: seq<Byte>

    ghost predicate Valid()
      reads this, flash, buffer
    {
      && buffer != flash && offset < 256 && base + offset == entry + |written|
      && Good(flash[..], buffer[..], base, entry, written, before)
    }

    /** Memory before the entry is as it was when the stream was opened. */
    ghost predicate Undisturbed()
      reads this, flash
    {
      entry <= flash.Length && flash[..entry] == before
    }

    /** A stream whose entry begins in erased memory, with nothing written. */
    constructor Open(flash: array<Byte>, reliable: bool, entry: nat)
      requires SectorEnd(entry) <= flash.Length
      requires forall a :: entry <= a < SectorEnd(entry) ==> flash[a] == ERASED
      ensures Valid() && this.flash == flash && this.reliable == reliable && this.entry == entry && fresh(buffer)
      ensures written == [] && before == flash[..entry]
    {
      this.flash := flash;
      this.reliable := reliable;
      this.entry := entry;
      base := PageStart(entry);
      offset := entry % 256;
      buffer := new Byte[256];
      written := [];
      before := flash[..entry];
      new;
      EntrySector(entry);
      PageInSector(base);
      ReadPage();
      FreshPage(flash[..], buffer[..], base, entry, written, before);
    }

    /** The page in flash into the buffer. */
    method ReadPage()
      requires buffer.Length == 256 && buffer != flash && base + 256 <= flash.Length
      modifies buffer
      ensures forall i :: 0 <= i < 256 ==> buffer[i] == flash[base + i]
    {
      for i := 0 to 256
        invariant forall x :: 0 <= x < i ==> buffer[x] == flash[base + x]
      {
        buffer[i] := flash[base + i];
      }
    }

    /** Writes the full page and moves on. */
    method NextPage() returns (ok: bool)
      requires buffer != flash && Good(flash[..], buffer[..], base, entry, written, before)
      requires entry + |written| == base + 256 && SectorEnd(base + 256) <= flash.Length
      modifies this`base, this`offset, flash, buffer
      ensures (reliable ==> ok) && (ok ==> Valid()) && Undisturbed()
    {
      hide Good, InFlash, ClearsOnly, Patched;
      FlushClears(flash[..], buffer[..], base, entry, written, before);
      Flushed(flash[..], buffer[..], base, entry, written, before);
      GoodSizes(flash[..], buffer[..], base, entry, written, before);
      GoodKeeps(flash[..], buffer[..], base, entry, written, before);
      ok := WritePage(flash, reliable, base, buffer[..]);
      if !ok { return; }
      ok := Advance();
    }

    /** On to the next page. */
    method Advance() returns (ok: bool)
      requires buffer.Length == 256 && buffer != flash && InFlash(flash[..], entry, written, before)
      requires base % 256 == 0 && entry + |written| == base + 256 && SectorEnd(base + 256) <= flash.Length
      requires forall a :: base + 256 <= a < SectorEnd(base) && a < flash.Length ==> flash[a] == ERASED
      modifies this`base, this`offset, flash, buffer
      ensures (reliable ==> ok) && (ok ==> Valid()) && Undisturbed()
    {
      hide Good, InFlash, SectorStart;
      ghost var full := flash[..];
      PageInSector(base + 256);
      ok := EnterPage(flash, reliable, base);
      StillInFlash(full, flash[..], entry, written, before);
      InFlashKeeps(flash[..], entry, written, before);
      if !ok { return; }
      base := base + 256;
      offset := 0;
      ReadPage();
      FreshPage(flash[..], buffer[..], base, entry, written, before);
    }

    /** jit_stream_flash_append for one byte. */
    method AppendByte(b: Byte) returns (r: Result)
      requires Valid() && SectorEnd(entry + |written| + 1) <= flash.Length
      modifies this`base, this`offset, this`written, flash, buffer
      ensures r == Done || (r == PlatformFailed && !reliable)
      ensures r == Done ==> Valid() && written == old(written) + [b]
      ensures Undisturbed()
    {
      hide Good, ErasedBehind;
      GoodKeeps(flash[..], buffer[..], base, entry, written, before);
      GoodSizes(flash[..], buffer[..], base, entry, written, before);
      OneMore(flash[..], buffer[..], base, entry, written, before, b);
      assert buffer[..][offset] == buffer[offset];
      if (!buffer[offset] & b) != 0 {
        NothingToSet(b);
        return SetsBits;
      }
      ghost var buf := buffer[..];
      buffer[offset] := b;
      assert buffer[..] == buf[offset := b];
      written := written + [b];
      r := Done;
      if offset == 255 {
        var ok := NextPage();
        if !ok { r := PlatformFailed; }
      } else {
        offset := offset + 1;
      }
    }

    /** jit_stream_flash_append: it never meets a bit it cannot set. */
    method Append(data: seq<Byte>) returns (r: Result)
      requires Valid() && SectorEnd(entry + |written| + |data|) <= flash.Length
      modifies this`base, this`offset, this`written, flash, buffer
      ensures r == Done || (r == PlatformFailed && !reliable)
      ensures r == Done ==> Valid() && written == old(written) + data
      ensures Undisturbed()
    {
      hide Good;
      GoodKeeps(flash[..], buffer[..], base, entry, written, before);
      r := Done;
      for i := 0 to |data|
        invariant Valid() && written == old(written) + data[..i] && r == Done && Undisturbed()
      {
        SectorsGrow(entry + |written| + 1, entry + |old(written)| + |data|);
        r := AppendByte(data[i]);
        if r != Done { return; }
        assert data[..i + 1] == data[..i] + [data[i]];
      }
      assert data[..|data|] == data;
    }

    /** The replace of a stream: pages already written are changed in flash, the current
        one in the buffer. When a flushed page would need a bit set, the pages before it stay
        replaced, and nothing else. */
    method Replace(off: nat, data: seq<Byte>) returns (r: Result, ghost k: nat)
      requires Valid() && 16 + off + |data| <= |written|
      modifies this`written, flash, buffer
      ensures if r == PlatformFailed then !reliable else Valid()
      ensures r == Done ==> written == Patched(old(written), 16 + off, data)
      ensures r == SetsBits ==>
                StoppedAt(old(written), 16 + off, data, k, entry + 16 + off)
                && written == Patched(old(written), 16 + off, data[..k])
      ensures var c := Below(base, entry + 16 + off, |data|);
              r != PlatformFailed ==> (r == Done <==> AllClear(old(written)[16 + off..16 + off + c], data[..c]))
      ensures Undisturbed()
    {
      hide Good, Patched, AllClear, Clip, PageStart, Replaced, Below, StoppedAt, Undisturbed;
      KeepsBefore();
      ghost var was := written;
      var start, end := entry + 16 + off, entry + 16 + off + |data|;
      var cur, d := PageStart(start), 0;
      FirstPage(start, end);
      NothingReplaced(was, 16 + off, data, base, start);
      while cur < end
        invariant Valid() && Undisturbed() && 0 <= d <= |data| && Replaced(was, written, 16 + off, data, d, base, start)
        invariant cur % 256 == 0 && start < cur + 256 && start + d == Clip(cur, start, end)
        decreases end - cur
      {
        var from := if cur < start then start else cur;
        var to := if cur + 256 > end then end else cur + 256;
        PageClip(cur, start, end, from, to);
        var e := d + (to - from);
        ghost var w := written;
        GoodSizes(flash[..], buffer[..], base, entry, written, before);
        r := ReplacePart(from, cur, data[d..e]);
        k := 0;
        if r == PlatformFailed { return; }
        if r == SetsBits {
          InPage(cur, from);
          ReplacedSome(was, w, 16 + off, data, d, e, cur, base, start);
          k := d;
          return;
        }
        ReplacedMore(was, w, written, 16 + off, data, d, e, cur, base, start);
        d := e;
        cur := cur + 256;
      }
      PastEnd(cur, start, end);
      ReplacedAll(was, written, 16 + off, data, d, base, start);
      r, k := Done, |data|;
    }

    /** nif_jit_stream_flash_flush: the size of the code goes into the header, and the last
        page to flash, which then holds everything. */
    method Flush() returns (r: Result)
      requires Valid() && entry % 4 == 0 && 16 <= |written| && forall i :: 12 <= i < 16 ==> written[i] == ERASED
      modifies this`written, flash, buffer
      ensures r == Done || (r == PlatformFailed && !reliable)
      ensures r == Done ==> written == Patched(old(written), 12, SizeBytes(|old(written)| - 16))
      ensures r == Done ==> InFlash(flash[..], entry, written, before)
      ensures r == Done ==>
                && entry + |old(written)| <= flash.Length
                && Word32(flash[..], entry + 12) == (|old(written)| - 16) % 0x1_0000_0000
      ensures Undisturbed()
    {
      hide Good, Patched, InFlash, SizeBytes, AllClear, Word32;
      ghost var was := written;
      var size := SizeBytes(base + offset - (entry + 16));
      AllErasedClears(written, size);
      FieldInPage(entry);
      r := ReplacePart(entry + 12, PageStart(entry + 12), size);
      if r != Done { return; }
      GoodSizes(flash[..], buffer[..], base, entry, written, before);
      FlushClears(flash[..], buffer[..], base, entry, written, before);
      Flushed(flash[..], buffer[..], base, entry, written, before);
      var ok := WritePage(flash, reliable, base, buffer[..]);
      if !ok { return PlatformFailed; }
      InFlashKeeps(flash[..], entry, written, before);
      SizeInFlash(flash[..], entry, was, written, before);
    }

    /** A replacement inside one page. */
    method ReplacePart(addr: nat, page: nat, part: seq<Byte>) returns (r: Result)
      requires Valid() && page % 256 == 0 && page <= addr && addr + |part| <= page + 256
      requires entry <= addr && addr + |part| <= entry + |written|
      modifies this`written, flash, buffer
      ensures if r == PlatformFailed then !reliable else Valid()
      ensures r == Done ==> written == Patched(old(written), addr - entry, part)
      ensures r == SetsBits ==> written == old(written)
      ensures r != PlatformFailed ==>
                (r == Done <==> page == base || AllClear(old(written)[addr - entry..addr - entry + |part|], part))
      ensures (page == base || page + 256 <= base) && Undisturbed()
    {
      hide Good, Patched, AllClear, SectorEnd, PageStart;
      KeepsBefore();
      GoodSizes(flash[..], buffer[..], base, entry, written, before);
      PageOrder(page, base, addr);
      if page == base {
        PartInBuffer(flash[..], buffer[..], base, entry, written, before, addr, part);
        PutBytes(buffer, addr - base, part);
        written := Patched(written, addr - entry, part);
        return Done;
      }
      InEarlierPage(flash[..], buffer[..], base, entry, written, before, addr, part);
      PartInFlash(flash[..], buffer[..], base, entry, written, before, addr, part);
      r := ReplaceInPage(flash, reliable, page, addr, part);
      if r == Done {
        written := Patched(written, addr - entry, part);
        KeepsBefore();
      }
    }

    lemma KeepsBefore()
      requires Valid()
      ensures Undisturbed()
    {
      hide Good;
      GoodKeeps(flash[..], buffer[..], base, entry, written, before);
    }
  }

  lemma GoodKeeps(f: seq<Byte>, buf: seq<Byte>, base: nat, entry: nat, written: seq<Byte>, before: seq<Byte>)
    requires Good(f, buf, base, entry, written, before)
    ensures entry <= |f| && f[..entry] == before
  {}

  lemma InFlashKeeps(f: seq<Byte>, entry: nat, written: seq<Byte>, before: seq<Byte>)
    requires InFlash(f, entry, written, before)
    ensures entry <= |f| && f[..entry] == before
  {}

  /** Erases a sector unless it is erased. */
  method CleanSector(flash: array<Byte>, reliable: bool, sector: nat) returns (ok: bool)
    requires sector % 4096 == 0 && sector + 4096 <= flash.Length
    modifies flash
    ensures reliable ==> ok
    ensures ok ==> forall a :: sector <= a < sector + 4096 ==> flash[a] == ERASED
    ensures forall a :: 0 <= a < flash.Length && !(sector <= a < sector + 4096) ==> flash[a] == old(flash[a])
  {
    var stale := HasStaleData(flash, sector, sector + 4096);
    ok := true;
    if stale { ok := EraseSector(flash, reliable, sector); }
  }

  /** Behind the page at base: a sector that begins there is erased if it needs to be. */
  method EnterPage(flash: array<Byte>, reliable: bool, base: nat) returns (ok: bool)
    requires base % 256 == 0 && SectorEnd(base + 256) <= flash.Length
    requires forall a :: base + 256 <= a < SectorEnd(base) && a < flash.Length ==> flash[a] == ERASED
    modifies flash
    ensures reliable ==> ok
    ensures ok ==> forall a :: base + 256 <= a < SectorEnd(base + 256) ==> flash[a] == ERASED
    ensures forall a :: 0 <= a < base + 256 ==> flash[a] == old(flash[a])
  {
    PageInSector(base);
    PageInSector(base + 256);
    var previous, sector := SectorStart(base), SectorStart(base + 256);
    ok := true;
    if sector != previous { ok := CleanSector(flash, reliable, sector); }
  }

  lemma NothingToSet(b: Byte)
    ensures (!ERASED & b) == 0
  {}

  lemma SectorsGrow(a: nat, b: nat)
    requires a <= b
    ensures SectorEnd(a) <= SectorEnd(b)
  {}

  lemma GoodSizes(f: seq<Byte>, buf: seq<Byte>, base: nat, entry: nat, written: seq<Byte>, before: seq<Byte>)
    requires Good(f, buf, base, entry, written, before)
    ensures |buf| == 256 && base % 256 == 0 && SectorEnd(base) <= |f| && entry < base + 256 && base + 256 <= |f|
  {
    PageInSector(base);
  }

  lemma StillInFlash(f: seq<Byte>, f': seq<Byte>, entry: nat, written: seq<Byte>, before: seq<Byte>)
    requires InFlash(f, entry, written, before) && |f'| == |f|
    requires forall a :: 0 <= a < entry + |written| ==> f'[a] == f[a]
    ensures InFlash(f', entry, written, before)
  {}

  lemma NoPatch(s: seq<Byte>, i: nat)
    requires i <= |s|
    ensures Patched(s, i, []) == s
  {}

  lemma PatchMore(s: seq<Byte>, i: nat, data: seq<Byte>, d: nat, e: nat)
    requires i + |data| <= |s| && d <= e <= |data|
    ensures Patched(Patched(s, i, data[..d]), i + d, data[d..e]) == Patched(s, i, data[..e])
  {
    assert data[..e] == data[..d] + data[d..e];
  }

  /** memcpy into the page buffer */
  method PutBytes(buf: array<Byte>, at: nat, part: seq<Byte>)
    requires at + |part| <= buf.Length
    modifies buf
    ensures buf[..] == Patched(old(buf[..]), at, part)
  {
    for i := 0 to |part|
      invariant forall x :: 0 <= x < buf.Length ==> buf[x] == if at <= x < at + i then part[x - at] else old(buf[x])
    {
      buf[at + i] := part[i];
    }
  }

  /** Replacing written bytes of the current page. */
  lemma PartInBuffer(f: seq<Byte>, buf: seq<Byte>, base: nat, entry: nat, written: seq<Byte>, before: seq<Byte>,
                     addr: nat, part: seq<Byte>)
    requires Good(f, buf, base, entry, written, before)
    requires base <= addr && entry <= addr && addr + |part| <= entry + |written|
    ensures Good(f, Patched(buf, addr - base, part), base, entry, Patched(written, addr - entry, part), before)
  {
    hide Patched;
    var buf', written' := Patched(buf, addr - base, part), Patched(written, addr - entry, part);
    forall i | 0 <= i < |written| ensures written'[i] == ByteAt(f, buf', base, entry + i) {
      assert written[i] == ByteAt(f, buf, base, entry + i);
    }
  }

  /** Replacing written bytes of an earlier page. */
  lemma PartInFlash(f: seq<Byte>, buf: seq<Byte>, base: nat, entry: nat, written: seq<Byte>, before: seq<Byte>,
                    addr: nat, part: seq<Byte>)
    requires Good(f, buf, base, entry, written, before)
    requires entry <= addr && addr + |part| <= base && addr + |part| <= entry + |written|
    ensures Good(Patched(f, addr, part), buf, base, entry, Patched(written, addr - entry, part), before)
  {
    hide Patched;
    var f', written' := Patched(f, addr, part), Patched(written, addr - entry, part);
    forall i | 0 <= i < |written| ensures written'[i] == ByteAt(f', buf, base, entry + i) {
      assert written[i] == ByteAt(f, buf, base, entry + i);
    }
  }

  /** What was written to an earlier page is what flash holds there. */
  lemma InEarlierPage(f: seq<Byte>, buf: seq<Byte>, base: nat, entry: nat, written: seq<Byte>, before: seq<Byte>,
                      addr: nat, part: seq<Byte>)
    requires Good(f, buf, base, entry, written, before)
    requires entry <= addr && addr + |part| <= base && addr + |part| <= entry + |written|
    ensures written[addr - entry..addr - entry + |part|] == f[addr..addr + |part|]
  {
    var w := written[addr - entry..addr - entry + |part|];
    forall i | 0 <= i < |part| ensures w[i] == f[addr + i] {
      assert written[addr - entry + i] == ByteAt(f, buf, base, entry + (addr - entry + i));
    }
  }

  /** jit_stream_flash_replace_at_addr on one page: checked bit by bit, then written whole. */
  method ReplaceInPage(flash: array<Byte>, reliable: bool, page: nat, addr: nat, part: seq<Byte>) returns (r: Result)
    requires page % 256 == 0 && page <= addr && addr + |part| <= page + 256 && page + 256 <= flash.Length
    modifies flash
    ensures reliable ==> r != PlatformFailed
    ensures r == Done ==> flash[..] == Patched(old(flash[..]), addr, part)
    ensures r != Done ==> flash[..] == old(flash[..])
    ensures r != PlatformFailed ==> (r == Done <==> AllClear(old(flash[..])[addr..addr + |part|], part))
  {
    hide Patched;
    ghost var was := flash[..][addr..addr + |part|];
    for i := 0 to |part|
      invariant flash[..] == old(flash[..]) && forall x :: 0 <= x < i ==> ClearsOnly(was[x], part[x])
    {
      assert was[i] == flash[addr + i];
      if (part[i] & !flash[addr + i]) != 0 { return SetsBits; }
    }
    var content := Patched(flash[page..page + 256], addr - page, part);
    PageClears(flash[..], page, addr, part);
    assert flash[..][page..page + 256] == flash[page..page + 256];
    var ok := WritePage(flash, reliable, page, content);
    r := if ok then Done else PlatformFailed;
    PagePatched(old(flash[..]), page, addr, part);
  }

  lemma PageClears(f: seq<Byte>, page: nat, addr: nat, part: seq<Byte>)
    requires page <= addr && addr + |part| <= page + 256 && page + 256 <= |f|
    requires AllClear(f[addr..addr + |part|], part)
    ensures forall a :: page <= a < page + 256 ==>
            ClearsOnly(f[a], Patched(f[page..page + 256], addr - page, part)[a - page])
  {
    hide Patched;
    var content := Patched(f[page..page + 256], addr - page, part);
    forall a | page <= a < page + 256 ensures ClearsOnly(f[a], content[a - page]) {
      if addr <= a < addr + |part| {
        assert ClearsOnly(f[addr..addr + |part|][a - addr], part[a - addr]);
      } else {
        ClearsSame(f[a]);
      }
    }
  }

  lemma PagePatched(f: seq<Byte>, page: nat, addr: nat, part: seq<Byte>)
    requires page <= addr && addr + |part| <= page + 256 && page + 256 <= |f|
    ensures Patched(f, page, Patched(f[page..page + 256], addr - page, part)) == Patched(f, addr, part)
  {
    hide Patched;
  }

  lemma EntrySector(entry: nat)
    ensures PageStart(entry) % 256 == 0 && PageStart(entry) <= entry < PageStart(entry) + 256
    ensures SectorEnd(PageStart(entry)) == SectorEnd(entry)
  {
    var q, p := entry / 256, entry % 256;
    assert entry == 256 * q + p;
    assert entry / 4096 == q / 16 && (256 * q) / 4096 == q / 16;
  }

  // ---- starting a stream ----

  /** The part of nif_jit_stream_flash_new that erases: what an earlier attempt left behind the
      entry goes, what lies before it in the sector is written back. */
  method Prepare(flash: array<Byte>, reliable: bool, entry: nat) returns (ok: bool)
    requires SectorEnd(entry + 16) <= flash.Length
    modifies flash
    ensures reliable ==> ok
    ensures ok ==> flash[..entry] == old(flash[..entry])
    ensures ok ==> forall a :: entry <= a < SectorEnd(entry) ==> flash[a] == ERASED
    ensures ok ==> forall a :: SectorEnd(entry) <= a < SectorEnd(entry + 16) ==> flash[a] == ERASED
    ensures !ok ==> flash[..entry] == old(flash[..entry]) || exists k :: CutShort(flash[..], old(flash[..]), entry, k)
  {
    var sector := SectorStart(entry);
    SectorsGrow(entry, entry + 16);
    var stale := HasStaleData(flash, entry, sector + 4096);
    ok := true;
    if stale {
      ok := EraseAround(flash, reliable, entry);
      if !ok { return; }
    }
    var endSector := SectorStart(entry + 16);
    EndSector(entry);
    if endSector != sector { ok := CleanSector(flash, reliable, endSector); }
  }

  lemma EndSector(entry: nat)
    ensures SectorStart(entry + 16) == SectorStart(entry) || SectorStart(entry + 16) == SectorEnd(entry)
  {}

  /** Erases the sector of the entry and writes back the pages before it. */
  method EraseAround(flash: array<Byte>, reliable: bool, entry: nat) returns (ok: bool)
    requires SectorEnd(entry) <= flash.Length
    modifies flash
    ensures reliable ==> ok
    ensures ok ==> flash[..entry] == old(flash[..entry])
    ensures ok ==> forall a :: entry <= a < SectorEnd(entry) ==> flash[a] == ERASED
    ensures forall a :: SectorEnd(entry) <= a < flash.Length ==> flash[a] == old(flash[a])
    ensures !ok ==> flash[..] == old(flash[..]) || exists k :: CutShort(flash[..], old(flash[..]), entry, k)
  {
    hide ClearsOnly, Patched;
    var sector := SectorStart(entry);
    var preserve := entry - sector;
    var saved := flash[sector..entry] + seq(4096 - preserve, _ => ERASED);
    ok := EraseSector(flash, reliable, sector);
    if !ok { return; }
    ghost var k, erased := 0, flash[..];
    ok, k := WriteBack(flash, reliable, sector, saved, preserve);
    if !ok { IsCutShort(old(flash[..]), erased, flash[..], entry, saved, k); }
  }

  lemma IsCutShort(was: seq<Byte>, erased: seq<Byte>, f: seq<Byte>, entry: nat, saved: seq<Byte>, k: nat)
    requires SectorEnd(entry) <= |was| == |erased| && |saved| == 4096 && k % 256 == 0 && SectorStart(entry) + k < entry
    requires forall i :: 0 <= i < k ==> saved[i] == was[SectorStart(entry) + i]
    requires forall a :: 0 <= a < |was| ==>
               erased[a] == if SectorStart(entry) <= a < SectorEnd(entry) then ERASED else was[a]
    requires f == Patched(erased, SectorStart(entry), saved[..k])
    ensures CutShort(f, was, entry, k)
  {
    hide Patched;
    var to := SectorStart(entry) + k;
    assert forall a :: 0 <= a < to ==> f[a] == was[a];
  }

  /** The sector of the entry is erased, and only its first k bytes, whole pages that end
      before the entry, are written back. */
  ghost predicate CutShort(f: seq<Byte>, was: seq<Byte>, entry: nat, k: int) {
    var to := SectorStart(entry) + k;
    && 0 <= k && k % 256 == 0 && to < entry && SectorEnd(entry) <= |f| == |was|
    && f[..to] == was[..to] && forall a :: to <= a < SectorEnd(entry) ==> f[a] == ERASED
  }

  /** What is not written back is lost. */
  lemma LostBefore(f: seq<Byte>, was: seq<Byte>, entry: nat, k: int)
    requires CutShort(f, was, entry, k)
    ensures f[..entry] == was[..entry] <==> forall a :: SectorStart(entry) + k <= a < entry ==> was[a] == ERASED
  {
    var to := SectorStart(entry) + k;
    if f[..entry] == was[..entry] {
      forall a | to <= a < entry ensures was[a] == ERASED { assert f[..entry][a] == was[..entry][a]; }
    }
    if forall a :: to <= a < entry ==> was[a] == ERASED {
      forall a | 0 <= a < entry ensures f[a] == was[a] {
        if a < to { assert f[..to][a] == was[..to][a]; }
      }
    }
  }

  lemma OnErased(f: seq<Byte>, addr: nat, page: seq<Byte>)
    requires addr + |page| <= |f| && forall a :: addr <= a < addr + |page| ==> f[a] == ERASED
    ensures forall a :: addr <= a < addr + |page| ==> ClearsOnly(f[a], page[a - addr])
  {
    hide ClearsOnly;
    forall a | addr <= a < addr + |page| ensures ClearsOnly(f[a], page[a - addr]) { ClearsErased(page[a - addr]); }
  }

  /** A page on erased memory. */
  method WriteErased(flash: array<Byte>, reliable: bool, addr: nat, page: seq<Byte>) returns (ok: bool)
    requires addr % 256 == 0 && addr + 256 <= flash.Length && |page| == 256
    requires forall a :: addr <= a < addr + 256 ==> flash[a] == ERASED
    modifies flash
    ensures reliable ==> ok
    ensures flash[..] == if ok then Patched(old(flash[..]), addr, page) else old(flash[..])
  {
    hide ClearsOnly, Patched;
    OnErased(flash[..], addr, page);
    ok := WritePage(flash, reliable, addr, page);
  }

  /** The first preserve bytes of an erased sector, page by page. */
  method WriteBack(flash: array<Byte>, reliable: bool, sector: nat, saved: seq<Byte>, preserve: nat)
    returns (ok: bool, ghost k: nat)
    requires sector % 4096 == 0 && sector + 4096 <= flash.Length && |saved| == 4096 && preserve <= 4096
    requires forall a :: sector <= a < sector + 4096 ==> flash[a] == ERASED
    requires forall i :: preserve <= i < 4096 ==> saved[i] == ERASED
    modifies flash
    ensures reliable ==> ok
    ensures ok ==> flash[..] == Patched(old(flash[..]), sector, saved)
    ensures !ok ==> k % 256 == 0 && k < preserve && flash[..] == Patched(old(flash[..]), sector, saved[..k])
  {
    hide ClearsOnly, Patched;
    var at := 0;
    ok, k := true, 0;
    ghost var was := flash[..];
    NoPatch(was, sector);
    assert saved[..0] == [];
    while at < preserve
      invariant at % 256 == 0 && 0 <= at <= 4096 && ok && flash[..] == Patched(was, sector, saved[..at])
    {
      var page := saved[at..at + 256];
      Aligned(sector, at);
      StillErased(was, flash[..], sector, saved, at);
      PatchMore(was, sector, saved, at, at + 256);
      ok := WriteErased(flash, reliable, sector + at, page);
      k := at;
      if !ok { return; }
      at := at + 256;
    }
    PatchedWhole(was, sector, saved, at);
  }

  /** A page of a sector. */
  lemma Aligned(sector: nat, at: nat)
    requires sector % 4096 == 0 && at % 256 == 0
    ensures (sector + at) % 256 == 0
  {
    Multiple(sector + at, 16 * (sector / 4096) + at / 256);
  }

  lemma Multiple(x: int, q: int)
    requires x == 256 * q
    ensures x % 256 == 0
  {}

  lemma StillErased(was: seq<Byte>, f: seq<Byte>, sector: nat, saved: seq<Byte>, at: nat)
    requires sector + |saved| <= |was| && at <= |saved| && f == Patched(was, sector, saved[..at])
    requires forall a :: sector <= a < sector + |saved| ==> was[a] == ERASED
    ensures forall a :: sector + at <= a < sector + |saved| ==> f[a] == ERASED
  {
    hide Patched;
  }

  /** Behind at, what is to be written is what is there. */
  lemma PatchedWhole(was: seq<Byte>, sector: nat, saved: seq<Byte>, at: nat)
    requires sector + |saved| <= |was| && at <= |saved|
    requires forall i :: at <= i < |saved| ==> saved[i] == was[sector + i]
    ensures Patched(was, sector, saved[..at]) == Patched(was, sector, saved)
  {
    hide Patched;
  }

  /** nif_jit_stream_flash_new: a stream with an empty header, and memory before the entry
      as it was. */
  method Create(flash: array<Byte>, reliable: bool, entry: nat) returns (r: Result, s: Stream?)
    requires SectorEnd(entry + 16) <= flash.Length
    modifies flash
    ensures reliable ==> r != PlatformFailed
    ensures r == Done || r == PlatformFailed
    ensures r == Done ==> s != null && s.flash == flash && s.reliable == reliable && s.entry == entry && s.Valid()
    ensures r == Done ==> s.written == seq(16, _ => ERASED) && s.before == old(flash[..entry])
    ensures flash[..entry] == old(flash[..entry])
            || (r == PlatformFailed && exists k :: CutShort(flash[..], old(flash[..]), entry, k))
  {
    hide Good, CutShort;
    s := null;
    var ok := Prepare(flash, reliable, entry);
    if !ok { return PlatformFailed, null; }
    SectorsGrow(entry, entry + 16);
    s := new Stream.Open(flash, reliable, entry);
    r := s.Append(seq(16, _ => ERASED));
    assert [] + seq(16, _ => ERASED) == seq(16, _ => ERASED);
  }

  /** A 32-bit size, least significant byte first. */
  function SizeBytes(n: nat): (s: seq<Byte>)
    ensures |s| == 4
  {
    [(n % 256) as Byte, (n / 256 % 256) as Byte, (n / 65536 % 256) as Byte, (n / 16777216 % 256) as Byte]
  }

  /** The number that four bytes at a place hold, least significant first. */
  ghost function Word32(f: seq<Byte>, at: nat): int
    requires at + 4 <= |f|
  {
    f[at] as int + 256 * (f[at + 1] as int) + 65536 * (f[at + 2] as int) + 16777216 * (f[at + 3] as int)
  }

  lemma SizeIsWord(n: nat)
    ensures Word32(SizeBytes(n), 0) == n % 0x1_0000_0000
  {
    ThereAndBack(n % 256);
    ThereAndBack(n / 256 % 256);
    ThereAndBack(n / 65536 % 256);
    ThereAndBack(n / 16777216 % 256);
    FourBytes(n, n / 256, n / 65536, n / 16777216);
  }

  /** The header in memory holds the size. */
  lemma SizeInFlash(f: seq<Byte>, entry: nat, was: seq<Byte>, written: seq<Byte>, before: seq<Byte>)
    requires 16 <= |was| && written == Patched(was, 12, SizeBytes(|was| - 16)) && InFlash(f, entry, written, before)
    ensures entry + |was| <= |f| && Word32(f, entry + 12) == (|was| - 16) % 0x1_0000_0000
  {
    hide SizeBytes, Patched;
    SizeIsWord(|was| - 16);
    var b := SizeBytes(|was| - 16);
    assert written[12] == b[0] && written[13] == b[1] && written[14] == b[2] && written[15] == b[3];
    assert f[entry + 12] == written[12] && f[entry + 13] == written[13] && f[entry + 14] == written[14];
    assert f[entry + 15] == written[15];
  }

  lemma FourBytes(n: int, a: int, b: int, c: int)
    requires 0 <= n && a == n / 256 && b == n / 65536 && c == n / 16777216
    ensures n % 256 + 256 * (a % 256) + 65536 * (b % 256) + 16777216 * (c % 256) == n % 0x1_0000_0000
  {
    var low, mid := n % 256, n % 256 + 256 * (a % 256);
    DivModUnique(n, 65536, a / 256, mid);
    DivModUnique(n, 16777216, b / 256, mid + 65536 * (b % 256));
    DivModUnique(n, 0x1_0000_0000, c / 256, mid + 65536 * (b % 256) + 16777216 * (c % 256));
  }

  lemma AllErasedClears(written: seq<Byte>, size: seq<Byte>)
    requires |size| == 4 && 16 <= |written| && forall i :: 12 <= i < 16 ==> written[i] == ERASED
    ensures AllClear(written[12..16], size)
  {
    forall i | 0 <= i < 4 ensures ClearsOnly(written[12..16][i], size[i]) { ClearsErased(size[i]); }
  }

  lemma FieldInPage(entry: nat)
    requires entry % 4 == 0
    ensures PageStart(entry + 12) % 256 == 0 && PageStart(entry + 12) <= entry + 12 &&
            entry + 16 <= PageStart(entry + 12) + 256
  {}

  /** A part that would set a bit is part of data that would. */
  lemma PartNotClear(was: seq<Byte>, i: nat, data: seq<Byte>, d: nat, e: nat, c: nat)
    requires i + |data| <= |was| && d <= e <= c <= |data|
    requires !AllClear(Patched(was, i, data[..d])[i + d..i + e], data[d..e])
    ensures d < e && !AllClear(was[i..i + c], data[..c])
  {
    var cur, part := Patched(was, i, data[..d])[i + d..i + e], data[d..e];
    var x :| 0 <= x < |part| && !ClearsOnly(cur[x], part[x]);
    assert cur[x] == was[i..i + c][d + x] && part[x] == data[..c][d + x];
  }

  lemma NothingToClear(was: seq<Byte>, i: nat)
    requires i <= |was|
    ensures AllClear(was[i..i], [])
  {}

  /** Parts that only clear bits, one behind the other. */
  lemma PartClear(was: seq<Byte>, i: nat, data: seq<Byte>, d: nat, e: nat)
    requires i + |data| <= |was| && d <= e <= |data|
    requires AllClear(was[i..i + d], data[..d]) && AllClear(Patched(was, i, data[..d])[i + d..i + e], data[d..e])
    ensures AllClear(was[i..i + e], data[..e])
  {
    var cur, part := Patched(was, i, data[..d])[i + d..i + e], data[d..e];
    forall x | 0 <= x < e ensures ClearsOnly(was[i..i + e][x], data[..e][x]) {
      if x < d {
        assert ClearsOnly(was[i..i + d][x], data[..d][x]);
      } else {
        assert ClearsOnly(cur[x - d], part[x - d]);
      }
    }
  }

  lemma PageOrder(page: nat, base: nat, addr: nat)
    requires page % 256 == 0 && base % 256 == 0 && page <= addr < base + 256
    ensures page == base || page + 256 <= base
  {}

  /** How many of len bytes from start on lie before base. */
  ghost function Below(base: nat, start: nat, len: nat): (n: nat)
    ensures n <= len
  {
    if start >= base then 0 else if start + len <= base then len else base - start
  }

  /** d bytes of data are replaced in what was written, and those before base only
      cleared bits. */
  ghost predicate Replaced(was: seq<Byte>, w: seq<Byte>, i: nat, data: seq<Byte>, d: nat, base: nat, start: nat) {
    && i + |data| <= |was| && d <= |data| && w == Patched(was, i, data[..d])
    && var c := Below(base, start, d); AllClear(was[i..i + c], data[..c])
  }

  lemma NothingReplaced(was: seq<Byte>, i: nat, data: seq<Byte>, base: nat, start: nat)
    requires i + |data| <= |was|
    ensures Replaced(was, was, i, data, 0, base, start)
  {
    assert data[..0] == [];
    NoPatch(was, i);
    NothingToClear(was, i);
  }

  lemma ReplacedMore(was: seq<Byte>, w: seq<Byte>, w': seq<Byte>, i: nat, data: seq<Byte>, d: nat, e: nat, cur: nat,
                     base: nat, start: nat)
    requires Replaced(was, w, i, data, d, base, start) && d <= e <= |data| && cur <= start + d && start + e <= cur + 256
    requires w' == Patched(w, i + d, data[d..e])
    requires cur == base || (cur + 256 <= base && AllClear(w[i + d..i + e], data[d..e]))
    ensures Replaced(was, w', i, data, e, base, start)
  {
    PatchMore(was, i, data, d, e);
    if cur != base { PartClear(was, i, data, d, e); }
  }

  /** A replacement at start that stopped behind k bytes: at its beginning or a page border,
      all before only clears bits, and the page that comes would set one. */
  ghost predicate StoppedAt(was: seq<Byte>, i: nat, data: seq<Byte>, k: nat, start: nat) {
    && k < |data| && i + |data| <= |was| && (k == 0 || (start + k) % 256 == 0)
    && AllClear(was[i..i + k], data[..k])
    && var room := PageStart(start + k) + 256 - start;
       var e := if room > |data| then |data| else room;
       k < e && !AllClear(was[i + k..i + e], data[k..e])
  }

  lemma InPage(cur: nat, at: nat)
    requires cur % 256 == 0 && cur <= at < cur + 256
    ensures PageStart(at) == cur
  {}

  lemma ReplacedSome(was: seq<Byte>, w: seq<Byte>, i: nat, data: seq<Byte>, d: nat, e: nat, cur: nat, base: nat,
                     start: nat)
    requires Replaced(was, w, i, data, d, base, start) && d <= e <= |data| && cur + 256 <= base
    requires PageStart(start + d) == cur && cur % 256 == 0 && (d == 0 || start + d == cur)
    requires start + e == if cur + 256 > start + |data| then start + |data| else cur + 256
    requires !AllClear(w[i + d..i + e], data[d..e])
    ensures StoppedAt(was, i, data, d, start) && w == Patched(was, i, data[..d])
    ensures var c := Below(base, start, |data|); !AllClear(was[i..i + c], data[..c])
  {
    hide AllClear, Patched, PageStart;
    assert Below(base, start, d) == d;
    PartNotClear(was, i, data, d, e, Below(base, start, |data|));
    PatchBehind(was, i, data, d, e);
  }

  /** A patch leaves what is behind it. */
  lemma PatchBehind(was: seq<Byte>, i: nat, data: seq<Byte>, d: nat, e: nat)
    requires i + |data| <= |was| && d <= e <= |data|
    ensures Patched(was, i, data[..d])[i + d..i + e] == was[i + d..i + e]
  {}

  lemma ReplacedAll(was: seq<Byte>, w: seq<Byte>, i: nat, data: seq<Byte>, d: nat, base: nat, start: nat)
    requires Replaced(was, w, i, data, d, base, start) && d == |data|
    ensures w == Patched(was, i, data)
    ensures var c := Below(base, start, |data|); AllClear(was[i..i + c], data[..c])
  {
    assert data[..d] == data;
  }

  /** Where a replacement of start..end stands at the page cur. */
  ghost function Clip(cur: nat, start: nat, end: nat): nat {
    if cur <= start then start else if cur < end then cur else end
  }

  lemma FirstPage(start: nat, end: nat)
    requires start <= end
    ensures PageStart(start) % 256 == 0 && start < PageStart(start) + 256 && Clip(PageStart(start), start, end) == start
  {}

  lemma PageClip(cur: nat, start: nat, end: nat, from: nat, to: nat)
    requires cur % 256 == 0 && cur < end && start <= end && start < cur + 256
    requires from == if cur < start then start else cur
    requires to == if cur + 256 > end then end else cur + 256
    ensures from == Clip(cur, start, end) && to == Clip(cur + 256, start, end) && cur <= from <= to <= cur + 256 &&
            to <= end
    ensures (cur + 256) % 256 == 0
  {}

  lemma PastEnd(cur: nat, start: nat, end: nat)
    requires cur >= end && start <= end
    ensures Clip(cur, start, end) == end
  {}
}
