/** The page allocator and the page tables of core/memory/paging.c.

    The directory and its tables are consecutive 4 KiB frames starting at `DIR_FRAME`, so they
    are one array of 32-bit words here. A word is kept as the pair of its upper 20 bits (a frame
    number) and its lower 12 bits; masking with 0xFFFFF000 is taking `frame`. */
module Paging {
  import opened FirstFit
  import opened TaskPids

  const FRAMES := 0x10_0000
  const DIR_FRAME := 0x210 // MEMORY_VIRTUAL_TABLES / 4096
  const WORD := 0x1_0000_0000

  datatype Pte = Pte(frame: nat, flags: bv12)

  datatype Shadow = Shadow(pid: nat, npages: nat)

  datatype PageReq = PageReq(pid: nat, attr: bv8, size: nat)

  /** `valloc` returns NULL, stops the kernel in `dbg_assert`, or returns a pointer. */
  datatype Outcome = Null | Halt | Pointer(ptr: nat)

  datatype State = State(words: seq<Pte>, shadow: seq<Shadow>)

  predicate Present(e: Pte) { e.flags & 1 == 1 }

  /** `paging_convert_ptr_to_entry`: drops the supervisor bit of the address, then adds the
      requested attributes and the present bit. */
  function ConvertPtrToEntry(ptr: Pte, attr: bv8): Pte {
    Pte(ptr.frame, (ptr.flags & 0xFFB) | ((attr as bv12) << 1) | 1)
  }

  /** The number of pages, and of page tables, for a machine with `kib` KiB. */
  function Pages(kib: nat): nat { (kib * 1000) % WORD / 4096 }
  function Tables(pages: nat): nat { HowMany(pages, 1024) }

  /** The word of a page that is handed out: the old frame with the flags of the request. */
  function Granted(e: Pte, attr: bv8): Pte { ConvertPtrToEntry(Pte(e.frame, 0), attr) }

  /** A word without its user bit. */
  function DropUser(e: Pte): (r: Pte)
    ensures r.frame == e.frame && (Present(e) ==> Present(r))
  {
    e.(flags := e.flags & 0xFFB)
  }

  /** The first page after the kernel, the directory and `tables` page tables. */
  function KernelEnd(tables: nat): nat { DIR_FRAME + 1 + tables }

  /** Where the word of page `p` lives: table `k` is frame `DIR_FRAME + 1 + k`. */
  function Slot(p: nat): nat { 1024 + p }

  predicate DirectoryOk(w: seq<Pte>, tables: nat) {
    && tables <= 1024
    && |w| == 1024 * (tables + 1)
    && (forall d | 0 <= d < tables :: w[d] == Pte(DIR_FRAME + 1 + d, 3))
    && (forall d | tables <= d < 1024 :: w[d] == Pte(0, 2))
  }

  /** The frame that boot gives page `p`: identity for the kernel, and one frame less for every
      table before the page's own elsewhere. */
  function BootFrame(p: nat, kernelEnd: nat): nat {
    if p < kernelEnd then p else p - p / 1024
  }

  /** Every page has a present word and the frame that boot gave it. */
  predicate Mapped(w: seq<Pte>, tables: nat) {
    && DirectoryOk(w, tables)
    && forall p | 0 <= p < 1024 * tables ::
         Present(w[Slot(p)]) && w[Slot(p)].frame == BootFrame(p, KernelEnd(tables))
  }

  /** Entry `i` of a table that carries on from `previous`, or of an empty directory. */
  function Prepared(isDirectory: bool, previous: Pte, i: int): Pte
    requires 0 <= previous.frame + i
  {
    if isDirectory then Pte(0, 2) else Pte(previous.frame + i, previous.flags | 3)
  }

  /** The words of the tables after boot: kernel pages are user-accessible and writable, too. */
  predicate BootWords(w: seq<Pte>, tables: nat) {
    && |w| == 1024 * (tables + 1)
    && forall p | 0 <= p < 1024 * tables ::
         w[Slot(p)] == if p < KernelEnd(tables) then Pte(p, 7) else Pte(p - p / 1024, 3)
  }

  /** The state that `paging_init` leaves: the kernel holds what lies below `KernelEnd`. */
  ghost predicate Booted(st: State, tables: nat) {
    && Tables(|st.shadow|) == tables
    && KernelEnd(tables) <= |st.shadow|
    && Mapped(st.words, tables)
    && forall p | 0 <= p < |st.shadow| ::
         st.shadow[p].pid == if p < KernelEnd(tables) then PID_KERNEL else PID_RESV
  }

  function FreePages(shadow: seq<Shadow>): (free: seq<bool>)
    ensures |free| == |shadow|
    ensures forall p | 0 <= p < |shadow| :: free[p] <==> shadow[p].pid == PID_RESV
  {
    seq(|shadow|, p requires 0 <= p < |shadow| => shadow[p].pid == PID_RESV)
  }

  /** `n` pages from `page` handed to `pid`; the length is a `uint16_t` kept with the first. */
  function Own(shadow: seq<Shadow>, page: nat, n: nat, pid: nat): (s: seq<Shadow>)
    ensures |s| == |shadow|
    ensures forall p | 0 <= p < |shadow| :: s[p].pid == if page <= p < page + n then pid else shadow[p].pid
    ensures forall p | 0 <= p < |shadow| :: s[p].npages == if p == page then n % 0x1_0000 else shadow[p].npages
  {
    seq(|shadow|, p requires 0 <= p < |shadow| =>
      Shadow(if page <= p < page + n then pid else shadow[p].pid,
             if p == page then n % 0x1_0000 else shadow[p].npages))
  }

  /** `n` pages from `page` made free; lengths stay behind. */
  function Disown(shadow: seq<Shadow>, page: nat, n: nat): (s: seq<Shadow>)
    ensures |s| == |shadow|
    ensures forall p | 0 <= p < |shadow| ::
      s[p] == if page <= p < page + n then Shadow(PID_RESV, shadow[p].npages) else shadow[p]
  {
    seq(|shadow|, p requires 0 <= p < |shadow| =>
      if page <= p < page + n then Shadow(PID_RESV, shadow[p].npages) else shadow[p])
  }

  function AfterValloc(st: State, req: PageReq): (Outcome, State)
    requires |st.shadow| + 1024 <= |st.words|
  {
    var n := HowMany(req.size, 4096);
    if n > |st.shadow| || n == 0 then (Null, st)
    else
      match LowestRun(FreePages(st.shadow), n + 1)
      case None => (Halt, st)
      case Some(page) =>
        (Pointer(page * 4096),
         State(st.words[Slot(page) := Granted(st.words[Slot(page)], req.attr)],
               Own(st.shadow, page, n, req.pid)))
  }

  function AfterVfree(st: State, ptr: nat): State
    requires |st.shadow| + 1024 <= |st.words|
    requires ptr / 4096 < |st.shadow|
  {
    var page := ptr / 4096;
    State(st.words[Slot(page) := DropUser(st.words[Slot(page)])],
          Disown(st.shadow, page, st.shadow[page].npages))
  }

  class Pager {
    const words: array<Pte>
    const shadow: array<Shadow>
    const tables: nat
    var previousEnd: Pte

    /** The directory, the tables and the shadow map have the sizes boot gave them, the
        directory is intact, and the kernel owns page 0. */
    ghost predicate Valid()
      reads this, words, shadow
    {
      && 0 < shadow.Length <= 1024 * tables
      && Mapped(words[..], tables)
      && shadow[0].pid == PID_KERNEL
    }

    ghost function Abstract(): State
      reads words, shadow
    {
      State(words[..], shadow[..])
    }

    /** `paging_init` on a machine with `kib` KiB, in a kernel whose static `previous_end` is
        still zero. The shadow map must at least reach past the kernel's own pages. */
    constructor (kib: nat)
      requires KernelEnd(Tables(Pages(kib))) <= Pages(kib)
      ensures Valid() && fresh(words) && fresh(shadow)
      ensures tables == Tables(Pages(kib)) && shadow.Length == Pages(kib)
      ensures Booted(Abstract(), tables) && BootWords(words[..], tables)
      ensures forall d | 0 <= d < 1024 :: words[d] == if d < tables then Pte(0x211 + d, 3) else Pte(0, 2)
      ensures forall p | 0 <= p < 1024 * tables ::
        words[1024 + p] == if p < 0x211 + tables then Pte(p, 7) else Pte(p - p / 1024, 3)
      ensures forall p | 0 <= p < shadow.Length ::
        shadow[p].pid == if p < 0x211 + tables then PID_KERNEL else PID_RESV
    {
      var available := (kib * 1000) % WORD;
      var pages := available / 4096;
      tables := HowMany(pages, 1024);
      words := new Pte[1024 * (HowMany(pages, 1024) + 1)](_ => Pte(0, 0));
      shadow := new Shadow[pages](_ => Shadow(PID_RESV, 0xFFFF));
      previousEnd := Pte(0, 0);
      new;
      var end := CreateTables();
      MapKernelSpace(end);
    }

    /** `paging_create_tables`, without the shadow map: returns the end of the tables. */
    method CreateTables() returns (end: nat)
      requires words.Length == 1024 * (tables + 1) && tables <= 1024
      requires previousEnd == Pte(0, 0)
      modifies this, words
      ensures end == KernelEnd(tables) * 4096
      ensures DirectoryOk(words[..], tables)
      ensures forall p | 0 <= p < 1024 * tables :: words[Slot(p)] == Pte(p - p / 1024, 3)
    {
      PrepareTable(0, true);
      var i := 1;
      while i <= tables
        invariant 1 <= i <= tables + 1
        invariant forall d | 0 <= d < i - 1 :: words[d] == Pte(DIR_FRAME + 1 + d, 3)
        invariant forall d | i - 1 <= d < 1024 :: words[d] == Pte(0, 2)
        invariant forall p | 0 <= p < 1024 * (i - 1) :: words[Slot(p)] == Pte(p - p / 1024, 3)
        invariant previousEnd == if i == 1 then Pte(0, 0) else Pte(1023 * (i - 1), 3)
      {
        var tableFrame := i + DIR_FRAME;
        words[i - 1] := Pte(tableFrame, 3);
        PrepareTable((tableFrame - DIR_FRAME) * 1024, false);
        i := i + 1;
      }
      var amount := (1024 + tables * 1024) * 4;
      return DIR_FRAME * 4096 + amount;
    }

    /** `paging_prepare_table`: a directory is emptied, a table carries on from the last entry
        of the table before it. */
    method PrepareTable(base: nat, isDirectory: bool)
      requires base + 1024 <= words.Length
      requires previousEnd.frame + 1024 <= FRAMES
      modifies this, words
      ensures forall k | 0 <= k < words.Length && !(base <= k < base + 1024) :: words[k] == old(words[k])
      ensures forall i | base <= i < base + 1024 :: words[i] == Prepared(isDirectory, old(previousEnd), i - base)
      ensures previousEnd == if isDirectory then old(previousEnd) else words[base + 1023]
    {
      ghost var first := previousEnd;
      var i := 0;
      while i < 1024
        invariant 0 <= i <= 1024
        invariant previousEnd == first
        invariant forall k | 0 <= k < words.Length && !(base <= k < base + i) :: words[k] == old(words[k])
        invariant forall k | base <= k < base + i :: words[k] == Prepared(isDirectory, first, k - base)
      {
        words[base + i] :=
          if isDirectory then Pte(0, 2) else Pte((previousEnd.frame + i) % FRAMES, previousEnd.flags | 3);
        i := i + 1;
      }
      if !isDirectory {
        previousEnd := words[base + 1023];
      }
    }

    /** `paging_map_kernelspace`: identity for every page below `end`, owned by the kernel. */
    method MapKernelSpace(end: nat)
      requires 0 < shadow.Length <= 1024 * tables
      requires end == KernelEnd(tables) * 4096 && KernelEnd(tables) <= shadow.Length
      requires DirectoryOk(words[..], tables)
      requires forall p | 0 <= p < 1024 * tables :: words[Slot(p)] == Pte(p - p / 1024, 3)
      requires forall p | 0 <= p < shadow.Length :: shadow[p].pid == PID_RESV
      modifies words, shadow
      ensures Valid()
      ensures BootWords(words[..], tables)
      ensures forall p | 0 <= p < shadow.Length ::
        shadow[p].pid == if p < KernelEnd(tables) then PID_KERNEL else PID_RESV
    {
      var req := PageReq(PID_KERNEL, 3, 4096);
      var pages := end / 4096;
      var i := 0;
      while i < pages
        invariant 0 <= i <= pages
        invariant DirectoryOk(words[..], tables)
        invariant forall p | 0 <= p < 1024 * tables ::
          words[Slot(p)] == if p < i then Pte(p, 7) else Pte(p - p / 1024, 3)
        invariant forall p | 0 <= p < shadow.Length :: shadow[p].pid == if p < i then PID_KERNEL else PID_RESV
      {
        ghost var w := words[..];
        PagingMap(i * 4096, i * 4096, req);
        assert words[..] == w[Slot(i) := Pte(i, 7)];
        shadow[i] := shadow[i].(pid := PID_KERNEL);
        i := i + 1;
      }
    }

    /** `paging_map`: the word of the page of `vptr` gets the frame of `pptr`. */
    method PagingMap(pptr: nat, vptr: nat, req: PageReq)
      requires DirectoryOk(words[..], tables)
      requires vptr / 0x40_0000 < tables
      modifies words
      ensures words[..] ==
        old(words[..])[Slot(vptr / 4096) := ConvertPtrToEntry(Pte(pptr / 4096, (pptr % 4096) as bv12), req.attr)]
    {
      var pdindex := vptr / 0x40_0000;
      var ptindex := vptr / 4096 % 1024;
      assert words[..][pdindex] == words[pdindex];
      var pt := (words[pdindex].frame - DIR_FRAME) * 1024;
      assert pt + ptindex == Slot(vptr / 4096);
      words[pt + ptindex] := ConvertPtrToEntry(Pte(pptr / 4096, (pptr % 4096) as bv12), req.attr);
    }

    /** `paging_vptr_to_pptr`. */
    method VptrToPptr(vptr: nat) returns (pptr: nat)
      requires DirectoryOk(words[..], tables) && vptr < WORD
      ensures pptr == Translate(words[..], tables, vptr)
    {
      var pdindex := vptr / 0x40_0000;
      var ptindex := vptr / 4096 % 1024;
      assert words[..][pdindex] == words[pdindex];
      if !Present(words[pdindex]) {
        return vptr;
      }
      var pt := (words[pdindex].frame - DIR_FRAME) * 1024;
      assert words[..][pt + ptindex] == words[pt + ptindex];
      if !Present(words[pt + ptindex]) {
        return vptr;
      }
      return words[pt + ptindex].frame * 4096 + vptr % 4096;
    }

    /** `paging_find_free`: one counter, reset at every owned page; it stops one page later
        than it would have to. NULL and page 0 are the same result. */
    method FindFree(npages: nat) returns (ptr: nat)
      ensures match LowestRun(FreePages(shadow[..]), npages + 1)
        case None => ptr == 0
        case Some(page) => ptr == page * 4096
    {
      ghost var free := FreePages(shadow[..]);
      ghost var need := npages + 1;
      var index, cnt := 0, 0;
      var i := 0;
      while i < shadow.Length
        invariant 0 <= cnt <= i <= shadow.Length && cnt <= npages
        invariant 0 < cnt ==> index == i - cnt
        invariant forall j | i - cnt <= j < i :: free[j]
        invariant cnt < i ==> !free[i - cnt - 1]
        invariant forall s: nat | s + need <= i :: !FreeRun(free, s, need)
      {
        if shadow[i].pid != PID_RESV {
          cnt := 0;
        } else {
          if cnt == 0 {
            index := i;
          }
          cnt := cnt + 1;
          if cnt - 1 == npages {
            assert IsLowestRun(free, index, need);
            LowestRunIsUnique(free, index, need);
            return index * 4096;
          }
        }
        i := i + 1;
        assert cnt < i ==> !free[i - cnt - 1];
      }
      return 0;
    }

    /** The first part of a grant: the word of the first page gets the attributes. */
    method GrantPage(page: nat, attr: bv8)
      requires Valid() && page < shadow.Length
      modifies words
      ensures Valid()
      ensures words[..] == old(words[..])[Slot(page) := Granted(old(words[..])[Slot(page)], attr)]
    {
      ghost var w := words[..];
      assert w[page / 1024] == words[page / 1024];
      WalkReachesSlot(w, tables, page);
      hide Mapped, Present, ConvertPtrToEntry, Slot;
      var ptable := (words[page / 1024].frame - DIR_FRAME) * 1024;
      words[ptable + page % 1024] := Granted(words[ptable + page % 1024], attr);
      ConvertKeepsFrame(Pte(w[Slot(page)].frame, 0), attr);
      FlagsKeepMapped(w, tables, page, Granted(w[Slot(page)], attr));
      assert words[..] == w[Slot(page) := Granted(w[Slot(page)], attr)];
    }

    /** `valloc`. */
    method Valloc(req: PageReq) returns (r: Outcome)
      requires Valid()
      modifies words, shadow
      ensures Valid()
      ensures (r, Abstract()) == AfterValloc(old(Abstract()), req)
    {
      var npages := HowMany(req.size, 4096);
      if npages > shadow.Length || npages == 0 {
        return Null;
      }
      ghost var st := Abstract();
      var ptr := FindFree(npages);
      if ptr == 0 {
        return Halt;
      }
      var page := ptr / 4096;
      assert LowestRun(FreePages(st.shadow), npages + 1) == Some(page);
      GrantPage(page, req.attr);
      hide Mapped, Granted, Slot, LowestRun, FreePages;
      ghost var w := words[..];

      var i := 0;
      while i < npages
        invariant 0 <= i <= npages
        invariant words[..] == w
        invariant forall p | 0 <= p < shadow.Length ::
          shadow[p] == if page <= p < page + i then st.shadow[p].(pid := req.pid) else st.shadow[p]
      {
        shadow[page + i] := shadow[page + i].(pid := req.pid);
        i := i + 1;
      }
      shadow[page] := shadow[page].(npages := npages % 0x1_0000);
      assert shadow[..] == Own(st.shadow, page, npages, req.pid);
      return Pointer(ptr);
    }

    /** `vfree`, for any page whose recorded length stays inside the shadow map. */
    method Vfree(ptr: nat)
      requires Valid()
      requires 0 < ptr / 4096 && ptr / 4096 < shadow.Length
      requires ptr / 4096 + shadow[ptr / 4096].npages <= shadow.Length
      modifies words, shadow
      ensures Valid()
      ensures Abstract() == AfterVfree(old(Abstract()), ptr)
    {
      ghost var st := Abstract();
      var page := ptr / 4096;
      ghost var w := words[..];
      assert w[page / 1024] == words[page / 1024];
      WalkReachesSlot(w, tables, page);
      hide Mapped, Present, Slot, DropUser;
      var ptable := (words[page / 1024].frame - DIR_FRAME) * 1024;
      ghost var e := DropUser(w[Slot(page)]);
      FlagsKeepMapped(w, tables, page, e);
      words[ptable + page % 1024] := DropUser(words[ptable + page % 1024]);
      assert words[..] == w[Slot(page) := e];
      assert Mapped(words[..], tables);

      var i := 0;
      while i < shadow[page].npages
        invariant 0 <= i <= shadow[page].npages == st.shadow[page].npages
        invariant words[..] == w[Slot(page) := e]
        invariant forall p | 0 <= p < shadow.Length ::
          shadow[p] == if page <= p < page + i then st.shadow[p].(pid := PID_RESV) else st.shadow[p]
      {
        shadow[page + i] := shadow[page + i].(pid := PID_RESV);
        i := i + 1;
      }
      assert shadow[..] == Disown(st.shadow, page, st.shadow[page].npages);
    }
  }

  // ---------- Words ----------

  /** Which flags a word gets: present; the attributes, one bit higher, over what the address had
      there; but the user bit from the second attribute alone. */
  predicate FlagsOf(flags: bv12, address: bv12, attr: bv8) {
    && flags & 0x001 != 0
    && (flags & 0x002 != 0 <==> attr & 0x01 != 0 || address & 0x002 != 0)
    && (flags & 0x004 != 0 <==> attr & 0x02 != 0)
    && (flags & 0x008 != 0 <==> attr & 0x04 != 0 || address & 0x008 != 0)
    && (flags & 0x010 != 0 <==> attr & 0x08 != 0 || address & 0x010 != 0)
    && (flags & 0x020 != 0 <==> attr & 0x10 != 0 || address & 0x020 != 0)
    && (flags & 0x040 != 0 <==> attr & 0x20 != 0 || address & 0x040 != 0)
    && (flags & 0x080 != 0 <==> attr & 0x40 != 0 || address & 0x080 != 0)
    && (flags & 0x100 != 0 <==> attr & 0x80 != 0 || address & 0x100 != 0)
    && flags & 0xE00 == address & 0xE00
  }

  /** The attributes are eight bits, so they never reach the frame and never clear `present`. */
  lemma ConvertKeepsFrame(ptr: Pte, attr: bv8)
    ensures var e := ConvertPtrToEntry(ptr, attr);
      e.frame == ptr.frame && Present(e) && FlagsOf(e.flags, ptr.flags, attr)
  {
    var wide := attr as bv12;
    AttributeBits(wide, ptr.flags);
    WideBits(attr);
  }

  lemma AttributeBits(attr: bv12, flags: bv12)
    ensures var e := (flags & 0xFFB) | (attr << 1) | 1;
      && e & 1 == 1
      && (e & 0x002 != 0 <==> attr & 0x01 != 0 || flags & 0x002 != 0)
      && (e & 0x004 != 0 <==> attr & 0x02 != 0)
      && (e & 0x008 != 0 <==> attr & 0x04 != 0 || flags & 0x008 != 0)
      && (e & 0x010 != 0 <==> attr & 0x08 != 0 || flags & 0x010 != 0)
      && (e & 0x020 != 0 <==> attr & 0x10 != 0 || flags & 0x020 != 0)
      && (e & 0x040 != 0 <==> attr & 0x20 != 0 || flags & 0x040 != 0)
      && (e & 0x080 != 0 <==> attr & 0x40 != 0 || flags & 0x080 != 0)
      && (e & 0x100 != 0 <==> attr & 0x80 != 0 || flags & 0x100 != 0)
      && (attr & 0xF00 == 0 ==> e & 0xE00 == flags & 0xE00)
  {
  }

  lemma WideBits(attr: bv8)
    ensures var wide := attr as bv12;
      && (attr & 0x01 != 0 <==> wide & 0x01 != 0) && (attr & 0x02 != 0 <==> wide & 0x02 != 0)
      && (attr & 0x04 != 0 <==> wide & 0x04 != 0) && (attr & 0x08 != 0 <==> wide & 0x08 != 0)
      && (attr & 0x10 != 0 <==> wide & 0x10 != 0) && (attr & 0x20 != 0 <==> wide & 0x20 != 0)
      && (attr & 0x40 != 0 <==> wide & 0x40 != 0) && (attr & 0x80 != 0 <==> wide & 0x80 != 0)
      && wide & 0xF00 == 0
  {
  }

  /** Directory and table index lead to the word of the page. */
  lemma WalkReachesSlot(w: seq<Pte>, tables: nat, page: nat)
    requires Mapped(w, tables) && page < 1024 * tables
    ensures Slot(page) < |w| && page / 1024 < 1024
    ensures (w[page / 1024].frame - DIR_FRAME) * 1024 + page % 1024 == Slot(page)
    ensures Present(w[Slot(page)])
  {
  }

  /** A word may get other flags, as long as it stays present. */
  lemma FlagsKeepMapped(w: seq<Pte>, tables: nat, page: nat, e: Pte)
    requires Mapped(w, tables) && page < 1024 * tables
    requires Present(e) && e.frame == w[Slot(page)].frame
    ensures Mapped(w[Slot(page) := e], tables)
  {
  }

  /** The walk of `paging_vptr_to_pptr`: the directory word leads to a table only when it is
      present; an address that is not paged is its own translation. */
  function Translate(w: seq<Pte>, tables: nat, vptr: nat): nat
    requires DirectoryOk(w, tables) && vptr < WORD
  {
    var pd := w[vptr / 0x40_0000];
    var ptindex := vptr / 4096 % 1024;
    if Present(pd) then
      var pt := (pd.frame - DIR_FRAME) * 1024;
      if Present(w[pt + ptindex]) then w[pt + ptindex].frame * 4096 + vptr % 4096 else vptr
    else vptr
  }
}
