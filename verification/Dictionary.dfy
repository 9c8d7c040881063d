/** dict_add_word and the snapshot walker: headers written into the SPI-RAM, linked
    backwards, and read again. */
module Dictionary {
  import opened Words
  import opened Bus
  import opened Stacks
  import opened Threaded

  const FORTH_MAX_WORD_LEN: int := 33
  const LEN_MASK_RANGE: int := 0x20

  /** dict_add_word: link, length byte, name, and the frontier on the next cell. */
  function AddWord(m: Machine, name: seq<u8>): (r: Result<Machine>)
    requires m.Valid()
    ensures r.Success? ==> r.value.Valid()
  {
    var n := |Stored(name)|;
    var mem1 :- Store32(m.mem, m.here, m.latest);
    var mem2 :- Store8(mem1, Wrap(m.here + 4), n);
    var mem3 :- RingStore(mem2, Wrap(m.here + 5), Stored(name));
    Success(m.(mem := mem3, latest := m.here, here := AlignUp(Wrap(m.here + 5 + n))))
  }

  /** The bytes of a name that its header holds. */
  function Stored(name: seq<u8>): (r: seq<u8>)
    ensures |r| == (if |name| > 33 then 33 else |name|) && r <= name
  {
    if |name| > FORTH_MAX_WORD_LEN then name[..FORTH_MAX_WORD_LEN] else name
  }

  datatype Entry = Entry(addr: u32, name: seq<u8>, body: u32)

  /** One line of the walker: the link, the immediate flag, and what the header says
      of its word. */
  datatype Header = Header(prev: u32, immediate: bool, entry: Entry)

  function ReadHeader(mem: Memory, curr: u32): Result<Header>
    requires mem.Valid()
  {
    var prev :- Load32(mem, curr);
    var flagsLen :- Load8(mem, Wrap(curr + 4));
    var wordLen := flagsLen % LEN_MASK_RANGE;
    var name :- LoadBytes(mem, Wrap(curr + 5), wordLen);
    Success(Header(prev, flagsLen >= 0x80, Entry(curr, name, AlignUp(Wrap(curr + 5 + wordLen)))))
  }

  /** The chain from curr back to 0 is the list of entries, latest first; each link
      leads to a lower address. */
  ghost predicate Chain(mem: Memory, curr: u32, words: seq<Entry>) {
    mem.Valid() &&
    if words == [] then curr == 0
    else
      && words[0].addr == curr && curr != 0
      && exists prev: u32 ::
           && prev < curr
           && ReadHeader(mem, curr) == Success(Header(prev, false, words[0]))
           && Chain(mem, prev, words[1..])
  }

  /** Room for the header of a name at the frontier. */
  predicate RoomFor(m: Machine, n: nat) {
    EXT_BASE <= m.here && m.here % 4 == 0 && m.here + 5 + n + 3 <= EXT_BASE + EXT_SIZE
  }

  /** A header at offset o: the link, the length byte and the name. */
  ghost predicate HeaderAt(ext: seq<u8>, o: int, prev: u32, len: u8, name: seq<u8>) {
    && |ext| == EXT_SIZE && 0 <= o && o + 5 + |name| <= EXT_SIZE
    && Get32(ext, o) == prev && ext[o + 4] == len && ext[o + 5..o + 5 + |name|] == name
  }

  function PutHeader(ext: seq<u8>, o: int, prev: u32, name: seq<u8>): (r: seq<u8>)
    requires |ext| == EXT_SIZE && 0 <= o && o + 5 + |name| <= EXT_SIZE && |name| < 0x100
    ensures |r| == EXT_SIZE
  {
    Overwrite(Put32(ext, o, prev)[o + 4 := |name|], o + 5, name)
  }

  lemma PutHeaderAt(ext: seq<u8>, o: int, prev: u32, name: seq<u8>)
    requires |ext| == EXT_SIZE && 0 <= o && o + 5 + |name| <= EXT_SIZE && |name| < 0x100
    ensures HeaderAt(PutHeader(ext, o, prev, name), o, prev, |name|, name)
    ensures forall i | 0 <= i < EXT_SIZE && (i < o || o + 5 + |name| <= i) :: PutHeader(ext, o, prev, name)[i] == ext[i]
  {
    hide Put32;
    GetPut32(ext, o, prev);
    var ext1 := Put32(ext, o, prev);
    var ext2 := ext1[o + 4 := |name|];
    var ext3 := Overwrite(ext2, o + 5, name);
    OverwriteAt(ext2, o + 5, name);
    assert ext3[o..o + 4] == ext1[o..o + 4];
    assert ext3[o + 5..o + 5 + |name|] == name;
  }

  lemma HeaderPrefix(ext: seq<u8>, o: int, prev: u32, len: u8, name: seq<u8>, n: nat)
    requires HeaderAt(ext, o, prev, len, name) && n <= |name|
    ensures HeaderAt(ext, o, prev, len, name[..n])
  {
    assert ext[o + 5..o + 5 + n] == ext[o + 5..o + 5 + |name|][..n];
  }

  /** What adding a word writes: the header at the frontier, and nothing else. */
  lemma AddWordWrites(m: Machine, name: seq<u8>)
    requires m.Valid() && RoomFor(m, |name|) && |name| <= FORTH_MAX_WORD_LEN
    ensures var m' := m.(mem := m.mem.(ext := PutHeader(m.mem.ext, m.here - EXT_BASE, m.latest, name)),
                         latest := m.here, here := Round4(m.here + 5 + |name|));
            AddWord(m, name) == Success(m') && m'.Valid() && m'.here % 4 == 0
  {
    hide Wrap, AlignUp, RingStore, Put32, Overwrite;
    var n := |name|;
    assert name[..n] == name;
    WrapIs(m.here + 4, 0);
    WrapIs(m.here + 5, 0);
    WrapIs(m.here + 5 + n, 0);
    Round4Bounds(m.here + 5 + n);
    var o := m.here - EXT_BASE;
    var ext2 := Put32(m.mem.ext, o, m.latest)[o + 4 := n];
    RingStoreContiguous(m.mem.(ext := ext2), m.here + 5, name);
  }

  /** What the reader finds in a header. */
  lemma ReadHeaderAt(mem: Memory, addr: u32, prev: u32, len: u8, name: seq<u8>)
    requires mem.Valid() && EXT_BASE <= addr && addr % 4 == 0 && addr + 5 + |name| + 3 <= EXT_BASE + EXT_SIZE
    requires len < 0x80 && len % LEN_MASK_RANGE == |name| && HeaderAt(mem.ext, addr - EXT_BASE, prev, len, name)
    ensures ReadHeader(mem, addr) == Success(Header(prev, false, Entry(addr, name, Round4(addr + 5 + |name|))))
  {
    hide Wrap, AlignUp, LoadBytes;
    var n := |name|;
    WrapIs(addr + 4, 0);
    WrapIs(addr + 5, 0);
    WrapIs(addr + 5 + n, 0);
    LoadBytesAt(mem, addr + 5, n);
    Round4Bounds(addr + 5 + n);
  }

  /** What the walker makes of the header of a name: it takes the length modulo 32. */
  function Shown(addr: u32, name: seq<u8>): (e: Entry)
    ensures e.addr == addr && |e.name| < LEN_MASK_RANGE && e.name <= Stored(name)
  {
    var read := Stored(name)[..|Stored(name)| % LEN_MASK_RANGE];
    Entry(addr, read, AlignUp(Wrap(addr + 5 + |read|)))
  }

  /** A name of any length: the header is written and reads as shown. */
  lemma AddWordReads(m: Machine, name: seq<u8>)
    requires m.Valid() && RoomFor(m, |Stored(name)|)
    ensures var m' := m.(mem := m.mem.(ext := PutHeader(m.mem.ext, m.here - EXT_BASE, m.latest, Stored(name))),
                         latest := m.here, here := Round4(m.here + 5 + |Stored(name)|));
            && AddWord(m, name) == Success(m') && m'.Valid() && m'.here % 4 == 0
            && HeaderAt(m'.mem.ext, m.here - EXT_BASE, m.latest, |Stored(name)|, Shown(m.here, name).name)
            && ReadHeader(m'.mem, m'.latest) == Success(Header(m.latest, false, Shown(m.here, name)))
  {
    hide ReadHeader, PutHeader, HeaderAt, Stored, Wrap, AlignUp;
    var stored, o := Stored(name), m.here - EXT_BASE;
    var read := Shown(m.here, name).name;
    SameWord(m, name);
    hide AddWord;
    AddWordWrites(m, stored);
    PutHeaderAt(m.mem.ext, o, m.latest, stored);
    HeaderPrefix(AddWord(m, name).value.mem.ext, o, m.latest, |stored|, stored, |read|);
    WrapIs(m.here + 5 + |read|, 0);
    Round4Bounds(m.here + 5 + |read|);
    ReadHeaderAt(AddWord(m, name).value.mem, m.here, m.latest, |stored|, read);
  }

  /** What is shown is the name defined and its body if and only if the name has at most
      31 bytes. */
  lemma ShownExactly(addr: u32, name: seq<u8>, body: u32)
    requires body == Round4(addr + 5 + |Stored(name)|) && addr + 5 + FORTH_MAX_WORD_LEN + 3 < 0x1_0000_0000
    ensures Shown(addr, name) == Entry(addr, name, body) <==> |name| < LEN_MASK_RANGE
  {
    hide Wrap, AlignUp;
    WrapIs(addr + 5 + |Shown(addr, name).name|, 0);
    Round4Bounds(addr + 5 + |Shown(addr, name).name|);
    if |name| < LEN_MASK_RANGE {
      assert Shown(addr, name).name == name;
    }
  }

  /** The walker reads back the name and the body address that dict_add_word left if
      and only if the name has at most 31 bytes. */
  lemma ReadBackExactly(m: Machine, name: seq<u8>)
    requires m.Valid() && RoomFor(m, |Stored(name)|)
    ensures AddWord(m, name).Success?
    ensures var m' := AddWord(m, name).value;
            var h := ReadHeader(m'.mem, m'.latest);
            && h.Success? && h.value.prev == m.latest && !h.value.immediate
            && (h.value.entry == Entry(m.here, name, m'.here) <==> |name| <= 31)
  {
    hide ReadHeader, PutHeader, HeaderAt, Stored, Shown, AddWord;
    AddWordReads(m, name);
    ShownExactly(m.here, name, AddWord(m, name).value.here);
  }

  /** Only the first 33 bytes of a name count. */
  lemma SameWord(m: Machine, name: seq<u8>)
    requires m.Valid()
    ensures AddWord(m, name) == AddWord(m, Stored(name))
  {
    hide RingStore, Store32, Store8;
    assert Stored(Stored(name)) == Stored(name);
  }

  /** A name that does not fit before the end of the SPI-RAM is taken as well and goes on
      at its front, where the first header of the heap is. */
  lemma NameWithoutRoom(m: Machine, name: seq<u8>)
    requires m.Valid() && EXT_BASE <= m.here <= EXT_BASE + EXT_SIZE - 8 && m.here % 4 == 0
    ensures AddWord(m, name).Success?
    ensures var room := EXT_BASE + EXT_SIZE - (m.here + 5);
            forall j | 0 <= j < |Stored(name)| - room :: AddWord(m, name).value.mem.ext[j] == name[room + j]
  {
    hide RingStore, Put32;
    WrapIs(m.here + 4, 0);
    WrapIs(m.here + 5, 0);
    var mem1 := Store32(m.mem, m.here, m.latest).value;
    var mem2 := Store8(mem1, Wrap(m.here + 4), |Stored(name)|).value;
    RingStoreWraps(mem2, m.here + 5, Stored(name));
  }

  // ---- every run of definitions and code -------------------------------------

  /** The bytes of the headers of all words. */
  ghost predicate InHeader(words: seq<Entry>, a: int) {
    exists e :: e in words && e.addr <= a < e.addr + 5 + |e.name|
  }

  /** The words so far, latest first, the chain that leads through them, and all of
      them below the frontier. */
  ghost predicate DictInv(m: Machine, words: seq<Entry>) {
    && m.Valid() && EXT_BASE <= m.here && m.here % 4 == 0
    && Linked(m.mem.ext, m.latest, words, m.here)
  }

  /** The headers as they stand in memory, each below the one before it in the list. */
  ghost predicate Linked(ext: seq<u8>, curr: u32, words: seq<Entry>, top: int)
    decreases |words|
  {
    |ext| == EXT_SIZE &&
    if words == [] then curr == 0
    else
      var e := words[0];
      && e.addr == curr && EXT_BASE <= curr && curr % 4 == 0
      && e.body == Round4(curr + 5 + |e.name|) && e.body <= top && curr + 5 + |e.name| + 3 <= EXT_BASE + EXT_SIZE
      && var o := curr - EXT_BASE;
         && ext[o + 4] < 0x80 && ext[o + 4] % LEN_MASK_RANGE == |e.name|
         && HeaderAt(ext, o, Get32(ext, o), ext[o + 4], e.name)
         && Linked(ext, Get32(ext, o), words[1..], curr)
  }

  /** The walker's view of linked headers. */
  lemma {:induction false} LinkedIsChain(mem: Memory, curr: u32, words: seq<Entry>, top: int)
    requires mem.Valid() && Linked(mem.ext, curr, words, top)
    ensures Chain(mem, curr, words)
    decreases |words|
  {
    hide ReadHeader, HeaderAt;
    if words == [] {
    } else {
      var e := words[0];
      var prev := Get32(mem.ext, curr - EXT_BASE);
      ReadHeaderAt(mem, curr, prev, mem.ext[curr - EXT_BASE + 4], e.name);
      LinkedIsChain(mem, prev, words[1..], curr);
      assert prev < curr by {
        if words[1..] != [] {
          Round4Bounds(prev + 5 + |words[1..][0].name|);
        }
      }
    }
  }

  /** Memory may change anywhere but in a header. */
  lemma {:induction false} LinkedFrame(ext: seq<u8>, ext': seq<u8>, curr: u32, words: seq<Entry>, top: int, top': int)
    requires Linked(ext, curr, words, top) && |ext'| == EXT_SIZE && top <= top'
    requires forall i | 0 <= i < EXT_SIZE && InHeader(words, EXT_BASE + i) :: ext'[i] == ext[i]
    ensures Linked(ext', curr, words, top')
    decreases |words|
  {
    if words == [] {
    } else {
      var e, o := words[0], curr - EXT_BASE;
      forall i | o <= i < o + 5 + |e.name|
        ensures ext'[i] == ext[i]
      {
        assert InHeader(words, EXT_BASE + i);
      }
      assert ext'[o..o + 4] == ext[o..o + 4];
      assert ext'[o + 5..o + 5 + |e.name|] == ext[o + 5..o + 5 + |e.name|];
      forall i | 0 <= i < EXT_SIZE && InHeader(words[1..], EXT_BASE + i)
        ensures ext'[i] == ext[i]
      {
        assert InHeader(words, EXT_BASE + i);
      }
      LinkedFrame(ext, ext', Get32(ext, o), words[1..], curr, curr);
    }
  }

  lemma {:induction false} HeadersBelow(ext: seq<u8>, curr: u32, words: seq<Entry>, top: int, a: int)
    requires Linked(ext, curr, words, top) && InHeader(words, a)
    ensures a < top
    decreases |words|
  {
    var e :| e in words && e.addr <= a < e.addr + 5 + |e.name|;
    Round4Bounds(words[0].addr + 5 + |words[0].name|);
    if e != words[0] {
      assert e in words[1..];
      HeadersBelow(ext, Get32(ext, curr - EXT_BASE), words[1..], curr, a);
    }
  }

  /** A definition, or anything else that leaves every header alone and does not move
      the frontier back: code, patches, data, heap traffic. */
  datatype Event = Define(name: seq<u8>, addr: u32, body: u32) | Other(mem: Memory, here: u32)

  ghost predicate Happens(e: Event, m: Machine, words: seq<Entry>, m': Machine, words': seq<Entry>) {
    m.Valid() &&
    match e
    case Define(name, addr, body) =>
      && RoomFor(m, |Stored(name)|)
      && AddWord(m, name) == Success(m') && addr == m.here && body == m'.here
      && words' == [Shown(addr, name)] + words
    case Other(mem, here) =>
      && mem.Valid() && m' == m.(mem := mem, here := here) && words' == words
      && m.here <= here && here % 4 == 0
      && forall i | 0 <= i < EXT_SIZE && InHeader(words, EXT_BASE + i) :: mem.ext[i] == m.mem.ext[i]
  }

  lemma EventKeepsDict(e: Event, m: Machine, words: seq<Entry>, m': Machine, words': seq<Entry>)
    requires DictInv(m, words) && Happens(e, m, words, m', words')
    ensures DictInv(m', words')
  {
    match e
    case Define(name, addr, body) => DefineKeepsDict(name, m, words, m', words');
    case Other(mem, here) => LinkedFrame(m.mem.ext, mem.ext, m.latest, words, m.here, here);
  }

  lemma DefineKeepsDict(name: seq<u8>, m: Machine, words: seq<Entry>, m': Machine, words': seq<Entry>)
    requires DictInv(m, words) && Happens(Define(name, m.here, m'.here), m, words, m', words')
    ensures DictInv(m', words')
  {
    hide AddWord, PutHeader, HeaderAt, Stored, ReadHeader, Wrap, AlignUp, Linked, InHeader;
    AddWordReads(m, name);
    var o, e := m.here - EXT_BASE, Shown(m.here, name);
    PutHeaderAt(m.mem.ext, o, m.latest, Stored(name));
    forall i | 0 <= i < EXT_SIZE && InHeader(words, EXT_BASE + i)
      ensures m'.mem.ext[i] == m.mem.ext[i]
    {
      HeadersBelow(m.mem.ext, m.latest, words, m.here, EXT_BASE + i);
    }
    LinkedFrame(m.mem.ext, m'.mem.ext, m.latest, words, m.here, m.here);
    WrapIs(m.here + 5 + |e.name|, 0);
    Round4Bounds(m.here + 5 + |e.name|);
    LinkedCons(m'.mem.ext, m.latest, words, e, |Stored(name)|, m'.here);
  }

  /** One more header in front of the list. */
  lemma LinkedCons(ext: seq<u8>, prev: u32, words: seq<Entry>, e: Entry, len: u8, top: int)
    requires EXT_BASE <= e.addr && e.addr % 4 == 0 && e.body == Round4(e.addr + 5 + |e.name|) <= top
    requires len < 0x80 && len % LEN_MASK_RANGE == |e.name| && e.addr + 5 + |e.name| + 3 <= EXT_BASE + EXT_SIZE
    requires HeaderAt(ext, e.addr - EXT_BASE, prev, len, e.name) && Linked(ext, prev, words, e.addr)
    ensures Linked(ext, e.addr, [e] + words, top)
  {
    hide HeaderAt;
    HeaderLink(ext, e.addr - EXT_BASE, prev, len, e.name);
    assert ([e] + words)[1..] == words;
  }

  lemma HeaderLink(ext: seq<u8>, o: int, prev: u32, len: u8, name: seq<u8>)
    requires HeaderAt(ext, o, prev, len, name)
    ensures Get32(ext, o) == prev && ext[o + 4] == len
  {
  }

  datatype Moment = Moment(m: Machine, words: seq<Entry>)

  /** A run of events from an empty dictionary. */
  ghost predicate History(es: seq<Event>, run: seq<Moment>) {
    && |run| == |es| + 1
    && run[0].m.Valid() && run[0].m.latest == 0 && run[0].words == []
    && EXT_BASE <= run[0].m.here && run[0].m.here % 4 == 0
    && forall i | 0 <= i < |es| :: Happens(es[i], run[i].m, run[i].words, run[i + 1].m, run[i + 1].words)
  }

  /** What the walker shows of the names defined, latest first. */
  function Defined(es: seq<Event>): seq<Entry> {
    if es == [] then []
    else
      var n := |es| - 1;
      (if es[n].Define? then [Shown(es[n].addr, es[n].name)] else []) + Defined(es[..n])
  }

  /** Over every run of definitions, mixed with any code, the chain from latest_word
      holds exactly the words defined, the latest first, each as Shown, and its links
      descend; a word is shown with its own name and body if and only if the name has
      at most 31 bytes. */
  lemma {:induction false} WalkerAgrees(es: seq<Event>, run: seq<Moment>)
    requires History(es, run)
    ensures var last := run[|es|];
            && DictInv(last.m, last.words) && Chain(last.m.mem, last.m.latest, last.words)
            && last.words == Defined(es)
    ensures forall i | 0 <= i < |es| && es[i].Define? ::
              var e := es[i];
              Shown(e.addr, e.name) == Entry(e.addr, e.name, e.body) <==> |e.name| <= 31
    decreases |es|
  {
    hide Happens, Chain, Linked, Shown;
    var n := |es|;
    if n == 0 {
      EmptyDict(run[0].m);
    } else {
      var es0, run0 := es[..n - 1], run[..n];
      assert History(es0, run0) by {
        forall i | 0 <= i < n - 1
          ensures Happens(es0[i], run0[i].m, run0[i].words, run0[i + 1].m, run0[i + 1].words)
        {
          assert es0[i] == es[i];
        }
      }
      WalkerAgrees(es0, run0);
      var a, b := run[n - 1], run[n - 1 + 1];
      assert Happens(es[n - 1], a.m, a.words, b.m, b.words);
      EventKeepsDict(es[n - 1], a.m, a.words, b.m, b.words);
      EventShown(es[n - 1], a.m, a.words, b.m, b.words);
      assert forall i | 0 <= i < n - 1 :: es0[i] == es[i];
    }
    LinkedIsChain(run[n].m.mem, run[n].m.latest, run[n].words, run[n].m.here);
  }

  lemma EmptyDict(m: Machine)
    requires m.Valid() && m.latest == 0 && EXT_BASE <= m.here && m.here % 4 == 0
    ensures DictInv(m, [])
  {
  }

  lemma EventShown(e: Event, m: Machine, words: seq<Entry>, m': Machine, words': seq<Entry>)
    requires Happens(e, m, words, m', words')
    ensures words' == (if e.Define? then [Shown(e.addr, e.name)] else []) + words
    ensures e.Define? ==> (Shown(e.addr, e.name) == Entry(e.addr, e.name, e.body) <==> |e.name| < LEN_MASK_RANGE)
  {
    hide AddWord, Stored, Shown, PutHeader, HeaderAt, ReadHeader;
    if e.Define? {
      AddWordReads(m, e.name);
      ShownExactly(e.addr, e.name, e.body);
    }
  }

  // ---- the walker -----------------------------------------------------------

  const BODY_DUMP: int := 16

  /** One line of the snapshot: the word and the first bytes of its body. */
  datatype Line = Line(entry: Entry, code: seq<u8>)

  /** The lines for a chain of words; a body too close to the end of the memory ends the
      process. */
  function Listing(mem: Memory, words: seq<Entry>): (r: Result<seq<Line>>)
    requires mem.Valid()
    ensures r.Success? ==> |r.value| == |words| && forall i | 0 <= i < |words| :: r.value[i].entry == words[i]
  {
    if words == [] then Success([])
    else
      var code :- LoadBytes(mem, words[0].body, BODY_DUMP);
      var rest :- Listing(mem, words[1..]);
      Success([Line(words[0], code)] + rest)
  }

  lemma DumpFits(mem: Memory, body: u32)
    requires mem.Valid() && EXT_BASE <= body <= EXT_BASE + EXT_SIZE
    ensures LoadBytes(mem, body, BODY_DUMP).Success? <==> body + BODY_DUMP <= EXT_BASE + EXT_SIZE
  {
    if body + BODY_DUMP <= EXT_BASE + EXT_SIZE {
      LoadBytesAt(mem, body, BODY_DUMP);
    } else {
      var n := EXT_BASE + EXT_SIZE - body;
      WrapIs(body + n, 0);
      assert LoadBytes(mem, body, n + 1).Failure?;
      if LoadBytes(mem, body, BODY_DUMP).Success? {
        LoadsPrefix(mem, body, n + 1, BODY_DUMP);
      }
    }
  }

  /** Over every dictionary the walker completes its listing if and only if the body of
      the latest word has its 16 bytes inside the SPI-RAM. */
  lemma {:induction false} WalkerCompletes(mem: Memory, curr: u32, words: seq<Entry>, top: int)
    requires mem.Valid() && Linked(mem.ext, curr, words, top) && top <= EXT_BASE + EXT_SIZE
    ensures Listing(mem, words).Success? <==> words == [] || words[0].body + BODY_DUMP <= EXT_BASE + EXT_SIZE
    decreases |words|
  {
    hide LoadBytes, HeaderAt;
    if words == [] {
    } else {
      var e := words[0];
      Round4Bounds(e.addr + 5 + |e.name|);
      DumpFits(mem, e.body);
      WalkerCompletes(mem, Get32(mem.ext, curr - EXT_BASE), words[1..], curr);
    }
  }

  /** A first word with a short name in the last 12 bytes of the SPI-RAM is such a case:
      dict_add_word takes it, and the walker ends the process. */
  lemma WalkerCutShort(m: Machine, name: seq<u8>) returns (m': Machine, e: Entry)
    requires m.Valid() && m.latest == 0 && m.here == EXT_BASE + EXT_SIZE - 12 && |name| <= 3
    ensures History([Define(name, m.here, m'.here)], [Moment(m, []), Moment(m', [e])])
    ensures e.name == name && Chain(m'.mem, m'.latest, [e]) && Listing(m'.mem, [e]).Failure?
  {
    m', e := LateWord(m, name);
    hide Happens, Chain, LoadBytes, Listing;
    var es, run := [Define(name, m.here, m'.here)], [Moment(m, []), Moment(m', [e])];
    assert Happens(es[0], run[0].m, run[0].words, run[1].m, run[1].words);
    assert History(es, run);
    WalkerAgrees(es, run);
    CutShort(m'.mem, e);
  }

  lemma LateWord(m: Machine, name: seq<u8>) returns (m': Machine, e: Entry)
    requires m.Valid() && m.latest == 0 && m.here == EXT_BASE + EXT_SIZE - 12 && |name| <= 3
    ensures Happens(Define(name, m.here, m'.here), m, [], m', [e]) && m'.mem.Valid()
    ensures e.name == name && e.body == EXT_BASE + EXT_SIZE - 4
  {
    hide PutHeader, HeaderAt, ReadHeader, Wrap, AlignUp;
    assert Stored(name) == name;
    AddWordReads(m, name);
    ShownExactly(m.here, name, EXT_BASE + EXT_SIZE - 4);
    hide AddWord, Shown;
    m', e := AddWord(m, name).value, Shown(m.here, name);
    assert [e] == [e] + [];
  }

  lemma CutShort(mem: Memory, e: Entry)
    requires mem.Valid() && EXT_BASE <= e.body <= EXT_BASE + EXT_SIZE < e.body + BODY_DUMP
    ensures Listing(mem, [e]).Failure?
  {
    hide LoadBytes;
    DumpFits(mem, e.body);
  }

  /** The loop of the snapshot walker. */
  method WalkDictionary(bus: Bus, latest: u32, ghost words: seq<Entry>) returns (r: Result<seq<Line>>)
    requires bus.Valid() && Chain(bus.Contents(), latest, words)
    ensures r == Listing(bus.Contents(), words)
  {
    hide ReadHeader, LoadBytes;
    var lines: seq<Line> := [];
    var currWord := latest;
    ghost var rest := words;
    ghost var all := Listing(bus.Contents(), words);
    assert all.Success? ==> lines + all.value == all.value;
    while currWord != 0
      invariant Chain(bus.Contents(), currWord, rest)
      invariant Listing(bus.Contents(), words)
             == match Listing(bus.Contents(), rest)
                case Success(more) => Success(lines + more)
                case Failure(f) => Failure(f)
      decreases currWord
    {
      var e, prev := ReadEntry(bus, currWord);
      var code := DumpBody(bus, e.body);
      if code.Failure? {
        return code.PropagateFailure();
      }
      assert rest == [e] + rest[1..];
      ghost var more := Listing(bus.Contents(), rest[1..]);
      assert more.Success? ==>
          lines + ([Line(e, code.value)] + more.value) == lines + [Line(e, code.value)] + more.value;
      lines := lines + [Line(e, code.value)];
      rest := rest[1..];
      currWord := prev;
    }
    assert lines + [] == lines;
    r := Success(lines);
  }

  method DumpBody(bus: Bus, body: u32) returns (code: Result<seq<u8>>)
    requires bus.Valid()
    ensures code == LoadBytes(bus.Contents(), body, BODY_DUMP)
  {
    var bytes: seq<u8> := [];
    var k: nat := 0;
    while k < BODY_DUMP
      invariant k <= BODY_DUMP
      invariant LoadBytes(bus.Contents(), body, k) == Success(bytes)
    {
      var b := bus.Read8(Wrap(body + k));
      if b.Failure? {
        LoadFaultPersists(bus.Contents(), body, k + 1, BODY_DUMP);
        return b.PropagateFailure();
      }
      bytes := bytes + [b.value];
      k := k + 1;
    }
    code := Success(bytes);
  }

  lemma {:induction false} LoadFaultPersists(m: Memory, addr: u32, n: nat, len: nat)
    requires m.Valid() && n <= len && LoadBytes(m, addr, n).Failure?
    ensures LoadBytes(m, addr, len) == LoadBytes(m, addr, n)
    decreases len
  {
    if n == len {
    } else {
      LoadFaultPersists(m, addr, n, len - 1);
    }
  }

  /** One turn of it. */
  method ReadEntry(bus: Bus, currWord: u32) returns (e: Entry, prev: u32)
    requires bus.Valid() && ReadHeader(bus.Contents(), currWord).Success?
    ensures ReadHeader(bus.Contents(), currWord).value.entry == e
    ensures ReadHeader(bus.Contents(), currWord).value.prev == prev
  {
    var link := bus.Read32(currWord);
    var flagsLen := bus.Read8(Wrap(currWord + 4));
    var wordLen := flagsLen.value % LEN_MASK_RANGE;
    var name := ReadName(bus, Wrap(currWord + 5), wordLen);
    e, prev := Entry(currWord, name, AlignUp(Wrap(currWord + 5 + wordLen))), link.value;
  }

  method ReadName(bus: Bus, addr: u32, wordLen: nat) returns (name: seq<u8>)
    requires bus.Valid() && wordLen < LEN_MASK_RANGE && LoadBytes(bus.Contents(), addr, wordLen).Success?
    ensures LoadBytes(bus.Contents(), addr, wordLen) == Success(name)
  {
    name := [];
    var k := 0;
    while k < wordLen && k < 31
      invariant 0 <= k <= wordLen
      invariant LoadBytes(bus.Contents(), addr, k) == Success(name)
    {
      LoadsPrefix(bus.Contents(), addr, k + 1, wordLen);
      var b := bus.Read8(Wrap(addr + k));
      name := name + [b.value];
      k := k + 1;
    }
  }

  lemma {:induction false} LoadsPrefix(m: Memory, addr: u32, n: nat, len: nat)
    requires m.Valid() && n <= len && LoadBytes(m, addr, len).Success?
    ensures LoadBytes(m, addr, n).Success?
    decreases len
  {
    if n == len {
    } else {
      LoadsPrefix(m, addr, n, len - 1);
    }
  }
}
