/** The test server's register map, and the client that finds its way through such a map over a link
    that may fail. */
module DeviceWalk {
  import opened ByteBuffer

  type Word = x: int | 0 <= x < 0x10000 witness 0

  const SUNS_ID_HIGH: Word := 0x5375
  const SUNS_ID_LOW: Word := 0x6e53

  // ---- bytes and registers ----

  /** Registers in modbus byte order. */
  function Bytes(ws: seq<Word>): (b: seq<Byte>)
    ensures |b| == 2 * |ws|
  {
    if ws == [] then [] else Bytes(ws[..|ws| - 1]) + [ws[|ws| - 1] / 256, ws[|ws| - 1] % 256]
  }

  function PairOf(hi: Byte, lo: Byte): Word {
    hi as int * 256 + lo as int
  }

  /** Bytes as registers. */
  function Words(b: seq<Byte>): (ws: seq<Word>)
    requires |b| % 2 == 0
    ensures |ws| == |b| / 2
  {
    if b == [] then [] else Words(b[..|b| - 2]) + [PairOf(b[|b| - 2], b[|b| - 1])]
  }

  /** The first of two bytes is the high one. */
  lemma {:induction false} WordAt(b: seq<Byte>, i: nat)
    requires |b| % 2 == 0 && 2 * i < |b|
    ensures Words(b)[i] == 0x100 * b[2 * i] as int + b[2 * i + 1] as int
  {
    if 2 * i < |b| - 2 { WordAt(b[..|b| - 2], i); }
  }

  lemma {:induction false} ByteAt(ws: seq<Word>, i: nat)
    requires i < |ws|
    ensures Bytes(ws)[2 * i] == ws[i] / 0x100 && Bytes(ws)[2 * i + 1] == ws[i] % 0x100
  {
    if i < |ws| - 1 { ByteAt(ws[..|ws| - 1], i); }
  }

  lemma WordsStep(b: seq<Byte>)
    requires |b| % 2 == 0 && b != []
    ensures |b| >= 2 && |Words(b)| > 0 && Words(b)[..|Words(b)| - 1] == Words(b[..|b| - 2])
    ensures Words(b)[|Words(b)| - 1] / 256 == b[|b| - 2] && Words(b)[|Words(b)| - 1] % 256 == b[|b| - 1]
  {}

  lemma BytesStep(ws: seq<Word>)
    requires ws != []
    ensures Bytes(ws) == Bytes(ws[..|ws| - 1]) + [ws[|ws| - 1] / 256, ws[|ws| - 1] % 256]
  {}

  lemma NoBytes()
    ensures Words([]) == [] && Bytes([]) == []
  {}

  lemma {:induction false} BytesOfWords(b: seq<Byte>)
    requires |b| % 2 == 0
    ensures Bytes(Words(b)) == b
  {
    hide *;
    if b == [] {
      NoBytes();
    } else {
      var n := |b| - 2;
      BytesOfWords(b[..n]);
      WordsStep(b);
      BytesStep(Words(b));
    }
  }

  /** suns_app_swap_registers */
  method SwapRegisters(regs: array<Word>, n: nat, buf: array<Byte>)
    requires n <= regs.Length && 2 * n <= buf.Length
    modifies buf
    ensures buf[..2 * n] == Bytes(regs[..n])
    ensures forall k :: 0 <= k < n ==> buf[2 * k] == regs[k] / 0x100 && buf[2 * k + 1] == regs[k] % 0x100
  {
    for i := 0 to n
      invariant buf[..2 * i] == Bytes(regs[..i])
      invariant forall k :: 0 <= k < i ==> buf[2 * k] == regs[k] / 0x100 && buf[2 * k + 1] == regs[k] % 0x100
    {
      buf[2 * i] := regs[i] / 256;
      buf[2 * i + 1] := regs[i] % 256;
      assert regs[..i + 1][..i] == regs[..i];
      assert buf[..2 * i + 2] == buf[..2 * i] + [regs[i] / 256, regs[i] % 256];
    }
  }

  // ---- the link ----

  /** A modbus device behind a link. Request number k gets no answer when fails(k). */
  class Link {
    const mem: seq<Word>
    const fails: nat -> bool
    var clock: nat

    constructor (mem: seq<Word>, fails: nat -> bool)
      ensures this.mem == mem && this.fails == fails
    {
      this.mem, this.fails := mem, fails;
      clock := 0;
    }

    /** modbus_read_registers: at most 125 registers, into regs from position at on */
    method ReadRegisters(addr: nat, n: nat, regs: array<Word>, at: nat) returns (rc: int, illegal: bool)
      requires 1 <= n <= 125 && at + n <= regs.Length
      modifies `clock, regs
      ensures clock == old(clock) + 1
      ensures illegal <==> !fails(old(clock)) && addr + n > |mem|
      ensures rc == if fails(old(clock)) || addr + n > |mem| then -1 else n
      ensures rc < 0 ==> regs[..] == old(regs[..])
      ensures rc >= 0 ==> addr + n <= |mem| && regs[..] == old(regs[..at]) + mem[addr..addr + n] + old(regs[at + n..])
    {
      var failed := fails(clock);
      clock := clock + 1;
      if failed {
        return -1, false;
      }
      if addr + n > |mem| {
        return -1, true;
      }
      for i := 0 to n
        invariant forall k :: at <= k < at + i ==> regs[k] == mem[addr + k - at]
        invariant forall k :: (0 <= k < at || at + i <= k < regs.Length) ==> regs[k] == old(regs[k])
        modifies regs
      {
        regs[at + i] := mem[addr + i];
      }
      rc, illegal := n, false;
    }
  }

  /** One of r requests from number k on is answered. */
  predicate Answered(fails: nat -> bool, k: nat, r: nat)
    decreases r
  {
    r > 0 && (!fails(k) || Answered(fails, k + 1, r - 1))
  }

  /** There are never `retries` failures in a row. */
  ghost predicate Bearable(fails: nat -> bool, retries: nat) {
    forall k: nat :: Answered(fails, k, retries)
  }

  lemma {:induction false} AnsweredMeans(fails: nat -> bool, k: nat, r: nat)
    ensures Answered(fails, k, r) <==> exists i: nat :: k <= i < k + r && !fails(i)
    decreases r
  {
    if r > 0 { AnsweredMeans(fails, k + 1, r - 1); }
  }

  /** A read with retries. giveUp: an illegal address ends it at once. */
  method ReadRetry(link: Link, retries: nat, giveUp: bool, addr: nat, n: nat, regs: array<Word>, at: nat)
    returns (rc: int)
    requires Bearable(link.fails, retries) && 1 <= n <= 125 && at + n <= regs.Length
    modifies link`clock, regs
    ensures rc == if addr + n <= |link.mem| then n else -1
    ensures rc >= 0 ==> regs[..] == old(regs[..at]) + link.mem[addr..addr + n] + old(regs[at + n..])
    ensures rc < 0 ==> regs[..] == old(regs[..])
    ensures old(link.clock) <= link.clock <= old(link.clock) + retries
  {
    rc := -1;
    var tries := 0;
    while tries < retries && rc < 0
      invariant 0 <= tries <= retries && link.clock == old(link.clock) + tries
      invariant rc < 0 ==> rc == -1 && regs[..] == old(regs[..])
      invariant rc < 0 && addr + n <= |link.mem| ==> Answered(link.fails, link.clock, retries - tries)
      invariant rc >= 0 ==> rc == n && addr + n <= |link.mem|
                            && regs[..] == old(regs[..at]) + link.mem[addr..addr + n] + old(regs[at + n..])
      decreases retries - tries
    {
      var illegal;
      rc, illegal := link.ReadRegisters(addr, n, regs, at);
      tries := tries + 1;
      if rc < 0 && giveUp && illegal {
        return;
      }
    }
  }

  /** suns_app_read_registers: reads of at most maxRead registers */
  method ReadRegisters(link: Link, retries: nat, maxRead: nat, start: nat, len: nat, regs: array<Word>)
    returns (rc: int)
    requires Bearable(link.fails, retries) && 1 <= maxRead <= 125 && len <= regs.Length
    modifies link`clock, regs
    ensures rc >= 0 <==> len == 0 || start + len <= |link.mem|
    ensures rc >= 0 && len > 0 ==> regs[..len] == link.mem[start..start + len]
  {
    hide Bearable;
    rc := 0;
    var regOffset := 0;
    while regOffset < len
      invariant 0 <= regOffset <= len && rc >= 0
      invariant regOffset > 0 ==>
                  start + regOffset <= |link.mem| && regs[..regOffset] == link.mem[start..start + regOffset]
      decreases len - regOffset
    {
      var readLen := if len - regOffset < maxRead then len - regOffset else maxRead;
      ghost var was := regs[..];
      rc := ReadRetry(link, retries, false, start + regOffset, readLen, regs, regOffset);
      if rc < 0 {
        return -1;
      }
      assert regs[..regOffset] == was[..regOffset];
      assert regs[..regOffset + readLen]
          == regs[..regOffset] + link.mem[start + regOffset..start + regOffset + readLen];
      regOffset := regOffset + readLen;
    }
  }

  // ---- the walk ----

  /** How a walk ends: at the end marker, at a did of zero, or at a read that fails. */
  datatype End = Marker | Zero | Unreadable

  datatype Tour = Tour(blocks: seq<seq<Word>>, end: End)

  predicate IsMarker(did: Word, len: Word) {
    did == 0xFFFF && len == 0
  }

  /** The blocks in memory from an address on: each starts with its did and its length. */
  function Walk(mem: seq<Word>, at: nat): Tour
    decreases |mem| - at
  {
    if at + 2 > |mem| then Tour([], Unreadable)
    else if IsMarker(mem[at], mem[at + 1]) then Tour([], Marker)
    else if mem[at] == 0 then Tour([], Zero)
    else
      var next := at + mem[at + 1] + 2;
      if next > |mem| then Tour([], Unreadable)
      else var t := Walk(mem, next); t.(blocks := [mem[at..next]] + t.blocks)
  }

  const REGS := 1024

  /** No block on the way is larger than the client's register array. */
  predicate SmallBlocks(mem: seq<Word>, at: nat)
    decreases |mem| - at
  {
    at + 2 > |mem| || IsMarker(mem[at], mem[at + 1]) || mem[at] == 0
    || (mem[at + 1] + 2 <= REGS && (at + mem[at + 1] + 2 <= |mem| ==> SmallBlocks(mem, at + mem[at + 1] + 2)))
  }

  const SEARCH_REGISTERS: seq<nat> := [40001, 1, 50001, 0x40001]

  predicate SignatureAt(mem: seq<Word>, at: nat) {
    at + 2 <= |mem| && mem[at] == SUNS_ID_HIGH && mem[at + 1] == SUNS_ID_LOW
  }

  /** The first of the search registers, from number i on, that holds the signature; or 0. */
  function Base(mem: seq<Word>, i: nat): nat
    requires i <= |SEARCH_REGISTERS|
    decreases |SEARCH_REGISTERS| - i
  {
    if i == |SEARCH_REGISTERS| then 0
    else if SignatureAt(mem, SEARCH_REGISTERS[i] - 1) then SEARCH_REGISTERS[i]
    else Base(mem, i + 1)
  }

  /** Register r, counted from 1, and the one behind it hold "SunS". */
  predicate Signed(mem: seq<Word>, r: nat) {
    1 <= r < |mem| && mem[r - 1] == 0x5375 && mem[r] == 0x6E53
  }

  /** The four places, and the order in which they are tried. */
  lemma BaseIs(mem: seq<Word>)
    ensures Base(mem, 0) == if Signed(mem, 40001) then 40001 else if Signed(mem, 1) then 1
                            else if Signed(mem, 50001) then 50001 else if Signed(mem, 0x40001) then 0x40001 else 0
  {
    assert Base(mem, 4) == 0;
    assert Base(mem, 3) == if Signed(mem, 0x40001) then 0x40001 else 0;
    assert Base(mem, 2) == if Signed(mem, 50001) then 50001 else Base(mem, 3);
    assert Base(mem, 1) == if Signed(mem, 1) then 1 else Base(mem, 2);
  }

  /** the search for the signature at the start of suns_app_read_device */
  method FindBase(link: Link, retries: nat, regs: array<Word>) returns (base: nat)
    requires Bearable(link.fails, retries) && regs.Length == REGS
    modifies link`clock, regs
    ensures base == Base(link.mem, 0)
    ensures base in {40001, 1, 50001, 0x40001, 0}
    ensures base > 0 <==> exists r :: r in {40001, 1, 50001, 0x40001} && Signed(link.mem, r)
    ensures base == 1 ==> !Signed(link.mem, 40001)
    ensures base == 50001 ==> !Signed(link.mem, 40001) && !Signed(link.mem, 1)
    ensures base == 0x40001 ==> !Signed(link.mem, 40001) && !Signed(link.mem, 1) && !Signed(link.mem, 50001)
    ensures base > 0 ==> Signed(link.mem, base)
  {
    BaseIs(link.mem);
    hide Bearable;
    for i := 0 to |SEARCH_REGISTERS|
      invariant Base(link.mem, i) == Base(link.mem, 0)
    {
      var rc := ReadRetry(link, retries, true, SEARCH_REGISTERS[i] - 1, 2, regs, 0);
      if rc >= 0 && regs[0] == SUNS_ID_HIGH && regs[1] == SUNS_ID_LOW {
        return SEARCH_REGISTERS[i];
      }
    }
    base := 0;
  }

  /** the read of a did and a length */
  method ReadHeader(link: Link, retries: nat, at: nat, regs: array<Word>) returns (rc: int)
    requires Bearable(link.fails, retries) && regs.Length == REGS
    modifies link`clock, regs
    ensures rc >= 0 <==> at + 2 <= |link.mem|
    ensures rc >= 0 ==> regs[0] == link.mem[at] && regs[1] == link.mem[at + 1]
  {
    hide Bearable;
    rc := ReadRetry(link, retries, false, at, 2, regs, 0);
  }

  /** the read of a whole block, and its bytes in modbus order */
  method ReadBlock(link: Link, retries: nat, maxRead: nat, at: nat, len: nat, regs: array<Word>, buf: array<Byte>)
    returns (rc: int, blob: seq<Byte>)
    requires Bearable(link.fails, retries) && 1 <= maxRead <= 125
    requires regs.Length == REGS && buf.Length == 2 * REGS && len + 2 <= REGS
    modifies link`clock, regs, buf
    ensures rc >= 0 <==> at + len + 2 <= |link.mem|
    ensures rc >= 0 ==> blob == Bytes(link.mem[at..at + len + 2])
  {
    hide Bearable;
    blob := [];
    rc := ReadRegisters(link, retries, maxRead, at, len + 2, regs);
    if rc < 0 {
      return;
    }
    SwapRegisters(regs, len + 2, buf);
    blob := buf[..2 * (len + 2)];
  }

  /** The first block is the common model, and the client knows it. */
  predicate CommonFirst(blocks: seq<seq<Word>>, dids: set<Word>) {
    blocks != [] && blocks[0] != [] && blocks[0][0] == 1 && 1 in dids
  }

  function AllBytes(blocks: seq<seq<Word>>): (r: seq<seq<Byte>>)
    ensures |r| == |blocks| && forall i :: 0 <= i < |r| ==> r[i] == Bytes(blocks[i])
  {
    seq(|blocks|, i requires 0 <= i < |blocks| => Bytes(blocks[i]))
  }

  lemma OneMore(blocks: seq<seq<Word>>, b: seq<Word>, dids: set<Word>)
    requires b != []
    ensures AllBytes(blocks + [b]) == AllBytes(blocks) + [Bytes(b)]
    ensures CommonFirst(blocks + [b], dids) <==> CommonFirst(blocks, dids) || (blocks == [] && b[0] == 1 && 1 in dids)
  {}

  /** One step of a walk. */
  lemma WalkStep(mem: seq<Word>, at: nat)
    requires at + 2 <= |mem| && SmallBlocks(mem, at) && !IsMarker(mem[at], mem[at + 1]) && mem[at] != 0
    ensures mem[at + 1] + 2 <= REGS
    ensures var next := at + mem[at + 1] + 2;
            if next > |mem| then Walk(mem, at) == Tour([], Unreadable)
            else
              && SmallBlocks(mem, next)
              && Walk(mem, at) == Walk(mem, next).(blocks := [mem[at..next]] + Walk(mem, next).blocks)
  {}

  lemma WalkEnds(mem: seq<Word>, at: nat)
    ensures at + 2 > |mem| ==> Walk(mem, at) == Tour([], Unreadable)
    ensures at + 2 <= |mem| && IsMarker(mem[at], mem[at + 1]) ==> Walk(mem, at) == Tour([], Marker)
    ensures at + 2 <= |mem| && !IsMarker(mem[at], mem[at + 1]) && mem[at] == 0 ==> Walk(mem, at) == Tour([], Zero)
  {}

  /** What a walk sees: blocks one behind the other, each as long as its second register says; and what stops it. */
  lemma {:induction false} WalkIs(mem: seq<Word>, at: nat)
    requires at <= |mem|
    ensures var t := Walk(mem, at);
            var p := at + |Concat(t.blocks)|;
            && p <= |mem| && mem[at..p] == Concat(t.blocks)
            && (forall b :: b in t.blocks ==> |b| >= 2 && |b| == 2 + b[1] && b[0] != 0 && (b[0] != 0xFFFF || b[1] != 0))
            && Stops(mem, p, t.end)
    decreases |mem| - at
  {
    hide *;
    NoneConcat();
    if Going(mem, at) {
      WalkOn(mem, at);
      var next := at + mem[at + 1] + 2;
      WalkIs(mem, next);
      OnConcat(mem[at..next], Walk(mem, next).blocks, mem, at);
    } else {
      WalkStops(mem, at);
    }
  }

  /** A whole block stands at this address. */
  predicate Going(mem: seq<Word>, at: nat) {
    at + 2 <= |mem| && mem[at] != 0 && (mem[at] != 0xFFFF || mem[at + 1] != 0) && at + mem[at + 1] + 2 <= |mem|
  }

  predicate Stops(mem: seq<Word>, p: nat, end: End) {
    && (end == Marker <==> p + 2 <= |mem| && mem[p] == 0xFFFF && mem[p + 1] == 0)
    && (end == Zero <==> p + 2 <= |mem| && mem[p] == 0)
    && (end == Unreadable ==> p + 2 > |mem| || p + 2 + mem[p + 1] > |mem|)
  }

  lemma NoneConcat()
    ensures Concat([]) == []
  {}

  lemma WalkOn(mem: seq<Word>, at: nat)
    requires Going(mem, at)
    ensures at + 2 <= |mem|
    ensures var next := at + mem[at + 1] + 2;
            && next <= |mem| && mem[at] != 0 && (mem[at] != 0xFFFF || mem[at + 1] != 0)
            && Walk(mem, at) == Walk(mem, next).(blocks := [mem[at..next]] + Walk(mem, next).blocks)
  {}

  lemma WalkStops(mem: seq<Word>, at: nat)
    requires !Going(mem, at)
    ensures Walk(mem, at).blocks == [] && Stops(mem, at, Walk(mem, at).end)
  {}

  lemma OnConcat(b: seq<Word>, bs: seq<seq<Word>>, mem: seq<Word>, at: nat)
    requires at + |b| + |Concat(bs)| <= |mem| && mem[at..at + |b|] == b
    requires mem[at + |b|..at + |b| + |Concat(bs)|] == Concat(bs)
    ensures Concat([b] + bs) == b + Concat(bs) && mem[at..at + |b| + |Concat(bs)|] == Concat([b] + bs)
  {
    assert ([b] + bs)[1..] == bs;
  }

  /** The common model in front shows in the first two bytes that are handed on. */
  lemma CommonShows(mem: seq<Word>, at: nat, dids: set<Word>)
    requires at <= |mem|
    ensures var blocks := Walk(mem, at).blocks;
            CommonFirst(blocks, dids) <==> |blocks| > 0 && |AllBytes(blocks)[0]| >= 2
                                           && AllBytes(blocks)[0][0] == 0 && AllBytes(blocks)[0][1] == 1 && 1 in dids
  {
    WalkIs(mem, at);
    var blocks := Walk(mem, at).blocks;
    hide Walk;
    if blocks != [] {
      assert blocks[0] in blocks;
      ByteAt(blocks[0], 0);
    }
  }

  lemma BaseHolds(mem: seq<Word>, i: nat)
    requires i <= |SEARCH_REGISTERS|
    ensures Base(mem, i) > 0 ==> SignatureAt(mem, Base(mem, i) - 1)
    decreases |SEARCH_REGISTERS| - i
  {}

  /** suns_app_read_device: what it returns, and the bytes of the blocks it hands on. */
  method ReadDevice(link: Link, retries: nat, maxRead: nat, dids: set<Word>) returns (rc: int, blobs: seq<seq<Byte>>)
    requires Bearable(link.fails, retries) && 1 <= maxRead <= 125
    requires Base(link.mem, 0) > 0 ==> SmallBlocks(link.mem, Base(link.mem, 0) + 1)
    modifies link`clock
    ensures Base(link.mem, 0) == 0 ==> rc == -1 && blobs == []
    ensures Base(link.mem, 0) > 0 ==>
              var tour := Walk(link.mem, Base(link.mem, 0) + 1);
              && blobs == AllBytes(tour.blocks)
              && rc == if tour.end == Marker && CommonFirst(tour.blocks, dids) then 0 else -1
  {
    hide Bearable, Base, Walk, SmallBlocks, AllBytes, Bytes, CommonFirst, Toured;
    blobs := [];
    var regs := new Word[REGS];
    var buf := new Byte[2 * REGS];
    var base := FindBase(link, retries, regs);
    if base == 0 {
      return -1, blobs;
    }
    BaseHolds(link.mem, 0);
    var offset := 2;
    var common, commonFirst, endMarker, count := false, false, false, 0;
    ghost var seen := [];
    NoneSeen(dids);
    NoneToured(link.mem, base + 1);
    while true
      invariant offset >= 2 && base + offset - 1 <= |link.mem| && !endMarker && SmallBlocks(link.mem, base + offset - 1)
      invariant blobs == AllBytes(seen) && count == |seen|
      invariant (commonFirst <==> CommonFirst(seen, dids)) && (commonFirst ==> common)
      invariant Toured(link.mem, base + 1, seen, base + offset - 1)
      decreases |link.mem| - offset
    {
      var at := base + offset - 1;
      TourEnds(link.mem, base + 1, seen, at);
      rc := ReadHeader(link, retries, at, regs);
      if rc < 0 {
        rc := -1;
        break;
      }
      count := count + 1;
      if regs[0] == 0xFFFF && regs[1] == 0 {
        endMarker := true;
        rc := 0;
        break;
      }
      if regs[0] == 0 {
        rc := -1;
        break;
      }
      TourStep(link.mem, base + 1, seen, at);
      var did, len := regs[0], regs[1];
      if did in dids && did == 1 {
        common := true;
        if count == 1 {
          commonFirst := true;
        }
      }
      var blob;
      rc, blob := ReadBlock(link, retries, maxRead, at, len, regs, buf);
      if rc < 0 {
        rc := -1;
        break;
      }
      blobs := blobs + [blob];
      ghost var next := at + len + 2;
      OneMore(seen, link.mem[at..next], dids);
      seen := seen + [link.mem[at..next]];
      offset := offset + len + 2;
    }
    if !common {
      rc := -1;
    }
    if common && !commonFirst {
      rc := -1;
    }
    if !endMarker {
      rc := -1;
    }
  }

  /** A walk from start has seen these blocks and goes on at another address. */
  predicate Toured(mem: seq<Word>, start: nat, seen: seq<seq<Word>>, at: nat) {
    Walk(mem, start) == Tour(seen + Walk(mem, at).blocks, Walk(mem, at).end)
  }

  lemma NoneToured(mem: seq<Word>, start: nat)
    ensures Toured(mem, start, [], start)
  {}

  lemma TourEnds(mem: seq<Word>, start: nat, seen: seq<seq<Word>>, at: nat)
    requires Toured(mem, start, seen, at)
    ensures at + 2 > |mem| ==> Walk(mem, start) == Tour(seen, Unreadable)
    ensures at + 2 <= |mem| && IsMarker(mem[at], mem[at + 1]) ==> Walk(mem, start) == Tour(seen, Marker)
    ensures at + 2 <= |mem| && !IsMarker(mem[at], mem[at + 1]) && mem[at] == 0 ==> Walk(mem, start) == Tour(seen, Zero)
  {
    hide Walk;
    WalkEnds(mem, at);
    assert seen + [] == seen;
  }

  lemma TourStep(mem: seq<Word>, start: nat, seen: seq<seq<Word>>, at: nat)
    requires at + 2 <= |mem| && SmallBlocks(mem, at) && !IsMarker(mem[at], mem[at + 1]) && mem[at] != 0
    requires Toured(mem, start, seen, at)
    ensures mem[at + 1] + 2 <= REGS
    ensures var next := at + mem[at + 1] + 2;
            if next > |mem| then Walk(mem, start) == Tour(seen, Unreadable)
            else SmallBlocks(mem, next) && Toured(mem, start, seen + [mem[at..next]], next)
  {
    hide Walk, SmallBlocks;
    WalkStep(mem, at);
    var next := at + mem[at + 1] + 2;
    assert seen + [] == seen;
    if next <= |mem| {
      assert seen + ([mem[at..next]] + Walk(mem, next).blocks) == seen + [mem[at..next]] + Walk(mem, next).blocks;
    }
  }

  lemma NoneSeen(dids: set<Word>)
    ensures AllBytes([]) == [] && !CommonFirst([], dids)
  {}

  // ---- the server ----

  const MAP_SIZE := 4096

  /** A data block as the grammar leaves it: did and length come first, and the length is right. */
  predicate WellFormed(b: seq<Word>) {
    2 <= |b| <= REGS && b[1] == |b| - 2 && b[0] != 0 && !IsMarker(b[0], b[1])
  }

  function Concat(blocks: seq<seq<Word>>): seq<Word> {
    if blocks == [] then [] else blocks[0] + Concat(blocks[1..])
  }

  /** The registers the server fills: signature, blocks, end marker. */
  function Layout(blocks: seq<seq<Word>>): seq<Word> {
    [SUNS_ID_HIGH, SUNS_ID_LOW] + Concat(blocks) + [0xFFFF, 0]
  }

  /** From where the blocks start, a walk visits just these blocks and stops at the marker. */
  lemma {:induction false} WalkVisits(mem: seq<Word>, at: nat, blocks: seq<seq<Word>>)
    requires forall i :: 0 <= i < |blocks| ==> WellFormed(blocks[i])
    requires at <= |mem| && Concat(blocks) + [0xFFFF, 0] <= mem[at..]
    ensures Walk(mem, at) == Tour(blocks, Marker) && SmallBlocks(mem, at)
    decreases |blocks|
  {
    var rest := mem[at..];
    if blocks == [] {
      assert rest[0] == 0xFFFF && rest[1] == 0;
    } else {
      var b, tail := blocks[0], blocks[1..];
      assert Concat(blocks) + [0xFFFF, 0] == b + (Concat(tail) + [0xFFFF, 0]);
      assert rest[0] == b[0] && rest[1] == b[1];
      var next := at + |b|;
      assert mem[next..] == rest[|b|..];
      assert mem[at..next] == b;
      WalkVisits(mem, next, tail);
    }
  }

  lemma LayoutFound(blocks: seq<seq<Word>>, mem: seq<Word>)
    requires forall i :: 0 <= i < |blocks| ==> WellFormed(blocks[i])
    requires |mem| == MAP_SIZE && Layout(blocks) <= mem
    ensures Base(mem, 0) == 1 && SmallBlocks(mem, 2) && Walk(mem, 2) == Tour(blocks, Marker)
  {
    hide Walk, SmallBlocks;
    assert mem[0] == SUNS_ID_HIGH && mem[1] == SUNS_ID_LOW;
    assert Base(mem, 1) == 1;
    var tail := Concat(blocks) + [0xFFFF, 0];
    assert Layout(blocks) == [SUNS_ID_HIGH, SUNS_ID_LOW] + tail;
    assert mem[2..][..|tail|] == tail;
    WalkVisits(mem, 2, blocks);
  }

  /** one data block, copied into the map from position offset on */
  method CopyBlock(data: seq<Byte>, tab: array<Word>, offset: nat) returns (end: nat)
    requires |data| % 2 == 0 && offset + |data| / 2 <= tab.Length
    modifies tab
    ensures end == offset + |data| / 2
    ensures tab[..] == old(tab[..offset]) + Words(data) + old(tab[end..])
  {
    hide Words;
    end := offset;
    var r := 0;
    NoBytes();
    while r < |data|
      invariant 0 <= r <= |data| && r % 2 == 0 && end == offset + r / 2
      invariant tab[..end] == old(tab[..offset]) + Words(data[..r]) && tab[end..] == old(tab[end..])
      decreases |data| - r
    {
      NextWord(data, r);
      tab[end] := PairOf(data[r], data[r + 1]);
      assert tab[..end + 1] == tab[..end] + [PairOf(data[r], data[r + 1])];
      end := end + 1;
      r := r + 2;
    }
    assert data[..r] == data;
  }

  lemma NextWord(data: seq<Byte>, r: nat)
    requires r + 2 <= |data| && r % 2 == 0
    ensures Words(data[..r + 2]) == Words(data[..r]) + [PairOf(data[r], data[r + 1])]
  {
    assert data[..r + 2][..r] == data[..r];
  }

  function AllWords(blocks: seq<seq<Byte>>): (r: seq<seq<Word>>)
    requires forall i :: 0 <= i < |blocks| ==> |blocks[i]| % 2 == 0
    ensures |r| == |blocks| && forall i :: 0 <= i < |r| ==> r[i] == Words(blocks[i])
  {
    seq(|blocks|, i requires 0 <= i < |blocks| => Words(blocks[i]))
  }

  /** the register map of suns_app_test_server */
  method ServerMap(blocks: seq<seq<Byte>>) returns (tab: array<Word>)
    requires forall i :: 0 <= i < |blocks| ==> |blocks[i]| % 2 == 0
    requires |Layout(AllWords(blocks))| <= MAP_SIZE
    ensures fresh(tab) && tab.Length == 4096 && Layout(AllWords(blocks)) <= tab[..]
    ensures var n := 2 + |Concat(AllWords(blocks))|;
            && n + 2 <= 4096 && tab[0] == 0x5375 && tab[1] == 0x6E53 && tab[2..n] == Concat(AllWords(blocks))
            && tab[n] == 0xFFFF && tab[n + 1] == 0
  {
    hide Words, Concat;
    tab := new Word[MAP_SIZE](i => 0);
    tab[0], tab[1] := SUNS_ID_HIGH, SUNS_ID_LOW;
    var offset := 2;
    ghost var words := AllWords(blocks);
    ghost var id := [SUNS_ID_HIGH, SUNS_ID_LOW];
    NoConcat(words);
    for i := 0 to |blocks|
      invariant offset == 2 + |Concat(words[..i])| && |Concat(words[..i])| <= |Concat(words)|
      invariant tab[..offset] == id + Concat(words[..i])
    {
      NextConcat(words, i);
      ghost var was := tab[..offset];
      var end := CopyBlock(blocks[i], tab, offset);
      assert tab[..end] == was + Words(blocks[i]);
      offset := end;
    }
    assert words[..|blocks|] == words;
    tab[offset] := 0xFFFF;
    tab[offset + 1] := 0x0000;
    assert tab[..offset + 2] == id + Concat(words) + [0xFFFF, 0];
  }

  lemma NoConcat(ws: seq<seq<Word>>)
    ensures Concat(ws[..0]) == []
  {}

  lemma {:induction false} ConcatSplit(a: seq<seq<Word>>, b: seq<seq<Word>>)
    ensures Concat(a + b) == Concat(a) + Concat(b)
  {
    if a == [] {
      assert a + b == b;
    } else {
      assert (a + b)[1..] == a[1..] + b;
      ConcatSplit(a[1..], b);
    }
  }

  lemma NextConcat(ws: seq<seq<Word>>, i: nat)
    requires i < |ws|
    ensures Concat(ws[..i + 1]) == Concat(ws[..i]) + ws[i] && |Concat(ws[..i + 1])| <= |Concat(ws)|
  {
    assert ws[..i + 1] == ws[..i] + [ws[i]] && ws == ws[..i + 1] + ws[i + 1..];
    ConcatSplit(ws[..i], [ws[i]]);
    ConcatSplit(ws[..i + 1], ws[i + 1..]);
    assert Concat([ws[i]]) == ws[i] + Concat([]);
  }

  lemma FirstIsCommon(b: seq<Byte>)
    requires |b| % 2 == 0 && WellFormed(Words(b))
    ensures |b| >= 2 && (Words(b)[0] == 1 <==> b[0] == 0 && b[1] == 1)
  {
    WordAt(b, 0);
  }

  /** From end to end: whatever the read limit and the failures, the client gets the server's blocks
      byte for byte, in order, and returns 0 exactly when the first is a common model it knows. */
  method ServeAndRead(blocks: seq<seq<Byte>>, fails: nat -> bool, retries: nat, maxRead: nat, dids: set<Word>)
    returns (rc: int, blobs: seq<seq<Byte>>)
    requires forall i :: 0 <= i < |blocks| ==> |blocks[i]| % 2 == 0 && WellFormed(Words(blocks[i]))
    requires |Layout(AllWords(blocks))| <= MAP_SIZE
    requires Bearable(fails, retries) && 1 <= maxRead <= 125
    ensures blobs == blocks
    ensures rc == if CommonFirst(AllWords(blocks), dids) then 0 else -1
    ensures rc == 0 <==> blocks != [] && |blocks[0]| >= 2 && blocks[0][0] == 0 && blocks[0][1] == 1 && 1 in dids
  {
    hide Words, Layout, Bearable, WellFormed, Walk, SmallBlocks;
    var tab := ServerMap(blocks);
    ghost var words := AllWords(blocks);
    LayoutFound(words, tab[..]);
    var link := new Link(tab[..], fails);
    rc, blobs := ReadDevice(link, retries, maxRead, dids);
    forall i | 0 <= i < |blocks| ensures Bytes(words[i]) == blocks[i] {
      BytesOfWords(blocks[i]);
    }
    assert blobs == blocks;
    if blocks != [] { FirstIsCommon(blocks[0]); }
  }
}
